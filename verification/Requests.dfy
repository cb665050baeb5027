/** The life of a request: accepted from a connection, served through its three streams, finished. */
module Requests {
  import opened Protocol
  import opened NameValue
  import opened GetValues
  import opened Deframer
  import opened Progress
  import opened Environment
  import opened Parameters
  import opened Readers
  import opened Writers
  import opened Openings

  /**
   One try at a connection: the connection, the bytes it had to offer, the ids left over before and after, and whether
   a call failed meanwhile.
   */
  datatype Attempt = Attempt(conn: Connection?, bytes: seq<Byte>, id: Id, left: Id, failed: bool) {
    /** The bytes alone decide what comes of it. */
    ghost predicate Decided() {
      !failed && !Opening(bytes, id).Unclear?
    }

    ghost predicate Opens() {
      Opening(bytes, id).Opens?
    }

    /** A request that has begun leaves its id, also when nothing comes of it. */
    ghost predicate LeavesId() {
      var b := BeginReading(bytes, id);
      !failed && b.content == [] && b.outcome.Begun? ==> left == b.outcome.id
    }

    /** It was made at a connection with this id, and when it failed, so has a call on the connection. */
    ghost predicate Explained(before: Id)
      reads if conn == null then {} else {conn}
    {
      id == before && LeavesId() && conn != null && (failed ==> !conn.ok)
    }
  }

  function Tried(attempts: seq<Attempt>): (conns: seq<Connection?>)
    ensures |conns| == |attempts|
  {
    seq(|attempts|, i requires 0 <= i < |attempts| => attempts[i].conn)
  }

  class Request {
    const shared: Shared
    var input: Reader?
    var output: Writer?
    var errors: Writer?
    var params: Params?
    var ipcFd: Connection?              // null when there is no connection

    var arrivals: seq<seq<Byte>>        // what the connections still to be accepted have to say
    ghost var accepted: seq<Connection?>  // connections accepted, in order
    ghost var closed: seq<Connection?>    // connections closed, in order
    ghost var refusals: seq<nat>          // for each time that none could be accepted, how many had been closed by then

    ghost predicate Idle()
      reads this
    {
      input == null && output == null && errors == null && params == null
    }

    /** Every connection that was ever accepted has been closed, in order and once, but for the one that is open. */
    ghost predicate Accounted()
      reads this
    {
      accepted == closed + if ipcFd == null then [] else [ipcFd]
    }

    constructor (arrivals: seq<seq<Byte>>)
      ensures fresh(shared) && Idle() && ipcFd == null && this.arrivals == arrivals && closed == [] && Accounted()
      ensures refusals == []
      ensures shared.requestId == 0 && !shared.keepConnection && shared.appStatus == 0
    {
      shared := new Shared();
      input, output, errors, params, ipcFd := null, null, null, null, null;
      this.arrivals, accepted, closed, refusals := arrivals, [], [], [];
    }

    /** A request is being served. */
    ghost predicate Active()
      reads this, shared, ipcFd, input, output, errors,
            if output == null then {} else {output.buff}, if errors == null then {} else {errors.buff}
    {
      && input != null && output != null && errors != null && params != null && ipcFd != null
      && output != errors && input.buff != output.buff && input.buff != errors.buff && output.buff != errors.buff
      && input.conn == output.conn == errors.conn == ipcFd
      && input.req == output.req == errors.req == shared
      && input.Bounded() && output.Valid() && errors.Valid()
      && output.typ == STDOUT && errors.typ == STDERR
      && shared.nWriters == (if output.wasFCloseCalled then 0 else 1) + (if errors.wasFCloseCalled then 0 else 1)
    }

    /** Lets the streams and parameters go, and closes the connection if asked to. */
    method Free(close: bool)
      modifies `input, `output, `errors, `params, `ipcFd, `closed
      ensures Idle() && (old(Accounted()) ==> Accounted())
      ensures if close then
                ipcFd == null && closed == old(closed) + (if old(ipcFd) == null then [] else [old(ipcFd)])
              else
                ipcFd == old(ipcFd) && closed == old(closed)
    {
      input, output, errors, params := null, null, null, null;
      if close {
        if ipcFd != null {
          closed := closed + [ipcFd];
        }
        ipcFd := null;
      }
    }

    /** The connection of a request that has been served is kept only as asked, and if no error is on record. */
    ghost predicate Keeps(i: Reader, o: Writer, e: Writer)
      reads shared, i, o, e
    {
      shared.keepConnection && i.errno == 0 && o.errno == 0 && e.errno == 0
    }

    /** Closes the output streams of the request that is being served, and lets go of everything. */
    method FinishActive()
      requires Active() && Accounted()
      modifies this, shared`nWriters, ipcFd, output, errors, output.buff, errors.buff
      ensures Idle() && Accounted() && arrivals == old(arrivals) && accepted == old(accepted) && old(ipcFd).Valid()
      ensures refusals == old(refusals) && old(ipcFd).OnlyWritten()
      ensures ipcFd == if Keeps(old(input), old(output), old(errors)) then old(ipcFd) else null
      ensures closed == old(closed) + if ipcFd == null then [old(ipcFd)] else []
      ensures old(ipcFd).sound ==> old(output).errno == 0 && old(errors).errno == 0
      ensures var conn := old(ipcFd);
        && (old(shared.nWriters) == 0 ==> conn.wire == old(ipcFd.wire))
        && (conn.sound ==> Completed(old(ipcFd.records), conn.records, old(shared.nWriters), shared.requestId, shared.appStatus))
    {
      hide Writer.Valid, Connection.Valid, Completed;
      var code := CloseBoth(errors, output);
      ConnectionOf(errors);
      ConnectionOf(output);
      Free(!shared.keepConnection || code != 0 || input.errno != 0);
    }

    /**
     Finishes the request that is being served, or the connection that is no longer to be kept. Bytes that the reader
     had taken from the connection and not used are lost with it.
     */
    method Finish()
      requires Idle() || Active()
      requires Accounted() && (ipcFd != null ==> ipcFd.Valid())
      modifies this, shared`nWriters, ipcFd, output, errors,
               if output == null then {} else {output.buff}, if errors == null then {} else {errors.buff}
      ensures Idle() && Accounted() && arrivals == old(arrivals) && accepted == old(accepted) && refusals == old(refusals)
      ensures ipcFd != null ==> ipcFd == old(ipcFd) && ipcFd.Valid()
      ensures closed == old(closed) + if ipcFd == null && old(ipcFd) != null then [old(ipcFd)] else []
      ensures old(Idle()) && old(ipcFd) != null ==> unchanged(old(ipcFd)) && (ipcFd != null <==> shared.keepConnection)
      ensures old(Active()) ==>
        && (ipcFd != null <==> Keeps(old(input), old(output), old(errors)))
        && old(ipcFd).Valid() && old(ipcFd).OnlyWritten()
        && (old(ipcFd).sound ==>
              && old(output).errno == 0 && old(errors).errno == 0
              && Completed(old(if ipcFd == null then [] else ipcFd.records), old(ipcFd).records,
                           old(shared.nWriters), shared.requestId, shared.appStatus))
    {
      hide Writer.Valid, Connection.Valid, Completed;
      if input != null {
        FinishActive();
      } else {
        Free(!shared.keepConnection);
      }
    }

    /** Waits for a connection unless one is open; accepting may fail at any time, and only then none is open. */
    method OpenConnection() returns (connected: bool)
      requires Accounted() && (ipcFd != null ==> ipcFd.Valid())
      modifies `ipcFd, `arrivals, `accepted, `refusals
      ensures refusals == old(refusals) + if connected then [] else [|closed|]
      ensures Accounted() && (connected <==> ipcFd != null)
      ensures !connected ==> arrivals == old(arrivals)
      ensures connected ==> ipcFd.Valid()
      ensures old(ipcFd) != null ==> ipcFd == old(ipcFd) && arrivals == old(arrivals)
      ensures accepted == old(accepted) + if old(ipcFd) == null && connected then [ipcFd] else []
      ensures old(ipcFd) == null && connected ==>
        && fresh(ipcFd) && ipcFd.ok && ipcFd.sound && old(arrivals) != []
        && arrivals == old(arrivals)[1..] && ipcFd.input == old(arrivals)[0]
    {
      if ipcFd == null {
        var fails: bool := *;
        if fails || arrivals == [] {
          refusals := refusals + [|closed|];
          return false;
        }
        ipcFd := new Connection(arrivals[0]);
        arrivals := arrivals[1..];
        accepted := accepted + [ipcFd];
      }
      Units(refusals);
      return true;
    }

    /** The request that was asked for, as the application finds it. */
    ghost predicate Got(o: Opened)
      reads this, shared, input, if input == null then {} else {input.buff, input.conn, input.req}, params,
            if params == null then {} else {params.vec}
    {
      && input != null && params != null && params.Valid() && input.Bounded() && shared.isBeginProcessed
      && shared.requestId == o.id && shared.role == o.role && shared.keepConnection == o.keep
      && params.Contents() == [RoleEntry(o.role)] + o.entries
      && (input.conn.ok && o.rest.EndOfStream? ==> input.U().ahead == o.rest.rest && input.errno == 0)
    }

    /** Reads the record that begins a request, of any role that is known. */
    method ReadBegin() returns (begun: bool)
      requires Idle() && ipcFd != null && ipcFd.Valid()
      modifies `input, shared, ipcFd
      ensures input != null && fresh(input) && fresh(input.buff) && input.conn == ipcFd && input.req == shared
      ensures ipcFd.Valid() && input.Bounded() && shared.appStatus == old(shared.appStatus)
      ensures (ipcFd.ok ==> old(ipcFd.ok)) && (ipcFd.sound ==> old(ipcFd.sound))
      ensures begun ==> shared.isBeginProcessed && RESPONDER <= shared.role <= FILTER && input.errno == 0
      ensures old(ipcFd.ok) && !ipcFd.hard ==>
        var b := BeginReading(old(ipcFd.input), old(shared.requestId));
        && (begun <==> b.content == [] && b.outcome.Begun? && RESPONDER <= b.outcome.role <= FILTER)
        && (begun ==> input.Began(b.outcome) && input.U().ahead == b.outcome.rest && ipcFd.ok)
        && (b.content == [] && b.outcome.Begun? ==> shared.requestId == b.outcome.id)
    {
      hide Read, Connection.Valid;
      shared.isBeginProcessed := false;
      input := new Reader(shared, ipcFd, 8192, 0);
      ghost var m := input.V();
      assert m == input.U() && m.Rest() == BeginReading(m.ahead, m.x.id);
      input.FillBuffProc();
      begun := shared.isBeginProcessed && RESPONDER <= shared.role <= FILTER;
      FirstFill(m, input.U(), input);
    }

    /** What the first fill of a connection comes to. */
    lemma FirstFill(m: View, u: View, r: Reader)
      requires r.Filled(m) && u == r.U() && !m.x.begun && m.errno == 0 && !m.eor
      ensures r.Bounded()
      ensures r.req.isBeginProcessed ==> r.errno == 0 && r.Began(m.Rest().outcome) && m.Rest().content == []
                                         && m.Rest().outcome.rest == u.ahead && !u.Starved(m)
      ensures !r.req.isBeginProcessed && (u.ok || u.Starved(m)) ==> m.Rest().content != [] || !m.Rest().outcome.Begun?
    {
      hide Read;
      if !r.req.isBeginProcessed && !r.isClosed {
        assert r.V().avail != [];
      }
    }

    /** Reads the parameters of the request that has begun, after an entry for its role. */
    method ReadEnvironment() returns (whole: bool)
      requires input != null && input.Bounded() && input.req == shared && shared.isBeginProcessed && input.errno == 0
      requires RESPONDER <= shared.role <= FILTER
      modifies `params, input, input.buff, input.conn, shared
      ensures input == old(input) && input.Bounded() && unchanged(shared)
      ensures (old(input.conn.hard) ==> input.conn.hard) && (input.conn.ok ==> old(input.conn.ok))
      ensures input.conn.sound ==> old(input.conn.sound)
      ensures params != null && fresh(params) && fresh(params.vec) && params.Valid()
      ensures old(input.conn.ok) && !input.conn.hard ==>
        var p := StreamReading(old(input.U()).ahead, shared.requestId, PARAMS);
        Parse(p.content).defined ==>
          && whole == Parse(p.content).whole
          && params.Contents() == [RoleEntry(shared.role)] + Parse(p.content).entries
          && (whole && input.conn.ok && p.outcome.EndOfStream? ==> input.U().ahead == p.outcome.rest && input.errno == 0)
    {
      hide Read, Parse, Went, ReadOut, StreamReading, Connection.Valid, Params.Valid, Params.Contents;
      params := new Params(30);
      params.PutParam(RoleEntry(shared.role));
      Units([RoleEntry(shared.role)]);
      input.SetReaderType(PARAMS);
      ghost var m := input.V();
      ParamsAhead(m);
      var rc, got := input.ReadParams(params);
      whole := rc >= 0;
      if m.ok && !input.conn.hard {
        if rc == -2 {
          SomeRead(m, got, input.V());
        } else {
          AllRead(m, got, input.V(), rc);
        }
      }
    }

    lemma ParamsAhead(m: View)
      requires m.avail == [] && m.c == 0 && m.p == 0 && !m.skip && !m.eor && m.x == Ctx(PARAMS as int, m.x.id, true, false)
      ensures m.Rest() == StreamReading(m.ahead, m.x.id, PARAMS)
    {
    }

    lemma AllRead(m: View, got: seq<Byte>, v: View, rc: int)
      requires ReadOut(m, got, v, rc) && m.ok && !v.hard
      ensures got == m.Rest().content
      ensures v.ok && m.Rest().outcome.EndOfStream? ==> v.ahead == m.Rest().outcome.rest && (rc == 0 ==> v.errno == m.errno)
    {
      hide Read;
      Units(got);
    }

    lemma SomeRead(m: View, got: seq<Byte>, v: View)
      requires Went(m, got, v) && v.open && !Parse(got).defined
      ensures !Parse(m.Rest().content).defined
    {
      hide Read, Parse;
      UndefinedThenMore(got, v.Rest().content);
    }

    /** Tries to get a request out of the open connection. */
    method TryConnection() returns (got: bool, ghost attempt: Attempt)
      requires Idle() && ipcFd != null && ipcFd.Valid()
      modifies `input, `params, shared, ipcFd
      ensures attempt.conn == ipcFd && attempt.bytes == old(ipcFd.input) && attempt.id == old(shared.requestId)
      ensures attempt.left == shared.requestId && attempt.Explained(old(shared.requestId))
      ensures attempt.failed == (!old(ipcFd.ok) || ipcFd.hard)
      ensures (ipcFd.ok ==> old(ipcFd.ok)) && (ipcFd.sound ==> old(ipcFd.sound)) && shared.appStatus == old(shared.appStatus)
      ensures input != null && fresh(input) && fresh(input.buff) && input.conn == ipcFd && input.req == shared
      ensures input.Bounded()
      ensures got ==> params != null && fresh(params) && fresh(params.vec) && params.Valid() && shared.isBeginProcessed
      ensures attempt.Decided() ==> (got <==> attempt.Opens())
      ensures got && attempt.Decided() ==> Got(Opening(attempt.bytes, attempt.id).request)
    {
      hide Read, Parse, BeginReading, StreamReading, Connection.Valid, Params.Valid, Params.Contents;
      ghost var bytes, id, ok0 := ipcFd.input, shared.requestId, ipcFd.ok;
      got := ReadBegin();
      if got {
        got := ReadEnvironment();
      }
      attempt := Attempt(ipcFd, bytes, id, shared.requestId, !ok0 || ipcFd.hard);
      Failure(ipcFd);
    }

    lemma Failure(c: Connection)
      requires c.Valid()
      ensures c.hard ==> !c.ok
    {
    }

    /** Nothing has been put on the streams of the request yet, and its input is open. */
    ghost predicate Untouched()
      reads this, shared, ipcFd, input, output, errors, params, if params == null then {} else {params.vec},
            if output == null then {} else {output.buff}, if errors == null then {} else {errors.buff}
    {
      && Active() && input.Valid() && !input.isClosed && shared.isBeginProcessed && shared.nWriters == 2 && params.Valid()
      && output.V() == Output(STDOUT, shared.requestId, output.buff.Length - HEADER_LEN, [], [], [], false)
      && errors.V() == Output(STDERR, shared.requestId, errors.buff.Length - HEADER_LEN, [], [], [], false)
      && 8184 <= output.buff.Length <= 8192 && 504 <= errors.buff.Length <= 512
    }

    /** Sets up the streams of the request that has been got. */
    method SetUp()
      requires input != null && input.Bounded() && input.conn == ipcFd && input.req == shared
      requires params != null && params.Valid() && output == null && errors == null && shared.isBeginProcessed
      modifies this`output, this`errors, input, shared`nWriters
      ensures Untouched() && fresh(output) && fresh(output.buff) && fresh(errors) && fresh(errors.buff)
      ensures input == old(input) && input.Valid()
      ensures input.V() == old(input.U()).(open := true, avail := [], c := 0, p := 0, skip := false, eor := false,
                                           x := old(input.X()).(typ := STDIN as int))
    {
      hide Connection.Valid, Writer.Valid, Reader.Bounded;
      BoundsOf(input);
      input.SetReaderType(STDIN);
      MakeWriters();
    }

    lemma BoundsOf(r: Reader)
      requires r.Bounded()
      ensures r.conn.Valid()
    {
    }

    method MakeWriters()
      requires ipcFd != null && ipcFd.Valid()
      modifies this`output, this`errors, shared`nWriters
      ensures output != null && errors != null && output != errors && output.buff != errors.buff
      ensures fresh(output) && fresh(output.buff) && fresh(errors) && fresh(errors.buff)
      ensures output.conn == errors.conn == ipcFd && output.req == errors.req == shared
      ensures output.Valid() && errors.Valid() && shared.nWriters == 2
      ensures output.V() == Output(STDOUT, shared.requestId, output.buff.Length - HEADER_LEN, [], [], [], false)
      ensures errors.V() == Output(STDERR, shared.requestId, errors.buff.Length - HEADER_LEN, [], [], [], false)
      ensures 8184 <= output.buff.Length <= 8192 && 504 <= errors.buff.Length <= 512
    {
      hide Connection.Valid, Writer.Valid;
      output := new Writer(shared, ipcFd, 8192, STDOUT);
      errors := new Writer(shared, ipcFd, 512, STDERR);
      label Before:
      shared.nWriters := 2;
      StillValid@Before(output);
      StillValid@Before(errors);
    }

    /** The request that was asked for, at the beginning of its input. */
    ghost predicate Serves(o: Opened)
      reads this, shared, input, if input == null then {} else {input.buff, input.conn, input.req}, params,
            if params == null then {} else {params.vec}
    {
      && input != null && params != null && params.Valid() && input.Valid()
      && shared.requestId == o.id && shared.role == o.role && shared.keepConnection == o.keep
      && params.Contents() == [RoleEntry(o.role)] + o.entries
      && var v := input.V();
         v.open && v.avail == [] && v.c == 0 && v.p == 0 && !v.skip && !v.eor
         && v.x == Ctx(STDIN as int, o.id, true, v.errno != 0)
         && (v.ok && o.rest.EndOfStream? ==> v.ahead == o.rest.rest && v.errno == 0)
    }

    /** What is on offer: the rest of the open connection, if there is one, and then those that will arrive. */
    ghost function OnOffer(): seq<seq<Byte>>
      reads this, ipcFd
    {
      (if ipcFd == null then [] else [ipcFd.input]) + arrivals
    }

    /** These tries at the first connections on offer came to nothing. */
    static ghost predicate Failed(attempts: seq<Attempt>, offered: seq<seq<Byte>>) {
      && |attempts| <= |offered|
      && forall i :: 0 <= i < |attempts| ==>
           attempts[i].bytes == offered[i] && !(attempts[i].Decided() && attempts[i].Opens())
    }

    /** A request has been got from the connection now open, the n-th of those on offer. */
    ghost predicate Found(last: Attempt, n: nat, offered: seq<seq<Byte>>)
      reads this, shared, ipcFd, input, if input == null then {} else {input.buff, input.conn, input.req}, params,
            if params == null then {} else {params.vec}
    {
      && ipcFd != null && input != null && params != null && params.Valid()
      && output == null && errors == null && shared.isBeginProcessed
      && input.conn == ipcFd && input.req == shared && input.Bounded()
      && n < |offered| && last.conn == ipcFd && last.bytes == offered[n] && arrivals == offered[n + 1..]
      && (last.Decided() ==> last.Opens() && Got(Opening(last.bytes, last.id).request))
    }

    /** The id that these tries leave, the first of them being made with this one. */
    static function LeftBy(attempts: seq<Attempt>, id: Id): Id {
      if attempts == [] then id else attempts[|attempts| - 1].left
    }

    /** Each of these tries was made with the id that those before it left, and failed only if a call did. */
    static ghost predicate Explained(attempts: seq<Attempt>, id: Id)
      reads set a | a in attempts :: a.conn
    {
      forall i :: 0 <= i < |attempts| ==> attempts[i].Explained(LeftBy(attempts[..i], id))
    }

    static lemma FirstExplained(attempts: seq<Attempt>, id: Id)
      requires Explained(attempts, id) && attempts != []
      ensures attempts[0].Explained(id)
    {
      assert attempts[..0] == [];
    }

    static lemma ExplainedMore(attempts: seq<Attempt>, a: Attempt, id: Id)
      requires Explained(attempts, id) && a.Explained(LeftBy(attempts, id))
      ensures Explained(attempts + [a], id) && LeftBy(attempts + [a], id) == a.left
    {
      var more := attempts + [a];
      forall i | 0 <= i < |more| ensures more[i].Explained(LeftBy(more[..i], id)) {
        assert more[..i] == attempts[..i];
      }
    }

    /** Tries the next connection on offer, which is given up when it opens no request. */
    method TryNext(ghost n: nat, ghost offered: seq<seq<Byte>>) returns (connected: bool, found: bool, ghost last: Attempt)
      requires Idle() && Accounted() && (ipcFd != null ==> ipcFd.Valid()) && n <= |offered| && offered[n..] == OnOffer()
      modifies this, shared, ipcFd
      ensures Accounted() && shared.appStatus == old(shared.appStatus)
      ensures accepted == old(accepted) + if old(ipcFd) == null && connected then [last.conn] else []
      ensures refusals == old(refusals) + if connected then [] else [|closed|]
      ensures !connected ==> Idle() && ipcFd == null == old(ipcFd) && arrivals == offered[n..] && closed == old(closed)
      ensures shared.requestId == if connected then last.left else old(shared.requestId)
      ensures connected ==> n < |offered| && last.bytes == offered[n] && last.Explained(old(shared.requestId))
      ensures connected ==> if old(ipcFd) != null then last.conn == old(ipcFd) else fresh(last.conn)
      ensures old(ipcFd) != null && old(ipcFd).ok ==> old(ipcFd == null || ipcFd.ok)
      ensures old(ipcFd) != null && old(ipcFd).sound ==> old(ipcFd == null || ipcFd.sound)
      ensures connected && found ==> Found(last, n, offered) && fresh(input) && fresh(input.buff) && closed == old(closed)
      ensures connected && found ==> last.conn == ipcFd
      ensures connected && !found ==>
        && Idle() && ipcFd == null && OnOffer() == offered[n + 1..] && !(last.Decided() && last.Opens())
        && closed == old(closed) + [last.conn]
    {
      hide Opening, Connection.Valid, Reader.Bounded, Params.Valid, Params.Contents, Got, Attempt.Opens, Attempt.Decided, Attempt.LeavesId;
      found := false;
      last := Attempt(null, [], 0, 0, true);
      connected := OpenConnection();
      if connected {
        assert offered[n..] == [ipcFd.input] + arrivals;
        Front(offered, n, ipcFd.input, arrivals);
        found, last := TryConnection();
        if !found {
          Free(true);
          Units(arrivals);
        }
      }
    }

    /** Tries one connection after another until one opens a request, or no more can be accepted. */
    method FindRequest(ghost offered: seq<seq<Byte>>) returns (found: bool, ghost failures: seq<Attempt>, ghost last: Attempt)
      requires Idle() && Accounted() && (ipcFd != null ==> ipcFd.Valid()) && offered == OnOffer()
      modifies this, shared, ipcFd
      ensures Accounted() && shared.appStatus == old(shared.appStatus)
      ensures Failed(failures, offered) && |failures| <= |offered|
      ensures closed == old(closed) + Tried(failures)
      ensures old(ipcFd) != null ==> if failures != [] then failures[0].conn == old(ipcFd) else found && ipcFd == old(ipcFd)
      ensures old(ipcFd) != null && old(ipcFd).ok ==> old(ipcFd == null || ipcFd.ok)
      ensures old(ipcFd) != null && old(ipcFd).sound ==> old(ipcFd == null || ipcFd.sound)
      ensures refusals == old(refusals) + if found then [] else [|closed|]
      ensures var tries := if found then failures + [last] else failures;
        Explained(tries, old(shared.requestId)) && shared.requestId == LeftBy(tries, old(shared.requestId))
      ensures !found ==> Idle() && ipcFd == null && arrivals == offered[|failures|..]
      ensures found ==> last.conn == ipcFd != null
      ensures found ==> Found(last, |failures|, offered) && fresh(input) && fresh(input.buff)
      ensures ipcFd == null || ipcFd == old(ipcFd) || fresh(ipcFd)
    {
      hide Connection.Valid, Found, Attempt.Opens, Attempt.Decided, Attempt.LeavesId, Failed, Tried, LeftBy;
      failures := [];
      NoneFailed(offered, shared.requestId);
      ghost var before := closed;
      Units(before);
      while true
        invariant Accounted() && shared.appStatus == old(shared.appStatus)
        invariant Idle() && (ipcFd == null || (ipcFd == old(ipcFd) && failures == [])) && (ipcFd != null ==> ipcFd.Valid())
        invariant Failed(failures, offered) && |failures| <= |offered| && offered[|failures|..] == OnOffer()
        invariant closed == before + Tried(failures)
        invariant old(ipcFd) != null && old(ipcFd).ok ==> old(ipcFd == null || ipcFd.ok)
        invariant old(ipcFd) != null && old(ipcFd).sound ==> old(ipcFd == null || ipcFd.sound)
        invariant refusals == old(refusals) && |failures| + |before| == |closed|
        invariant Explained(failures, old(shared.requestId)) && shared.requestId == LeftBy(failures, old(shared.requestId))
        invariant old(ipcFd) != null ==> if failures == [] then ipcFd == old(ipcFd) else failures[0].conn == old(ipcFd)
        decreases |offered| - |failures|
      {
        var connected;
        connected, found, last := TryNext(|failures|, offered);
        if connected {
          ExplainedMore(failures, last, old(shared.requestId));
        }
        if !connected || found {
          found := connected;
          return;
        }
        FailedMore(failures, last, offered);
        Associate(before, Tried(failures), [last.conn]);
        failures := failures + [last];
      }
    }

    lemma NoneFailed(offered: seq<seq<Byte>>, id: Id)
      ensures Failed([], offered) && Tried([]) == [] && Explained([], id) && LeftBy([], id) == id
    {
    }

    lemma FailedMore(attempts: seq<Attempt>, a: Attempt, offered: seq<seq<Byte>>)
      requires Failed(attempts, offered) && |attempts| < |offered|
      requires a.bytes == offered[|attempts|] && !(a.Decided() && a.Opens())
      ensures Failed(attempts + [a], offered) && Tried(attempts + [a]) == Tried(attempts) + [a.conn]
    {
    }

    lemma Front<T>(s: seq<T>, n: nat, first: T, more: seq<T>)
      requires n <= |s| && s[n..] == [first] + more
      ensures n < |s| && s[n] == first && s[n + 1..] == more
    {
      assert s[n..][0] == first && s[n..][1..] == more;
    }

    /** Finishes the last request; what is then on offer may begin with what its connection still has to say. */
    method LetGo() returns (ghost kept: bool, ghost offered: seq<seq<Byte>>)
      requires Idle() || Active()
      requires Accounted() && (ipcFd != null ==> ipcFd.Valid())
      modifies this, shared`nWriters, ipcFd, output, errors,
               if output == null then {} else {output.buff}, if errors == null then {} else {errors.buff}
      ensures Idle() && Accounted() && accepted == old(accepted) && refusals == old(refusals) && (kept <==> ipcFd != null)
      ensures old(ipcFd) != null ==>
        (old(ipcFd).ok ==> old(ipcFd == null || ipcFd.ok)) && (old(ipcFd).sound ==> old(ipcFd == null || ipcFd.sound))
      ensures kept ==> ipcFd == old(ipcFd) && ipcFd.Valid()
      ensures offered == OnOffer() == old(if kept && ipcFd != null then [ipcFd.input] else []) + old(arrivals)
      ensures old(Active()) ==>
        if !old(shared.keepConnection && input != null && input.errno == 0) then !kept
        else kept || (old(ipcFd) != null ==> !old(ipcFd).sound && !old(ipcFd).ok)
      ensures old(Idle()) ==> (kept <==> old(ipcFd) != null && old(shared.keepConnection))
      ensures closed == old(closed) + if old(ipcFd) != null && !kept then [old(ipcFd)] else []
    {
      hide Writer.Valid, Completed;
      Finish();
      kept, offered := ipcFd != null, OnOffer();
    }

    /**
     Finishes the last request and accepts the next, from the kept connection if there is one, and then from those
     that arrive, until one opens a request; it gives up only when after the last try no connection can be accepted.
     What they offered and the tries that failed are listed. The exit status of the last request is still there.
     */
    method Accept()
      returns (rc: int, ghost kept: bool, ghost offered: seq<seq<Byte>>, ghost failures: seq<Attempt>, ghost last: Attempt)
      requires Idle() || Active()
      requires Accounted() && (ipcFd != null ==> ipcFd.Valid())
      modifies this, shared, ipcFd, output, errors,
               if output == null then {} else {output.buff}, if errors == null then {} else {errors.buff}
      ensures Accounted() && shared.appStatus == old(shared.appStatus)
      ensures kept ==> old(ipcFd) != null
      ensures offered == old(if kept && ipcFd != null then [ipcFd.input] else []) + old(arrivals)
      ensures old(Active()) ==>
        if !old(shared.keepConnection && input != null && input.errno == 0) then !kept
        else kept || (old(ipcFd) != null ==> !old(ipcFd).sound && !old(ipcFd).ok)
      ensures old(Idle()) ==> (kept <==> old(ipcFd) != null && old(shared.keepConnection))
      ensures Failed(failures, offered)
      ensures closed == old(closed) + (if old(ipcFd) != null && !kept then [old(ipcFd)] else []) + Tried(failures)
      ensures kept ==> if failures != [] then failures[0].conn == old(ipcFd) else rc == 0 && ipcFd == old(ipcFd)
      ensures rc == 0 ==>
        && Untouched() && |failures| < |offered| && last.conn == ipcFd && last.bytes == offered[|failures|]
        && arrivals == offered[|failures| + 1..]
        && (last.Decided() ==> last.Opens() && Serves(Opening(last.bytes, last.id).request))
      ensures rc == 0 ==>
        fresh({input, output, errors}) && fresh({input.buff, output.buff, errors.buff}) && (ipcFd == old(ipcFd) || fresh(ipcFd))
      ensures refusals == old(refusals) + if rc == 0 then [] else [|closed|]
      ensures old(ipcFd) != null ==>
        (old(ipcFd).ok ==> old(ipcFd == null || ipcFd.ok)) && (old(ipcFd).sound ==> old(ipcFd == null || ipcFd.sound))
      ensures var tries := if rc == 0 then failures + [last] else failures;
        Explained(tries, old(shared.requestId)) && shared.requestId == LeftBy(tries, old(shared.requestId))
      ensures rc != 0 ==> rc < 0 && Idle() && ipcFd == null && arrivals == offered[|failures|..]
    {
      hide Opening, Connection.Valid, Reader.Bounded, Reader.Valid, Writer.Valid, Params.Valid, Params.Contents, Active, Untouched,
        Got, Serves, Failed, Attempt.Decided, Attempt.Opens, Tried, Explained, LeftBy;
      kept, offered := LetGo();
      var found;
      found, failures, last := FindRequest(offered);
      if !found {
        rc :| rc < 0;
        return;
      }
      SetUpFor(failures + [last], old(shared.requestId), last);
      rc := 0;
    }

    method SetUpFor(ghost tries: seq<Attempt>, ghost before: Id, ghost last: Attempt)
      requires Explained(tries, before)
      requires input != null && input.Bounded() && input.conn == ipcFd && input.req == shared
      requires params != null && params.Valid() && output == null && errors == null && shared.isBeginProcessed
      requires last.Decided() ==> last.Opens() && Got(Opening(last.bytes, last.id).request)
      modifies this`output, this`errors, input, shared`nWriters
      ensures Untouched() && input == old(input) && Explained(tries, before)
      ensures fresh(output) && fresh(output.buff) && fresh(errors) && fresh(errors.buff)
      ensures last.Decided() ==> last.Opens() && Serves(Opening(last.bytes, last.id).request)
    {
      hide Opening, Connection.Valid, Writer.Valid, Untouched;
      SetUp();
    }
  }
}
