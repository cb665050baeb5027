/** One request after another on a connection that is kept: what the next one is offered after the last is finished. */
module KeepAlive {
  import opened Protocol
  import opened NameValue
  import opened Deframer
  import opened RecordStreams
  import opened Progress
  import opened Environment
  import opened Openings
  import opened Parameters
  import opened Readers
  import opened Writers
  import opened Requests

  /** The reader m stands at the boundary in front of the first record of a stream. */
  predicate AtStream(m: View, id: Id, typ: Byte) {
    && m.open && m.avail == [] && m.c == 0 && m.p == 0 && !m.skip && !m.eor
    && m.x == Ctx(typ as int, id, true, false) && m.errno == 0
  }

  /**
   A request whose parameters have been found, read in any way until its input closes without a failed call: its
   input was delivered, and the reader stands behind the record that ended it.
   */
  lemma InputEnds(q: Sent, tail: seq<Byte>, m: View, got: seq<Byte>, v: View)
    requires q.Formed() && AtStream(m, q.begin.id, STDIN) && m.ahead == q.EncodeInput() + tail
    requires Went(m, got, v) && !v.open && v.ok
    ensures got == q.Content(q.input, STDIN) && v.errno == 0 && v.ahead == q.input.padding + (q.EncodeData() + tail)
  {
    hide Read, Parse, Sent.Formed, Sent.EncodeStream, Sent.EncodeData, Sent.Content, AllAnswered;
    RequestRead(q, tail, q.begin.id);
    assert m.Rest() == StreamReading(m.ahead, q.begin.id, STDIN);
    Units(got);
  }

  /** The same for the second input of a filter. */
  lemma DataEnds(q: Sent, tail: seq<Byte>, m: View, got: seq<Byte>, v: View)
    requires q.Formed() && q.Role() == FILTER && AtStream(m, q.begin.id, DATA) && m.ahead == q.EncodeData() + tail
    requires Went(m, got, v) && !v.open && v.ok
    ensures got == q.Content(q.data, DATA) && v.errno == 0 && v.ahead == q.data.padding + tail
  {
    hide Read, Parse, Sent.EncodeStream, Sent.EncodeInput, Sent.Content, AllAnswered;
    RequestRead(q, tail, q.begin.id);
    assert m.Rest() == StreamReading(m.ahead, q.begin.id, DATA);
    Units(got);
  }

  /** The bytes from the connection that the reader holds and has not used. */
  ghost function Held(r: Request): nat
    requires r.input != null && r.input.Bounded()
    reads r, r.input, r.input.conn
  {
    r.input.buffStop - r.input.rdNext
  }

  /** What a call of Accept comes to that is offered the next request without the bytes held. */
  ghost predicate NextFrom(next: Sent, tail: seq<Byte>, padding: seq<Byte>, held: nat, rc: int,
                           offered: seq<seq<Byte>>, failures: seq<Attempt>, last: Attempt)
    requires next.Formed()
  {
    var all, request := padding + (next.Encode() + tail), next.Encode() + tail;
    && held <= |all| && offered != [] && offered[0] == all[held..]
    && (offered[0] == request <==> held == |padding|)
    && (held == |padding| ==>
          if failures == [] then rc == 0 && (!last.failed ==> last.Decided() && last.Opens()) else failures[0].failed)
    && (held == |all| ==> offered[0] == [] && (failures == [] ==> last.failed))
  }

  lemma NextOffered(next: Sent, tail: seq<Byte>, padding: seq<Byte>, held: nat, rc: int,
                    offered: seq<seq<Byte>>, failures: seq<Attempt>, last: Attempt)
    requires next.Formed() && next.begin.padding == []
    requires held <= |padding + (next.Encode() + tail)| && offered != []
    requires offered[0] == (padding + (next.Encode() + tail))[held..]
    requires Request.Failed(failures, offered) && (failures == [] ==> rc == 0 && last.bytes == offered[0])
    requires last.Decided() && failures == [] ==> last.Opens()
    ensures NextFrom(next, tail, padding, held, rc, offered, failures, last)
    ensures failures == [] && held == |padding| ==>
      Opening(last.bytes, last.id) == Opens(next.AsOpened(EndOfStream(next.params.padding + (next.EncodeInput() + tail))))
  {
    var request := next.Encode() + tail;
    hide Opening, Sent.Formed, Sent.Encode, Sent.EncodeInput, Sent.AsOpened;
    Behindhand(padding, request, held);
    NothingOpens(next, tail, if failures == [] then last.id else failures[0].id);
  }

  lemma Behindhand<T>(padding: seq<T>, more: seq<T>, held: nat)
    requires held <= |padding + more|
    ensures (padding + more)[held..] == more <==> held == |padding|
    ensures held == |padding + more| <==> (padding + more)[held..] == []
  {
    assert (padding + more)[|padding|..] == more;
    assert |(padding + more)[held..]| == |padding + more| - held;
  }

  lemma NothingOpens(next: Sent, tail: seq<Byte>, id: Id)
    requires next.Formed() && next.begin.padding == []
    ensures Opening([], id) == Refuses
    ensures Opening(next.Encode() + tail, id)
         == Opens(next.AsOpened(EndOfStream(next.params.padding + (next.EncodeInput() + tail))))
  {
    RequestRead(next, tail, id);
  }

  /** The next request is what comes on the connection behind the padding at which the reader stands. */
  ghost predicate NextAhead(r: Request, next: Sent, tail: seq<Byte>, padding: seq<Byte>)
    requires r.input != null && r.input.Bounded() && next.Formed()
    reads r, r.input, r.input.buff, r.input.conn, r.input.req
  {
    r.input.U().ahead == padding + (next.Encode() + tail)
  }

  /**
   When the next request has been sent on the connection of the one being served, and the reader stands in front of the
   padding that may come before it, the next call of Accept is offered what is left without the bytes that the reader
   holds: the request itself exactly when it holds just the padding, and then just that request is accepted.
   */
  method AcceptNext(r: Request, ghost next: Sent, ghost tail: seq<Byte>, ghost padding: seq<Byte>)
    returns (rc: int, ghost kept: bool, ghost offered: seq<seq<Byte>>, ghost failures: seq<Attempt>, ghost last: Attempt)
    requires r.Active() && r.Accounted() && r.ipcFd.Valid() && next.Formed() && next.begin.padding == []
    modifies r, r.shared, r.ipcFd, r.output, r.errors, r.output.buff, r.errors.buff
    ensures if old(r.shared.keepConnection && r.input.errno == 0) then kept || (!old(r.ipcFd).sound && !old(r.ipcFd).ok) else !kept
    ensures old(r.ipcFd).ok ==> old(r.ipcFd.ok)
    ensures rc == 0 ==>
      && r.Untouched() && r.Accounted() && fresh({r.input, r.output, r.errors})
      && fresh({r.input.buff, r.output.buff, r.errors.buff}) && (r.ipcFd == old(r.ipcFd) || fresh(r.ipcFd))
    ensures kept && old(NextAhead(r, next, tail, padding)) ==>
      && NextFrom(next, tail, padding, old(Held(r)), rc, offered, failures, last) && offered[1..] == old(r.arrivals)
      && (failures == [] ==>
            && rc == 0 && last.conn == r.ipcFd == old(r.ipcFd) && (last.failed ==> !r.ipcFd.ok)
            && (!last.failed && old(Held(r)) == |padding| ==>
                  r.Serves(next.AsOpened(EndOfStream(next.params.padding + (next.EncodeInput() + tail))))))
      && (failures != [] ==> failures[0].conn == old(r.ipcFd) && (failures[0].failed ==> !old(r.ipcFd).ok))
  {
    hide Opening, Connection.Valid, Reader.Valid, Writer.Valid, Request.Serves, Request.Untouched, Request.Failed,
      Request.Explained,
      Request.LeftBy, Sent.Formed, Sent.Encode, Sent.EncodeInput, Sent.AsOpened, Attempt.Opens, Attempt.LeavesId, NextFrom;
    r.input.Buffered();
    ghost var ahead, held, input := NextAhead(r, next, tail, padding), Held(r), r.ipcFd.input;
    rc, kept, offered, failures, last := r.Accept();
    if kept && ahead {
      assert offered[0] == input && offered[1..] == old(r.arrivals);
      Request.FirstExplained(if rc == 0 then failures + [last] else failures, old(r.shared.requestId));
      NextOffered(next, tail, padding, held, rc, offered, failures, last);
    }
  }

  /** A request that never sets its exit status ends with that of the request before it. */
  method AcceptAndFinish(r: Request) returns (rc: int, conn: Connection?)
    requires r.Idle() && r.Accounted() && (r.ipcFd != null ==> r.ipcFd.Valid())
    modifies r, r.shared, r.ipcFd
    ensures rc == 0 <==> conn != null
    ensures rc == 0 && conn.sound ==>
      conn.records != []
      && conn.records[|conn.records| - 1] == EndRequest(r.shared.requestId, old(r.shared.appStatus), REQUEST_COMPLETE)
  {
    hide Opening, Connection.Valid, Reader.Valid, Reader.Bounded, Writer.Valid, Request.Serves, Request.Explained, Request.LeftBy,
      Request.Failed, Attempt.Decided, Attempt.Opens;
    conn := null;
    ghost var kept, offered, failures, last;
    rc, kept, offered, failures, last := r.Accept();
    if rc == 0 {
      conn := r.ipcFd;
      ConnectionOf(r.output);
      r.Finish();
    }
  }

  // ---- One request after another ----

  /** What the application gets of a request. */
  datatype Served = Served(id: Id, role: int, entries: seq<seq<Byte>>, input: seq<Byte>, data: seq<Byte>)

  function Expected(q: Sent): Served
    requires |q.begin.content| == 8
  {
    Served(q.begin.id, q.Role(), [RoleEntry(q.Role())] + Parse(q.Content(q.params, PARAMS)).entries,
           q.Content(q.input, STDIN), if q.Role() == FILTER then q.Content(q.data, DATA) else [])
  }

  /** Takes bytes from a stream until it closes. */
  method ReadToEnd(input: Reader) returns (bytes: seq<Byte>)
    requires input.Valid() && !input.isClosed && input.req.isBeginProcessed
    modifies input, input.buff, input.conn, input.req
    ensures input.Bounded() && input.Valid() && input.isClosed && unchanged(input.req)
    ensures input.Onward(old(input.V())) && Went(old(input.V()), bytes, input.V())
  {
    hide Went, Answering, Connection.Valid;
    ghost var m := input.V();
    bytes := [];
    AnsweringNothing(m.records);
    WentNowhere(m);
    while !input.isClosed
      invariant input.Bounded() && input.Since(m, bytes) && unchanged(input.req)
      decreases input.Left(), !input.isClosed
    {
      var c := input.GetChar(m, bytes);
      if c != -1 {
        bytes := bytes + [c];
      }
    }
  }

  /** Reads the input of a request to its end, and then the second input of a filter. */
  method ReadInputs(input: Reader, ghost q: Sent, ghost tail: seq<Byte>) returns (first: seq<Byte>, second: seq<Byte>)
    requires input.Valid() && !input.isClosed && input.req.isBeginProcessed && q.Formed() && q.Unpadded()
    modifies input, input.buff, input.conn, input.req
    ensures input.Bounded() && unchanged(input.req) && input.isClosed
    ensures (input.conn.ok ==> old(input.conn.ok)) && (input.conn.sound ==> old(input.conn.sound))
    ensures input.conn.ok && AtRequest(q, tail, old(input.V()), input.req.role) ==>
      && first == Expected(q).input && second == Expected(q).data
      && input.errno == 0 && input.U().ahead == q.LastPadding() + tail
  {
    hide Went, Answering, Connection.Valid, Sent.Formed, Sent.EncodeInput, Sent.EncodeData, Sent.Content, Parse;
    ghost var m := input.V();
    second := [];
    first := ReadToEnd(input);
    ghost var met := input.conn.ok && AtRequest(q, tail, m, input.req.role);
    if met {
      FirstRead(q, tail, m, first, input.V());
    }
    if input.req.role == FILTER {
      var rc := input.StartFilterData();
      if rc == 0 {
        ghost var n := input.V();
        second := ReadToEnd(input);
        if met && input.conn.ok {
          DataEnds(q, tail, n, second, input.V());
        }
      }
    }
  }

  /** The reader stands in front of the input of this request. */
  ghost predicate AtRequest(q: Sent, tail: seq<Byte>, m: View, role: int)
    requires q.Formed()
  {
    AtStream(m, q.begin.id, STDIN) && m.ahead == q.EncodeInput() + tail && role == q.Role()
  }

  lemma FirstRead(q: Sent, tail: seq<Byte>, m: View, got: seq<Byte>, v: View)
    requires q.Formed() && q.Unpadded() && AtRequest(q, tail, m, q.Role()) && Went(m, got, v) && !v.open && v.ok
    ensures got == Expected(q).input && v.errno == 0
    ensures v.ahead == if q.Role() == FILTER then q.EncodeData() + tail else q.LastPadding() + tail
  {
    hide Read, Parse, Sent.Content, AllAnswered;
    InputEnds(q, tail, m, got, v);
    Units(q.EncodeData() + tail);
    Units(tail);
  }

  /** Reads all that a request has to say. */
  method ReadAll(r: Request, ghost q: Sent, ghost tail: seq<Byte>) returns (first: seq<Byte>, second: seq<Byte>)
    requires r.Untouched() && q.Formed() && q.Unpadded()
    modifies r.shared, r.ipcFd, r.input, r.input.buff
    ensures r.Active() && unchanged(r.shared) && r.ipcFd.Valid() && r.input.isClosed
    ensures (r.ipcFd.ok ==> old(r.ipcFd.ok)) && (r.ipcFd.sound ==> old(r.ipcFd.sound))
    ensures r.ipcFd.ok && old(r.Serves(q.AsOpened(EndOfStream(q.EncodeInput() + tail)))) ==>
      && first == Expected(q).input && second == Expected(q).data
      && r.input.errno == 0 && r.input.U().ahead == q.LastPadding() + tail
  {
    hide Writer.Valid, Writer.Bounded, Connection.Valid, Sent.Formed, Sent.EncodeInput, Sent.Unpadded, Sent.LastPadding, Expected;
    ConnectionOf(r.output);
    first, second := ReadInputs(r.input, q, tail);
    StillValid(r.output);
    StillValid(r.errors);
    ConnectionOf(r.output);
  }

  /** What comes after the first n requests. */
  function Rest(qs: seq<Sent>, n: nat, tail: seq<Byte>): seq<Byte>
    requires AllFormed(qs) && n <= |qs|
  {
    EncodeRequests(qs[n..]) + tail
  }

  lemma RestOf(qs: seq<Sent>, n: nat, tail: seq<Byte>)
    requires AllFormed(qs) && n < |qs|
    ensures Rest(qs, n, tail) == qs[n].Encode() + Rest(qs, n + 1, tail)
  {
    hide Sent.Encode;
    assert qs[n..][0] == qs[n] && qs[n..][1..] == qs[n + 1..];
    Associate(qs[n].Encode(), EncodeRequests(qs[n + 1..]), tail);
  }

  /** Request n of those sent is being served, and nothing of its streams has been used. */
  ghost predicate Serving(r: Request, qs: seq<Sent>, n: nat, tail: seq<Byte>)
    requires AllFormed(qs) && n < |qs|
    reads r, r.shared, r.input, if r.input == null then {} else {r.input.buff, r.input.conn, r.input.req}, r.params,
          if r.params == null then {} else {r.params.vec}
  {
    r.Serves(qs[n].AsOpened(EndOfStream(qs[n].EncodeInput() + Rest(qs, n + 1, tail))))
  }

  /** The request that is being served, as the application finds it, and what it reads. */
  function Found(r: Request, input: seq<Byte>, data: seq<Byte>): Served
    requires r.params != null && r.params.Valid()
    reads r, r.shared, r.params, r.params.vec
  {
    Served(r.shared.requestId, r.shared.role, r.params.Contents(), input, data)
  }

  /** Serves one request: everything it has to say is read. */
  method ServeOne(r: Request, ghost qs: seq<Sent>, ghost n: nat, ghost tail: seq<Byte>) returns (served: Served)
    requires AllFormed(qs) && n < |qs| && r.Untouched()
    modifies r.shared, r.ipcFd, r.input, r.input.buff
    ensures r.Active() && unchanged(r.shared) && r.ipcFd.Valid() && r.input.isClosed
    ensures (r.ipcFd.ok ==> old(r.ipcFd.ok)) && (r.ipcFd.sound ==> old(r.ipcFd.sound))
    ensures r.ipcFd.ok && old(Serving(r, qs, n, tail)) ==>
      && served == Expected(qs[n]) && r.shared.keepConnection == qs[n].Keep()
      && r.input.errno == 0 && r.input.U().ahead == qs[n].LastPadding() + Rest(qs, n + 1, tail)
  {
    assert r.Active() && r.params.Valid();
    hide Request.Untouched, Request.Active, Params.Valid, Params.Contents, Sent.EncodeInput, Sent.LastPadding, Sent.Content, Parse;
    var input, data := ReadAll(r, qs[n], Rest(qs, n + 1, tail));
    served := Found(r, input, data);
  }

  /** The reader stands behind request n - 1, holds just the padding there, and the connection is to be kept. */
  ghost predicate Due(r: Request, qs: seq<Sent>, n: nat, tail: seq<Byte>)
    requires AllFormed(qs) && 0 < n < |qs|
    reads r, r.shared, r.input, if r.input == null then {} else {r.input.buff, r.input.conn, r.input.req}
  {
    && r.input != null && r.input.Bounded() && r.shared.keepConnection && r.input.errno == 0
    && r.input.U().ahead == qs[n - 1].LastPadding() + Rest(qs, n, tail) && Held(r) == |qs[n - 1].LastPadding()|
  }

  /** Turns from one request to the next. */
  method Turn(r: Request, ghost qs: seq<Sent>, ghost n: nat, ghost tail: seq<Byte>) returns (rc: int)
    requires AllFormed(qs) && 0 < n < |qs| && r.Active() && r.Accounted() && r.ipcFd.Valid()
    modifies r, r.shared, r.ipcFd, r.output, r.errors, r.output.buff, r.errors.buff
    ensures old(r.ipcFd).ok ==> old(r.ipcFd.ok)
    ensures rc == 0 ==>
      && r.Untouched() && r.Accounted() && fresh({r.input, r.output, r.errors})
      && fresh({r.input.buff, r.output.buff, r.errors.buff}) && (r.ipcFd == old(r.ipcFd) || fresh(r.ipcFd))
    ensures old(r.ipcFd).ok && old(Due(r, qs, n, tail)) ==> rc == 0 && r.ipcFd == old(r.ipcFd) && Serving(r, qs, n, tail)
  {
    hide Connection.Valid, Reader.Valid, Reader.Bounded, Writer.Valid, Request.Serves, Request.Untouched, Request.Accounted,
      Sent.Encode, Sent.EncodeInput, Sent.AsOpened, Sent.LastPadding;
    RestOf(qs, n, tail);
    Units(qs[n].EncodeInput() + Rest(qs, n + 1, tail));
    ghost var kept, offered, failures, last;
    rc, kept, offered, failures, last := AcceptNext(r, qs[n], Rest(qs, n + 1, tail), qs[n - 1].LastPadding());
  }

  /** What a reader that had been read to its end still held when it was let go. */
  ghost predicate Lost(reader: Reader, lost: nat)
    reads reader
  {
    reader.isClosed && lost == reader.buffStop - reader.rdNext
  }

  ghost predicate AllLost(readers: seq<Reader>, losses: seq<nat>)
    reads readers
  {
    |losses| == |readers| && forall k :: 0 <= k < |readers| ==> Lost(readers[k], losses[k])
  }

  lemma NoneLost()
    ensures AllLost([], [])
  {
  }

  lemma MoreLost(reader: Reader, lost: nat, readers: seq<Reader>, losses: seq<nat>)
    requires Lost(reader, lost) && AllLost(readers, losses)
    ensures AllLost([reader] + readers, [lost] + losses)
  {
  }

  /** Serves request n and turns to the next; lost is what its reader held by then. */
  method ServeAndTurn(r: Request, ghost qs: seq<Sent>, ghost n: nat, ghost tail: seq<Byte>)
    returns (rc: int, served: Served, ghost lost: nat)
    requires AllFormed(qs) && n + 1 < |qs| && qs[n].Keep() && r.Untouched() && r.Accounted()
    modifies r, r.shared, r.ipcFd, r.input, r.input.buff, r.output, r.output.buff, r.errors, r.errors.buff
    ensures (old(r.ipcFd).ok ==> old(r.ipcFd.ok)) && Lost(old(r.input), lost)
    ensures rc == 0 ==>
      && r.Untouched() && r.Accounted() && fresh({r.input, r.output, r.errors})
      && fresh({r.input.buff, r.output.buff, r.errors.buff}) && (r.ipcFd == old(r.ipcFd) || fresh(r.ipcFd))
    ensures old(r.ipcFd).ok && old(Serving(r, qs, n, tail)) ==>
      && served == Expected(qs[n])
      && (lost == |qs[n].LastPadding()| ==> rc == 0 && r.ipcFd == old(r.ipcFd) && Serving(r, qs, n + 1, tail))
  {
    hide Writer.Valid, Reader.Valid, Connection.Valid, Params.Valid, Serving, Expected, Sent.LastPadding, Rest;
    served := ServeOne(r, qs, n, tail);
    lost := Held(r);
    rc := Turn(r, qs, n + 1, tail);
  }

  function AllExpected(qs: seq<Sent>): seq<Served>
    requires AllFormed(qs)
  {
    if qs == [] then [] else [Expected(qs[0])] + AllExpected(qs[1..])
  }

  /** Serving the second request is serving the first of the others. */
  lemma OthersServed(r: Request, qs: seq<Sent>, tail: seq<Byte>)
    requires AllFormed(qs) && |qs| > 1
    ensures Serving(r, qs[1..], 0, tail) == Serving(r, qs, 1, tail)
  {
    assert qs[1..][1..] == qs[2..];
  }

  /** Each request is served as it was sent, up to the first whose reader takes more with it than just its padding. */
  predicate ServedInTurn(qs: seq<Sent>, losses: seq<nat>, served: seq<Served>)
    requires AllFormed(qs)
  {
    if |qs| <= 1 then served == AllExpected(qs) else
      && served != [] && losses != [] && served[0] == Expected(qs[0])
      && (losses[0] == |qs[0].LastPadding()| ==> ServedInTurn(qs[1..], losses[1..], served[1..]))
  }

  lemma {:induction false} AllInTurn(qs: seq<Sent>, losses: seq<nat>, served: seq<Served>)
    requires AllFormed(qs) && |losses| < |qs| && OnlyPadding(qs, losses) && ServedInTurn(qs, losses, served)
    ensures served == AllExpected(qs)
  {
    hide Expected;
    if |qs| > 1 {
      assert forall i :: 0 <= i < |losses| - 1 ==> losses[1..][i] == losses[i + 1] && qs[1..][i] == qs[i + 1];
      AllInTurn(qs[1..], losses[1..], served[1..]);
    }
  }

  lemma OneServed(qs: seq<Sent>, one: Served)
    requires AllFormed(qs) && |qs| == 1 && one == Expected(qs[0])
    ensures ServedInTurn(qs, [], [one])
  {
    hide Expected;
    assert AllExpected(qs[1..]) == [];
  }

  lemma MoreServed(qs: seq<Sent>, one: Served, lost: nat, served: seq<Served>, losses: seq<nat>)
    requires AllFormed(qs) && |qs| > 1 && one == Expected(qs[0])
    requires lost == |qs[0].LastPadding()| ==> ServedInTurn(qs[1..], losses, served)
    ensures ServedInTurn(qs, [lost] + losses, [one] + served)
  {
    hide Expected;
    assert ([lost] + losses)[1..] == losses && ([one] + served)[1..] == served;
  }

  /**
   Serves requests that were sent one after another on a connection, each but the last asking to keep it. Each gets its
   own id, role, parameters and inputs, as long as no call fails and each reader held none of the next request's bytes,
   but just the padding in front of it, when its request was finished.
   */
  method ServeAll(r: Request, n: nat, ghost qs: seq<Sent>, ghost tail: seq<Byte>)
    returns (served: seq<Served>, ghost losses: seq<nat>, ghost readers: seq<Reader>)
    requires n == |qs| > 0 && AllFormed(qs) && (forall k :: 0 <= k < n - 1 ==> qs[k].Keep())
    requires r.Untouched() && r.Accounted()
    modifies r, r.shared, r.ipcFd, r.input, r.input.buff, r.output, r.output.buff, r.errors, r.errors.buff
    ensures |losses| < n && (old(r.ipcFd).ok ==> old(r.ipcFd.ok))
    ensures AllLost(readers, losses) && (readers != [] ==> readers[0] == old(r.input))
    ensures forall k :: 0 < k < |readers| ==> fresh(readers[k])
    ensures old(r.ipcFd).ok && old(Serving(r, qs, 0, tail)) ==> ServedInTurn(qs, losses, served)
    ensures old(r.ipcFd).ok && old(Serving(r, qs, 0, tail)) && OnlyPadding(qs, losses) ==> served == AllExpected(qs)
    decreases n
  {
    hide Request.Accounted, Writer.Valid, Writer.Bounded, Reader.Valid, Reader.Bounded, Connection.Valid, Params.Valid,
      Request.Serves, Serving, OnlyPadding, Expected, Rest, AllLost, Sent.Keep, ServedInTurn, AllExpected;
    ghost var asked := Serving(r, qs, 0, tail);
    if n == 1 {
      var last := ServeOne(r, qs, 0, tail);
      served, losses, readers := [last], [], [];
      NoneLost();
      if old(r.ipcFd).ok && asked {
        OneServed(qs, last);
      }
    } else {
      ghost var first := r.input;
      var rc, one;
      ghost var lost;
      rc, one, lost := ServeAndTurn(r, qs, 0, tail);
      served, losses, readers := [], [], [];
      NoneLost();
      if rc == 0 {
        OthersServed(r, qs, tail);
        served, losses, readers := ServeAll(r, n - 1, qs[1..], tail);
      }
      MoreLost(first, lost, readers, losses);
      if old(r.ipcFd).ok && asked {
        MoreServed(qs, one, lost, served, losses);
      }
      served, losses, readers := [one] + served, [lost] + losses, [first] + readers;
    }
    if old(r.ipcFd).ok && asked && OnlyPadding(qs, losses) {
      AllInTurn(qs, losses, served);
    }
  }
}
