/** Calls on the streams of a request that is being served, one after another, are the steps of a run. */
module Runs {
  import opened Protocol
  import opened Deframer
  import opened Progress
  import opened Environment
  import opened Readers
  import opened Writers
  import opened Sessions
  import opened Requests

  /** What an application does with a request; the output stream or the error stream is meant. */
  datatype Call =
    | PutStr(toErrors: bool, bytes: seq<Byte>)
    | PutChar(toErrors: bool, c: int)
    | Flush(toErrors: bool)
    | Close(toErrors: bool)
    | SetExitStatus(appStatus: int)
    | GetStr(n: int)

  /** The bytes a call puts on one of the streams. */
  function BytesFor(call: Call, toErrors: bool): seq<Byte> {
    match call
    case PutStr(e, bytes) => if e == toErrors then bytes else []
    case PutChar(e, c) => if e == toErrors then [c % 256] else []
    case _ => []
  }

  /** The bytes of all calls that put some on the stream before it was closed. */
  function Given(calls: seq<Call>, toErrors: bool): seq<Byte> {
    if calls == [] then [] else
    var init, last := calls[..|calls| - 1], calls[|calls| - 1];
    Given(init, toErrors) + if Close(toErrors) in init then [] else BytesFor(last, toErrors)
  }

  /** How many bytes of input a call asks for. */
  function Wanted(call: Call): nat {
    if call.GetStr? && call.n > 0 then call.n else 0
  }

  function AllWanted(calls: seq<Call>): nat {
    if calls == [] then 0 else AllWanted(calls[..|calls| - 1]) + Wanted(calls[|calls| - 1])
  }

  /** The request is open for calls, and its connection held the records before when it was accepted. */
  ghost predicate Ready(r: Request, before: seq<Record>)
    reads r, r.shared, r.ipcFd, r.input, r.output, r.errors,
          if r.output == null then {} else {r.output.buff}, if r.errors == null then {} else {r.errors.buff}
  {
    r.Active() && r.input.Valid() && r.shared.isBeginProcessed && before <= r.ipcFd.records
  }

  /** The streams as they are, outPut and errPut being what has been put on them. */
  ghost function Snapshot(r: Request, before: seq<Record>, outPut: seq<Byte>, errPut: seq<Byte>): Session
    requires Ready(r, before)
    reads r, r.shared, r.ipcFd, r.input, r.output, r.errors, r.output.buff, r.errors.buff
  {
    Session(r.ipcFd.records[|before|..], r.output.V(), r.errors.V(), outPut, errPut, r.shared.nWriters, r.shared.appStatus)
  }

  lemma AnswerIsReply(r: Record)
    requires IsAnswer(r) && r.Fits()
    ensures ClassOf(r).Reply? && Aligned(r)
  {
    var a :| Answers(r, a);
  }

  lemma OnlyReplies(before: seq<Record>, after: seq<Record>)
    requires Answering(before, after) && AllFit(after)
    ensures forall i :: |before| <= i < |after| ==> ClassOf(after[i]).Reply? && Aligned(after[i])
  {
    hide IsAnswer, ClassOf, Aligned;
    forall i | |before| <= i < |after| ensures ClassOf(after[i]).Reply? && Aligned(after[i]) {
      AnswerIsReply(after[i]);
    }
  }

  // ---- The input ----

  /** Of the reading r0, got has been delivered so far, and the rest is still ahead of v. */
  ghost predicate Received(r0: Reading, got: seq<Byte>, v: View) {
    if v.open then r0.content == got + v.Rest().content && r0.outcome == v.Rest().outcome
    else got <= r0.content && (v.ok ==> got == r0.content)
  }

  lemma ReceivedMore(r0: Reading, got: seq<Byte>, v: View, str: seq<Byte>, w: View)
    requires Received(r0, got, v) && v.open && Went(v, str, w)
    ensures Received(r0, got + str, w)
  {
    hide Read, AllAnswered;
    if w.open {
      Associate(got, str, w.Rest().content);
    } else if w.ok {
      Units(str);
    }
  }

  /** What is done on the connection through the writers is nothing to the reader. */
  predicate SameInput(v: View, w: View) {
    w == v.(records := w.records, ok := w.ok, sound := w.sound, hard := w.hard) && (w.ok ==> v.ok)
  }

  lemma ReceivedStill(r0: Reading, got: seq<Byte>, v: View, w: View)
    requires Received(r0, got, v) && SameInput(v, w)
    ensures Received(r0, got, w)
  {
  }

  twostate lemma StillInput(input: Reader)
    requires old(input.Valid()) && unchanged(input, input.buff) && input.conn.Valid()
    requires input.conn.input == old(input.conn.input) && (input.conn.ok ==> old(input.conn.ok))
    requires input.req.requestId == old(input.req.requestId) && input.req.isBeginProcessed == old(input.req.isBeginProcessed)
    ensures input.Valid() && SameInput(old(input.V()), input.V())
  {
  }

  /** What GetStr makes of the input. */
  ghost predicate Fetched(v: View, n: nat, str: seq<Byte>, w: View) {
    if v.open then Went(v, str, w) && |str| <= n && (w.open <==> |str| == n)
    else str == [] && w == v
  }

  // ---- One call ----

  /** A call on w that put str on it, and did nothing to other, of two writers on one connection. */
  twostate predicate Called(w: Writer, other: Writer, str: seq<Byte>)
    reads w, w.buff, other, other.buff, w.conn, w.req
  {
    && w.conn == other.conn && w.req == other.req
    && old(w.Valid()) && old(other.Valid()) && w.Valid() && other.Valid() && other.V() == old(other.V())
    && old(w.conn.records) <= w.conn.records && w.conn.OnlyWritten()
    && w.req.appStatus == old(w.req.appStatus) && w.req.requestId == old(w.req.requestId)
    && (w.conn.sound ==>
          Acts(old(w.V()), w.V(), str, w.conn.records[|old(w.conn.records)|..],
               old(w.req.nWriters), w.req.nWriters, w.req.appStatus))
    && (w.wasFCloseCalled == old(w.wasFCloseCalled) ==> w.req.nWriters == old(w.req.nWriters))
    && (w.wasFCloseCalled != old(w.wasFCloseCalled) ==> w.wasFCloseCalled && w.req.nWriters == old(w.req.nWriters) - 1)
  }

  /** Any one call on a writer. */
  method CallWriter(w: Writer, other: Writer, call: Call)
    requires w.Valid() && other.Valid() && w != other && w.buff != other.buff && w.conn == other.conn && w.req == other.req
    requires !call.SetExitStatus? && !call.GetStr?
    modifies w, w.buff, w.conn, w.req`nWriters
    ensures Called(w, other, if old(w.wasFCloseCalled) then [] else BytesFor(call, call.toErrors))
    ensures w.wasFCloseCalled == (old(w.wasFCloseCalled) || call.Close?)
  {
    hide Writer.Valid, Writer.Bounded, Connection.Valid, Put, Flushed, Closed, Acts;
    ghost var v, n := w.V(), w.req.nWriters;
    ghost var before := w.conn.records;
    ConnectionOf(w);
    ConnectionOf(other);
    assert before[|before|..] == [];
    match call {
      case PutStr(_, bytes) =>
        var r := w.PutStr(bytes);
        if w.conn.sound && !w.wasFCloseCalled {
          PutActs(v, bytes, w.V(), w.conn.records[|before|..], n, w.req.appStatus);
        }
      case PutChar(_, c) =>
        var r := w.PutChar(c);
        if w.conn.sound && !w.wasFCloseCalled {
          PutActs(v, [c % 256], w.V(), w.conn.records[|before|..], n, w.req.appStatus);
        }
      case Flush(_) =>
        RoomOf(w);
        var r := w.FFlush();
        if w.conn.sound && !w.wasFCloseCalled {
          FlushActs(v, w.V(), w.conn.records[|before|..], n, w.req.appStatus);
        }
      case Close(_) =>
        var r := w.FClose();
        if w.conn.sound && !v.closed {
          CloseActs(v, w.V(), w.conn.records[|before|..], n, w.req.appStatus);
        }
    }
    ConnectionOf(w);
    StillValid(other);
    if v.closed {
      NothingActs(v, n, w.req.appStatus);
    }
  }

  lemma RoomOf(w: Writer)
    requires w.Valid()
    ensures |w.V().pending| <= w.V().room <= 65528
  {
  }

  lemma NothingActs(v: Output, n: int, appStatus: int)
    requires v.closed
    ensures Acts(v, v, [], [], n, n, appStatus)
  {
  }

  lemma MoreRecords<T>(before: seq<T>, was: seq<T>, now: seq<T>)
    requires before <= was <= now
    ensures now[|before|..][|was[|before|..]|..] == now[|was|..] && was[|before|..] <= now[|before|..]
  {
  }

  /** Steps, in terms of all the records on a connection. */
  lemma StatusStep(s: Session, t: Session)
    requires t == s.(appStatus := t.appStatus)
    ensures Step(s, t)
  {
    hide Acts, ClassOf, Aligned;
    assert s.records[|s.records|..] == [];
  }

  lemma ReplyStep(s: Session, t: Session, before: seq<Record>, was: seq<Record>, now: seq<Record>)
    requires before <= was <= now && s.records == was[|before|..] && t == s.(records := now[|before|..])
    requires forall i :: |was| <= i < |now| ==> ClassOf(now[i]).Reply? && Aligned(now[i])
    ensures Step(s, t)
  {
    hide Acts, ClassOf, Aligned;
    MoreRecords(before, was, now);
    assert forall i :: 0 <= i < |now| - |was| ==> now[|was|..][i] == now[|was| + i];
  }

  lemma OutStep(s: Session, t: Session, str: seq<Byte>, before: seq<Record>, was: seq<Record>, now: seq<Record>)
    requires before <= was <= now && s.records == was[|before|..] && t.records == now[|before|..]
    requires Acts(s.out, t.out, str, now[|was|..], s.nWriters, t.nWriters, s.appStatus)
    requires t.outPut == s.outPut + str && t.err == s.err && t.errPut == s.errPut && t.appStatus == s.appStatus
    ensures Step(s, t)
  {
    hide Acts, ClassOf, Aligned;
    MoreRecords(before, was, now);
    assert t.outPut[|s.outPut|..] == str;
  }

  lemma ErrStep(s: Session, t: Session, str: seq<Byte>, before: seq<Record>, was: seq<Record>, now: seq<Record>)
    requires before <= was <= now && s.records == was[|before|..] && t.records == now[|before|..]
    requires Acts(s.err, t.err, str, now[|was|..], s.nWriters, t.nWriters, s.appStatus)
    requires t.errPut == s.errPut + str && t.out == s.out && t.outPut == s.outPut && t.appStatus == s.appStatus
    ensures Step(s, t)
  {
    hide Acts, ClassOf, Aligned;
    MoreRecords(before, was, now);
    assert t.errPut[|s.errPut|..] == str;
  }

  /** What has been put on a stream after a call. */
  function PutAfter(put: seq<Byte>, call: Call, toErrors: bool, closed: bool): seq<Byte> {
    put + if closed then [] else BytesFor(call, toErrors)
  }

  /**
   Any one call: unless writing fails, one step, by which just the bytes of the call are put on its stream, if that is
   open; and, of the input, just the bytes asked for are received, as far as there are any.
   */
  method Perform(r: Request, call: Call, ghost before: seq<Record>, ghost outPut: seq<Byte>, ghost errPut: seq<Byte>)
    returns (ghost str: seq<Byte>)
    requires Ready(r, before)
    modifies r.shared, r.ipcFd, r.input, r.input.buff, r.output, r.output.buff, r.errors, r.errors.buff
    ensures Ready(r, before)
    ensures r.ipcFd.sound ==>
      && old(r.ipcFd.sound)
      && Step(old(Snapshot(r, before, outPut, errPut)),
              Snapshot(r, before, PutAfter(outPut, call, false, old(r.output.wasFCloseCalled)),
                       PutAfter(errPut, call, true, old(r.errors.wasFCloseCalled))))
    ensures r.output.wasFCloseCalled == (old(r.output.wasFCloseCalled) || call == Close(false))
    ensures r.errors.wasFCloseCalled == (old(r.errors.wasFCloseCalled) || call == Close(true))
    ensures if call.GetStr? then Fetched(old(r.input.V()), Wanted(call), str, r.input.V())
            else str == [] && SameInput(old(r.input.V()), r.input.V())
  {
    hide Writer.Valid, Writer.Bounded, Connection.Valid, Reader.Bounded, Step, Fetched, SameInput;
    Units(outPut);
    Units(errPut);
    str := [];
    match call {
      case SetExitStatus(appStatus) =>
        SetExitStatus(r, appStatus, before, outPut, errPut);
      case GetStr(n) =>
        str := Receive(r, n, before, outPut, errPut);
      case _ =>
        if call.toErrors {
          CallErrors(r, call, before, outPut, errPut);
        } else {
          CallOutput(r, call, before, outPut, errPut);
        }
    }
  }

  method SetExitStatus(r: Request, appStatus: int, ghost before: seq<Record>, ghost outPut: seq<Byte>, ghost errPut: seq<Byte>)
    requires Ready(r, before)
    modifies r.shared`appStatus
    ensures Ready(r, before) && SameInput(old(r.input.V()), r.input.V())
    ensures Step(old(Snapshot(r, before, outPut, errPut)), Snapshot(r, before, outPut, errPut))
  {
    hide Writer.Valid, Writer.Bounded, Connection.Valid, Reader.Bounded, Step;
    ConnectionOf(r.output);
    ghost var s := Snapshot(r, before, outPut, errPut);
    r.shared.appStatus := appStatus;
    StillValid(r.output);
    StillValid(r.errors);
    StatusStep(s, Snapshot(r, before, outPut, errPut));
  }

  /** A call on the output stream. */
  method CallOutput(r: Request, call: Call, ghost before: seq<Record>, ghost outPut: seq<Byte>, ghost errPut: seq<Byte>)
    requires Ready(r, before) && !call.SetExitStatus? && !call.GetStr? && !call.toErrors
    modifies r.shared`nWriters, r.ipcFd, r.output, r.output.buff
    ensures Ready(r, before) && SameInput(old(r.input.V()), r.input.V())
    ensures r.output.wasFCloseCalled == (old(r.output.wasFCloseCalled) || call.Close?)
    ensures r.ipcFd.sound ==>
      && old(r.ipcFd.sound)
      && Step(old(Snapshot(r, before, outPut, errPut)),
              Snapshot(r, before, PutAfter(outPut, call, false, old(r.output.wasFCloseCalled)), errPut))
  {
    hide Writer.Valid, Writer.Bounded, Reader.Valid, Connection.Valid, SameInput, Step, Acts;
    ghost var s, was := Snapshot(r, before, outPut, errPut), r.ipcFd.records;
    ghost var str := if r.output.wasFCloseCalled then [] else BytesFor(call, false);
    CallWriter(r.output, r.errors, call);
    ConnectionOf(r.output);
    StillInput(r.input);
    if r.ipcFd.sound {
      OutStep(s, Snapshot(r, before, outPut + str, errPut), str, before, was, r.ipcFd.records);
    }
  }

  /** A call on the error stream. */
  method CallErrors(r: Request, call: Call, ghost before: seq<Record>, ghost outPut: seq<Byte>, ghost errPut: seq<Byte>)
    requires Ready(r, before) && !call.SetExitStatus? && !call.GetStr? && call.toErrors
    modifies r.shared`nWriters, r.ipcFd, r.errors, r.errors.buff
    ensures Ready(r, before) && SameInput(old(r.input.V()), r.input.V())
    ensures r.errors.wasFCloseCalled == (old(r.errors.wasFCloseCalled) || call.Close?)
    ensures r.ipcFd.sound ==>
      && old(r.ipcFd.sound)
      && Step(old(Snapshot(r, before, outPut, errPut)),
              Snapshot(r, before, outPut, PutAfter(errPut, call, true, old(r.errors.wasFCloseCalled))))
  {
    hide Writer.Valid, Writer.Bounded, Reader.Valid, Connection.Valid, SameInput, Step, Acts;
    ghost var s, was := Snapshot(r, before, outPut, errPut), r.ipcFd.records;
    ghost var str := if r.errors.wasFCloseCalled then [] else BytesFor(call, true);
    CallWriter(r.errors, r.output, call);
    ConnectionOf(r.errors);
    StillInput(r.input);
    if r.ipcFd.sound {
      ErrStep(s, Snapshot(r, before, outPut, errPut + str), str, before, was, r.ipcFd.records);
    }
  }

  /** Reading may answer records that were not for the stream. */
  method Receive(r: Request, n: int, ghost before: seq<Record>, ghost outPut: seq<Byte>, ghost errPut: seq<Byte>)
    returns (str: seq<Byte>)
    requires Ready(r, before)
    modifies r.shared, r.ipcFd, r.input, r.input.buff
    ensures Ready(r, before) && unchanged(r.shared)
    ensures Fetched(old(r.input.V()), Max(n, 0), str, r.input.V())
    ensures r.ipcFd.sound ==>
      old(r.ipcFd.sound) && Step(old(Snapshot(r, before, outPut, errPut)), Snapshot(r, before, outPut, errPut))
  {
    hide Writer.Valid, Writer.Bounded, Connection.Valid, Reader.Bounded, Step, ClassOf, Aligned, Fetched;
    ConnectionOf(r.output);
    ghost var s, was := Snapshot(r, before, outPut, errPut), r.ipcFd.records;
    str := ReceiveBytes(r.input, n);
    StillValid(r.output);
    StillValid(r.errors);
    ReplyStep(s, Snapshot(r, before, outPut, errPut), before, was, r.ipcFd.records);
  }

  /** Bytes of the input, if it has not closed. */
  method ReceiveBytes(input: Reader, n: int) returns (str: seq<Byte>)
    requires input.Valid() && input.req.isBeginProcessed
    modifies input, input.buff, input.conn, input.req
    ensures input.Valid() && unchanged(input.req) && input.conn.Valid() && (input.conn.sound ==> old(input.conn.sound))
    ensures Fetched(old(input.V()), Max(n, 0), str, input.V())
    ensures old(input.conn.records) <= input.conn.records
    ensures forall i :: |old(input.conn.records)| <= i < |input.conn.records| ==>
      ClassOf(input.conn.records[i]).Reply? && Aligned(input.conn.records[i])
  {
    hide Went, ClassOf, Aligned, Answering;
    str := [];
    if !input.isClosed {
      ghost var m := input.V();
      AnsweringNothing(m.records);
      WentNowhere(m);
      str := input.GetStr(n, m, []);
      Units(str);
      OnlyReplies(m.records, input.conn.records);
    }
  }

  // ---- All calls ----

  /** The request after these calls, had it been open for the reading r0 when it was accepted. */
  ghost predicate Performed(r: Request, before: seq<Record>, calls: seq<Call>, r0: Reading, got: seq<Byte>)
    requires Ready(r, before)
    reads r, r.shared, r.ipcFd, r.input, r.output, r.errors, r.input.buff, r.output.buff, r.errors.buff
  {
    && r.output.wasFCloseCalled == (Close(false) in calls) && r.errors.wasFCloseCalled == (Close(true) in calls)
    && Received(r0, got, r.input.V()) && |got| <= AllWanted(calls) && (r.input.isClosed <==> |got| < AllWanted(calls))
  }

  /** These calls were the steps of this run, as long as no write has failed. */
  ghost predicate Standing(r: Request, before: seq<Record>, calls: seq<Call>, start: Session, run: seq<Session>,
                           r0: Reading, got: seq<Byte>)
    requires Ready(r, before)
    reads r, r.shared, r.ipcFd, r.input, r.output, r.errors, r.input.buff, r.output.buff, r.errors.buff
  {
    && Performed(r, before, calls, r0, got)
    && (r.ipcFd.sound ==>
          && Run(run) && |run| == |calls| + 1 && run[0] == start
          && run[|calls|] == Snapshot(r, before, Given(calls, false), Given(calls, true)))
  }

  method PerformNext(r: Request, ghost calls: seq<Call>, call: Call, ghost before: seq<Record>, ghost start: Session,
                     ghost run: seq<Session>, ghost r0: Reading, ghost got: seq<Byte>)
    returns (ghost more: seq<Session>, ghost all: seq<Byte>)
    requires Ready(r, before) && Standing(r, before, calls, start, run, r0, got)
    modifies r.shared, r.ipcFd, r.input, r.input.buff, r.output, r.output.buff, r.errors, r.errors.buff
    ensures Ready(r, before) && Standing(r, before, calls + [call], start, more, r0, all)
  {
    hide Writer.Valid, Writer.Bounded, Reader.Valid, Reader.Bounded, Connection.Valid, Run, Received, Fetched, SameInput,
      Given, PutAfter, BytesFor, Wanted, AllWanted;
    ghost var was, out, err := r.input.V(), Given(calls, false), Given(calls, true);
    OneMore(calls, call);
    ghost var str := Perform(r, call, before, out, err);
    GotMore(r0, got, was, call, str, r.input.V(), AllWanted(calls));
    all := got + str;
    ghost var now := Snapshot(r, before, Given(calls + [call], false), Given(calls + [call], true));
    more := run + [now];
    if r.ipcFd.sound {
      RunMore(run, now);
    }
  }

  /**
   The streams themselves: a request that has just been accepted, and then any calls in any order. As long as no write has
   failed, the bytes put on each stream before it was closed are on the wire, or pending in its buffer, in records that
   follow the close protocol. Of the input just as many bytes have been received as were asked for, or all that is there.
   */
  method PerformAll(r: Request, calls: seq<Call>) returns (ghost run: seq<Session>, ghost got: seq<Byte>)
    requires r.Untouched()
    modifies r.shared, r.ipcFd, r.input, r.input.buff, r.output, r.output.buff, r.errors, r.errors.buff
    ensures var before := old(r.ipcFd.records);
      && Ready(r, before)
      && Standing(r, before, calls, old(Snapshot(r, r.ipcFd.records, [], [])), run, old(r.input.V().Rest()), got)
      && (r.ipcFd.sound ==> Tidy(Snapshot(r, before, Given(calls, false), Given(calls, true))))
  {
    Begins(r);
    ghost var before, start, r0 := r.ipcFd.records, Snapshot(r, r.ipcFd.records, [], []), r.input.V().Rest();
    hide Writer.Valid, Writer.Bounded, Reader.Valid, Reader.Bounded, Connection.Valid, Run, Tidy, Performed, Given;
    run := [start];
    got := [];
    for i := 0 to |calls|
      invariant Ready(r, before) && Standing(r, before, calls[..i], start, run, r0, got)
    {
      run, got := PerformNext(r, calls[..i], calls[i], before, start, run, r0, got);
      assert calls[..i + 1] == calls[..i] + [calls[i]];
    }
    assert calls[..|calls|] == calls;
    if r.ipcFd.sound {
      CloseProtocol(run, |calls|);
    }
  }

  lemma RunMore(run: seq<Session>, s: Session)
    requires Run(run) && Step(run[|run| - 1], s)
    ensures Run(run + [s])
  {
    hide Step, Starts;
    var more := run + [s];
    forall k | 0 <= k < |more| - 1 ensures Step(more[k], more[k + 1]) {
      if k < |run| - 1 {
        assert more[k] == run[k] && more[k + 1] == run[k + 1];
      }
    }
  }

  lemma OneMore(calls: seq<Call>, call: Call)
    ensures forall e :: Given(calls + [call], e) == PutAfter(Given(calls, e), call, e, Close(e) in calls)
    ensures forall e :: Close(e) in calls + [call] <==> Close(e) in calls || call == Close(e)
    ensures AllWanted(calls + [call]) == AllWanted(calls) + Wanted(call)
  {
    var more := calls + [call];
    assert more[..|more| - 1] == calls && more[|more| - 1] == call;
  }

  lemma GotMore(r0: Reading, got: seq<Byte>, v: View, call: Call, str: seq<Byte>, w: View, wanted: nat)
    requires Received(r0, got, v) && |got| <= wanted && (!v.open <==> |got| < wanted)
    requires if call.GetStr? then Fetched(v, Wanted(call), str, w) else str == [] && SameInput(v, w)
    ensures var all := got + str;
      Received(r0, all, w) && |all| <= wanted + Wanted(call) && (!w.open <==> |all| < wanted + Wanted(call))
  {
    hide Received, Went;
    Units(got);
    if !call.GetStr? {
      ReceivedStill(r0, got, v, w);
    } else if v.open {
      ReceivedMore(r0, got, v, str, w);
    }
  }

  lemma Begins(r: Request)
    requires r.Untouched()
    ensures Ready(r, r.ipcFd.records) && Starts(Snapshot(r, r.ipcFd.records, [], []))
    ensures Performed(r, r.ipcFd.records, [], r.input.V().Rest(), [])
    ensures Run([Snapshot(r, r.ipcFd.records, [], [])]) && Given([], false) == Given([], true) == []
  {
    assert r.ipcFd.records[|r.ipcFd.records|..] == [];
    Units(r.input.V().Rest().content);
  }
}
