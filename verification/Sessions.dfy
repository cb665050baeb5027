/**
 Whole runs of a request's two output streams on one connection, interleaved in any way with each other and with
 the replies that the input stream sends.
 */
module Sessions {
  import opened Protocol
  import opened Writers

  datatype Class = Out | Err | Completion | Reply

  function ClassOf(r: Record): Class {
    if r.typ == STDOUT then Out
    else if r.typ == STDERR then Err
    else if r.typ == END_REQUEST && |r.content| == 8 && r.content[4] == REQUEST_COMPLETE then Completion
    else Reply
  }

  function Of(rs: seq<Record>, k: Class): seq<Record> {
    if rs == [] then [] else (if ClassOf(rs[0]) == k then [rs[0]] else []) + Of(rs[1..], k)
  }

  /**
   The records on the wire since the request was accepted, what its two writers have made of their bytes, and the bytes
   that were put on each of them before it was closed.
   */
  datatype Session = Session(records: seq<Record>, out: Output, err: Output, outPut: seq<Byte>, errPut: seq<Byte>,
                             nWriters: int, appStatus: int)

  ghost predicate Starts(s: Session) {
    && s.records == [] && s.outPut == s.errPut == [] && s.nWriters == 2 && s.out.id == s.err.id
    && s.out == Output(STDOUT, s.out.id, s.out.room, [], [], [], false)
    && s.err == Output(STDERR, s.err.id, s.err.room, [], [], [], false)
    && 16 <= s.out.room <= 65528 && 16 <= s.err.room <= 65528
  }

  /** One call on an output stream that puts str: bytes gathered or flushed, the stream closed, or nothing done to a closed one. */
  ghost predicate Acts(v: Output, w: Output, str: seq<Byte>, d: seq<Record>, before: int, after: int, appStatus: int) {
    || (!v.closed && w == v.(data := v.data + d, pending := w.pending) && v.AllData(d) && after == before
        && |w.pending| <= w.room && w.Accepted() == v.Accepted() + str)
    || (Closed(v, w, d, before == 1, appStatus) && str == [] && after == before - 1)
    || (v.closed && w == v && str == [] && d == [] && after == before)
  }

  predicate Aligned(r: Record) {
    r.Fits() && (HEADER_LEN + |r.content| + |r.padding|) % 8 == 0
  }

  /** One step of a run: a call on one of the streams, a change of the exit status, or replies of the reader. */
  ghost predicate Step(s: Session, t: Session) {
    && s.records <= t.records && s.outPut <= t.outPut && s.errPut <= t.errPut
    && var d, o, e := t.records[|s.records|..], t.outPut[|s.outPut|..], t.errPut[|s.errPut|..];
       || (Acts(s.out, t.out, o, d, s.nWriters, t.nWriters, s.appStatus)
           && t.err == s.err && t.errPut == s.errPut && t.appStatus == s.appStatus)
       || (Acts(s.err, t.err, e, d, s.nWriters, t.nWriters, s.appStatus)
           && t.out == s.out && t.outPut == s.outPut && t.appStatus == s.appStatus)
       || (d == [] && t == s.(appStatus := t.appStatus))
       || ((forall i :: 0 <= i < |d| ==> ClassOf(d[i]).Reply? && Aligned(d[i])) && t == s.(records := t.records))
  }

  ghost predicate Run(run: seq<Session>) {
    && run != [] && Starts(run[0])
    && forall k :: 0 <= k < |run| - 1 ==> Step(run[k], run[k + 1])
  }

  function OpenCount(v: Output): int {
    if v.closed then 0 else 1
  }

  function Eof(v: Output): seq<Record> {
    if !v.closed || (v.typ == STDERR && v.data == []) then [] else [Record(v.typ, v.id, [], [])]
  }

  /** One stream of the session is as it should be. */
  ghost predicate Regular(v: Output) {
    && v.AllData(v.data) && |v.pending| <= v.room <= 65528 && (v.closed ==> v.pending == [])
  }

  /** The wire holds each stream's records in order, and the completion record once both are closed, after all of them. */
  ghost predicate Orderly(s: Session) {
    && Regular(s.out) && Regular(s.err)
    && s.out.typ == STDOUT && s.err.typ == STDERR && s.out.id == s.err.id
    && s.out.Accepted() == s.outPut && s.err.Accepted() == s.errPut
    && s.nWriters == OpenCount(s.out) + OpenCount(s.err)
    && Carries(s.records, s.out, s.err) && EndsWith(s.records, s.nWriters, s.out.id)
  }

  /** The records, all of them aligned, hold those of both streams. */
  ghost predicate Carries(rs: seq<Record>, out: Output, err: Output) {
    && (forall i :: 0 <= i < |rs| ==> Aligned(rs[i]))
    && Of(rs, Out) == out.data + Eof(out) && Of(rs, Err) == err.data + Eof(err)
  }

  ghost predicate EndsWith(rs: seq<Record>, open: int, id: Id) {
    (open > 0 ==> Of(rs, Completion) == []) && (open == 0 ==> CompletedOnce(rs, id))
  }

  /** Just one completion record, with nothing but replies after it. */
  ghost predicate CompletedOnce(rs: seq<Record>, id: Id) {
    exists k :: 0 <= k < |rs| && CompletedAt(rs, id, k)
  }

  ghost predicate CompletedAt(rs: seq<Record>, id: Id, k: nat)
    requires k < |rs|
  {
    && ClassOf(rs[k]).Completion? && rs[k].id == id && |rs[k].content| == 8
    && (forall j :: 0 <= j < k ==> !ClassOf(rs[j]).Completion?)
    && (forall j :: k < j < |rs| ==> ClassOf(rs[j]).Reply?)
  }

  lemma {:induction false} OfConcat(a: seq<Record>, b: seq<Record>, k: Class)
    ensures Of(a + b, k) == Of(a, k) + Of(b, k)
  {
    if a == [] {
      assert a + b == b;
    } else {
      OfConcat(a[1..], b, k);
      assert (a + b)[1..] == a[1..] + b;
      Associate(if ClassOf(a[0]) == k then [a[0]] else [], Of(a[1..], k), Of(b, k));
    }
  }

  /** Records all of one class. */
  lemma {:induction false} OfUniform(rs: seq<Record>, c: Class, k: Class)
    requires forall i :: 0 <= i < |rs| ==> ClassOf(rs[i]) == c
    ensures Of(rs, k) == if c == k then rs else []
  {
    if rs != [] {
      OfUniform(rs[1..], c, k);
    }
  }

  function ClassFor(v: Output): Class {
    if v.typ == STDOUT then Out else Err
  }

  lemma {:induction false} NoCompletion(rs: seq<Record>)
    requires Of(rs, Completion) == []
    ensures forall i :: 0 <= i < |rs| ==> !ClassOf(rs[i]).Completion?
  {
    if rs != [] {
      NoCompletion(rs[1..]);
      forall i | 0 <= i < |rs| ensures !ClassOf(rs[i]).Completion? {
        if i > 0 {
          assert rs[i] == rs[1..][i - 1];
        }
      }
    }
  }

  /** What the records d of one call on a stream add to each class. */
  ghost predicate Adds(v: Output, w: Output, d: seq<Record>, completes: bool, appStatus: int) {
    && (forall i :: 0 <= i < |d| ==> Aligned(d[i]))
    && v.data + Eof(v) + Of(d, ClassFor(v)) == w.data + Eof(w)
    && Of(d, OtherClass(v)) == []
    && if completes then
         d != [] && d[|d| - 1] == EndRequest(v.id, appStatus, REQUEST_COMPLETE)
         && forall i :: 0 <= i < |d| - 1 ==> !ClassOf(d[i]).Completion?
       else Of(d, Completion) == []
  }

  function OtherClass(v: Output): Class {
    if v.typ == STDOUT then Err else Out
  }

  lemma CallAccepts(v: Output, w: Output, str: seq<Byte>, d: seq<Record>, before: int, after: int, appStatus: int)
    requires Acts(v, w, str, d, before, after, appStatus) && |v.pending| <= v.room <= 65528
    ensures w.Accepted() == v.Accepted() + str
  {
    hide Output.IsData, Output.Ending;
    Units(v.Accepted());
    if !v.closed && w.closed {
      EncapsulatedFits(v);
      PayloadConcat(v.data, v.Encapsulated(), v.typ);
      Units(Payload(w.data, v.typ));
    }
  }

  lemma CallAdds(v: Output, w: Output, str: seq<Byte>, d: seq<Record>, before: int, after: int, appStatus: int)
    requires Acts(v, w, str, d, before, after, appStatus) && Regular(v) && (v.typ == STDOUT || v.typ == STDERR)
    ensures Regular(w) && w.typ == v.typ && w.id == v.id && w.room == v.room
    ensures before - after == OpenCount(v) - OpenCount(w)
    ensures Adds(v, w, d, before == 1 && after == 0, appStatus)
  {
    hide Of, Output.Ending, ClassOf, Aligned;
    Units(v.data + Eof(v));
    if v.closed {
      NothingOf();
    } else if !w.closed {
      DataRecords(v, d);
      Units(v.data);
      Units(w.data);
    } else {
      hide Adds;
      EncapsulatedFits(v);
      CloseAdds(v, w, d, before == 1, appStatus);
    }
  }

  lemma NothingOf()
    ensures forall k :: Of([], k) == []
  {
  }

  lemma CloseAdds(v: Output, w: Output, d: seq<Record>, last: bool, appStatus: int)
    requires Closed(v, w, d, last, appStatus) && v.AllData(v.Encapsulated()) && v.room <= 65528
    requires v.typ == STDOUT || v.typ == STDERR
    ensures Adds(v, w, d, last, appStatus)
  {
    hide Of, Aligned, ClassOf, Output.IsData, Output.AllData;
    var rs, eof := v.Encapsulated(), Eof(w);
    DataAndEof(v, rs, eof);
    assert v.data + rs == w.data;
    Associate(v.data, rs, eof);
    assert rs + eof + [] == rs + eof;
    if last {
      var end := EndRequest(v.id, appStatus, REQUEST_COMPLETE);
      assert d == rs + eof + [end] by {
        Associate(rs, eof, [end]);
      }
      AddEnd(v, w, rs + eof, appStatus);
    } else {
      assert d == rs + eof;
    }
  }

  /** Content records of a stream and at most one empty one add to its class only. */
  lemma DataAndEof(v: Output, rs: seq<Record>, eof: seq<Record>)
    requires v.AllData(rs) && v.room <= 65528 && (v.typ == STDOUT || v.typ == STDERR)
    requires eof == [] || eof == [Record(v.typ, v.id, [], [])]
    ensures var e := rs + eof;
      && (forall i :: 0 <= i < |e| ==> Aligned(e[i]))
      && Of(e, ClassFor(v)) == e && Of(e, OtherClass(v)) == [] && Of(e, Completion) == []
  {
    var e := rs + eof;
    DataRecords(v, rs);
    EndRecords(v.typ, v.id, 0);
    assert forall i :: 0 <= i < |e| ==> ClassOf(e[i]) == ClassFor(v);
    OfUniform(e, ClassFor(v), ClassFor(v));
    OfUniform(e, ClassFor(v), OtherClass(v));
    OfUniform(e, ClassFor(v), Completion);
  }

  lemma AddEnd(v: Output, w: Output, e: seq<Record>, appStatus: int)
    requires Adds(v, w, e, false, appStatus) && (v.typ == STDOUT || v.typ == STDERR)
    ensures Adds(v, w, e + [EndRequest(v.id, appStatus, REQUEST_COMPLETE)], true, appStatus)
  {
    hide Of, ClassOf, Aligned, EndRequest;
    var end := EndRequest(v.id, appStatus, REQUEST_COMPLETE);
    var d := e + [end];
    EndRecords(v.typ, v.id, appStatus);
    OfUniform([end], Completion, ClassFor(v));
    OfUniform([end], Completion, OtherClass(v));
    OfConcat(e, [end], ClassFor(v));
    OfConcat(e, [end], OtherClass(v));
    Units(Of(e, ClassFor(v)));
    NoCompletion(e);
    assert d[|d| - 1] == end;
    assert forall i :: 0 <= i < |d| - 1 ==> d[i] == e[i];
  }

  lemma EndRecords(typ: Byte, id: Id, appStatus: int)
    requires typ == STDOUT || typ == STDERR
    ensures Aligned(Record(typ, id, [], [])) && Aligned(EndRequest(id, appStatus, REQUEST_COMPLETE))
    ensures ClassOf(Record(typ, id, [], [])) == if typ == STDOUT then Out else Err
    ensures ClassOf(EndRequest(id, appStatus, REQUEST_COMPLETE)) == Completion
  {
  }

  lemma DataRecord(v: Output, r: Record)
    requires v.IsData(r) && (v.typ == STDOUT || v.typ == STDERR) && v.room <= 65528
    ensures ClassOf(r) == ClassFor(v) && Aligned(r)
  {
  }

  lemma ClassesDiffer(v: Output)
    ensures ClassFor(v) != OtherClass(v) && ClassFor(v) != Completion
  {
  }

  lemma DataRecords(v: Output, rs: seq<Record>)
    requires v.AllData(rs) && (v.typ == STDOUT || v.typ == STDERR) && v.room <= 65528
    ensures forall i :: 0 <= i < |rs| ==> ClassOf(rs[i]) == ClassFor(v) && Aligned(rs[i])
    ensures Of(rs, ClassFor(v)) == rs && Of(rs, Completion) == []
    ensures Of(rs, OtherClass(v)) == []
  {
    hide Of, ClassOf, Aligned, Output.IsData, ClassFor, OtherClass;
    ClassesDiffer(v);
    forall i | 0 <= i < |rs| ensures ClassOf(rs[i]) == ClassFor(v) && Aligned(rs[i]) {
      DataRecord(v, rs[i]);
    }
    OfUniform(rs, ClassFor(v), ClassFor(v));
    OfUniform(rs, ClassFor(v), Completion);
    OfUniform(rs, ClassFor(v), OtherClass(v));
  }

  lemma CallCarries(rs: seq<Record>, d: seq<Record>, v: Output, w: Output, out: Output, err: Output, completes: bool, appStatus: int)
    requires Carries(rs, out, err) && Adds(v, w, d, completes, appStatus) && v.typ == w.typ
    requires out.typ == STDOUT && err.typ == STDERR && (v == out || v == err)
    ensures Carries(rs + d, if v.typ == STDOUT then w else out, if v.typ == STDOUT then err else w)
  {
    hide ClassOf, Of, Aligned, Eof;
    OfConcat(rs, d, Out);
    OfConcat(rs, d, Err);
    Units(Of(rs, Out));
    Units(Of(rs, Err));
  }

  lemma CallEnds(rs: seq<Record>, d: seq<Record>, v: Output, w: Output, before: int, after: int, appStatus: int)
    requires EndsWith(rs, before, v.id) && Adds(v, w, d, before == 1 && after == 0, appStatus)
    requires 0 <= after <= before <= after + 1 && (before == 0 ==> d == [])
    ensures EndsWith(rs + d, after, v.id)
  {
    hide ClassOf, Of, Aligned, Eof;
    if before == 0 {
      Units(rs);
    } else if after == 0 {
      NoCompletion(rs);
      EndRecords(STDOUT, v.id, appStatus);
      assert CompletedAt(rs + d, v.id, |rs + d| - 1);
    } else {
      OfConcat(rs, d, Completion);
    }
  }

  lemma CallKeeps(s: Session, t: Session, v: Output, w: Output, str: seq<Byte>, d: seq<Record>)
    requires Orderly(s) && Acts(v, w, str, d, s.nWriters, t.nWriters, s.appStatus)
    requires t.records == s.records + d
    requires || (v == s.out && w == t.out && t.outPut == s.outPut + str && t.err == s.err && t.errPut == s.errPut)
             || (v == s.err && w == t.err && t.errPut == s.errPut + str && t.out == s.out && t.outPut == s.outPut)
    ensures Orderly(t)
    ensures s.nWriters == 1 && t.nWriters == 0 ==>
              d != [] && d[|d| - 1] == EndRequest(s.out.id, s.appStatus, REQUEST_COMPLETE)
  {
    assert |v.pending| <= v.room <= 65528 && (s.nWriters == 0 ==> d == []);
    hide Acts, Regular, Output.Accepted, Carries, EndsWith;
    CallAccepts(v, w, str, d, s.nWriters, t.nWriters, s.appStatus);
    CallAdds(v, w, str, d, s.nWriters, t.nWriters, s.appStatus);
    CallCarries(s.records, d, v, w, s.out, s.err, s.nWriters == 1 && t.nWriters == 0, s.appStatus);
    CallEnds(s.records, d, v, w, s.nWriters, t.nWriters, s.appStatus);
  }

  lemma RepliesKeep(s: Session, d: seq<Record>)
    requires Orderly(s) && forall i :: 0 <= i < |d| ==> ClassOf(d[i]).Reply? && Aligned(d[i])
    ensures Orderly(s.(records := s.records + d))
  {
    hide ClassOf, Aligned, Regular, Of, CompletedAt, Output.Accepted;
    OfUniform(d, Reply, Out);
    OfUniform(d, Reply, Err);
    OfUniform(d, Reply, Completion);
    OfConcat(s.records, d, Out);
    OfConcat(s.records, d, Err);
    OfConcat(s.records, d, Completion);
    Units(Of(s.records, Out));
    Units(Of(s.records, Err));
    if s.nWriters == 0 {
      StillCompleted(s.records, d, s.out.id);
    }
  }

  lemma StillCompleted(rs: seq<Record>, d: seq<Record>, id: Id)
    requires CompletedOnce(rs, id) && forall i :: 0 <= i < |d| ==> ClassOf(d[i]).Reply?
    ensures CompletedOnce(rs + d, id)
  {
    hide ClassOf;
    var k :| 0 <= k < |rs| && CompletedAt(rs, id, k);
    assert CompletedAt(rs + d, id, k);
  }

  /** Every step keeps the order; the step that closes the last stream ends the request with the status of that moment. */
  lemma StepKeeps(s: Session, t: Session)
    requires Orderly(s) && Step(s, t)
    ensures Orderly(t)
    ensures s.nWriters == 1 && t.nWriters == 0 ==>
              t.records != [] && t.records[|t.records| - 1] == EndRequest(s.out.id, s.appStatus, REQUEST_COMPLETE)
  {
    hide ClassOf, Aligned, Regular, Acts, Carries, EndsWith;
    var d, o, e := t.records[|s.records|..], t.outPut[|s.outPut|..], t.errPut[|s.errPut|..];
    assert t.records == s.records + d && t.outPut == s.outPut + o && t.errPut == s.errPut + e;
    if Acts(s.out, t.out, o, d, s.nWriters, t.nWriters, s.appStatus) && t.err == s.err && t.errPut == s.errPut {
      hide Orderly, Step;
      CallKeeps(s, t, s.out, t.out, o, d);
    } else if Acts(s.err, t.err, e, d, s.nWriters, t.nWriters, s.appStatus) && t.out == s.out && t.outPut == s.outPut {
      hide Orderly, Step;
      CallKeeps(s, t, s.err, t.err, e, d);
    } else if d == [] && t == s.(appStatus := t.appStatus) {
      Units(s.records);
    } else {
      assert t == s.(records := s.records + d);
      RepliesKeep(s, d);
    }
  }

  lemma {:induction false} RunKeeps(run: seq<Session>, k: nat)
    requires Run(run) && k < |run|
    ensures Orderly(run[k]) && run[k].out.id == run[0].out.id
  {
    if k > 0 {
      RunKeeps(run, k - 1);
      assert Step(run[k - 1], run[k]);
      StepKeeps(run[k - 1], run[k]);
    }
  }

  /** What the other end can rely on at any moment. */
  ghost predicate Tidy(s: Session) {
    // each stream's records are on the wire in order, and its end record once it is closed,
    // but not the end record of an error stream on which nothing was put
    && Of(s.records, Out) == s.out.data + (if s.out.closed then [Record(STDOUT, s.out.id, [], [])] else [])
    && Of(s.records, Err) == s.err.data + (if s.err.closed && s.errPut != [] then [Record(STDERR, s.err.id, [], [])] else [])
    // no completion before both are closed, then exactly one, after which come at most replies
    && (!s.out.closed || !s.err.closed ==> Of(s.records, Completion) == [])
    && (s.out.closed && s.err.closed ==> CompletedOnce(s.records, s.out.id))
    // whole records of a multiple of 8 bytes
    && (forall i :: 0 <= i < |s.records| ==> Aligned(s.records[i]))
    // the bytes put, in order, and none of them pending once the stream is closed
    && Payload(s.records, STDOUT) + s.out.pending == s.outPut && (s.out.closed ==> Payload(s.records, STDOUT) == s.outPut)
    && Payload(s.records, STDERR) + s.err.pending == s.errPut && (s.err.closed ==> Payload(s.records, STDERR) == s.errPut)
  }

  lemma OrderlyIsTidy(s: Session)
    requires Orderly(s)
    ensures Tidy(s)
  {
    PayloadOf(s.records);
    PayloadConcat(s.out.data, Eof(s.out), STDOUT);
    PayloadConcat(s.err.data, Eof(s.err), STDERR);
    EofEmpty(s.out);
    EofEmpty(s.err);
    DataNotEmpty(s.err);
  }

  /** The closing of a request, over every run. */
  lemma CloseProtocol(run: seq<Session>, k: nat)
    requires Run(run) && k < |run|
    ensures Tidy(run[k])
    ensures k + 1 < |run| && run[k].nWriters == 1 && run[k + 1].nWriters == 0 ==>
      var rs := run[k + 1].records;
      rs != [] && rs[|rs| - 1] == EndRequest(run[0].out.id, run[k].appStatus, REQUEST_COMPLETE)
  {
    hide Tidy, Orderly;
    RunKeeps(run, k);
    OrderlyIsTidy(run[k]);
    if k + 1 < |run| {
      assert Step(run[k], run[k + 1]);
      StepKeeps(run[k], run[k + 1]);
    }
  }

  lemma EofEmpty(v: Output)
    ensures Payload(Eof(v), v.typ) == []
    ensures Payload(v.data, v.typ) + [] == Payload(v.data, v.typ)
  {
    if Eof(v) != [] {
      var none: seq<Record> := Eof(v)[1..];
      assert none == [];
    }
  }

  lemma DataNotEmpty(v: Output)
    requires Regular(v)
    ensures v.closed ==> (v.data == [] <==> v.Accepted() == [])
  {
    if v.data != [] {
      assert v.IsData(v.data[0]);
    }
  }

  lemma {:induction false} PayloadOf(rs: seq<Record>)
    ensures Payload(rs, STDOUT) == Payload(Of(rs, Out), STDOUT)
    ensures Payload(rs, STDERR) == Payload(Of(rs, Err), STDERR)
  {
    if rs != [] {
      PayloadOf(rs[1..]);
      var r := rs[0];
      PayloadConcat(if ClassOf(r) == Out then [r] else [], Of(rs[1..], Out), STDOUT);
      PayloadConcat(if ClassOf(r) == Err then [r] else [], Of(rs[1..], Err), STDERR);
      var none: seq<Record> := [r][1..];
      assert none == [];
      Units(r.content);
      Units(Payload(rs[1..], STDOUT));
      Units(Payload(rs[1..], STDERR));
    }
  }

  /** What the writer's calls promise are steps of a run. */
  lemma CloseActs(v: Output, w: Output, d: seq<Record>, n: int, appStatus: int)
    requires Closed(v, w, d, n == 1, appStatus)
    ensures Acts(v, w, [], d, n, n - 1, appStatus)
  {
  }

  lemma PutActs(v: Output, str: seq<Byte>, w: Output, d: seq<Record>, n: int, appStatus: int)
    requires Put(v, str, w, d)
    ensures Acts(v, w, str, d, n, n, appStatus)
  {
  }

  lemma FlushActs(v: Output, w: Output, d: seq<Record>, n: int, appStatus: int)
    requires Flushed(v, w, d) && |v.pending| <= v.room <= 65528
    ensures Acts(v, w, [], d, n, n, appStatus)
  {
    EncapsulatedFits(v);
    PayloadConcat(v.data, d, v.typ);
    Units(w.Accepted());
    assert w.Accepted() == v.Accepted();
  }
}
