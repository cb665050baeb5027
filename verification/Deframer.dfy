/**
 What a byte sequence arriving on a connection means to a reader of one stream, as a function of the
 whole sequence. Nothing here knows about buffers or about how the bytes were split into reads.
 */
module Deframer {
  import opened Protocol
  import opened NameValue
  import opened GetValues

  /** A record the reader writes back on its own account. */
  datatype Reply =
    | CantMultiplex(id: Id)
    | Values(names: seq<seq<Byte>>)
    | Unknown(typ: Byte)

  datatype Outcome =
    | EndOfStream(rest: seq<Byte>)
    | EndOfRecord(rest: seq<Byte>)
    | Begun(rest: seq<Byte>, id: Id, role: int, keep: bool)
    | Failed(code: int)
    | Truncated
    | Undefined  // the source's C code has no defined behaviour on this input

  /** All that a reader gets out of its input: the bytes delivered, the replies sent, how it ends. */
  datatype Reading = Reading(content: seq<Byte>, replies: seq<Reply>, outcome: Outcome)

  /** The stream wanted: its type and request; whether that request has begun; whether an error is on record. */
  datatype Ctx = Ctx(typ: int, id: Id, begun: bool, poisoned: bool)

  function Done(o: Outcome): Reading {
    Reading([], [], o)
  }

  function Prepend(bytes: seq<Byte>, r: Reading): Reading {
    r.(content := bytes + r.content)
  }

  function Answer(a: Reply, r: Reading): Reading {
    r.(replies := [a] + r.replies)
  }

  /** The reading of s with c content and p padding bytes of the current record still to come. */
  function Read(s: seq<Byte>, c: nat, p: nat, skip: bool, eor: bool, x: Ctx): (r: Reading)
    ensures r.outcome.EndOfRecord? ==> eor && |r.outcome.rest| <= |s|
    ensures eor ==> r.replies == [] && (r.outcome.EndOfRecord? || r.outcome.Truncated?)
    decreases |s|, 2
  {
    if s == [] then Done(Truncated)
    else if c == 0 then Padding(s, p, skip, eor, x)
    else if !skip then
      var m := Min(c, |s|);
      Prepend(s[..m], Read(s[m..], c - m, p, false, eor, x))
    else if |s| < c then Done(Truncated)
    else Padding(s[c..], p, false, eor, x)
  }

  function Padding(s: seq<Byte>, p: nat, skip: bool, eor: bool, x: Ctx): (r: Reading)
    ensures r.outcome.EndOfRecord? ==> eor && |r.outcome.rest| <= |s|
    ensures eor ==> r.replies == [] && (r.outcome.EndOfRecord? || r.outcome.Truncated?)
    decreases |s|, 1
  {
    if |s| < p then Done(Truncated) else Boundary(s[p..], skip, eor, x)
  }

  /** Between two records: a nested reader stops here, any other reads the next header. */
  function Boundary(s: seq<Byte>, skip: bool, eor: bool, x: Ctx): (r: Reading)
    ensures r.outcome.EndOfRecord? ==> eor && |r.outcome.rest| <= |s|
    ensures eor ==> r.replies == [] && (r.outcome.EndOfRecord? || r.outcome.Truncated?)
    decreases |s|, 0
  {
    if eor then Done(EndOfRecord(s))
    else if |s| < HEADER_LEN then Done(Truncated)
    else Dispatch(DecodeHeader(s[..HEADER_LEN]), s[HEADER_LEN..], skip, x)
  }

  function Dispatch(h: Header, t: seq<Byte>, skip: bool, x: Ctx): (r: Reading)
    ensures !r.outcome.EndOfRecord?
    decreases |t|, 4
  {
    if h.version != VERSION_1 then Done(Failed(UNSUPPORTED_VERSION))
    else if h.typ == BEGIN_REQUEST then Begin(h, t, skip, x)
    else if h.id == NULL_REQUEST_ID then Management(h, t, skip, x)
    else if h.id != x.id then Read(t, h.contentLen, h.paddingLen, true, false, x)
    else if h.typ != x.typ then Done(Failed(PROTOCOL_ERROR))
    else if h.contentLen == 0 then Done(EndOfStream(t))
    else Read(t, h.contentLen, h.paddingLen, skip, false, x)
  }

  function Begin(h: Header, t: seq<Byte>, skip: bool, x: Ctx): (r: Reading)
    ensures !r.outcome.EndOfRecord?
    decreases |t|, 3
  {
    if h.id == NULL_REQUEST_ID || h.contentLen != 8 then Done(Failed(PROTOCOL_ERROR))
    else if x.begun then Answer(CantMultiplex(h.id), Read(t, 8, h.paddingLen, true, false, x))
    else if skip then Done(if |t| < 8 + h.paddingLen as int then Truncated else Failed(PROTOCOL_ERROR))
    else if |t| < 8 then Done(Truncated)
    else Done(Begun(t[8..], h.id, Word(t[0], t[1]), t[2] % 2 == 1))
  }

  function Management(h: Header, t: seq<Byte>, skip: bool, x: Ctx): (r: Reading)
    ensures !r.outcome.EndOfRecord?
    decreases |t|, 3
  {
    if h.typ != GET_VALUES then Answer(Unknown(h.typ), Read(t, h.contentLen, h.paddingLen, skip, false, x))
    else
      var query := Read(t, h.contentLen, h.paddingLen, skip, true, x);
      if !Parse(query.content).defined then Done(Undefined) else
      match query.outcome
      case EndOfRecord(rest) =>
        var asked := Asked(query.content);
        if x.poisoned then Done(Failed(PROTOCOL_ERROR))
        else if !Parse(query.content).whole then Done(Failed(PARAMS_ERROR))
        else if asked.None? then Done(Undefined)
        else Answer(Values(asked.value), Read(rest, 0, 0, skip && h.contentLen == 0, false, x))
      case _ => Done(Truncated)
  }

  // ---- Reading on from any point ----

  /** The record that a reply is sent as; the padding bytes of a GET_VALUES answer are arbitrary. */
  predicate Answers(r: Record, a: Reply) {
    match a
    case CantMultiplex(id) => r == EndRequest(id, 0, CANT_MPX_CONN)
    case Unknown(typ) => r == Record(UNKNOWN_TYPE, NULL_REQUEST_ID, [typ] + Zeros(7), [])
    case Values(names) =>
      && (forall i :: 0 <= i < |names| ==> Known(names[i]))
      && r.typ == GET_VALUES_RESULT && r.id == NULL_REQUEST_ID && r.content == AnswerContent(names)
      && |r.padding| == AlignInt8(|r.content|) - |r.content|
  }

  predicate AllAnswered(rs: seq<Record>, replies: seq<Reply>) {
    |rs| == |replies| && forall i :: 0 <= i < |rs| ==> Answers(rs[i], replies[i])
  }

  ghost predicate IsAnswer(r: Record) {
    exists a :: Answers(r, a)
  }

  /** The wire has grown by answers only. */
  ghost predicate Answering(before: seq<Record>, after: seq<Record>) {
    before <= after && forall i :: |before| <= i < |after| ==> IsAnswer(after[i])
  }

  lemma AnsweringNothing(before: seq<Record>)
    ensures Answering(before, before)
  {
  }

  lemma AnsweringOne(before: seq<Record>, r: Record, a: Reply)
    requires Answers(r, a)
    ensures Answering(before, before + [r])
  {
  }

  lemma AnsweringMore(a: seq<Record>, b: seq<Record>, c: seq<Record>)
    requires Answering(a, b) && Answering(b, c)
    ensures Answering(a, c)
  {
    hide IsAnswer;
    assert forall i :: |a| <= i < |b| ==> c[i] == b[i];
  }

  /**
   Reading r1 is what remains of r0 after content has been delivered and the wire has grown from
   before to after; nothing is said of the replies once a call has failed.
   */
  ghost predicate Follows(r0: Reading, content: seq<Byte>, r1: Reading,
                          before: seq<Record>, after: seq<Record>, ok: bool)
  {
    && r0.content == content + r1.content && r0.outcome == r1.outcome
    && before <= after
    && (ok ==>
          var n := |after| - |before|;
          n <= |r0.replies| && AllAnswered(after[|before|..], r0.replies[..n]) && r1.replies == r0.replies[n..])
  }

  lemma FollowsRefl(r: Reading, records: seq<Record>, ok: bool)
    ensures Follows(r, [], r, records, records, ok)
  {
  }

  /** One reply goes out before reading r goes on. */
  lemma FollowsReply(a: Reply, record: Record, r: Reading, before: seq<Record>, ok: bool)
    requires Answers(record, a)
    ensures Follows(Answer(a, r), [], r, before, before + [record], ok)
  {
    var d := Answer(a, r);
    assert (before + [record])[|before|..] == [record];
    assert d.replies[..1] == [a] && d.replies[1..] == r.replies;
    assert [] + r.content == r.content;
  }

  lemma FollowsTrans(r0: Reading, c1: seq<Byte>, r1: Reading, c2: seq<Byte>, r2: Reading,
                     w0: seq<Record>, w1: seq<Record>, w2: seq<Record>, ok1: bool, ok2: bool)
    requires Follows(r0, c1, r1, w0, w1, ok1) && Follows(r1, c2, r2, w1, w2, ok2) && (ok2 ==> ok1)
    ensures Follows(r0, c1 + c2, r2, w0, w2, ok2)
  {
    hide Answers;
    Associate(c1, c2, r2.content);
    if ok2 {
      var m, n := |w1| - |w0|, |w2| - |w1|;
      assert r0.replies[m..][n..] == r0.replies[m + n..];
      forall i | 0 <= i < m + n ensures Answers(w2[|w0|..][i], r0.replies[..m + n][i]) {
        if i < m {
          assert w2[|w0|..][i] == w1[|w0|..][i];
          assert r0.replies[..m][i] == r0.replies[..m + n][i];
        } else {
          assert w2[|w0|..][i] == w2[|w1|..][i - m];
          assert r1.replies[..n][i - m] == r0.replies[..m + n][i];
        }
      }
    }
  }

  /** The same when nothing more has been delivered, with what is then plain of the outcome and content. */
  lemma FollowsOn(r0: Reading, c: seq<Byte>, r1: Reading, r2: Reading,
                  w0: seq<Record>, w1: seq<Record>, w2: seq<Record>, ok1: bool, ok2: bool)
    requires Follows(r0, c, r1, w0, w1, ok1) && Follows(r1, [], r2, w1, w2, ok2) && (ok2 ==> ok1)
    ensures Follows(r0, c, r2, w0, w2, ok2)
    ensures r0.outcome == r1.outcome == r2.outcome && r0.content == c + r1.content && r1.content == r2.content
    ensures w0 <= w2
  {
    FollowsTrans(r0, c, r1, [], r2, w0, w1, w2, ok1, ok2);
    assert c + [] == c;
    assert [] + r2.content == r2.content;
  }

  /** Content may be delivered in pieces. */
  lemma DeliverStep(s: seq<Byte>, c: nat, p: nat, eor: bool, x: Ctx, k: nat)
    requires 0 < k <= c && k <= |s|
    ensures Read(s, c, p, false, eor, x) == Prepend(s[..k], Read(s[k..], c - k, p, false, eor, x))
  {
    var m := Min(c, |s|);
    if k < m {
      assert s[k..][..m - k] == s[k..m] && s[k..][m - k..] == s[m..];
      assert s[..m] == s[..k] + s[k..m];
      Associate(s[..k], s[k..m], Read(s[m..], c - m, p, false, eor, x).content);
    }
  }

  /** Content may be skipped in pieces, of which the last clears the skip flag. */
  lemma SkipStep(s: seq<Byte>, c: nat, p: nat, eor: bool, x: Ctx, k: nat)
    requires 0 < k <= c && k <= |s|
    ensures Read(s, c, p, true, eor, x)
         == if k < c then Read(s[k..], c - k, p, true, eor, x) else Padding(s[c..], p, false, eor, x)
  {
    if k < c && |s| >= c {
      assert s[k..][c - k..] == s[c..];
    }
  }

  /** Padding may be dropped in pieces. */
  lemma PaddingStep(s: seq<Byte>, p: nat, skip: bool, eor: bool, x: Ctx, k: nat)
    requires k <= p && k <= |s|
    ensures Padding(s, p, skip, eor, x) == Padding(s[k..], p - k, skip, eor, x)
    ensures k < p ==> Padding(s, p, skip, eor, x) == Read(s[k..], 0, p - k, skip, eor, x)
  {
    if |s| >= p {
      assert s[k..][p - k..] == s[p..];
    }
  }

  lemma BoundaryIsRead(s: seq<Byte>, skip: bool, x: Ctx)
    ensures Boundary(s, skip, false, x) == Read(s, 0, 0, skip, false, x)
  {
    assert s != [] ==> s[0..] == s;
  }

  /**
   A GET_VALUES query has been read up to byte string u with p padding bytes left, by a nested reading
   that ended at the record's end or, its content complete, in a failed call. What remains of the
   outer reading is the reading of u.
   */
  lemma AfterQuery(h: Header, t: seq<Byte>, skip: bool, x: Ctx, got: seq<Byte>, u: seq<Byte>, p: nat, ended: bool)
    requires h.typ == GET_VALUES && !x.poisoned
    requires Parse(got).whole && Answerable(Parse(got).entries).Some?
    requires var q := Read(t, h.contentLen, h.paddingLen, skip, true, x);
      if ended then q.content == got && q.outcome == EndOfRecord(u) && p == 0
      else var r := Read(u, 0, p, skip && h.contentLen == 0, true, x);
           q.content == got + r.content && q.outcome == r.outcome
    ensures var m, r := Management(h, t, skip, x), Read(u, 0, p, skip && h.contentLen == 0, false, x);
      && m.content == r.content && m.outcome == r.outcome
      && (ended ==> m == Answer(Values(Answerable(Parse(got).entries).value), r))
  {
    var sk := skip && h.contentLen == 0;
    if !ended {
      assert got + [] == got;
      if u != [] && |u| >= p {
        assert Read(u, 0, p, sk, true, x) == Padding(u, p, sk, true, x) == Done(EndOfRecord(u[p..]));
        assert Read(u, 0, p, sk, false, x) == Padding(u, p, sk, false, x);
        BoundaryIsRead(u[p..], sk, x);
      } else {
        assert u != [] ==> Read(u, 0, p, sk, true, x) == Padding(u, p, sk, true, x);
        assert u != [] ==> Read(u, 0, p, sk, false, x) == Padding(u, p, sk, false, x);
      }
    }
  }
}
