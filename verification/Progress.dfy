/** What a reading call may make of a reader's position: the bytes delivered, then the stream still open, or ended. */
module Progress {
  import opened Protocol
  import opened NameValue
  import opened GetValues
  import opened Deframer

  /** How far one round of a fill has come: out of the fill, round again, or past the stage at hand. */
  datatype Round = Return | Again | Past

  datatype Status = StreamRecord | Skip | BeginRecord | MgmtRecord | Error(code: int)

  /** A reader's position, with the state of its connection. */
  datatype View = View(
    open: bool,
    avail: seq<Byte>,       // bytes the client may take without another fill
    ahead: seq<Byte>,       // bytes after those, buffered or still to come
    c: nat, p: nat, skip: bool, eor: bool, x: Ctx, errno: int,
    records: seq<Record>, ok: bool, sound: bool, hard: bool)
  {
    ghost function Rest(): Reading {
      if avail == [] then Read(ahead, c, p, skip, eor, x) else Prepend(avail, Read(ahead, c, p, skip, eor, x))
    }

    /** A read found the input at its end, and nothing worse has happened since view m. */
    predicate Starved(m: View) {
      m.ok && !ok && !hard
    }

    function After(): bool {
      skip && c == 0
    }
  }

  /** The bytes got were delivered between m and v, and the stream is open. */
  ghost predicate Open(m: View, got: seq<Byte>, v: View) {
    && v.open && v.errno == m.errno && v.x == m.x && v.eor == m.eor
    && !v.Starved(m)
    && Follows(m.Rest(), got, v.Rest(), m.records, v.records, v.ok)
  }

  /** The bytes got were delivered between m and v, and the stream has closed. */
  ghost predicate Ended(m: View, got: seq<Byte>, v: View) {
    && !v.open && v.avail == [] && got <= m.Rest().content && m.records <= v.records
    && (m.errno != 0 ==> v.errno == m.errno)
    && (v.ok ==>
          && Follows(m.Rest(), got, Done(m.Rest().outcome), m.records, v.records, true)
          && match m.Rest().outcome
             case EndOfStream(rest) => rest == v.ahead
             case EndOfRecord(rest) => rest == v.ahead
             case Failed(_) => true
             case Undefined => true
             case _ => false)
    && (v.Starved(m) ==> m.Rest().content == got && m.Rest().outcome.Truncated? && v.ahead == [])
  }

  /** The error on record after an end without failed calls. */
  ghost predicate ErrorSet(m: View, v: View) {
    v.ok ==>
      match m.Rest().outcome
      case EndOfStream(_) => v.errno == m.errno
      case EndOfRecord(_) => v.errno == m.errno
      case Failed(code) => v.errno == if m.errno != 0 then m.errno else code
      case _ => true
  }

  /** Inside a record nothing is written, and the position stays exact even when a call has failed. */
  ghost predicate Inside(m: View, got: seq<Byte>, v: View) {
    && v.records == m.records && v.After() == m.After() && v.x == m.x.(poisoned := v.x.poisoned)
    && (v.open && !m.skip ==> !v.skip && m.avail + m.ahead == got + (v.avail + v.ahead))
    && (!v.open ==>
          || (m.Rest().content == got && m.Rest().outcome == EndOfRecord(v.ahead) && v.c == 0 && v.p == 0)
          || (!v.ok && AheadIs(m, got, v)))
  }

  ghost predicate AheadIs(m: View, got: seq<Byte>, v: View) {
    var r := Read(v.ahead, v.c, v.p, v.skip, true, m.x);
    m.Rest().content == got + r.content && m.Rest().outcome == r.outcome
  }

  /** What every reading call of a request that has begun, or inside a record, makes of the position. */
  ghost predicate Went(m: View, got: seq<Byte>, v: View) {
    && (if v.open then Open(m, got, v) else Ended(m, got, v) && ErrorSet(m, v))
    && (m.eor ==> Inside(m, got, v))
  }

  /** How the reading d that starts with a header goes on after the header has been dealt with. */
  ghost predicate Handled(status: Status, d: Reading, m: View, v: View) {
    && m.records <= v.records
    && (m.errno != 0 ==> v.errno == m.errno)
    && (!status.Error? ==> v.errno == m.errno)
    && (status.StreamRecord? || status.Skip? || status.MgmtRecord? ==> v.x == m.x)
    && match status
       case StreamRecord =>
         && !v.Starved(m)
         && Follows(d, [], if v.c == 0 then Done(EndOfStream(v.ahead)) else Read(v.ahead, v.c, v.p, v.skip, false, v.x),
                    m.records, v.records, v.ok)
       case Skip =>
         && !v.Starved(m)
         && Follows(d, [], Read(v.ahead, v.c, v.p, true, false, v.x), m.records, v.records, v.ok)
       case MgmtRecord =>
         && (v.Starved(m) ==> v.ahead == [])
         && Follows(d, [], Read(v.ahead, v.c, v.p, v.skip, false, v.x), m.records, v.records, v.ok)
       case BeginRecord =>
         && v.open && v.x.begun && !m.x.begun && !v.Starved(m)
         && d.content == [] && d.outcome.Begun? && d.outcome.rest == v.ahead && d.outcome.id == v.x.id
         && Follows(d, [], Done(d.outcome), m.records, v.records, v.ok)
       case Error(code) =>
         && code < 0
         && (v.ok ==>
               && Follows(d, [], Done(d.outcome), m.records, v.records, true)
               && (d.outcome.Failed? || d.outcome.Undefined?)
               && (d.outcome.Failed? ==>
                     (if v.errno != 0 then v.errno else code) == if m.errno != 0 then m.errno else d.outcome.code))
         && (v.Starved(m) ==> d.content == [] && d.outcome.Truncated? && v.ahead == [])
  }

  /** A header that neither begins a request nor belongs to the connection as a whole. */
  lemma HeaderOfStream(h: Header, m: View, status: Status, v: View)
    requires h.version == VERSION_1 ==> h.typ != BEGIN_REQUEST && h.id != NULL_REQUEST_ID
    requires m.open && v == if h.version == VERSION_1 then m.(c := h.contentLen as int, p := h.paddingLen as int) else m
    requires status ==
      if h.version != VERSION_1 then Error(UNSUPPORTED_VERSION)
      else if h.id != m.x.id then Skip
      else if h.typ != m.x.typ then Error(PROTOCOL_ERROR)
      else StreamRecord
    ensures Handled(status, Dispatch(h, m.ahead, m.skip, m.x), m, v)
  {
    hide Read, Begin, Management;
    var d := Dispatch(h, m.ahead, m.skip, m.x);
    FollowsRefl(d, m.records, m.ok);
  }

  lemma WriteFailed(d: Reading, m: View, v: View)
    requires m.records <= v.records && (m.errno != 0 ==> v.errno == m.errno) && !v.ok && v.hard
    ensures Handled(Error(-1), d, m, v)
  {
  }

  // ---- Inside one fill ----

  /** A fill that started at m has come to v, with reading r still ahead. */
  ghost predicate Going(m: View, r: Reading, v: View) {
    && v.open && v.avail == [] && m.avail == [] && v.errno == m.errno && v.x == m.x && v.eor == m.eor
    && (v.Starved(m) ==> v.ahead == [])
    && Follows(m.Rest(), [], r, m.records, v.records, v.ok)
    && (v.eor ==>
          && !v.Starved(m) && v.records == m.records && v.After() == m.After()
          && (v.c > 0 && !m.skip ==> v.ahead == m.ahead && !v.skip))
  }

  /** The reading ahead when the bytes hdr of a header have been taken. */
  ghost function Pending(hdr: seq<Byte>, v: View): Reading {
    if hdr == [] then Read(v.ahead, v.c, v.p, v.skip, v.eor, v.x) else Boundary(hdr + v.ahead, v.skip, v.eor, v.x)
  }

  lemma FillStarts(m: View)
    requires m.open && m.avail == []
    ensures Going(m, Pending([], m), m)
  {
    FollowsRefl(m.Rest(), m.records, m.ok);
  }

  /** No byte can be read any more. */
  lemma FillStops(m: View, hdr: seq<Byte>, v: View, w: View)
    requires Going(m, Pending(hdr, v), v) && |hdr| < HEADER_LEN && (hdr != [] ==> !v.eor)
    requires w == v.(open := false, ok := false, hard := w.hard, errno := w.errno, x := w.x)
    requires w.hard == (v.hard || v.ahead != []) && w.x == v.x.(poisoned := w.x.poisoned)
    requires v.errno != 0 ==> w.errno == v.errno
    ensures Went(m, [], w)
  {
    var r := Pending(hdr, v);
    if v.ahead == [] {
      assert hdr + v.ahead == hdr;
      assert r == Done(Truncated);
    }
    assert [] + r.content == r.content;
  }

  lemma FillDelivers(m: View, v: View, k: nat, w: View)
    requires Going(m, Pending([], v), v) && v.ahead != [] && !v.skip && 0 < k <= v.c && k <= |v.ahead|
    requires w == v.(avail := v.ahead[..k], ahead := v.ahead[k..], c := v.c - k)
    ensures Went(m, [], w)
  {
    DeliverStep(v.ahead, v.c, v.p, v.eor, v.x, k);
    assert w.Rest() == Pending([], v);
    assert v.ahead == v.ahead[..k] + v.ahead[k..];
  }

  /** With no content left and no header begun, padding is next, and after it the boundary. */
  lemma AtPadding(v: View)
    requires v.c == 0 && v.ahead != []
    ensures Pending([], v) == Padding(v.ahead, v.p, v.skip, v.eor, v.x)
  {
  }

  lemma InHeader(hdr: seq<Byte>, v: View)
    requires hdr != []
    ensures Pending(hdr, v) == Boundary(hdr + v.ahead, v.skip, v.eor, v.x)
  {
  }

  lemma NotStarved(m: View, r: Reading, v: View)
    requires Going(m, r, v) && v.ahead != []
    ensures !v.Starved(m)
  {
  }

  lemma GoingFacts(m: View, r: Reading, v: View)
    requires Going(m, r, v)
    ensures v.x == m.x && v.eor == m.eor && v.open
  {
  }

  lemma AtBoundary(v: View)
    ensures Padding(v.ahead, 0, v.skip, v.eor, v.x) == Boundary([] + v.ahead, v.skip, v.eor, v.x)
  {
    assert [] + v.ahead == v.ahead == v.ahead[0..];
  }

  lemma FillSkips(m: View, v: View, k: nat, w: View)
    requires Going(m, Pending([], v), v) && v.skip && 0 < k <= v.c && k <= |v.ahead|
    requires w == v.(ahead := v.ahead[k..], c := v.c - k, skip := k < v.c)
    ensures Going(m, if k < v.c then Pending([], w) else Padding(w.ahead, w.p, false, w.eor, w.x), w)
  {
    SkipStep(v.ahead, v.c, v.p, v.eor, v.x, k);
  }

  lemma FillPads(m: View, v: View, k: nat, w: View)
    requires v.c == 0 && k <= v.p && k <= |v.ahead|
    requires Going(m, Padding(v.ahead, v.p, v.skip, v.eor, v.x), v)
    requires w == v.(ahead := v.ahead[k..], p := v.p - k)
    ensures Going(m, if k < v.p then Pending([], w) else Boundary([] + w.ahead, w.skip, w.eor, w.x), w)
  {
    assert [] + w.ahead == w.ahead;
    PaddingStep(v.ahead, v.p, v.skip, v.eor, v.x, k);
  }

  lemma FillAtRecordEnd(m: View, v: View, w: View)
    requires v.eor && v.c == 0 && v.p == 0 && Going(m, Boundary([] + v.ahead, v.skip, true, v.x), v)
    requires w == v.(open := false)
    ensures Went(m, [], w)
  {
    assert [] + v.ahead == v.ahead;
  }

  lemma FillHeader(m: View, have: seq<Byte>, v: View, k: nat, w: View)
    requires !v.eor && v.c == 0 && v.p == 0 && k <= |v.ahead| && |have| + k <= HEADER_LEN
    requires Going(m, Boundary(have + v.ahead, v.skip, false, v.x), v)
    requires w == v.(ahead := v.ahead[k..])
    ensures var hdr := have + v.ahead[..k];
      Going(m, if |hdr| < HEADER_LEN then Pending(hdr, w) else Dispatch(DecodeHeader(hdr), w.ahead, w.skip, w.x), w)
  {
    var hdr := have + v.ahead[..k];
    var s := have + v.ahead;
    assert hdr + w.ahead == s by {
      assert v.ahead == v.ahead[..k] + v.ahead[k..];
      Associate(have, v.ahead[..k], v.ahead[k..]);
    }
    if |hdr| == HEADER_LEN {
      assert s[..HEADER_LEN] == hdr && s[HEADER_LEN..] == w.ahead;
    } else if hdr == [] {
      assert hdr + w.ahead == w.ahead;
      BoundaryIsRead(w.ahead, w.skip, w.x);
    }
  }

  /** What the action on a header makes of the fill, the stream being read on unless an end was met. */
  ghost predicate Acted(m: View, done: bool, w: View) {
    if !done then Going(m, Pending([], w), w)
    else if w.open then Handled(BeginRecord, m.Rest(), m, w)
    else Went(m, [], w)
  }

  /** The position after the action on a header, the confinement to its record being lifted. */
  function Resumed(status: Status, u: View, errno: int, x: Ctx): View {
    u.(open := !(status.Error? || (status.StreamRecord? && u.c == 0)), avail := [], eor := false,
       skip := u.skip || status.Skip?, errno := errno, x := x)
  }

  lemma FillActs(m: View, h: Header, v: View, status: Status, u: View, w: View)
    requires Going(m, Dispatch(h, v.ahead, v.skip, v.x), v) && !v.eor && !v.Starved(m)
    requires Handled(status, Dispatch(h, v.ahead, v.skip, v.x), v.(eor := true), u)
    requires (u.ok ==> v.ok) && (v.hard ==> u.hard)
    requires w == Resumed(status, u, w.errno, w.x)
    requires if status.Error? then w.errno == if u.errno == 0 then status.code else u.errno
             else w.errno == u.errno && w.x == u.x
    ensures Acted(m, status.BeginRecord? || !w.open, w)
    ensures m.Rest().outcome == Dispatch(h, v.ahead, v.skip, v.x).outcome
  {
    var d := Dispatch(h, v.ahead, v.skip, v.x);
    hide Read, Dispatch, Boundary, Padding, AllAnswered;
    if status.Error? {
      if u.ok {
        FollowsOn(m.Rest(), [], d, Done(d.outcome), m.records, v.records, u.records, v.ok, true);
      }
      assert m.Rest().content == d.content;
    } else {
      var r := if status.BeginRecord? then Done(d.outcome)
        else if status.StreamRecord? && u.c == 0 then Done(EndOfStream(u.ahead))
        else Read(w.ahead, w.c, w.p, w.skip, false, w.x);
      FollowsOn(m.Rest(), [], d, r, m.records, v.records, u.records, v.ok, u.ok);
    }
  }

  // ---- Across calls ----

  lemma WentTrans(m: View, g1: seq<Byte>, v: View, g2: seq<Byte>, w: View)
    requires Went(m, g1, v) && v.open && Went(v, g2, w)
    requires (w.ok ==> v.ok) && (v.ok ==> m.ok) && (v.hard ==> w.hard)
    ensures Went(m, g1 + g2, w)
  {
    hide Read, AllAnswered;
    if w.open {
      FollowsTrans(m.Rest(), g1, v.Rest(), g2, w.Rest(), m.records, v.records, w.records, v.ok, w.ok);
    } else {
      assert g1 + g2 <= m.Rest().content;
      if w.ok {
        FollowsTrans(m.Rest(), g1, v.Rest(), g2, Done(m.Rest().outcome), m.records, v.records, w.records, v.ok, true);
      }
    }
    if m.eor {
      InsideTrans(m, g1, v, g2, w);
    }
  }

  lemma InsideTrans(m: View, g1: seq<Byte>, v: View, g2: seq<Byte>, w: View)
    requires m.eor && Went(m, g1, v) && v.open && Went(v, g2, w)
    ensures Inside(m, g1 + g2, w)
  {
    hide Read, AllAnswered;
    if w.open {
      if !m.skip {
        Associate(g1, g2, w.avail + w.ahead);
      }
    } else if v.Rest().content == g2 && v.Rest().outcome == EndOfRecord(w.ahead) && w.c == 0 && w.p == 0 {
    } else {
      Associate(g1, g2, Read(w.ahead, w.c, w.p, w.skip, true, m.x).content);
    }
  }

  /** The client takes bytes that are there. */
  lemma TakeStep(v: View, k: nat)
    requires v.open && k <= |v.avail|
    ensures Went(v, v.avail[..k], v.(avail := v.avail[k..]))
  {
    hide Read;
    var w := v.(avail := v.avail[k..]);
    assert v.avail == v.avail[..k] + v.avail[k..];
    var ahead := Read(v.ahead, v.c, v.p, v.skip, v.eor, v.x);
    assert v.Rest().content == v.avail + ahead.content;
    assert w.Rest().content == v.avail[k..] + ahead.content;
    Associate(v.avail[..k], v.avail[k..], ahead.content);
    Associate(v.avail[..k], v.avail[k..], v.ahead);
  }

  lemma WentFacts(m: View, got: seq<Byte>, v: View)
    requires Went(m, got, v) && v.open
    ensures v.x == m.x && v.eor == m.eor
  {
  }

  /** The bytes delivered are a prefix of the content, and as long as no call fails all of it at the end. */
  lemma ReadSoFar(m: View, got: seq<Byte>, v: View)
    requires Went(m, got, v)
    ensures got <= m.Rest().content && (!v.open && v.ok ==> got == m.Rest().content)
  {
    hide Read, AllAnswered;
    Units(got);
  }

  lemma WentNowhere(v: View)
    requires v.open
    ensures Went(v, [], v)
  {
    TakeStep(v, 0);
    assert v.avail[0..] == v.avail && v.avail[..0] == [];
  }

  /** A byte pushed back is read again before the rest. */
  lemma PushBack(v: View, c: Byte)
    ensures v.(avail := [c] + v.avail).Rest() == Prepend([c], v.Rest())
  {
    hide Read;
    Associate([c], v.avail, Read(v.ahead, v.c, v.p, v.skip, v.eor, v.x).content);
  }

  /** The bytes got have been read as pairs from m to the end; rc tells whether they were whole pairs. */
  ghost predicate ReadOut(m: View, got: seq<Byte>, v: View, rc: int) {
    && Ended(m, got, v) && (m.eor ==> Inside(m, got, v))
    && (rc == 0 ==> ErrorSet(m, v))
    && (rc != 0 ==> v.errno != 0)
    && (rc != 0 && v.ok && (m.Rest().outcome.EndOfStream? || m.Rest().outcome.EndOfRecord?) ==>
          v.errno == if m.errno != 0 then m.errno else PARAMS_ERROR)
  }

  lemma ReadOutWhole(m: View, got: seq<Byte>, v: View)
    requires Went(m, got, v) && !v.open
    ensures ReadOut(m, got, v, 0)
  {
  }

  lemma ReadOutShort(m: View, got: seq<Byte>, u: View, v: View)
    requires Went(m, got, u) && !u.open
    requires v == u.(errno := if u.errno == 0 then PARAMS_ERROR else u.errno, x := u.x.(poisoned := true))
    ensures ReadOut(m, got, v, -1)
  {
  }

  // ---- Records read inside the reader ----

  /** The body of a BEGIN_REQUEST record, as a nested reader sees it. */
  lemma BodyReading(t: seq<Byte>, p: nat, skip: bool, x: Ctx)
    ensures var r := Read(t, 8, p, skip, true, x);
      && (!skip && |t| < 8 ==> |r.content| < 8 && r.outcome.Truncated?)
      && (!skip && |t| >= 8 ==> |r.content| == 8)
      && (skip ==> r.content == [] && r.outcome.Truncated? == (|t| < 8 + p))
  {
    if skip {
      assert |t| >= 8 ==> Read(t, 8, p, true, true, x) == Padding(t[8..], p, false, true, x);
      assert |t| >= 8 + p ==> Padding(t[8..], p, false, true, x) == Boundary(t[8..][p..], false, true, x);
    } else if t != [] {
      var m := Min(8, |t|);
      var u := t[m..];
      assert u != [] ==> m == 8 && Read(u, 0, p, false, true, x) == Padding(u, p, false, true, x);
      assert u != [] && |u| >= p ==> Padding(u, p, false, true, x) == Boundary(u[p..], false, true, x);
    }
  }

  /** The body of a BEGIN_REQUEST record has been read from m to v, by a reader that was at its header in m0. */
  ghost predicate BodyRead(h: Header, m0: View, body: seq<Byte>, v: View) {
    && h.contentLen == 8 && h.id != NULL_REQUEST_ID && !m0.x.begun && m0.open && m0.eor && m0.avail == []
    && |body| <= 8 && v.open == (|body| == 8)
    && var m := m0.(c := 8, p := h.paddingLen as int, x := m0.x.(id := h.id));
       Went(m, body, v) && (v.ok ==> m.ok) && (m.hard ==> v.hard)
  }

  lemma BodyWhole(h: Header, m0: View, body: seq<Byte>, v: View, w: View)
    requires BodyRead(h, m0, body, v) && |body| == 8
    requires w == v.(avail := [], ahead := v.avail + v.ahead, x := v.x.(begun := true))
    ensures var d := Begin(h, m0.ahead, m0.skip, m0.x);
      d == Done(Begun(w.ahead, h.id, Word(body[0], body[1]), body[2] % 2 == 1)) && Handled(BeginRecord, d, m0, w)
  {
    hide Read;
    var t := m0.ahead;
    BodyReading(t, h.paddingLen, m0.skip, m0.x.(id := h.id));
    assert !m0.skip && t == body + w.ahead by {
      Units(t);
    }
    assert t[8..] == w.ahead && t[0] == body[0] && t[1] == body[1] && t[2] == body[2];
  }

  lemma BodyShort(h: Header, m0: View, body: seq<Byte>, v: View)
    requires BodyRead(h, m0, body, v) && |body| < 8
    ensures Handled(Error(PROTOCOL_ERROR), Begin(h, m0.ahead, m0.skip, m0.x), m0, v)
  {
    hide Read;
    BodyReading(m0.ahead, h.paddingLen, m0.skip, m0.x.(id := h.id));
    Units(body);
  }

  /** A GET_VALUES query has been read from m to v, and its pairs were those of got. */
  ghost predicate QueryRead(h: Header, m0: View, got: seq<Byte>, v: View, rc: int) {
    && h.typ == GET_VALUES && m0.open && m0.eor && m0.avail == [] && m0.c == 0 && m0.p == 0
    && m0.x.poisoned == (m0.errno != 0) && v.x.poisoned == (v.errno != 0)
    && rc == (if Parse(got).whole then 0 else -1) && Parse(got).defined
    && ReadOut(m0.(c := h.contentLen as int, p := h.paddingLen as int), got, v, rc)
  }

  /** Without failed calls the whole query was read; otherwise the connection gave out, or worse. */
  lemma QueryEnd(h: Header, m0: View, got: seq<Byte>, v: View, rc: int)
    requires QueryRead(h, m0, got, v, rc)
    ensures var q := Read(m0.ahead, h.contentLen, h.paddingLen, m0.skip, true, m0.x);
      && (v.ok ==> q.content == got && q.outcome == EndOfRecord(v.ahead) && v.c == 0 && v.p == 0)
      && (v.Starved(m0) ==> q.content == got && q.outcome.Truncated? && v.ahead == [])
    ensures v.records == m0.records && (m0.errno != 0 ==> v.errno == m0.errno)
    ensures v.ok && m0.errno == 0 ==> v.errno == if rc == 0 then 0 else PARAMS_ERROR
  {
    hide Read, Parse;
    var m := m0.(c := h.contentLen as int, p := h.paddingLen as int);
    assert m.Rest() == Read(m0.ahead, h.contentLen, h.paddingLen, m0.skip, true, m0.x);
    Units(got);
  }

  /** The query itself or the stream was at fault. */
  lemma QueryFails(h: Header, m0: View, got: seq<Byte>, v: View, rc: int)
    requires QueryRead(h, m0, got, v, rc)
    requires v.errno != 0 || v.c != 0 || Answerable(Parse(got).entries).None?
    ensures Handled(Error(PROTOCOL_ERROR), Management(h, m0.ahead, m0.skip, m0.x), m0, v)
  {
    hide Read, Parse, Answerable, ReadOut;
    QueryEnd(h, m0, got, v, rc);
    if v.ok {
      FollowsRefl(Management(h, m0.ahead, m0.skip, m0.x), m0.records, true);
    }
  }

  /** The query held a pair too long to be stored, and was read no further than its lengths. */
  lemma QueryOverlong(h: Header, m0: View, got: seq<Byte>, v: View, w: View)
    requires h.typ == GET_VALUES && m0.open && m0.eor && m0.avail == [] && m0.c == 0 && m0.p == 0
    requires v.open && Went(m0.(c := h.contentLen as int, p := h.paddingLen as int), got, v) && !Parse(got).defined
    requires w.records == v.records && w.errno == v.errno && w.ok == v.ok && w.hard == v.hard
    ensures Handled(Error(PROTOCOL_ERROR), Management(h, m0.ahead, m0.skip, m0.x), m0, w)
  {
    hide Read, Parse;
    var m := m0.(c := h.contentLen as int, p := h.paddingLen as int);
    var q := Read(m0.ahead, h.contentLen, h.paddingLen, m0.skip, true, m0.x);
    assert m.Rest() == q && q.content == got + v.Rest().content;
    UndefinedThenMore(got, v.Rest().content);
    FollowsRefl(Done(Undefined), m0.records, true);
  }

  lemma QueryWhole(h: Header, m0: View, got: seq<Byte>, v: View, rc: int)
    requires QueryRead(h, m0, got, v, rc)
    ensures v.errno == 0 ==> rc == 0
  {
  }

  lemma QueryFacts(h: Header, m0: View, got: seq<Byte>, v: View)
    requires QueryRead(h, m0, got, v, 0)
    ensures v.records == m0.records && (m0.errno != 0 ==> v.errno == m0.errno)
  {
  }

  /** Where a reader stands that has read a query without an error on record. */
  lemma QueryStands(h: Header, m0: View, got: seq<Byte>, v: View)
    requires QueryRead(h, m0, got, v, 0) && v.errno == 0 && v.c == 0
    ensures var q := Read(m0.ahead, h.contentLen, h.paddingLen, m0.skip, true, m0.x);
      var r := Read(v.ahead, 0, v.p, m0.skip && h.contentLen == 0, true, m0.x);
      || (q.content == got && q.outcome == EndOfRecord(v.ahead) && v.p == 0)
      || (!v.ok && q.content == got + r.content && q.outcome == r.outcome)
    ensures h.typ == GET_VALUES && Parse(got).whole && !m0.x.poisoned && m0.errno == 0
    ensures v.skip == (m0.skip && h.contentLen == 0) && v.x == m0.x && v.records == m0.records
    ensures v.Starved(m0) ==> v.ahead == []
  {
    hide Read, Parse;
    var m := m0.(c := h.contentLen as int, p := h.paddingLen as int);
    assert m.Rest() == Read(m0.ahead, h.contentLen, h.paddingLen, m0.skip, true, m0.x);
  }

  lemma QueryAnswered(h: Header, m0: View, got: seq<Byte>, v: View, record: Record, w: View)
    requires QueryRead(h, m0, got, v, 0) && v.errno == 0 && v.c == 0
    requires Answerable(Parse(got).entries).Some? && Answers(record, Values(Answerable(Parse(got).entries).value))
    requires w == v.(records := v.records + [record])
    ensures Handled(MgmtRecord, Management(h, m0.ahead, m0.skip, m0.x), m0, w)
  {
    hide Read, Parse, Answerable, Answers, Management, QueryRead;
    QueryStands(h, m0, got, v);
    var t := m0.ahead;
    var q := Read(t, h.contentLen, h.paddingLen, m0.skip, true, m0.x);
    var ended := q.content == got && q.outcome == EndOfRecord(v.ahead) && v.p == 0;
    AfterQuery(h, t, m0.skip, m0.x, got, v.ahead, v.p, ended);
    var names := Answerable(Parse(got).entries).value;
    var r := Read(v.ahead, 0, v.p, v.skip, false, m0.x);
    Units(r.content);
    if v.ok {
      FollowsReply(Values(names), record, r, m0.records, true);
    }
  }
}
