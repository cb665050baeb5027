/**
 The meaning of a sequence of whole records to a reader: which bytes are delivered, what is answered, and what
 records of no concern to the stream do to it.
 */
module RecordStreams {
  import opened Protocol
  import opened NameValue
  import opened GetValues
  import opened Deframer

  /** The ways a record can meet a reader whose request has begun, other than ending the stream or failing. */
  datatype Kind = Own | Foreign | Rejected | Query | Unheard | Other

  function KindOf(r: Record, x: Ctx): Kind {
    if r.typ == BEGIN_REQUEST then (if r.id != NULL_REQUEST_ID && |r.content| == 8 && x.begun then Rejected else Other)
    else if r.id == NULL_REQUEST_ID then
      if r.typ != GET_VALUES then Unheard
      else if Parse(r.content).whole && Asked(r.content).Some? && !x.poisoned then Query else Other
    else if r.id != x.id then Foreign
    else if r.typ == x.typ && r.content != [] then Own
    else Other
  }

  predicate Passable(rs: seq<Record>, x: Ctx) {
    AllFit(rs) && forall i :: 0 <= i < |rs| ==> !KindOf(rs[i], x).Other?
  }

  /** The bytes a record gives the client when skip says whether its content is to be passed over. */
  function Given(r: Record, skip: bool, x: Ctx): seq<Byte> {
    if !skip && (KindOf(r, x).Own? || KindOf(r, x).Unheard?) then r.content else []
  }

  function Replied(r: Record, skip: bool, x: Ctx): (replies: seq<Reply>) {
    match KindOf(r, x)
    case Rejected => [CantMultiplex(r.id)]
    case Unheard => [Unknown(r.typ)]
    case Query =>
      var names := if skip then Asked([]) else Asked(r.content);
      if names.Some? then [Values(names.value)] else []
    case _ => []
  }

  /** The skip flag after a record: empty content leaves it, and an empty foreign record even sets it. */
  function SkipAfter(r: Record, skip: bool, x: Ctx): bool {
    r.content == [] && (skip || KindOf(r, x).Foreign?)
  }

  function Delivered(rs: seq<Record>, skip: bool, x: Ctx): seq<Byte> {
    if rs == [] then [] else Given(rs[0], skip, x) + Delivered(rs[1..], SkipAfter(rs[0], skip, x), x)
  }

  function Replies(rs: seq<Record>, skip: bool, x: Ctx): seq<Reply> {
    if rs == [] then [] else Replied(rs[0], skip, x) + Replies(rs[1..], SkipAfter(rs[0], skip, x), x)
  }

  function LastSkip(rs: seq<Record>, skip: bool, x: Ctx): bool {
    if rs == [] then skip else LastSkip(rs[1..], SkipAfter(rs[0], skip, x), x)
  }

  function HeaderOf(r: Record): Header
    requires r.Fits()
  {
    Header(VERSION_1, r.typ, r.id, |r.content|, |r.padding|)
  }

  function Past(r: Record, tail: seq<Byte>): seq<Byte> {
    r.content + (r.padding + tail)
  }

  /** At a boundary, a whole record is dispatched on its header. */
  lemma RecordDispatched(r: Record, tail: seq<Byte>, skip: bool, x: Ctx)
    requires r.Fits()
    ensures Read(EncodeRecord(r) + tail, 0, 0, skip, false, x) == Dispatch(HeaderOf(r), Past(r, tail), skip, x)
  {
    hide Dispatch;
    var h := EncodeHeader(r.typ, r.id, |r.content|, |r.padding|);
    var s := EncodeRecord(r) + tail;
    assert s == h + Past(r, tail);
    assert s[..HEADER_LEN] == h && s[HEADER_LEN..] == Past(r, tail);
    HeaderRoundTrip(r.typ, r.id, |r.content|, |r.padding|);
    BoundaryIsRead(s, skip, x);
  }

  /** Content that is there is delivered or skipped, and then padding that is there is dropped. */
  lemma ContentPassed(r: Record, tail: seq<Byte>, skip: bool, x: Ctx)
    requires r.Fits()
    ensures Read(Past(r, tail), |r.content|, |r.padding|, skip, false, x)
         == Prepend(if skip then [] else r.content, Read(tail, 0, 0, skip && r.content == [], false, x))
  {
    hide Dispatch;
    var c, p, s := |r.content|, |r.padding|, Past(r, tail);
    var rest := r.padding + tail;
    assert s[c..] == rest && s[..c] == r.content;
    assert rest[p..] == tail;
    var sk := skip && c == 0;
    assert Padding(rest, p, sk, false, x) == Boundary(tail, sk, false, x);
    BoundaryIsRead(tail, sk, x);
    var after := Read(tail, 0, 0, sk, false, x);
    Units(after.content);
    if rest == [] {
      assert Read(rest, 0, p, sk, false, x) == after;
    } else {
      assert Read(rest, 0, p, sk, false, x) == Padding(rest, p, sk, false, x);
    }
    if c > 0 {
      if skip {
        SkipStep(s, c, p, false, x, c);
      } else {
        DeliverStep(s, c, p, false, x, c);
      }
    } else {
      assert s == rest;
    }
  }

  /** The end of a query is noticed: at a byte after its content, or when the content is passed over. */
  predicate EndNoticed(r: Record, tail: seq<Byte>, skip: bool) {
    r.padding + tail != [] || (skip && r.content != [])
  }

  /** A query is read to its end, or the reader waits for a byte that does not come. */
  lemma QueryPassed(r: Record, tail: seq<Byte>, skip: bool, x: Ctx)
    requires r.Fits()
    ensures Read(Past(r, tail), |r.content|, |r.padding|, skip, true, x)
         == Reading(if skip then [] else r.content, [], if EndNoticed(r, tail, skip) then EndOfRecord(tail) else Truncated)
  {
    var c, p, s := |r.content|, |r.padding|, Past(r, tail);
    var rest := r.padding + tail;
    assert s[c..] == rest && s[..c] == r.content;
    assert rest[p..] == tail;
    var sk := skip && c == 0;
    assert Padding(rest, p, sk, true, x) == Boundary(tail, sk, true, x) == Done(EndOfRecord(tail));
    assert Read(rest, 0, p, sk, true, x) == if rest == [] then Done(Truncated) else Padding(rest, p, sk, true, x);
    Units(r.content);
    if c > 0 {
      if skip {
        SkipStep(s, c, p, true, x, c);
      } else {
        DeliverStep(s, c, p, true, x, c);
      }
    } else {
      assert s == rest;
    }
  }

  /** One record that neither ends the stream nor fails. */
  lemma RecordRead(r: Record, tail: seq<Byte>, skip: bool, x: Ctx)
    requires r.Fits() && !KindOf(r, x).Other? && (KindOf(r, x).Query? ==> EndNoticed(r, tail, skip))
    ensures var next := Read(tail, 0, 0, SkipAfter(r, skip, x), false, x);
      Read(EncodeRecord(r) + tail, 0, 0, skip, false, x)
        == Reading(Given(r, skip, x) + next.content, Replied(r, skip, x) + next.replies, next.outcome)
  {
    hide Read, Parse, Answerable;
    RecordDispatched(r, tail, skip, x);
    ContentPassed(r, tail, skip, x);
    ContentPassed(r, tail, true, x);
    var next := Read(tail, 0, 0, SkipAfter(r, skip, x), false, x);
    Units(next.content);
    Units(next.replies);
    if KindOf(r, x).Query? {
      QueryPassed(r, tail, skip, x);
      NothingAsked();
      assert Read(tail, 0, 0, skip && r.content == [], false, x) == next;
    }
  }

  /** A query is answered exactly when the source notices its end: when at least one byte comes after its content. */
  lemma QueryAnsweredExactly(r: Record, tail: seq<Byte>, skip: bool, x: Ctx)
    requires r.Fits() && KindOf(r, x).Query?
    ensures var reading := Read(EncodeRecord(r) + tail, 0, 0, skip, false, x);
      && (EndNoticed(r, tail, skip) <==> reading.replies != [])
      && (reading.replies != [] ==> Replied(r, skip, x) == [reading.replies[0]])
      && (!EndNoticed(r, tail, skip) ==> reading == Done(Truncated))
    ensures !skip ==> (EndNoticed(r, tail, skip) <==> r.padding + tail != [])
  {
    hide Read, Parse, Answerable;
    NothingAsked();
    if EndNoticed(r, tail, skip) {
      RecordRead(r, tail, skip, x);
    } else {
      RecordDispatched(r, tail, skip, x);
      QueryPassed(r, tail, skip, x);
    }
  }

  /** So the peer that sends a query without padding, and then waits for the answer, waits for ever. */
  lemma QueryAlone(x: Ctx)
    requires !x.poisoned
    ensures var query := Record(GET_VALUES, NULL_REQUEST_ID, EncodePairs([Pair(MAX_CONNS, [], false, false)]), []);
      query.Fits() && KindOf(query, x).Query? && Read(EncodeRecord(query), 0, 0, false, false, x) == Done(Truncated)
  {
    hide Read, Parse, Ascii, EncodePairs;
    var p := Pair(MAX_CONNS, [], false, false);
    AskedOnce(p);
    QueryAnswer([p]);
    ParseEncoded([p]);
    var query := Record(GET_VALUES, NULL_REQUEST_ID, EncodePairs([p]), []);
    QueryAnsweredExactly(query, [], false, x);
    Units(EncodeRecord(query));
  }

  lemma AskedOnce(p: Pair)
    requires p == Pair(MAX_CONNS, [], false, false)
    ensures p.Sendable() && p.Storable() && PlainName(p.name) && KnownAmong([p]) == [MAX_CONNS] && |EncodePairs([p])| <= MAX_LENGTH
  {
    var none: seq<Pair> := [p][1..];
    assert none == [] && KnownAmong(none) == [] && EncodePairs(none) == [];
    assert forall i :: 0 <= i < |"FCGI_MAX_CONNS"| ==> "FCGI_MAX_CONNS"[i] as int % 256 != EQUALS && "FCGI_MAX_CONNS"[i] as int % 256 != NUL;
  }

  lemma NothingAsked()
    ensures Parse([]).whole && Asked([]) == Some([])
  {
  }

  /** Only a query at the very end of the bytes may go unnoticed. */
  predicate EndsNoticed(rs: seq<Record>, tail: seq<Byte>, x: Ctx) {
    tail != [] || rs == [] || rs[|rs| - 1].padding != [] || !KindOf(rs[|rs| - 1], x).Query?
  }

  /** Any sequence of such records: what is delivered and answered, and what the skip flag is then. */
  lemma {:induction false} RecordsRead(rs: seq<Record>, tail: seq<Byte>, skip: bool, x: Ctx)
    requires Passable(rs, x) && EndsNoticed(rs, tail, x)
    ensures var next := Read(tail, 0, 0, LastSkip(rs, skip, x), false, x);
      Read(EncodeAll(rs) + tail, 0, 0, skip, false, x)
        == Reading(Delivered(rs, skip, x) + next.content, Replies(rs, skip, x) + next.replies, next.outcome)
  {
    hide Read, KindOf, Given, Replied, SkipAfter, EncodeRecord;
    var next := Read(tail, 0, 0, LastSkip(rs, skip, x), false, x);
    if rs == [] {
      Units(tail);
      Units(next.content);
      Units(next.replies);
    } else {
      var r, more := rs[0], rs[1..];
      var sk := SkipAfter(r, skip, x);
      RecordsRead(more, tail, sk, x);
      if more != [] {
        AllNotEmpty(more, tail);
      }
      RecordRead(r, EncodeAll(more) + tail, skip, x);
      Associate(EncodeRecord(r), EncodeAll(more), tail);
      Associate(Given(r, skip, x), Delivered(more, sk, x), next.content);
      Associate(Replied(r, skip, x), Replies(more, sk, x), next.replies);
    }
  }

  lemma AllNotEmpty(rs: seq<Record>, tail: seq<Byte>)
    requires AllFit(rs) && rs != []
    ensures EncodeAll(rs) + tail != []
  {
    assert |EncodeRecord(rs[0])| >= HEADER_LEN;
  }

  /** An empty record of the stream itself is its end, whatever the skip flag says. */
  lemma EndRead(e: Record, tail: seq<Byte>, skip: bool, x: Ctx)
    requires e.Fits() && e.typ == x.typ && e.typ != BEGIN_REQUEST && e.id == x.id != NULL_REQUEST_ID && e.content == []
    ensures Read(EncodeRecord(e) + tail, 0, 0, skip, false, x) == Done(EndOfStream(e.padding + tail))
  {
    hide Read;
    RecordDispatched(e, tail, skip, x);
    Units(e.padding + tail);
  }

  /** A whole stream: records of any kind that does not fail, then the empty record that ends it. */
  lemma StreamRead(rs: seq<Record>, e: Record, tail: seq<Byte>, x: Ctx)
    requires Passable(rs, x)
    requires e.Fits() && e.typ == x.typ && e.typ != BEGIN_REQUEST && e.id == x.id != NULL_REQUEST_ID && e.content == []
    ensures Read(EncodeAll(rs) + (EncodeRecord(e) + tail), 0, 0, false, false, x)
         == Reading(Delivered(rs, false, x), Replies(rs, false, x), EndOfStream(e.padding + tail))
  {
    hide Read, Passable, Delivered, Replies, LastSkip;
    RecordsRead(rs, EncodeRecord(e) + tail, false, x);
    EndRead(e, tail, LastSkip(rs, false, x), x);
    Units(Delivered(rs, false, x));
    Units(Replies(rs, false, x));
  }

  /** The record that begins a request: the bytes after its body, padding included, come next. */
  lemma BeginRead(b: Record, tail: seq<Byte>, x: Ctx)
    requires b.Fits() && b.typ == BEGIN_REQUEST && b.id != NULL_REQUEST_ID && |b.content| == 8 && !x.begun
    ensures Read(EncodeRecord(b) + tail, 0, 0, false, false, x)
         == Done(Begun(b.padding + tail, b.id, Word(b.content[0], b.content[1]), b.content[2] % 2 == 1))
  {
    hide Read;
    RecordDispatched(b, tail, false, x);
    var t := Past(b, tail);
    assert t[8..] == b.padding + tail && t[0] == b.content[0] && t[1] == b.content[1] && t[2] == b.content[2];
  }

  // ---- Records that are not the stream's ----

  /** The bytes that the stream's own records carry. */
  function OwnContent(rs: seq<Record>, x: Ctx): seq<Byte> {
    if rs == [] then [] else (if KindOf(rs[0], x).Own? then rs[0].content else []) + OwnContent(rs[1..], x)
  }

  /** One reply for each record that calls for one, in order of arrival. */
  function ExpectedReplies(rs: seq<Record>, x: Ctx): seq<Reply> {
    if rs == [] then [] else Replied(rs[0], false, x) + ExpectedReplies(rs[1..], x)
  }

  /** Other records between those of the stream change nothing for it, if foreign ones have content and unheard ones none. */
  lemma {:induction false} Transparent(rs: seq<Record>, x: Ctx)
    requires Passable(rs, x)
    requires forall i :: 0 <= i < |rs| ==> (KindOf(rs[i], x).Foreign? ==> rs[i].content != [])
                                           && (KindOf(rs[i], x).Unheard? ==> rs[i].content == [])
    ensures Delivered(rs, false, x) == OwnContent(rs, x) && Replies(rs, false, x) == ExpectedReplies(rs, x)
    ensures !LastSkip(rs, false, x)
  {
    if rs != [] {
      Transparent(rs[1..], x);
    }
  }

  /** The records end with an empty foreign one and then nothing but empty ones. */
  predicate Swallows(rs: seq<Record>, x: Ctx) {
    exists i :: 0 <= i < |rs| && KindOf(rs[i], x).Foreign? && forall k :: i <= k < |rs| ==> rs[k].content == []
  }

  /** No record of the stream comes after an empty foreign record with only empty ones between. */
  predicate NoneExposed(rs: seq<Record>, x: Ctx) {
    forall j :: 0 <= j < |rs| && KindOf(rs[j], x).Own? ==> !Swallows(rs[..j], x)
  }

  lemma SwallowsMore(rs: seq<Record>, r: Record, x: Ctx)
    ensures Swallows(rs + [r], x) == SkipAfter(r, Swallows(rs, x), x)
  {
    var all := rs + [r];
    if SkipAfter(r, Swallows(rs, x), x) {
      if Swallows(rs, x) {
        var i :| 0 <= i < |rs| && KindOf(rs[i], x).Foreign? && forall k :: i <= k < |rs| ==> rs[k].content == [];
        assert KindOf(all[i], x).Foreign?;
      } else {
        assert KindOf(all[|rs|], x).Foreign?;
      }
    }
    if Swallows(all, x) {
      var i :| 0 <= i < |all| && KindOf(all[i], x).Foreign? && forall k :: i <= k < |all| ==> all[k].content == [];
      assert all[|rs|] == r;
      if i < |rs| {
        assert KindOf(rs[i], x).Foreign? && forall k :: i <= k < |rs| ==> rs[k].content == all[k].content;
      }
    }
  }

  lemma {:induction false} AppendRecord(rs: seq<Record>, r: Record, skip: bool, x: Ctx)
    ensures LastSkip(rs + [r], skip, x) == SkipAfter(r, LastSkip(rs, skip, x), x)
    ensures Delivered(rs + [r], skip, x) == Delivered(rs, skip, x) + Given(r, LastSkip(rs, skip, x), x)
    ensures OwnContent(rs + [r], x) == OwnContent(rs, x) + if KindOf(r, x).Own? then r.content else []
  {
    hide KindOf, Given, SkipAfter;
    var own := if KindOf(r, x).Own? then r.content else [];
    if rs == [] {
      assert rs + [r] == [r];
      var none: seq<Record> := [r][1..];
      assert none == [];
      Units(Given(r, skip, x));
      Units(own);
    } else {
      assert (rs + [r])[1..] == rs[1..] + [r];
      var sk := SkipAfter(rs[0], skip, x);
      AppendRecord(rs[1..], r, sk, x);
      Associate(Given(rs[0], skip, x), Delivered(rs[1..], sk, x), Given(r, LastSkip(rs, skip, x), x));
      Associate(if KindOf(rs[0], x).Own? then rs[0].content else [], OwnContent(rs[1..], x), own);
    }
  }

  /** The skip flag is left over after just the sequences that swallow. */
  lemma {:induction false} SkipMeansSwallows(rs: seq<Record>, x: Ctx)
    ensures LastSkip(rs, false, x) == Swallows(rs, x)
  {
    if rs != [] {
      var last := |rs| - 1;
      SkipMeansSwallows(rs[..last], x);
      assert rs == rs[..last] + [rs[last]];
      AppendRecord(rs[..last], rs[last], false, x);
      SwallowsMore(rs[..last], rs[last], x);
    }
  }

  /**
   An empty foreign record is not harmless: it leaves the skip flag set, and the next record that has content
   is dropped. A stream comes through unharmed exactly when no record of its own is exposed to that.
   */
  lemma {:induction false} LosslessExactly(rs: seq<Record>, x: Ctx)
    requires Passable(rs, x) && forall i :: 0 <= i < |rs| && KindOf(rs[i], x).Unheard? ==> rs[i].content == []
    ensures |Delivered(rs, false, x)| <= |OwnContent(rs, x)|
    ensures Delivered(rs, false, x) == OwnContent(rs, x) <==> NoneExposed(rs, x)
  {
    if rs != [] {
      var last := |rs| - 1;
      var init, r := rs[..last], rs[last];
      assert rs == init + [r];
      LosslessExactly(init, x);
      AppendRecord(init, r, false, x);
      SkipMeansSwallows(init, x);
      ExposedMore(init, r, x);
      if Delivered(rs, false, x) == OwnContent(rs, x) {
        SamePieces(Delivered(init, false, x), Given(r, LastSkip(init, false, x), x),
                   OwnContent(init, x), if KindOf(r, x).Own? then r.content else []);
      }
    }
  }

  lemma SamePieces<T>(a: seq<T>, b: seq<T>, c: seq<T>, d: seq<T>)
    requires a + b == c + d && |a| <= |c| && |b| <= |d|
    ensures a == c && b == d
  {
    assert a == (a + b)[..|a|] && c == (c + d)[..|c|];
    assert b == (a + b)[|a|..] && d == (c + d)[|c|..];
  }

  lemma ExposedMore(rs: seq<Record>, r: Record, x: Ctx)
    ensures NoneExposed(rs + [r], x) <==> NoneExposed(rs, x) && (KindOf(r, x).Own? ==> !Swallows(rs, x))
  {
    hide KindOf, Swallows;
    var all := rs + [r];
    assert all[..|rs|] == rs && all[|rs|] == r;
    assert forall j :: 0 <= j < |rs| ==> all[j] == rs[j] && all[..j] == rs[..j];
  }

  /** The content of an unheard management record is taken for content of the stream. */
  lemma {:induction false} UnheardIntrudes(rs: seq<Record>, x: Ctx)
    requires Passable(rs, x) && forall i :: 0 <= i < |rs| && KindOf(rs[i], x).Foreign? ==> rs[i].content != []
    ensures |Delivered(rs, false, x)| >= |OwnContent(rs, x)|
    ensures Delivered(rs, false, x) == OwnContent(rs, x)
       <==> forall i :: 0 <= i < |rs| && KindOf(rs[i], x).Unheard? ==> rs[i].content == []
  {
    if rs != [] {
      var r, more := rs[0], rs[1..];
      UnheardIntrudes(more, x);
      assert SkipAfter(r, false, x) == false;
      var given, own := Given(r, false, x), if KindOf(r, x).Own? then r.content else [];
      assert |given| >= |own|;
      if Delivered(rs, false, x) == OwnContent(rs, x) {
        assert |given| == |own| && given == own;
        assert Delivered(more, false, x) == Delivered(rs, false, x)[|given|..] == OwnContent(more, x);
        forall i | 0 <= i < |rs| && KindOf(rs[i], x).Unheard? ensures rs[i].content == [] {
          if i > 0 {
            assert rs[i] == more[i - 1];
          }
        }
      } else {
        assert given != own || Delivered(more, false, x) != OwnContent(more, x);
        assert forall i :: 0 <= i < |more| ==> more[i] == rs[i + 1];
      }
    }
  }
}
