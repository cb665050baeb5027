/** The GET_VALUES query (FastCGI 1.0, section 4.1) and the record that answers it. */
module GetValues {
  import opened Protocol
  import opened NameValue
  import opened Parameters

  function Ascii(s: string): (b: seq<Byte>)
    ensures |b| == |s|
  {
    seq(|s|, i requires 0 <= i < |s| => s[i] as int % 256)
  }

  const MAX_CONNS := Ascii("FCGI_MAX_CONNS")
  const MAX_REQS := Ascii("FCGI_MAX_REQS")
  const MPXS_CONNS := Ascii("FCGI_MPXS_CONNS")

  const DIGIT_0: Byte := 48
  const DIGIT_1: Byte := 49

  /** Bytes of the response buffer after the header. */
  const RESPONSE_ROOM := 56

  predicate Known(name: seq<Byte>) {
    name == MAX_CONNS || name == MAX_REQS || name == MPXS_CONNS
  }

  function ValueOf(name: seq<Byte>): Byte {
    if name == MPXS_CONNS then DIGIT_0 else DIGIT_1
  }

  /** The known names among the entries, in order; nothing if some entry, as a C string, has no '='. */
  function KnownNames(entries: seq<seq<Byte>>): (names: Option<seq<seq<Byte>>>)
    ensures names.Some? ==> forall i :: 0 <= i < |names.value| ==> Known(names.value[i])
  {
    if entries == [] then Some([]) else
    match (CutName(entries[0]), KnownNames(entries[1..]))
    case (Some(name), Some(more)) => Some(if Known(name) then [name] + more else more)
    case _ => None
  }

  function AnswerPair(name: seq<Byte>): Pair {
    Pair(name, [ValueOf(name)], false, false)
  }

  function AnswerPairs(names: seq<seq<Byte>>): (ps: seq<Pair>)
    ensures |ps| == |names|
  {
    if names == [] then [] else [AnswerPair(names[0])] + AnswerPairs(names[1..])
  }

  /** One reply item as it is printed: two length bytes, the name, one digit. */
  function AnswerItem(name: seq<Byte>): (s: seq<Byte>)
    requires Known(name)
    ensures |s| == |name| + 3
  {
    [|name|, 1] + name + [ValueOf(name)]
  }

  function AnswerContent(names: seq<seq<Byte>>): seq<Byte>
    requires forall i :: 0 <= i < |names| ==> Known(names[i])
  {
    if names == [] then [] else AnswerItem(names[0]) + AnswerContent(names[1..])
  }

  /** Each item is printed with a terminating zero after it, which must still be inside the buffer. */
  predicate InRoom(names: seq<seq<Byte>>)
    requires forall i :: 0 <= i < |names| ==> Known(names[i])
  {
    names == [] || |AnswerContent(names)| + 1 <= RESPONSE_ROOM
  }

  /** The names a query content asks for, when the C code has a defined answer to it. */
  function Asked(content: seq<Byte>): (names: Option<seq<seq<Byte>>>)
    ensures names.Some? ==> forall i :: 0 <= i < |names.value| ==> Known(names.value[i])
  {
    if Parse(content).defined then Answerable(Parse(content).entries) else None
  }

  function Answerable(entries: seq<seq<Byte>>): (names: Option<seq<seq<Byte>>>)
    ensures names.Some? ==> forall i :: 0 <= i < |names.value| ==> Known(names.value[i])
  {
    match KnownNames(entries)
    case Some(names) => if InRoom(names) then Some(names) else None
    case None => None
  }

  lemma {:induction false} AnswerContentConcat(a: seq<seq<Byte>>, b: seq<seq<Byte>>)
    requires forall i :: 0 <= i < |a| ==> Known(a[i])
    requires forall i :: 0 <= i < |b| ==> Known(b[i])
    ensures AnswerContent(a + b) == AnswerContent(a) + AnswerContent(b)
  {
    hide Known, AnswerItem;
    if a == [] {
      assert a + b == b;
    } else {
      AnswerContentConcat(a[1..], b);
      assert (a + b)[1..] == a[1..] + b;
      Associate(AnswerItem(a[0]), AnswerContent(a[1..]), AnswerContent(b));
    }
  }

  lemma {:induction false} KnownNamesConcat(a: seq<seq<Byte>>, e: seq<Byte>)
    ensures KnownNames(a + [e]) ==
      match (KnownNames(a), CutName(e))
      case (Some(names), Some(name)) => Some(if Known(name) then names + [name] else names)
      case _ => None
  {
    if a == [] {
      assert a + [e] == [e];
      var none: seq<seq<Byte>> := [e][1..];
      assert none == [] && KnownNames(none) == Some([]);
      if CutName(e).Some? {
        assert [CutName(e).value] + none == none + [CutName(e).value];
      }
    } else {
      KnownNamesConcat(a[1..], e);
      assert (a + [e])[0] == a[0] && (a + [e])[1..] == a[1..] + [e];
      match (CutName(a[0]), KnownNames(a[1..]), CutName(e))
      case (Some(first), Some(names), Some(name)) =>
        Associate([first], names, [name]);
      case _ =>
    }
  }

  lemma {:induction false} KnownNamesMore(a: seq<seq<Byte>>, b: seq<seq<Byte>>)
    ensures KnownNames(a + b).Some? ==> KnownNames(a).Some? && KnownNames(a).value <= KnownNames(a + b).value
  {
    if a != [] {
      KnownNamesMore(a[1..], b);
      assert (a + b)[1..] == a[1..] + b;
    }
  }

  /** Nothing shorter than an answer in room is out of room. */
  lemma PartInRoom(all: seq<seq<Byte>>, part: seq<seq<Byte>>)
    requires forall i :: 0 <= i < |all| ==> Known(all[i])
    requires part <= all && InRoom(all)
    ensures InRoom(part)
  {
    AnswerContentConcat(part, all[|part|..]);
    assert part + all[|part|..] == all;
  }

  lemma NextName(entries: seq<seq<Byte>>, i: nat, names: seq<seq<Byte>>)
    requires i < |entries| && KnownNames(entries[..i]) == Some(names)
    requires forall j :: 0 <= j < |names| ==> Known(names[j])
    ensures CutName(entries[i]).None? ==> Answerable(entries).None?
    ensures CutName(entries[i]).Some? ==>
      var name := CutName(entries[i]).value;
      && KnownNames(entries[..i + 1]) == Some(if Known(name) then names + [name] else names)
      && (Known(name) ==> AnswerContent(names + [name]) == AnswerContent(names) + AnswerItem(name))
      && (Known(name) && !InRoom(names + [name]) ==> Answerable(entries).None?)
  {
    assert entries[..i + 1] == entries[..i] + [entries[i]];
    assert entries == entries[..i + 1] + entries[i + 1..];
    KnownNamesConcat(entries[..i], entries[i]);
    KnownNamesMore(entries[..i + 1], entries[i + 1..]);
    if CutName(entries[i]).Some? && Known(CutName(entries[i]).value) {
      var name := CutName(entries[i]).value;
      AnswerContentConcat(names, [name]);
      var rest: seq<seq<Byte>> := [name][1..];
      assert rest == [] && AnswerContent([name]) == AnswerItem(name);
      if Answerable(entries).Some? {
        PartInRoom(Answerable(entries).value, names + [name]);
      }
    }
  }

  /** The record that an answer is sent in. */
  lemma AnswerRecordFits(content: seq<Byte>, padding: seq<Byte>)
    requires |content| < RESPONSE_ROOM && |padding| < 8
    ensures var r := Record(GET_VALUES_RESULT, NULL_REQUEST_ID, content, padding);
      AllFit([r]) && EncodeAll([r]) == EncodeHeader(GET_VALUES_RESULT, NULL_REQUEST_ID, |content|, |padding|) + content + padding
  {
    EncodeOne(Record(GET_VALUES_RESULT, NULL_REQUEST_ID, content, padding));
  }

  lemma NoNames()
    ensures KnownNames([]) == Some([]) && AnswerContent([]) == []
  {
  }

  lemma AllNames(entries: seq<seq<Byte>>, names: seq<seq<Byte>>)
    requires KnownNames(entries) == Some(names) && |AnswerContent(names)| < RESPONSE_ROOM
    ensures Answerable(entries) == Some(names)
  {
  }

  /** Prints the items of an answer, one after another, into a fixed response buffer. */
  method BuildAnswer(params: Params) returns (response: array<Byte>, len: int)
    requires params.Valid()
    ensures fresh(response) && response.Length == HEADER_LEN + RESPONSE_ROOM
    ensures len == -1 <==> Answerable(params.Contents()).None?
    ensures len != -1 ==>
      && 0 <= len < RESPONSE_ROOM
      && response[HEADER_LEN..HEADER_LEN + len] == AnswerContent(Answerable(params.Contents()).value)
  {
    hide KnownNames, AnswerContent, AnswerItem, Answerable, CutName;
    NoNames();
    response := new Byte[HEADER_LEN + RESPONSE_ROOM];
    len := 0;
    ghost var entries := params.Contents();
    ghost var names: seq<seq<Byte>> := [];
    assert response[HEADER_LEN..HEADER_LEN] == [];
    var i := 0;
    while i < params.cur
      invariant i <= |entries| && 0 <= len < RESPONSE_ROOM
      invariant KnownNames(entries[..i]) == Some(names)
      invariant forall j :: 0 <= j < |names| ==> Known(names[j])
      invariant response[HEADER_LEN..HEADER_LEN + len] == AnswerContent(names)
    {
      NextName(entries, i, names);
      var cut := CutName(params.vec[i].value);
      if cut.None? {
        return response, -1;
      }
      var name := cut.value;
      if name == MAX_CONNS || name == MAX_REQS || name == MPXS_CONNS {
        if len + |name| + 3 + 1 > RESPONSE_ROOM {
          return response, -1;
        }
        PrintItem(response, len, name);
        len := len + |name| + 3;
        names := names + [name];
      }
      i := i + 1;
    }
    assert entries[..i] == entries;
    AllNames(entries, names);
  }

  /** Prints one item and the zero after it. */
  method PrintItem(response: array<Byte>, len: nat, name: seq<Byte>)
    requires response.Length == HEADER_LEN + RESPONSE_ROOM && Known(name)
    requires len + |name| + 3 + 1 <= RESPONSE_ROOM
    modifies response
    ensures response[HEADER_LEN..HEADER_LEN + len + |name| + 3]
         == old(response[HEADER_LEN..HEADER_LEN + len]) + AnswerItem(name)
  {
    var value := if name == MPXS_CONNS then DIGIT_0 else DIGIT_1;
    var item := [|name|, 1] + name + [value];
    CopyTo(response, HEADER_LEN + len, item, HEADER_LEN);
    CopyTo(response, HEADER_LEN + len + |item|, [0], HEADER_LEN);
    var p, q := HEADER_LEN + len, HEADER_LEN + len + |item|;
    assert response[HEADER_LEN..q] == response[HEADER_LEN..q + 1][..q - HEADER_LEN];
  }

  /** Copies bytes into an array, where those from low on are kept. */
  method CopyTo(a: array<Byte>, p: nat, bytes: seq<Byte>, ghost low: nat)
    requires low <= p && p + |bytes| <= a.Length
    modifies a
    ensures a[low..p + |bytes|] == old(a[low..p]) + bytes
  {
    forall k | 0 <= k < |bytes| {
      a[p + k] := bytes[k];
    }
    assert a[p..p + |bytes|] == bytes;
    assert a[low..p + |bytes|] == a[low..p] + a[p..p + |bytes|];
  }

  /** The answer is itself a list of pairs, one for each name in order. */
  lemma {:induction false} AnswerIsPairs(names: seq<seq<Byte>>)
    requires forall i :: 0 <= i < |names| ==> Known(names[i])
    ensures AllSendable(AnswerPairs(names)) && AllStorable(AnswerPairs(names))
    ensures AnswerContent(names) == EncodePairs(AnswerPairs(names))
  {
    if names != [] {
      AnswerIsPairs(names[1..]);
      EncodeCons(AnswerPair(names[0]), AnswerPairs(names[1..]));
      ItemIsPair(names[0]);
    }
  }

  lemma ItemIsPair(name: seq<Byte>)
    requires Known(name)
    ensures AnswerPair(name).Sendable() && AnswerPair(name).Storable() && AnswerItem(name) == EncodePair(AnswerPair(name))
  {
    var p := AnswerPair(name);
    assert EncodeLength(|name|, false) + EncodeLength(1, false) == [|name|, 1];
  }

  predicate AllDistinct(names: seq<seq<Byte>>) {
    forall i, j :: 0 <= i < j < |names| ==> names[i] != names[j]
  }

  function ItemsLength(names: seq<seq<Byte>>): nat {
    if names == [] then 0 else |names[0]| + 3 + ItemsLength(names[1..])
  }

  lemma {:induction false} AnswerLength(names: seq<seq<Byte>>)
    requires forall i :: 0 <= i < |names| ==> Known(names[i])
    ensures |AnswerContent(names)| == ItemsLength(names)
  {
    if names != [] {
      AnswerLength(names[1..]);
    }
  }

  lemma AtMostThree(names: seq<seq<Byte>>)
    requires forall i :: 0 <= i < |names| ==> Known(names[i])
    ensures |names| >= 4 ==> !AllDistinct(names)
  {
    if |names| >= 4 {
      var a, b, c, d := names[0], names[1], names[2], names[3];
      assert a == b || a == c || a == d || b == c || b == d || c == d;
    }
  }

  /** Asked for each name at most once, the answer takes no more than the 51 bytes that all three take. */
  lemma EachOnce(names: seq<seq<Byte>>)
    requires (forall i :: 0 <= i < |names| ==> Known(names[i])) && AllDistinct(names)
    ensures |AnswerContent(names)| <= 51 && InRoom(names)
  {
    hide Ascii;
    AnswerLength(names);
    AtMostThree(names);
    if |names| == 3 {
      assert Known(names[0]) && Known(names[1]) && Known(names[2]);
      assert ItemsLength(names[1..]) == |names[1]| + 3 + ItemsLength(names[1..][1..]);
      assert names[1..][1..] == [names[2]];
      OneItem(names[2]);
    } else if |names| == 2 {
      assert names[1..] == [names[1]];
      OneItem(names[1]);
      assert Known(names[0]) && Known(names[1]);
    } else if |names| == 1 {
      assert names == [names[0]];
      OneItem(names[0]);
    }
  }

  lemma OneItem(name: seq<Byte>)
    ensures ItemsLength([name]) == |name| + 3
  {
    var none: seq<seq<Byte>> := [name][1..];
    assert none == [];
  }

  /** Asked four times for the longest name, the source overruns its buffer. */
  lemma AskedTooOften()
    ensures !InRoom([MPXS_CONNS, MPXS_CONNS, MPXS_CONNS, MPXS_CONNS])
  {
    var one := [MPXS_CONNS];
    var two := [MPXS_CONNS] + one;
    var three := [MPXS_CONNS] + two;
    var four := [MPXS_CONNS] + three;
    assert two[1..] == one && three[1..] == two && four[1..] == three;
    OneItem(MPXS_CONNS);
    assert ItemsLength(two) == 36 && ItemsLength(three) == 54 && ItemsLength(four) == 72;
    AnswerLength(four);
    assert four == [MPXS_CONNS, MPXS_CONNS, MPXS_CONNS, MPXS_CONNS];
  }

  /** The known ones among the names of some pairs. */
  function KnownAmong(ps: seq<Pair>): (names: seq<seq<Byte>>)
    ensures forall i :: 0 <= i < |names| ==> Known(names[i])
  {
    if ps == [] then [] else (if Known(ps[0].name) then [ps[0].name] else []) + KnownAmong(ps[1..])
  }

  lemma {:induction false} KnownOfEntries(ps: seq<Pair>)
    requires forall i :: 0 <= i < |ps| ==> PlainName(ps[i].name)
    ensures KnownNames(Entries(ps)) == Some(KnownAmong(ps))
  {
    hide Known;
    if ps != [] {
      KnownOfEntries(ps[1..]);
      CutNameOfEntry(ps[0].name, ps[0].value);
      assert Entries(ps)[0] == ps[0].Entry() && Entries(ps)[1..] == Entries(ps[1..]);
      Units(KnownAmong(ps[1..]));
    }
  }

  /**
   A query of pairs with plain names has a defined answer exactly when no pair is too long to be stored, and the
   answer and the zero after it fit the buffer, as they do when no known name is asked for twice; the answer is then
   the known names in query order, with the values 1, 1 and 0, in a record of at most 64 bytes.
   */
  lemma QueryAnswer(ps: seq<Pair>)
    requires AllSendable(ps) && forall i :: 0 <= i < |ps| ==> PlainName(ps[i].name)
    ensures var names := KnownAmong(ps);
      && Asked(EncodePairs(ps)) == (if AllStorable(ps) && InRoom(names) then Some(names) else None)
      && (AllDistinct(names) ==> InRoom(names)) && (InRoom(names) <==> |AnswerContent(names)| <= 55)
      && Parse(AnswerContent(names)) == Parsed(Entries(AnswerPairs(names)), true, true)
      && (InRoom(names) ==> HEADER_LEN + AlignInt8(|AnswerContent(names)|) <= HEADER_LEN + RESPONSE_ROOM)
  {
    hide Known, Parse, Entries, KnownNames, AnswerContent, EncodePairs;
    ParseEncoded(ps);
    KnownOfEntries(ps);
    var names := KnownAmong(ps);
    if AllDistinct(names) {
      EachOnce(names);
    }
    AnswerIsPairs(names);
    ParseEncoded(AnswerPairs(names));
    NoNames();
  }
}
