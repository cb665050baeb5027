/** Name-value pairs (FastCGI 1.0, section 3.4): what a byte string of pairs means, and its inverse. */
module NameValue {
  import opened Protocol

  const EQUALS: Byte := 61

  /** An entry is allocated with two bytes more, for the '=' and the closing zero; the sum is taken in a C int. */
  const MAX_PAIR := 0x7fff_ffff - 2

  /** A pair as it is sent: each length takes one byte, or four with the top bit set. */
  datatype Pair = Pair(name: seq<Byte>, value: seq<Byte>, longName: bool, longValue: bool) {
    predicate Sendable() {
      && |name| < 0x8000_0000 && |value| < 0x8000_0000
      && (longName || |name| < 128) && (longValue || |value| < 128)
    }

    /** The block that is allocated for the entry has a size that a C int can hold. */
    predicate Storable() {
      |name| + |value| <= MAX_PAIR
    }

    function Lengths(): seq<Byte>
      requires Sendable()
    {
      EncodeLength(|name|, longName) + EncodeLength(|value|, longValue)
    }

    /** The environment string the pair becomes. */
    function Entry(): seq<Byte> {
      name + [EQUALS] + value
    }
  }

  function EncodeLength(n: nat, long: bool): (s: seq<Byte>)
    requires n < 0x8000_0000 && (long || n < 128)
    ensures |s| == if long then 4 else 1
  {
    if long then [128 + n / 0x100_0000, n / 0x1_0000 % 256, n / 256 % 256, n % 256] else [n]
  }

  function EncodePair(p: Pair): seq<Byte>
    requires p.Sendable()
  {
    p.Lengths() + p.name + p.value
  }

  predicate AllSendable(ps: seq<Pair>) {
    forall i :: 0 <= i < |ps| ==> ps[i].Sendable()
  }

  predicate AllStorable(ps: seq<Pair>) {
    forall i :: 0 <= i < |ps| ==> ps[i].Storable()
  }

  function EncodePairs(ps: seq<Pair>): seq<Byte>
    requires AllSendable(ps)
  {
    if ps == [] then [] else EncodePair(ps[0]) + EncodePairs(ps[1..])
  }

  function Entries(ps: seq<Pair>): (es: seq<seq<Byte>>)
    ensures |es| == |ps|
  {
    seq(|ps|, i requires 0 <= i < |ps| => ps[i].Entry())
  }

  /**
   A number read off the front of the input, or a finished item, with the input after it; or two lengths whose sum
   overflows, from where on the source's C code has no defined behaviour.
   */
  datatype Front<+T> = Short | Got(item: T, rest: seq<Byte>) | Overlong

  function LongLength(s: seq<Byte>): nat
    requires |s| == 4 && s[0] >= 128
  {
    (s[0] as int - 128) * 0x100_0000 + s[1] as int * 0x1_0000 + s[2] as int * 256 + s[3] as int
  }

  function ParseLength(s: seq<Byte>): (f: Front<nat>)
    ensures !f.Overlong? && (f.Got? ==> |f.rest| < |s|)
  {
    if s == [] then Short
    else if s[0] < 128 then Got(s[0] as int, s[1..])
    else if |s| < 4 then Short
    else Got(LongLength(s[..4]), s[4..])
  }

  function ParsePair(s: seq<Byte>): (f: Front<seq<Byte>>)
    ensures f.Got? ==> |f.rest| < |s|
  {
    var n := ParseLength(s);
    if n.Short? then Short else
    var v := ParseLength(n.rest);
    if v.Short? then Short
    else if n.item + v.item > MAX_PAIR then Overlong
    else if |v.rest| < n.item + v.item then Short
    else Got(v.rest[..n.item] + [EQUALS] + v.rest[n.item..n.item + v.item], v.rest[n.item + v.item..])
  }

  /**
   The complete pairs of s in order, whether s ends exactly after the last of them, and whether the source's C code
   has a defined behaviour on s.
   */
  datatype Parsed = Parsed(entries: seq<seq<Byte>>, whole: bool, defined: bool)

  function Parse(s: seq<Byte>): (p: Parsed)
    ensures p.whole ==> p.defined
    decreases |s|
  {
    if s == [] then Parsed([], true, true)
    else
      match ParsePair(s)
      case Short => Parsed([], false, true)
      case Overlong => Parsed([], false, false)
      case Got(item, rest) => var more := Parse(rest); more.(entries := [item] + more.entries)
  }

  lemma LengthRoundTrip(n: nat, long: bool, tail: seq<Byte>)
    requires n < 0x8000_0000 && (long || n < 128)
    ensures ParseLength(EncodeLength(n, long) + tail) == Got(n, tail)
  {
    var s := EncodeLength(n, long) + tail;
    if long {
      assert s[..4] == EncodeLength(n, long) && s[4..] == tail;
      StatusBytes(n);
    } else {
      assert s[1..] == tail;
    }
  }

  lemma PairRoundTrip(p: Pair, tail: seq<Byte>)
    requires p.Sendable()
    ensures ParsePair(EncodePair(p) + tail) == if p.Storable() then Got(p.Entry(), tail) else Overlong
  {
    hide EncodeLength, ParseLength;
    var a, b := EncodeLength(|p.name|, p.longName), EncodeLength(|p.value|, p.longValue);
    var body := p.name + p.value + tail;
    assert EncodePair(p) + tail == a + (b + body);
    LengthRoundTrip(|p.name|, p.longName, b + body);
    LengthRoundTrip(|p.value|, p.longValue, body);
    assert body[..|p.name|] == p.name;
    assert body[|p.name|..|p.name| + |p.value|] == p.value;
    assert body[|p.name| + |p.value|..] == tail;
  }

  lemma LengthPrefix(n: nat, long: bool, k: nat)
    requires n < 0x8000_0000 && (long || n < 128) && k < |EncodeLength(n, long)|
    ensures ParseLength(EncodeLength(n, long)[..k]).Short?
  {
  }

  /** Nothing shorter than a whole pair is taken for one, but two lengths that overflow are found out at once. */
  lemma PairPrefix(p: Pair, k: nat)
    requires p.Sendable() && k < |EncodePair(p)|
    ensures ParsePair(EncodePair(p)[..k]) == if p.Storable() || k < |p.Lengths()| then Short else Overlong
  {
    hide EncodeLength, ParseLength, EncodePair;
    var a, b := EncodeLength(|p.name|, p.longName), EncodeLength(|p.value|, p.longValue);
    var body := p.name + p.value;
    PairParts(p);
    Cut(a, b + body, k);
    if k < |a| {
      LengthPrefix(|p.name|, p.longName, k);
    } else {
      var j := k - |a|;
      LengthRoundTrip(|p.name|, p.longName, (b + body)[..j]);
      Cut(b, body, j);
      var s := EncodePair(p)[..k];
      assert s == a + (b + body)[..j];
      assert ParseLength(s) == Got(|p.name|, (b + body)[..j]);
      if j < |b| {
        LengthPrefix(|p.value|, p.longValue, j);
        assert (b + body)[..j] == b[..j];
      } else {
        LengthRoundTrip(|p.value|, p.longValue, body[..j - |b|]);
        assert (b + body)[..j] == b + body[..j - |b|];
      }
    }
  }

  lemma PairParts(p: Pair)
    requires p.Sendable()
    ensures EncodePair(p) == EncodeLength(|p.name|, p.longName) + (EncodeLength(|p.value|, p.longValue) + (p.name + p.value))
  {
  }

  lemma ParseStep(s: seq<Byte>, entry: seq<Byte>, rest: seq<Byte>)
    requires ParsePair(s) == Got(entry, rest)
    ensures Parse(s) == Parse(rest).(entries := [entry] + Parse(rest).entries)
  {
  }

  /**
   Parsing inverts encoding; when the bytes stop inside a pair, exactly the pairs before it are kept. It is defined
   as long as no pair whose lengths have both been sent is too long to be stored.
   */
  lemma {:induction false} ParseInverts(ps: seq<Pair>, last: Pair, k: nat)
    requires AllSendable(ps) && last.Sendable() && k < |EncodePair(last)|
    ensures var r := Parse(EncodePairs(ps) + EncodePair(last)[..k]);
      && (r.defined <==> AllStorable(ps) && (last.Storable() || k < |last.Lengths()|))
      && (r.defined ==> r == Parsed(Entries(ps), k == 0, true))
  {
    hide ParsePair, EncodePair, EncodeLength;
    var cut := EncodePair(last)[..k];
    PairPrefix(last, k);
    if ps == [] {
      Units(cut);
      LengthsNotEmpty(last);
    } else {
      var p, more := ps[0], ps[1..];
      ParseInverts(more, last, k);
      Associate(EncodePair(p), EncodePairs(more), cut);
      PairRoundTrip(p, EncodePairs(more) + cut);
      NotEmpty(p, EncodePairs(more) + cut);
      EntriesCons(p, more);
      assert ps == [p] + more;
    }
  }

  lemma LengthsNotEmpty(p: Pair)
    requires p.Sendable()
    ensures 0 < |p.Lengths()| <= |EncodePair(p)|
  {
  }

  lemma NotEmpty(p: Pair, tail: seq<Byte>)
    requires p.Sendable()
    ensures EncodePair(p) + tail != []
  {
    LengthsNotEmpty(p);
  }

  lemma ParseEncoded(ps: seq<Pair>)
    requires AllSendable(ps)
    ensures var r := Parse(EncodePairs(ps)); if AllStorable(ps) then r == Parsed(Entries(ps), true, true) else !r.defined
  {
    hide ParsePair, EncodePair;
    var none := Pair([], [], false, false);
    LengthsNotEmpty(none);
    ParseInverts(ps, none, 0);
    assert EncodePairs(ps) + EncodePair(none)[..0] == EncodePairs(ps);
  }

  /** Eight bytes are enough: two lengths of 0x7fffffff, whose sum overflows. */
  lemma EightBytes()
    ensures var eight: seq<Byte> := [255, 255, 255, 255, 255, 255, 255, 255]; !Parse(eight).defined
  {
    var eight: seq<Byte> := [255, 255, 255, 255, 255, 255, 255, 255];
    var four: seq<Byte> := [255, 255, 255, 255];
    assert eight[..4] == four && eight[4..] == four && four[..4] == four;
  }

  lemma LengthDigits(a: int, b: int, c: int, d: int)
    requires 0 <= a < 128 && 0 <= b < 256 && 0 <= c < 256 && 0 <= d < 256
    ensures var n := a * 0x100_0000 + b * 0x1_0000 + c * 256 + d;
      && 0 <= n < 0x8000_0000 && n / 0x100_0000 == a && n / 0x1_0000 % 256 == b && n / 256 % 256 == c && n % 256 == d
  {
    var n := a * 0x100_0000 + b * 0x1_0000 + c * 256 + d;
    assert n / 256 == a * 0x1_0000 + b * 256 + c;
    assert n / 0x1_0000 == a * 256 + b;
  }

  lemma LengthForm(s: seq<Byte>)
    requires ParseLength(s).Got?
    ensures var n := ParseLength(s).item;
      && n < 0x8000_0000 && (s[0] >= 128 || n < 128)
      && s == EncodeLength(n, s[0] >= 128) + ParseLength(s).rest
  {
    if s[0] >= 128 {
      LengthDigits(s[0] - 128, s[1], s[2], s[3]);
      assert EncodeLength(ParseLength(s).item, true) == s[..4];
      assert s == s[..4] + s[4..];
    } else {
      assert s == [s[0]] + s[1..];
    }
  }

  /** Every pair that a parse takes off the front is the encoding of a pair, in the length forms used. */
  lemma FirstPair(s: seq<Byte>) returns (p: Pair)
    requires ParsePair(s).Got?
    ensures p.Sendable() && p.Storable() && p.Entry() == ParsePair(s).item
    ensures s == EncodePair(p) + ParsePair(s).rest
  {
    hide EncodeLength, ParseLength;
    LengthForm(s);
    var n := ParseLength(s);
    LengthForm(n.rest);
    var v := ParseLength(n.rest);
    p := Pair(v.rest[..n.item], v.rest[n.item..n.item + v.item], s[0] >= 128, n.rest[0] >= 128);
    var rest := ParsePair(s).rest;
    SplitThree(v.rest, n.item, v.item);
    Regroup(EncodeLength(n.item, p.longName), EncodeLength(v.item, p.longValue), p.name, p.value, rest);
  }

  lemma SplitThree<T>(s: seq<T>, n: nat, k: nat)
    requires n + k <= |s|
    ensures s == s[..n] + s[n..n + k] + s[n + k..]
  {
  }

  lemma Regroup<T>(a: seq<T>, b: seq<T>, c: seq<T>, d: seq<T>, e: seq<T>)
    ensures a + (b + (c + d + e)) == a + b + c + d + e
  {
  }

  /**
   Every byte string is the encoding of the storable pairs parsed from it, then a tail that starts no whole one; and
   it is defined exactly when the tail does not start with two lengths that overflow.
   */
  lemma {:induction false} ParseIsComplete(s: seq<Byte>) returns (ps: seq<Pair>, tail: seq<Byte>)
    ensures AllSendable(ps) && s == EncodePairs(ps) + tail
    ensures Parse(s) == Parsed(Entries(ps), tail == [], !ParsePair(tail).Overlong?)
    ensures AllStorable(ps) && !ParsePair(tail).Got?
    decreases |s|
  {
    if s == [] || !ParsePair(s).Got? {
      ps, tail := [], s;
    } else {
      var p := FirstPair(s);
      var rest := ParsePair(s).rest;
      var more;
      more, tail := ParseIsComplete(rest);
      ps := [p] + more;
      EncodeCons(p, more);
      Associate(EncodePair(p), EncodePairs(more), tail);
      EntriesCons(p, more);
      ParseStep(s, p.Entry(), rest);
    }
  }

  lemma EntriesCons(p: Pair, more: seq<Pair>)
    ensures Entries([p] + more) == [p.Entry()] + Entries(more)
  {
    var ps := [p] + more;
    forall i | 0 <= i < |ps| ensures Entries(ps)[i] == ([p.Entry()] + Entries(more))[i] {
      if i > 0 {
        assert ps[i] == more[i - 1];
      }
    }
  }

  lemma EncodeCons(p: Pair, more: seq<Pair>)
    requires p.Sendable() && AllSendable(more)
    ensures AllSendable([p] + more) && EncodePairs([p] + more) == EncodePair(p) + EncodePairs(more)
  {
    assert ([p] + more)[1..] == more;
  }

  lemma LengthThenMore(a: seq<Byte>, b: seq<Byte>)
    requires ParseLength(a).Got?
    ensures ParseLength(a + b) == Got(ParseLength(a).item, ParseLength(a).rest + b)
  {
    if a[0] < 128 {
      assert (a + b)[1..] == a[1..] + b;
    } else {
      assert (a + b)[..4] == a[..4] && (a + b)[4..] == a[4..] + b;
    }
  }

  lemma PairThenMore(a: seq<Byte>, b: seq<Byte>)
    requires ParsePair(a).Got?
    ensures ParsePair(a + b) == Got(ParsePair(a).item, ParsePair(a).rest + b)
  {
    hide ParseLength;
    var n := ParseLength(a);
    var v := ParseLength(n.rest);
    LengthThenMore(a, b);
    LengthThenMore(n.rest, b);
    var k := n.item + v.item;
    Cut(v.rest, b, n.item);
    Cut(v.rest, b, k);
    assert (v.rest + b)[n.item..k] == v.rest[n.item..k];
  }

  /** Whole pairs may be parsed one after another. */
  lemma {:induction false} ParseThenMore(a: seq<Byte>, b: seq<Byte>)
    requires Parse(a).whole
    ensures Parse(a + b) == Parse(b).(entries := Parse(a).entries + Parse(b).entries)
    decreases |a|
  {
    if a == [] {
      assert a + b == b;
    } else {
      var f := ParsePair(a);
      PairThenMore(a, b);
      ParseThenMore(f.rest, b);
      ParseStep(a, f.item, f.rest);
      ParseStep(a + b, f.item, f.rest + b);
      Associate([f.item], Parse(f.rest).entries, Parse(b).entries);
    }
  }

  lemma OverlongThenMore(a: seq<Byte>, b: seq<Byte>)
    requires ParsePair(a).Overlong?
    ensures ParsePair(a + b).Overlong?
  {
    hide ParseLength;
    LengthThenMore(a, b);
    LengthThenMore(ParseLength(a).rest, b);
  }

  /** Once the parse is undefined, more bytes do not change it. */
  lemma {:induction false} UndefinedThenMore(a: seq<Byte>, b: seq<Byte>)
    requires !Parse(a).defined
    ensures Parse(a + b) == Parse(a)
    decreases |a|
  {
    hide ParsePair;
    assert a + b != [];
    var f := ParsePair(a);
    if f.Overlong? {
      OverlongThenMore(a, b);
    } else {
      PairThenMore(a, b);
      UndefinedThenMore(f.rest, b);
    }
  }

  /** A pair read piece by piece: each length from its own bytes, then the name, then the value. */
  lemma PairFromPieces(a: seq<Byte>, b: seq<Byte>, name: seq<Byte>, value: seq<Byte>, n: nat, v: nat)
    requires ParseLength(a) == Got(n, []) && ParseLength(b) == Got(v, []) && n + v <= MAX_PAIR
    requires |name| <= n && |value| <= v && (|name| < n ==> value == [])
    ensures ParsePair(a + (b + (name + value))) ==
      if |name| == n && |value| == v then Got(name + [EQUALS] + value, []) else Short
  {
    hide ParseLength;
    BodyFromLengths(a, b, name + value, n, v);
    if |name| == n && |value| == v {
      NameAndValue(name, value);
    }
  }

  /** What both lengths, and then any body, come to. */
  lemma BodyFromLengths(a: seq<Byte>, b: seq<Byte>, body: seq<Byte>, n: nat, v: nat)
    requires ParseLength(a) == Got(n, []) && ParseLength(b) == Got(v, [])
    ensures ParsePair(a + (b + body)) ==
      if n + v > MAX_PAIR then Overlong
      else if |body| < n + v then Short
      else Got(body[..n] + [EQUALS] + body[n..n + v], body[n + v..])
  {
    hide ParseLength;
    LengthThenMore(a, b + body);
    LengthThenMore(b, body);
    Units(b + body);
    Units(body);
  }

  lemma NameAndValue<T>(name: seq<T>, value: seq<T>)
    ensures var body, n := name + value, |name| + |value|;
      body[..|name|] == name && body[|name|..n] == value && body[n..] == []
  {
  }

  lemma PairShort(a: seq<Byte>, b: seq<Byte>)
    requires ParseLength(a).Short? || (ParseLength(a).rest == [] && ParseLength(b).Short?)
    requires ParseLength(a).Short? ==> b == []
    ensures ParsePair(a + b).Short?
  {
    if ParseLength(a).Short? {
      assert a + b == a;
    } else {
      LengthThenMore(a, b);
      assert [] + b == b;
    }
  }

  lemma NoLength()
    ensures ParseLength([]).Short?
  {
  }

  lemma ParseNothing()
    ensures Parse([]) == Parsed([], true, true)
  {
  }

  lemma ParseOne(s: seq<Byte>, entry: seq<Byte>)
    requires ParsePair(s) == Got(entry, [])
    ensures Parse(s) == Parsed([entry], true, true)
  {
    ParseStep(s, entry, []);
    ParseNothing();
  }

  lemma ParseStop(s: seq<Byte>)
    requires s != [] && ParsePair(s).Short?
    ensures Parse(s) == Parsed([], false, true)
  {
  }

  lemma ParseOverlong(s: seq<Byte>)
    requires ParsePair(s).Overlong?
    ensures Parse(s) == Parsed([], false, false)
  {
  }

  // ---- Looking a name up ----

  const NUL: Byte := 0

  /** The text before the first '=' of a C string, if it has one. */
  function CutName(entry: seq<Byte>): (name: Option<seq<Byte>>)
    ensures name.Some? ==> |name.value| < |entry| && entry[..|name.value|] == name.value
                           && entry[|name.value|] == EQUALS
  {
    if entry == [] || entry[0] == NUL then None
    else if entry[0] == EQUALS then Some([])
    else match CutName(entry[1..])
      case None => None
      case Some(name) => Some([entry[0]] + name)
  }

  predicate PlainName(name: seq<Byte>) {
    NUL !in name && EQUALS !in name
  }

  lemma {:induction false} CutNameOfEntry(name: seq<Byte>, value: seq<Byte>)
    requires PlainName(name)
    ensures CutName(name + [EQUALS] + value) == Some(name)
  {
    var e := name + [EQUALS] + value;
    if name == [] {
      assert e[0] == EQUALS;
    } else {
      assert e[0] == name[0] && e[1..] == name[1..] + [EQUALS] + value;
      CutNameOfEntry(name[1..], value);
      assert [name[0]] + name[1..] == name;
    }
  }
}
