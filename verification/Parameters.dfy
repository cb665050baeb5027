/** The growing, NULL-terminated vector of name=value strings, and looking a name up in it. */
module Parameters {
  import opened Protocol
  import opened NameValue

  class Params {
    var vec: array<Option<seq<Byte>>>
    var length: nat
    var cur: nat

    ghost predicate Valid()
      reads this, vec
    {
      && cur < length == vec.Length
      && (forall i :: 0 <= i < cur ==> vec[i].Some?)
      && vec[cur].None?
    }

    function Contents(): (s: seq<seq<Byte>>)
      requires Valid()
      reads this, vec
      ensures |s| == cur && forall i :: 0 <= i < cur ==> vec[i] == Some(s[i])
    {
      seq(cur, i requires 0 <= i < cur reads this, vec requires Valid() => vec[i].value)
    }

    constructor (size: nat)
      requires size > 0
      ensures Valid() && fresh(vec) && Contents() == [] && length == size
    {
      vec := new Option<seq<Byte>>[size];
      length, cur := size, 0;
      new;
      vec[0] := None;
    }

    method PutParam(nameValue: seq<Byte>)
      requires Valid()
      modifies this, vec
      ensures Valid() && (vec == old(vec) || fresh(vec))
      ensures Contents() == old(Contents()) + [nameValue]
      ensures length == if old(cur) + 1 < old(length) then old(length) else 2 * old(length)
    {
      ghost var before := Contents();
      vec[cur] := Some(nameValue);
      cur := cur + 1;
      if cur >= length {
        var bigger := new Option<seq<Byte>>[2 * length];
        forall i | 0 <= i < cur {
          bigger[i] := vec[i];
        }
        length, vec := 2 * length, bigger;
      }
      vec[cur] := None;
      assert Contents() == before + [nameValue];
    }
  }

  /** Whether a C-string comparison of the first |name| bytes succeeds and '=' follows. */
  predicate Names(entry: seq<Byte>, name: seq<Byte>) {
    |name| < |entry| && entry[..|name|] == name && entry[|name|] == EQUALS
  }

  function Lookup(name: seq<Byte>, entries: seq<seq<Byte>>): Option<seq<Byte>> {
    if entries == [] then None
    else if Names(entries[0], name) then Some(entries[0][|name| + 1..])
    else Lookup(name, entries[1..])
  }

  /** The scan runs up to the terminator; no length is passed. */
  method GetParam(name: seq<Byte>, envp: array<Option<seq<Byte>>>, ghost entries: seq<seq<Byte>>)
    returns (value: Option<seq<Byte>>)
    requires |entries| < envp.Length && envp[|entries|].None?
    requires forall i :: 0 <= i < |entries| ==> envp[i] == Some(entries[i])
    ensures value == Lookup(name, entries)
  {
    var p := 0;
    while envp[p].Some?
      invariant p <= |entries|
      invariant Lookup(name, entries) == Lookup(name, entries[p..])
      decreases |entries| - p
    {
      var entry := envp[p].value;
      assert entries[p..][0] == entry && entries[p..][1..] == entries[p + 1..];
      if |name| < |entry| && entry[..|name|] == name && entry[|name|] == EQUALS {
        return Some(entry[|name| + 1..]);
      }
      p := p + 1;
    }
    return None;
  }

  /** Association-list lookup on the pairs themselves. */
  function FirstValue(name: seq<Byte>, ps: seq<Pair>): Option<seq<Byte>> {
    if ps == [] then None else if ps[0].name == name then Some(ps[0].value) else FirstValue(name, ps[1..])
  }

  /** A string is found under a plain name exactly when that name is what stands before its first '='. */
  lemma NamesIsCutName(entry: seq<Byte>, name: seq<Byte>)
    requires PlainName(name)
    ensures Names(entry, name) <==> CutName(entry) == Some(name)
  {
    if Names(entry, name) {
      CutNameOfEntry(name, entry[|name| + 1..]);
      assert entry == name + [EQUALS] + entry[|name| + 1..];
    }
  }

  /** Where a C string that starts with this name is cut: its first '=', or its end. */
  function CutPoint(name: seq<Byte>): (k: nat)
    ensures k <= |name| && EQUALS !in name[..k] && (k < |name| ==> name[k] == EQUALS)
  {
    if name == [] || name[0] == EQUALS then 0 else
    var k := 1 + CutPoint(name[1..]);
    assert name[..k] == [name[0]] + name[1..][..k - 1];
    k
  }

  /** The pair that the joined string stands for: an '=' in the name moves the rest of it to the value. */
  function Recut(p: Pair): (q: Pair)
    ensures q.Entry() == p.Entry() && EQUALS !in q.name
    ensures q == p <==> EQUALS !in p.name
  {
    var k := CutPoint(p.name);
    if k == |p.name| then
      assert p.name[..k] == p.name;
      p
    else
      var q := p.(name := p.name[..k], value := p.name[k + 1..] + [EQUALS] + p.value);
      assert p.name == p.name[..k] + [EQUALS] + p.name[k + 1..];
      q
  }

  function RecutAll(ps: seq<Pair>): (qs: seq<Pair>)
    ensures |qs| == |ps|
  {
    seq(|ps|, i requires 0 <= i < |ps| => Recut(ps[i]))
  }

  lemma EntryNames(p: Pair, name: seq<Byte>)
    requires EQUALS !in name && EQUALS !in p.name
    ensures Names(p.Entry(), name) <==> p.name == name
    ensures p.Entry()[|p.name| + 1..] == p.value
  {
    var e := p.Entry();
    assert e[|p.name|] == EQUALS && e[..|p.name|] == p.name;
    assert |name| < |p.name| ==> e[|name|] == p.name[|name|];
    forall k | |p.name| < k <= |e| ensures EQUALS in e[..k] {
      assert e[..k][|p.name|] == EQUALS;
    }
  }

  /** Looking up any name without '=' is first-match lookup on the pairs as recut. */
  lemma {:induction false} LookupIsFirstMatch(name: seq<Byte>, ps: seq<Pair>)
    requires EQUALS !in name
    ensures Lookup(name, Entries(ps)) == FirstValue(name, RecutAll(ps))
  {
    if ps != [] {
      LookupIsFirstMatch(name, ps[1..]);
      assert Entries(ps)[1..] == Entries(ps[1..]);
      assert RecutAll(ps)[1..] == RecutAll(ps[1..]);
      EntryNames(Recut(ps[0]), name);
    }
  }

  /** So it is lookup on the pairs as sent when no name holds an '='. */
  lemma LookupOfPlainNames(name: seq<Byte>, ps: seq<Pair>)
    requires EQUALS !in name && forall i :: 0 <= i < |ps| ==> EQUALS !in ps[i].name
    ensures Lookup(name, Entries(ps)) == FirstValue(name, ps)
  {
    LookupIsFirstMatch(name, ps);
    assert RecutAll(ps) == ps;
  }

  /** A pair is found under its own name, and under no other, exactly when that name has no '='. */
  lemma EqualsInNameAliases(p: Pair)
    ensures (forall name | EQUALS !in name :: Lookup(name, Entries([p])) == FirstValue(name, [p]))
       <==> EQUALS !in p.name
  {
    if EQUALS !in p.name {
      forall name | EQUALS !in name ensures Lookup(name, Entries([p])) == FirstValue(name, [p]) {
        LookupOfPlainNames(name, [p]);
      }
    } else {
      var q := Recut(p);
      LookupIsFirstMatch(q.name, [p]);
      assert RecutAll([p])[0] == q;
      assert Lookup(q.name, Entries([p])).Some?;
      assert [p][0].name != q.name && [p][1..] == [];
      assert FirstValue(q.name, [p]) == FirstValue(q.name, [p][1..]);
    }
  }

  /** The entry put first wins over every later one of the same name. */
  lemma FirstEntryWins(entry: seq<Byte>, later: seq<seq<Byte>>, name: seq<Byte>)
    requires Names(entry, name)
    ensures Lookup(name, [entry] + later) == Some(entry[|name| + 1..])
  {
  }
}
