/** What the bytes on the wire mean, byte by byte and in plain numbers. */
module Wire {
  import opened Protocol
  import opened NameValue
  import opened GetValues
  import opened Parameters
  import opened Deframer
  import opened RecordStreams
  import opened Openings
  import opened Environment
  import opened Lines
  import opened Progress
  import opened Readers
  import opened Writers
  import opened Requests
  import opened KeepAlive

  // ---- Records as they come in ----

  /**
   A whole record at the front of the input, with any bytes for its header: the high byte of a number comes first. Of a
   record that begins a request the padding comes next; any other is passed with its padding.
   */
  lemma RecordMeans(s: seq<Byte>, content: seq<Byte>, padding: seq<Byte>, tail: seq<Byte>, x: Ctx)
    requires |s| == 8 && |content| == 256 * s[4] as int + s[5] as int && |padding| == s[6]
    ensures var id := 256 * s[2] as int + s[3] as int;
      var r, next := Read(s + (content + (padding + tail)), 0, 0, false, false, x), Read(tail, 0, 0, false, false, x);
      && (s[0] != 1 ==> r == Done(Failed(-2)))
      && (s[0] == 1 && s[1] == 1 ==>
            r == if id == 0 || |content| != 8 then Done(Failed(-3))
                 else if x.begun then Answer(CantMultiplex(id), next)
                 else Done(Begun(padding + tail, id, 256 * content[0] as int + content[1] as int, content[2] % 2 == 1)))
      && (s[0] == 1 && s[1] != 1 && s[1] != 9 && id == 0 ==> r == Answer(Unknown(s[1]), Prepend(content, next)))
      && (s[0] == 1 && s[1] != 1 && id != 0 && id != x.id ==>
            r == if content == [] then Read(tail, 0, 0, true, false, x) else next)
      && (s[0] == 1 && s[1] != 1 && id != 0 && id == x.id ==>
            r == if s[1] != x.typ then Done(Failed(-3))
                 else if content == [] then Done(EndOfStream(padding + tail))
                 else Prepend(content, next))
  {
    hide Read, Dispatch;
    AtHeader(s, content + (padding + tail), false, x);
    DispatchMeans(Header(s[0], s[1], 256 * s[2] as int + s[3] as int, 256 * s[4] as int + s[5] as int, s[6]),
                  content, padding, tail, x);
  }

  lemma DispatchMeans(h: Header, content: seq<Byte>, padding: seq<Byte>, tail: seq<Byte>, x: Ctx)
    requires |content| == h.contentLen && |padding| == h.paddingLen
    ensures var r, next := Dispatch(h, content + (padding + tail), false, x), Read(tail, 0, 0, false, false, x);
      && (h.version != 1 ==> r == Done(Failed(-2)))
      && (h.version == 1 && h.typ == 1 ==>
            r == if h.id == 0 || |content| != 8 then Done(Failed(-3))
                 else if x.begun then Answer(CantMultiplex(h.id), next)
                 else Done(Begun(padding + tail, h.id, 256 * content[0] as int + content[1] as int, content[2] % 2 == 1)))
      && (h.version == 1 && h.typ != 1 && h.typ != 9 && h.id == 0 ==> r == Answer(Unknown(h.typ), Prepend(content, next)))
      && (h.version == 1 && h.typ != 1 && h.id != 0 && h.id != x.id ==>
            r == if content == [] then Read(tail, 0, 0, true, false, x) else next)
      && (h.version == 1 && h.typ != 1 && h.id != 0 && h.id == x.id ==>
            r == if h.typ != x.typ then Done(Failed(-3))
                 else if content == [] then Done(EndOfStream(padding + tail))
                 else Prepend(content, next))
  {
    hide Read, Begin;
    Passed(h.paddingLen, content, padding, tail, x);
    if h.typ == 1 {
      BeginMeans(h, content, padding, tail, x);
    } else if content == [] {
      Units(padding + tail);
    }
  }

  /** Content that is delivered, or skipped. */
  lemma Passed(p: Byte, content: seq<Byte>, padding: seq<Byte>, tail: seq<Byte>, x: Ctx)
    requires |content| <= MAX_LENGTH && |padding| == p
    ensures var past, next := content + (padding + tail), Read(tail, 0, 0, false, false, x);
      && Read(past, |content|, p, false, false, x) == Prepend(content, next)
      && Read(past, |content|, p, true, false, x) == if content == [] then Read(tail, 0, 0, true, false, x) else next
  {
    hide Read;
    var r := Record(0, 0, content, padding);
    ContentPassed(r, tail, false, x);
    ContentPassed(r, tail, true, x);
    Units(Read(tail, 0, 0, true, false, x).content);
    Units(Read(tail, 0, 0, false, false, x).content);
  }

  lemma BeginMeans(h: Header, content: seq<Byte>, padding: seq<Byte>, tail: seq<Byte>, x: Ctx)
    requires |content| == h.contentLen && |padding| == h.paddingLen
    ensures Begin(h, content + (padding + tail), false, x) ==
      if h.id == 0 || |content| != 8 then Done(Failed(-3))
      else if x.begun then Answer(CantMultiplex(h.id), Read(tail, 0, 0, false, false, x))
      else Done(Begun(padding + tail, h.id, 256 * content[0] as int + content[1] as int, content[2] % 2 == 1))
  {
    hide Read;
    if h.id != 0 && |content| == 8 {
      if x.begun {
        Passed(h.paddingLen, content, padding, tail, x);
      } else {
        Body(content, padding + tail);
      }
    }
  }

  lemma Body(content: seq<Byte>, after: seq<Byte>)
    requires |content| == 8
    ensures var past := content + after;
      |past| >= 8 && past[0] == content[0] && past[1] == content[1] && past[2] == content[2] && past[8..] == after
  {
  }

  lemma AtHeader(s: seq<Byte>, past: seq<Byte>, skip: bool, x: Ctx)
    requires |s| == 8
    ensures Read(s + past, 0, 0, skip, false, x)
         == Dispatch(Header(s[0], s[1], 256 * s[2] as int + s[3] as int, 256 * s[4] as int + s[5] as int, s[6]), past, skip, x)
  {
    hide Dispatch;
    BoundaryIsRead(s + past, skip, x);
    assert (s + past)[..8] == s && (s + past)[8..] == past;
  }

  /** A whole GET_VALUES query. */
  lemma QueryMeans(s: seq<Byte>, content: seq<Byte>, padding: seq<Byte>, tail: seq<Byte>, x: Ctx)
    requires |s| == 8 && |content| == 256 * s[4] as int + s[5] as int && |padding| == s[6] && s[..4] == [1, 9, 0, 0]
    ensures Read(s + (content + (padding + tail)), 0, 0, false, false, x) ==
      if !Parse(content).defined then Done(Undefined)
      else if padding + tail == [] then Done(Truncated)
      else if x.poisoned then Done(Failed(-3))
      else if !Parse(content).whole then Done(Failed(-4))
      else if Asked(content).None? then Done(Undefined)
      else Answer(Values(Asked(content).value), Read(tail, 0, 0, false, false, x))
  {
    hide Read, Parse, Asked;
    assert s[0] == 1 && s[1] == 9 && s[2] == 0 && s[3] == 0;
    AtHeader(s, content + (padding + tail), false, x);
    QueryPassed(Record(9, 0, content, padding), tail, false, x);
  }

  /** Three bytes for the standard input of request 1, padded, and its end. */
  function ThreeBytes(a: Byte, b: Byte, c: Byte, padding: seq<Byte>, tail: seq<Byte>): seq<Byte> {
    [1, 5, 0, 1, 0, 3, 5, 0] + ([a, b, c] + (padding + ([1, 5, 0, 1, 0, 0, 0, 0] + tail)))
  }

  /** They are what is delivered. */
  lemma ThreeBytesRead(a: Byte, b: Byte, c: Byte, padding: seq<Byte>, tail: seq<Byte>)
    requires |padding| == 5
    ensures Read(ThreeBytes(a, b, c, padding, tail), 0, 0, false, false, Ctx(5, 1, true, false))
         == Reading([a, b, c], [], EndOfStream(tail))
  {
    hide Read;
    var x := Ctx(5, 1, true, false);
    Units(tail);
    RecordMeans([1, 5, 0, 1, 0, 0, 0, 0], [], [], tail, x);
    RecordMeans([1, 5, 0, 1, 0, 3, 5, 0], [a, b, c], padding, [1, 5, 0, 1, 0, 0, 0, 0] + tail, x);
  }

  /** Behind an empty record for request 2 they are dropped. */
  lemma ThreeBytesDropped(a: Byte, b: Byte, c: Byte, padding: seq<Byte>, tail: seq<Byte>)
    requires |padding| == 5
    ensures Read([1, 5, 0, 2, 0, 0, 0, 0] + ThreeBytes(a, b, c, padding, tail), 0, 0, false, false, Ctx(5, 1, true, false))
         == Done(EndOfStream(tail))
  {
    hide Read, ThreeBytes;
    var x, three := Ctx(5, 1, true, false), ThreeBytes(a, b, c, padding, tail);
    Units(three);
    RecordMeans([1, 5, 0, 2, 0, 0, 0, 0], [], [], three, x);
    SkippedThree(a, b, c, padding, tail);
  }

  lemma SkippedThree(a: Byte, b: Byte, c: Byte, padding: seq<Byte>, tail: seq<Byte>)
    requires |padding| == 5
    ensures Read(ThreeBytes(a, b, c, padding, tail), 0, 0, true, false, Ctx(5, 1, true, false)) == Done(EndOfStream(tail))
  {
    hide Read;
    var x, end: seq<Byte> := Ctx(5, 1, true, false), [1, 5, 0, 1, 0, 0, 0, 0];
    Units(tail);
    AtHeader([1, 5, 0, 1, 0, 3, 5, 0], [a, b, c] + (padding + (end + tail)), true, x);
    Passed(5, [a, b, c], padding, end + tail, x);
    RecordMeans(end, [], [], tail, x);
  }

  /** A request just accepted, with its input to come, is given just these three bytes, however they come in. */
  method ReadThree(r: Request, ghost o: Opened, ghost a: Byte, ghost b: Byte, ghost c: Byte, ghost padding: seq<Byte>, ghost tail: seq<Byte>)
    returns (bytes: seq<Byte>)
    requires r.Untouched() && r.Serves(o) && |padding| == 5
    requires o.id == 1 && o.rest == EndOfStream(ThreeBytes(a, b, c, padding, tail))
    modifies r.shared, r.ipcFd, r.input, r.input.buff
    ensures r.input.Bounded() && r.input.isClosed
    ensures r.ipcFd.ok ==> bytes == [a, b, c] && r.input.errno == 0 && r.input.U().ahead == tail
  {
    hide Read, Went, Answering, ThreeBytes, Connection.Valid, Writer.Valid;
    ghost var m := r.input.V();
    bytes := ReadToEnd(r.input);
    if r.input.conn.ok {
      ThreeBytesRead(a, b, c, padding, tail);
      AllDelivered(m, bytes, r.input.V(), tail);
    }
  }

  lemma AllDelivered(m: View, got: seq<Byte>, v: View, tail: seq<Byte>)
    requires Went(m, got, v) && !v.open && v.ok && m.Rest().outcome == EndOfStream(tail)
    ensures got == m.Rest().content && v.errno == m.errno && v.ahead == tail
  {
    hide Read, AllAnswered;
    Units(got);
  }

  /**
   The record that begins a request, and then the reading of its parameters: it is opened exactly when the role is one of
   three and the parameters do not stop inside a pair.
   */
  lemma OpeningMeans(high: Byte, low: Byte, role: seq<Byte>, flags: Byte, reserved: seq<Byte>, more: seq<Byte>, id0: Id)
    requires |role| == 2 && |reserved| == 5 && high as int + low as int > 0
    ensures var id, n := 256 * high as int + low as int, 256 * role[0] as int + role[1] as int;
      var params := Read(more, 0, 0, false, false, Ctx(4, id, true, false));
      Opening([1, 1, high, low, 0, 8, 0, 0] + (role + [flags] + reserved + more), id0) ==
        if n < 1 || n > 3 then Refuses
        else if params.outcome.Undefined? || !Parse(params.content).defined then Unclear
        else if !Parse(params.content).whole then Refuses
        else Opens(Opened(id, n, flags % 2 == 1, Parse(params.content).entries, params.outcome))
  {
    hide Read, Parse;
    var body := role + [flags] + reserved;
    Units(more);
    RecordMeans([1, 1, high, low, 0, 8, 0, 0], body, [], more, Ctx(0, id0, false, false));
    assert body[0] == role[0] && body[1] == role[1] && body[2] == flags;
  }

  // ---- Replies as they go out ----

  /** A second request on the connection is rejected under its own id. */
  lemma RejectionBytes(r: Record, high: Byte, low: Byte)
    requires Answers(r, CantMultiplex(256 * high as int + low as int))
    ensures r.Fits() && EncodeRecord(r) == [1, 3, high, low, 0, 8, 0, 0] + [0, 0, 0, 0, 1, 0, 0, 0]
  {
    assert r.content == [0, 0, 0, 0, 1, 0, 0, 0];
  }

  /** A management record of another type is answered with that type. */
  lemma UnknownBytes(r: Record, typ: Byte)
    requires Answers(r, Unknown(typ))
    ensures r.Fits() && EncodeRecord(r) == [1, 11, 0, 0, 0, 8, 0, 0] + [typ, 0, 0, 0, 0, 0, 0, 0]
  {
    assert r.content == [typ, 0, 0, 0, 0, 0, 0, 0];
  }

  /** The answer to a query, padded to a multiple of eight bytes. */
  lemma AnswerBytes(r: Record, names: seq<seq<Byte>>)
    requires Answers(r, Values(names)) && InRoom(names)
    ensures r.Fits() && |r.content| < 56 && |r.padding| < 8 && (|r.content| + |r.padding|) % 8 == 0
    ensures EncodeRecord(r) == [1, 10, 0, 0, 0, |r.content|, |r.padding|, 0] + r.content + r.padding
    ensures r.content == AnswerContent(names)
  {
    hide AnswerContent;
    if names == [] {
      NoNames();
    }
  }

  // ---- The values that are asked for ----

  /** FCGI_MAX_CONNS, FCGI_MAX_REQS and FCGI_MPXS_CONNS. */
  const CONNS: seq<Byte> := [70, 67, 71, 73, 95, 77, 65, 88, 95, 67, 79, 78, 78, 83]
  const REQS: seq<Byte> := [70, 67, 71, 73, 95, 77, 65, 88, 95, 82, 69, 81, 83]
  const MPXS: seq<Byte> := [70, 67, 71, 73, 95, 77, 80, 88, 83, 95, 67, 79, 78, 78, 83]

  lemma NamesSpelt()
    ensures MAX_CONNS == CONNS && MAX_REQS == REQS && MPXS_CONNS == MPXS
    ensures CONNS != REQS && CONNS != MPXS && REQS != MPXS
    ensures PlainName(CONNS) && PlainName(REQS) && PlainName(MPXS)
  {
    assert |CONNS| == 14 && |REQS| == 13 && |MPXS| == 15;
  }

  /** A name that is looked up in an answer was asked for. */
  lemma {:induction false} AnsweredValue(names: seq<seq<Byte>>, name: seq<Byte>)
    requires forall i :: 0 <= i < |names| ==> Known(names[i])
    ensures FirstValue(name, AnswerPairs(names)) == if name in names then Some([ValueOf(name)]) else None
  {
    hide Known, ValueOf;
    if names != [] {
      AnsweredValue(names[1..], name);
      assert names == [names[0]] + names[1..];
    }
  }

  /** And it was asked for when an entry of the query has that name. */
  lemma {:induction false} AskedFor(entries: seq<seq<Byte>>, name: seq<Byte>)
    requires KnownNames(entries).Some? && Known(name) && PlainName(name)
    ensures name in KnownNames(entries).value <==> Lookup(name, entries).Some?
  {
    hide Known, Names, PlainName, CutName;
    if entries != [] {
      AskedFor(entries[1..], name);
      NamesIsCutName(entries[0], name);
    }
  }

  lemma {:induction false} AnswerNamesPlain(names: seq<seq<Byte>>)
    requires forall i :: 0 <= i < |names| ==> Known(names[i])
    ensures forall i :: 0 <= i < |names| ==> AnswerPairs(names)[i].name == names[i] && EQUALS !in names[i]
  {
    hide MAX_CONNS, MAX_REQS, MPXS_CONNS;
    NamesSpelt();
    if names != [] {
      AnswerNamesPlain(names[1..]);
    }
  }

  /** Each of the three names is found in the answer exactly when it was asked for, with the value 1, 1 or 0. */
  lemma AnswerMeans(content: seq<Byte>)
    requires Asked(content).Some?
    ensures var asked, given := Parse(content).entries, Parse(AnswerContent(Asked(content).value));
      && given.whole
      && Lookup(CONNS, given.entries) == (if Lookup(CONNS, asked).Some? then Some([49]) else None)
      && Lookup(REQS, given.entries) == (if Lookup(REQS, asked).Some? then Some([49]) else None)
      && Lookup(MPXS, given.entries) == (if Lookup(MPXS, asked).Some? then Some([48]) else None)
  {
    hide Parse, KnownNames, AnswerContent, Lookup, FirstValue, Entries;
    var names := Asked(content).value;
    NamesSpelt();
    AnswerIsPairs(names);
    ParseEncoded(AnswerPairs(names));
    AnswerNamesPlain(names);
    forall name | name == CONNS || name == REQS || name == MPXS
      ensures Lookup(name, Entries(AnswerPairs(names)))
           == if Lookup(name, Parse(content).entries).Some? then Some([ValueOf(name)]) else None
    {
      LookupOfPlainNames(name, AnswerPairs(names));
      AnsweredValue(names, name);
      AskedFor(Parse(content).entries, name);
    }
  }

  /** The answer to all three, in this order. */
  lemma AllThree()
    ensures Known(CONNS) && Known(REQS) && Known(MPXS)
    ensures AnswerContent([CONNS, REQS, MPXS])
         == ([14, 1] + CONNS + [49]) + (([13, 1] + REQS + [49]) + ([15, 1] + MPXS + [48]))
  {
    NamesSpelt();
    hide MAX_CONNS, MAX_REQS, MPXS_CONNS;
    var three, two, one := [CONNS, REQS, MPXS], [REQS, MPXS], [MPXS];
    var none: seq<seq<Byte>> := one[1..];
    assert three[1..] == two && two[1..] == one && none == [];
    assert AnswerItem(CONNS) == [14, 1] + CONNS + [49];
    assert AnswerItem(REQS) == [13, 1] + REQS + [49];
    assert AnswerItem(MPXS) == [15, 1] + MPXS + [48];
    assert AnswerContent(one) == AnswerItem(MPXS) by {
      Units(AnswerItem(MPXS));
    }
    assert AnswerContent(two) == AnswerItem(REQS) + AnswerContent(one);
  }

  // ---- Pairs ----

  /** One byte below 128, or four that start with one from 128 on, the high byte first. */
  predicate SpellsLength(s: seq<Byte>, n: nat) {
    if |s| == 1 then s[0] < 128 && n == s[0]
    else |s| == 4 && s[0] >= 128 && n == (s[0] as int - 128) * 16777216 + s[1] as int * 65536 + s[2] as int * 256 + s[3] as int
  }

  lemma LengthMeans(s: seq<Byte>, n: nat, tail: seq<Byte>)
    requires SpellsLength(s, n)
    ensures ParseLength(s + tail) == Got(n, tail)
  {
    if |s| == 1 {
      assert (s + tail)[1..] == tail;
    } else {
      assert (s + tail)[..4] == s && (s + tail)[4..] == tail;
    }
  }

  /** A whole pair at the front of the parameters: its lengths, name and value. */
  lemma PairMeans(a: seq<Byte>, b: seq<Byte>, name: seq<Byte>, value: seq<Byte>, tail: seq<Byte>)
    requires SpellsLength(a, |name|) && SpellsLength(b, |value|)
    ensures var p, more := Parse(a + (b + (name + value + tail))), Parse(tail);
      p == if |name| + |value| > 2147483645 then Parsed([], false, false)
           else more.(entries := [name + [61] + value] + more.entries)
  {
    hide ParseLength, SpellsLength;
    var body := name + value + tail;
    LengthMeans(a, |name|, b + body);
    LengthMeans(b, |value|, body);
    assert body[..|name|] == name && body[|name|..|name| + |value|] == value && body[|name| + |value|..] == tail;
    assert a + (b + body) != [] by {
      NoLength();
      Units(b + body);
    }
  }

  /** A value of 300 bytes. */
  lemma LongValue(name: Byte, value: seq<Byte>)
    requires |value| == 300
    ensures Parse([1, 128, 0, 1, 44] + ([name] + value)) == Parsed([[name, 61] + value], true, true)
  {
    hide Parse;
    PairMeans([1], [128, 0, 1, 44], [name], value, []);
    ParseNothing();
    Units([name] + value);
    assert [1] + ([128, 0, 1, 44] + ([name] + value + [])) == [1, 128, 0, 1, 44] + ([name] + value);
    assert [name] + [61] + value == [name, 61] + value;
  }

  /** FCGI_ROLE. */
  const ROLE: seq<Byte> := [70, 67, 71, 73, 95, 82, 79, 76, 69]

  /** RESPONDER, AUTHORIZER and FILTER. */
  lemma RolesSpelt()
    ensures ROLE_NAME == ROLE
    ensures RoleValue(1) == [82, 69, 83, 80, 79, 78, 68, 69, 82]
    ensures RoleValue(2) == [65, 85, 84, 72, 79, 82, 73, 90, 69, 82]
    ensures RoleValue(3) == [70, 73, 76, 84, 69, 82]
  {
  }

  /** The application finds its role under that name, whatever comes behind it in the environment. */
  lemma RoleBytes(later: seq<seq<Byte>>)
    ensures RoleEntry(1) == ROLE + [61] + [82, 69, 83, 80, 79, 78, 68, 69, 82]
    ensures Lookup(ROLE, [RoleEntry(1)] + later) == Some([82, 69, 83, 80, 79, 78, 68, 69, 82])
    ensures Lookup(ROLE, [RoleEntry(2)] + later) == Some([65, 85, 84, 72, 79, 82, 73, 90, 69, 82])
    ensures Lookup(ROLE, [RoleEntry(3)] + later) == Some([70, 73, 76, 84, 69, 82])
  {
    hide RoleEntry, RoleValue, Lookup, ROLE_NAME;
    RolesSpelt();
    RoleEntrySpelt(1);
    RoleWins(1, later);
    RoleWins(2, later);
    RoleWins(3, later);
  }

  /** An entry is cut at its first equals sign, if that comes before a zero. */
  lemma {:induction false} CutMeans(name: seq<Byte>, rest: seq<Byte>)
    requires 0 !in name && 61 !in name
    ensures CutName(name + [61] + rest) == Some(name) && CutName(name + [0] + rest) == None && CutName(name) == None
  {
    var equals, zero := name + [61] + rest, name + [0] + rest;
    if name == [] {
      assert equals[0] == 61 && zero[0] == 0;
    } else {
      CutMeans(name[1..], rest);
      assert name[0] in name;
      assert equals[0] == name[0] && equals[1..] == name[1..] + [61] + rest;
      assert zero[0] == name[0] && zero[1..] == name[1..] + [0] + rest;
      assert name == [name[0]] + name[1..];
    }
  }

  /** A line ends with the newline character. */
  lemma NewlineEnds(a: Byte, tail: seq<Byte>, k: nat)
    requires a != 10 && k >= 2
    ensures FirstLine([a, 10] + tail, k) == [a, 10]
  {
    var s := [a, 10] + tail;
    assert s[1..][0] == 10;
  }

  // ---- What goes out ----

  /** The eight bytes of a body that ends a request with exit status a, two's complement with the high byte first. */
  predicate SaysStatus(b: seq<Byte>, a: int) {
    && |b| == 8
    && b[0] as int * 16777216 + b[1] as int * 65536 + b[2] as int * 256 + b[3] as int == (if a < 0 then a + 4294967296 else a)
    && b[4..] == [0, 0, 0, 0]
  }

  lemma StatusMeans(a: int)
    requires -0x8000_0000 <= a < 0x8000_0000
    ensures SaysStatus(EndRequestBody(a, 0), a)
    ensures EndRequestBody(1, 0) == [0, 0, 0, 1, 0, 0, 0, 0]
    ensures EndRequestBody(-1, 0) == [255, 255, 255, 255, 0, 0, 0, 0]
  {
    StatusBytes(a % 0x1_0000_0000);
  }

  /** The wire ends with the record that ends request id, with this exit status. */
  predicate EndsRequest(wire: seq<Byte>, high: Byte, low: Byte, a: int) {
    && |wire| >= 16
    && wire[|wire| - 16..|wire| - 8] == [1, 3, high, low, 0, 8, 0, 0]
    && SaysStatus(wire[|wire| - 8..], a)
    && (a == 1 ==> wire[|wire| - 8..] == [0, 0, 0, 1, 0, 0, 0, 0])
    && (a == -1 ==> wire[|wire| - 8..] == [255, 255, 255, 255, 0, 0, 0, 0])
  }

  lemma HeaderBytes(typ: Byte, high: Byte, low: Byte, m: Byte, n: Byte, padding: Byte)
    ensures EncodeHeader(typ, 256 * high as int + low as int, 256 * m as int + n as int, padding)
         == [1, typ, high, low, m, n, padding, 0]
  {
  }

  lemma EndBytes(high: Byte, low: Byte, a: int)
    ensures var r := EndRequest(256 * high as int + low as int, a, REQUEST_COMPLETE);
      r.Fits() && EncodeRecord(r) == [1, 3, high, low, 0, 8, 0, 0] + EndRequestBody(a, 0)
  {
    hide EndRequestBody, EncodeHeader;
    HeaderBytes(3, high, low, 0, 8, 0);
    Units([1, 3, high, low, 0, 8, 0, 0] + EndRequestBody(a, 0));
  }

  lemma LastBytes<T>(before: seq<T>, header: seq<T>, body: seq<T>)
    requires |header| == 8 && |body| == 8
    ensures var s := before + (header + body); |s| >= 16 && s[|s| - 16..|s| - 8] == header && s[|s| - 8..] == body
  {
  }

  lemma EndsWith(before: seq<Byte>, high: Byte, low: Byte, a: int)
    requires -0x8000_0000 <= a < 0x8000_0000
    ensures EndsRequest(before + ([1, 3, high, low, 0, 8, 0, 0] + EndRequestBody(a, 0)), high, low, a)
  {
    hide EndRequestBody, SaysStatus;
    StatusMeans(a);
    LastBytes(before, [1, 3, high, low, 0, 8, 0, 0], EndRequestBody(a, 0));
  }

  /** Records of which the last completes a request. */
  lemma CompletionBytes(init: seq<Record>, high: Byte, low: Byte, a: int)
    requires AllFit(init) && -0x8000_0000 <= a < 0x8000_0000
    ensures var all := init + [EndRequest(256 * high as int + low as int, a, REQUEST_COMPLETE)];
      AllFit(all) && EndsRequest(EncodeAll(all), high, low, a)
  {
    hide EncodeAll, EncodeRecord, EndRequestBody, EndRequest, EndsRequest, AllFit;
    var last := EndRequest(256 * high as int + low as int, a, REQUEST_COMPLETE);
    EndBytes(high, low, a);
    EncodeOne(last);
    EncodeAllConcat(init, [last]);
    EndsWith(EncodeAll(init), high, low, a);
  }

  // ---- A whole response ----

  lemma PaddingOf(n: nat)
    ensures AlignInt8(n) - n == (8 - n % 8) % 8
  {
  }

  lemma PendingBytes(w: Output, high: Byte, low: Byte, m: Byte, n: Byte)
    requires 0 < |w.pending| <= w.room <= 65528
    requires w.id == 256 * high as int + low as int && |w.pending| == 256 * m as int + n as int
    ensures AllFit(w.Encapsulated())
    ensures var pad := (8 - |w.pending| % 8) % 8;
      EncodeAll(w.Encapsulated()) == [1, w.typ, high, low, m, n, pad, 0] + w.pending + Zeros(pad)
  {
    hide EncodeAll, EncodeHeader, Zeros, AlignInt8, AllFit, Output.Encapsulated, Output.AllData;
    EncapsulatedFits(w);
    PaddingOf(|w.pending|);
    HeaderBytes(w.typ, high, low, m, n, (8 - |w.pending| % 8) % 8);
  }

  lemma EndingBytes(w: Output, written: seq<Record>, last: bool, a: int, high: Byte, low: Byte)
    requires w.id == 256 * high as int + low as int && written != []
    ensures AllFit(w.Ending(written, last, a))
    ensures EncodeAll(w.Ending(written, last, a)) == [1, w.typ, high, low, 0, 0, 0, 0]
                                                     + if last then [1, 3, high, low, 0, 8, 0, 0] + EndRequestBody(a, 0) else []
  {
    hide EncodeAll, EncodeHeader, EndRequestBody, AllFit, Output.Ending;
    EndingFits(w, written, last, a);
    HeaderBytes(w.typ, high, low, 0, 0, 0);
    HeaderBytes(3, high, low, 0, 8, 0);
  }

  /** Bytes gathered by a stream on which nothing had been put, and then its end. */
  lemma OneRecord(v: Output, str: seq<Byte>, w: Output, u: Output, e: seq<Record>, last: bool, a: int,
                  high: Byte, low: Byte, m: Byte, n: Byte)
    requires v.data == [] && v.pending == [] && w == v.(pending := str) && Closed(w, u, e, last, a) && v.room <= 65528
    requires 0 < |str| <= v.room && v.id == 256 * high as int + low as int && |str| == 256 * m as int + n as int
    ensures AllFit(e)
    ensures var pad := (8 - |str| % 8) % 8;
      EncodeAll(e) == [1, v.typ, high, low, m, n, pad, 0] + str + Zeros(pad)
                      + ([1, v.typ, high, low, 0, 0, 0, 0]
                         + if last then [1, 3, high, low, 0, 8, 0, 0] + EndRequestBody(a, 0) else [])
  {
    hide EncodeAll, EndRequestBody, Zeros, AllFit, Output.Ending, Output.Encapsulated;
    SomethingWritten(w);
    PendingBytes(w, high, low, m, n);
    EndingBytes(w, w.data + w.Encapsulated(), last, a, high, low);
    EncodeAllConcat(w.Encapsulated(), u.ending);
  }

  /** Nothing has been written, as what was put still fits the buffer. */
  lemma StillPending(v: Output, str: seq<Byte>, w: Output, d: seq<Record>)
    requires v.data == [] && v.pending == [] && |str| <= v.room && Put(v, str, w, d)
    requires AllFull(d, v.room) && (d != [] ==> w.pending != [])
    ensures d == [] && w == v.(pending := str)
  {
    Units(v.data);
    Units(str);
    Units(w.pending);
  }

  /** Sets the exit status of a request and finishes it: its body is the last that is written. */
  method ExitWith(r: Request, a: int, ghost high: Byte, ghost low: Byte)
    requires r.Active() && r.Accounted() && r.shared.nWriters > 0 && -0x8000_0000 <= a < 0x8000_0000
    requires r.shared.requestId == 256 * high as int + low as int
    modifies r, r.shared, r.ipcFd, r.output, r.errors, r.output.buff, r.errors.buff
    ensures r.Idle() && old(r.ipcFd).Valid()
    ensures old(r.ipcFd).sound ==> EndsRequest(old(r.ipcFd).wire, high, low, a)
  {
    hide Writer.Valid, Writer.Bounded, Connection.Valid, Reader.Bounded, EndsRequest, EndRequest, EncodeAll, Completed;
    var conn := r.ipcFd;
    ConnectionOf(r.output);
    r.shared.appStatus := a;
    StillValid(r.output);
    StillValid(r.errors);
    r.Finish();
    WireOf(conn);
    if conn.sound {
      CompletedBytes(old(r.ipcFd.records), conn.records, old(r.shared.nWriters), high, low, a);
    }
  }

  /** Closes the last open stream of a request: its end is the last that is written. */
  method CloseLast(w: Writer, ghost high: Byte, ghost low: Byte)
    requires w.Valid() && !w.wasFCloseCalled && w.req.nWriters == 1 && -0x8000_0000 <= w.req.appStatus < 0x8000_0000
    requires w.req.requestId == 256 * high as int + low as int
    modifies w, w.buff, w.conn, w.req`nWriters
    ensures w.Valid() && (w.conn.sound ==> EndsRequest(w.conn.wire, high, low, w.req.appStatus))
  {
    hide Writer.Valid, Writer.Bounded, Connection.Valid, Closed, EndsRequest, EndRequest, EncodeAll, Completed;
    ghost var v, before := w.V(), w.conn.records;
    ConnectionOf(w);
    var code := w.FClose();
    ConnectionOf(w);
    WireOf(w.conn);
    if w.conn.sound {
      ClosedCompletes(v, w.V(), before, w.conn.records, w.req.appStatus);
      CompletedBytes(before, w.conn.records, 1, high, low, w.req.appStatus);
    }
  }

  lemma ClosedCompletes(v: Output, w: Output, before: seq<Record>, after: seq<Record>, a: int)
    requires before <= after && Closed(v, w, after[|before|..], true, a)
    ensures Completed(before, after, 1, v.id, a)
  {
    ClosedLast(v, w, after[|before|..], a);
  }

  lemma CompletedBytes(before: seq<Record>, after: seq<Record>, open: int, high: Byte, low: Byte, a: int)
    requires Completed(before, after, open, 256 * high as int + low as int, a) && open > 0
    requires AllFit(after) && -0x8000_0000 <= a < 0x8000_0000
    ensures EndsRequest(EncodeAll(after), high, low, a)
  {
    hide EndsRequest, EndRequest, EncodeAll;
    var init := after[..|after| - 1];
    assert after == init + [EndRequest(256 * high as int + low as int, a, REQUEST_COMPLETE)];
    CompletionBytes(init, high, low, a);
  }

  lemma WireOf(c: Connection)
    requires c.Valid()
    ensures AllFit(c.records) && (c.sound ==> c.wire == EncodeAll(c.records))
  {
  }

  /** An error stream on which nothing was put ends without a record, when it is not the last. */
  lemma NoErrors(v: Output, w: Output, d: seq<Record>, a: int)
    requires v.typ == 7 && v.data == [] && v.pending == [] && Closed(v, w, d, false, a)
    ensures d == []
  {
  }

  predicate AllZero(s: seq<Byte>) {
    forall i :: 0 <= i < |s| ==> s[i] == 0
  }

  /** The bytes of a whole response. */
  function Response(str: seq<Byte>, padding: seq<Byte>, status: seq<Byte>, high: Byte, low: Byte, m: Byte, n: Byte): seq<Byte>
    requires |padding| < 256
  {
    [1, 6, high, low, m, n, |padding|, 0] + str + padding
    + ([1, 6, high, low, 0, 0, 0, 0]
       + ([1, 3, high, low, 0, 8, 0, 0] + status))
  }

  lemma ResponseWritten(v: Output, str: seq<Byte>, w: Output, u: Output, ev: Output, ew: Output, a: int,
                        d0: seq<Record>, d1: seq<Record>, d2: seq<Record>, high: Byte, low: Byte, m: Byte, n: Byte)
    requires v.typ == 6 && v.data == [] && v.pending == [] && 0 < |str| <= v.room <= 65528
    requires Put(v, str, w, d0) && AllFull(d0, v.room) && (d0 != [] ==> w.pending != [])
    requires ev.typ == 7 && ev.data == [] && ev.pending == [] && Closed(ev, ew, d1, false, a) && Closed(w, u, d2, true, a)
    requires v.id == 256 * high as int + low as int && |str| == 256 * m as int + n as int
    ensures d0 == [] && d1 == [] && AllFit(d2)
    ensures EncodeAll(d2) == Response(str, Zeros((8 - |str| % 8) % 8), EndRequestBody(a, 0), high, low, m, n)
  {
    hide EncodeAll, EndRequestBody, Closed, Put, AllFull, Zeros;
    StillPending(v, str, w, d0);
    NoErrors(ev, ew, d1, a);
    OneRecord(v, str, w, u, d2, true, a, high, low, m, n);
  }

  /**
   A whole response: bytes that fit the buffer are put on the output stream of a request that has just been accepted, and
   both its streams are closed. This is all that goes out, byte by byte.
   */
  method Respond(r: Request, str: seq<Byte>, ghost high: Byte, ghost low: Byte, ghost m: Byte, ghost n: Byte)
    returns (ghost padding: seq<Byte>, ghost status: seq<Byte>)
    requires r.Untouched() && 0 < |str| <= 8176 && -0x8000_0000 <= r.shared.appStatus < 0x8000_0000
    requires r.shared.requestId == 256 * high as int + low as int && |str| == 256 * m as int + n as int
    modifies r.shared, r.ipcFd, r.output, r.errors, r.output.buff, r.errors.buff
    ensures r.ipcFd.Valid() && AllZero(padding) && |padding| < 8 && (|str| + |padding|) % 8 == 0
    ensures SaysStatus(status, r.shared.appStatus)
    ensures r.ipcFd.sound ==> r.ipcFd.wire == old(r.ipcFd.wire) + Response(str, padding, status, high, low, m, n)
  {
    hide Writer.Valid, Writer.Bounded, Connection.Valid, SaysStatus, EncodeAll, EndRequestBody, Closed, Put, AllFull, Response;
    var conn := r.ipcFd;
    ghost var v, ev, d0 := r.output.V(), r.errors.V(), conn.records;
    ConnectionOf(r.output);
    WireOf(conn);
    var put := r.output.PutStr(str);
    ghost var w, d1 := r.output.V(), conn.records;
    ConnectionOf(r.output);
    StillValid(r.errors);
    var code, ew := CloseAfter(r.errors, r.output);
    ghost var d2 := conn.records;
    code := r.output.FClose();
    ConnectionOf(r.output);
    WireOf(conn);
    padding, status := Zeros((8 - |str| % 8) % 8), EndRequestBody(r.shared.appStatus, 0);
    StatusMeans(r.shared.appStatus);
    if conn.sound {
      ResponseWritten(v, str, w, r.output.V(), ev, ew, r.shared.appStatus, d1[|d0|..], d2[|d1|..], conn.records[|d2|..],
                      high, low, m, n);
      EncodeAllConcat(d0, conn.records[|d2|..]);
      assert conn.records == d0 + conn.records[|d2|..];
    }
  }

  /** Closes a stream of a request; the other one is as before. */
  method CloseAfter(w: Writer, other: Writer) returns (code: int, ghost ew: Output)
    requires w.Valid() && other.Valid() && w != other && w.buff != other.buff && w.conn == other.conn && w.req == other.req
    requires !w.wasFCloseCalled
    modifies w, w.buff, w.conn, w.req`nWriters
    ensures w.Valid() && other.Valid() && other.V() == old(other.V()) && w.conn.OnlyWritten()
    ensures old(w.conn.records) <= w.conn.records && w.req.nWriters == old(w.req.nWriters) - 1
    ensures w.conn.sound ==>
      Closed(old(w.V()), ew, w.conn.records[|old(w.conn.records)|..], old(w.req.nWriters) == 1, w.req.appStatus)
  {
    hide Writer.Valid, Writer.Bounded, Connection.Valid, Closed;
    code := w.FClose();
    ew := w.V();
    ConnectionOf(w);
    StillValid(other);
  }
}
