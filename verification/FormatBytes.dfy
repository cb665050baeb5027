/** What formats print, conversion by conversion, with every character given by its code. */
module FormatBytes {
  import opened Protocol
  import opened Environment
  import opened Writers
  import opened Formats

  // ---- Numbers as they are spelt ----

  predicate AllDigits(s: seq<Byte>) {
    forall i :: 0 <= i < |s| ==> 48 <= s[i] <= 57
  }

  function NumberOf(s: seq<Byte>): int {
    if s == [] then 0 else 10 * NumberOf(s[..|s| - 1]) + s[|s| - 1] as int - 48
  }

  /** Decimal digits, with no zero in front. */
  predicate SpellsNat(s: seq<Byte>, n: nat) {
    s != [] && AllDigits(s) && (|s| > 1 ==> s[0] != 48) && NumberOf(s) == n
  }

  predicate SpellsInt(s: seq<Byte>, n: int) {
    if n < 0 then s != [] && s[0] == 45 && SpellsNat(s[1..], -n) else SpellsNat(s, n)
  }

  lemma {:induction false} SpeltOnce(s: seq<Byte>, n: nat)
    requires SpellsNat(s, n)
    ensures s == Digits(n)
  {
    var init, last := s[..|s| - 1], s[|s| - 1];
    assert s == init + [last];
    if init == [] {
      assert NumberOf(init) == 0;
    } else {
      SpeltPositive(init);
      SpeltOnce(init, NumberOf(init));
    }
  }

  lemma {:induction false} SpeltPositive(s: seq<Byte>)
    requires s != [] && AllDigits(s) && s[0] != 48
    ensures NumberOf(s) > 0
  {
    if |s| == 1 {
      assert NumberOf(s[..0]) == 0;
    } else {
      SpeltPositive(s[..|s| - 1]);
    }
  }

  lemma {:induction false} DigitsSpell(n: nat)
    ensures SpellsNat(Digits(n), n)
    ensures n > 0 ==> Digits(n)[0] != 48
  {
    var s := Digits(n);
    if n < 10 {
      assert s[..0] == [] && NumberOf(s[..0]) == 0;
    } else {
      DigitsSpell(n / 10);
      assert s[..|s| - 1] == Digits(n / 10) && s[0] == Digits(n / 10)[0];
    }
  }

  /** Every number is spelt in one way. */
  lemma IntSpelt(s: seq<Byte>, n: int)
    ensures SpellsInt(s, n) <==> s == Decimal(n)
  {
    DigitsSpell(if n < 0 then -n else n);
    if n < 0 {
      assert Decimal(n)[1..] == Digits(-n);
    }
    if SpellsInt(s, n) {
      IntSpeltOnce(s, n);
    }
  }

  lemma IntSpeltOnce(s: seq<Byte>, n: int)
    requires SpellsInt(s, n)
    ensures s == Decimal(n)
  {
    if n < 0 {
      SpeltOnce(s[1..], -n);
      assert s == [45] + s[1..];
    } else {
      SpeltOnce(s, n);
    }
  }

  // ---- Specifications as they are spelt ----

  /** Minus, zero, plus, blank and hash. */
  predicate AllFlags(s: seq<Byte>) {
    forall i :: 0 <= i < |s| ==> s[i] == 45 || s[i] == 48 || s[i] == 43 || s[i] == 32 || s[i] == 35
  }

  /** d i u o x X */
  predicate Integral(op: Byte) {
    op == 100 || op == 105 || op == 117 || op == 111 || op == 120 || op == 88
  }

  /** f e E g G */
  predicate Floating(op: Byte) {
    op == 102 || op == 101 || op == 69 || op == 103 || op == 71
  }

  /** c p s */
  predicate Plain(op: Byte) {
    op == 99 || op == 112 || op == 115
  }

  /** None, or one of h, l and L. */
  predicate OneModifier(modifier: seq<Byte>) {
    modifier == [] || modifier == [104] || modifier == [108] || modifier == [76]
  }

  /** Integers may be short or long, floating-point numbers long; characters, pointers and strings are as they are. */
  predicate Accepts(op: Byte, modifier: seq<Byte>) {
    if Integral(op) then modifier == [] || modifier == [104] || modifier == [108]
    else if Floating(op) then modifier == [] || modifier == [76]
    else Plain(op) && modifier == []
  }

  /** What stands for a width or precision when value is that of its star. */
  predicate FilledIn(amount: seq<Byte>, value: int, filled: seq<Byte>) {
    if amount == [42] then SpellsInt(filled, value) else filled == amount
  }

  function AmountOf(text: seq<Byte>): (a: Amount)
    ensures a.Text() == text
  {
    if text == [] then Absent else if text == [42] then Star else Written(text)
  }

  /** A conversion as it stands in a format, part by part. */
  datatype Form = Form(flags: seq<Byte>, width: seq<Byte>, dot: bool, precision: seq<Byte>, modifier: seq<Byte>, op: Byte) {
    function Text(): seq<Byte> {
      [37] + flags + width + (if dot then [46] else []) + precision + modifier + [op]
    }

    predicate Shaped() {
      && |flags| <= 5 && AllFlags(flags) && OneModifier(modifier) && (width != [] ==> width[0] != 48)
      && (width == [42] || (|width| <= 6 && AllDigits(width)))
      && (precision == [42] || (|precision| <= 6 && AllDigits(precision))) && (!dot ==> precision == [])
      && (Integral(op) || Floating(op) || Plain(op) || op == 110 || op == 37)
    }

    predicate Alone() {
      flags == [] && width == [] && !dot
    }

    function AsSpec(): Spec
      requires |modifier| <= 1
    {
      Spec(flags, AmountOf(width), dot, AmountOf(precision), if modifier == [] then None else Some(modifier[0]), op)
    }
  }

  lemma FormParts(f: Form)
    requires |f.modifier| <= 1
    ensures f.Text() == [37] + f.AsSpec().Text()
  {
    var m := f.AsSpec().modifier;
    assert f.modifier == if m.Some? then [m.value] else [];
    assert [DOT] == [46];
    Regrouped([37], f.flags, f.width, if f.dot then [46] else [], f.precision, f.modifier, [f.op]);
  }

  lemma Regrouped<T>(a: seq<T>, b: seq<T>, c: seq<T>, d: seq<T>, e: seq<T>, f: seq<T>, g: seq<T>)
    ensures a + b + c + d + e + f + g == a + (b + c + d + e + f + g)
  {
  }

  lemma FormScanned(f: Form, rest: seq<Byte>)
    requires f.Shaped()
    ensures WellFormed(f.AsSpec())
    ensures var s := f.Text() + rest; s != [] && s[0] == 37 && s[1..] == f.AsSpec().Text() + rest && ScanSpec(s[1..]) == Good(f.AsSpec(), rest)
  {
    var spec := f.AsSpec();
    assert WellFormed(spec);
    hide ScanSpec, WellFormed, Form.Shaped, Form.AsSpec, Spec.Text, Form.Text;
    FormParts(f);
    Associate([37], spec.Text(), rest);
    SpecScanned(spec, rest);
  }

  lemma AmountFilled(amount: seq<Byte>, value: int, filled: seq<Byte>)
    requires FilledIn(amount, value, filled)
    ensures Filled(AmountOf(amount), value) == filled
  {
    if amount == [42] {
      IntSpelt(filled, value);
    }
  }

  // ---- What they print ----

  /** One step of a format: a byte, or a conversion. */
  lemma OneStep(s: seq<Byte>, spec: Spec, rest: seq<Byte>, args: Args, render: Renderer, at: Place)
    requires s != [] && s[0] == 37 && ScanSpec(s[1..]) == Good(spec, rest)
    ensures Interpret(s, args, render, at) ==
      match Convert(spec, args, at.next, render, at.aux)
      case Wrong => Printed([], false, true, at.next, [])
      case Undefined => Printed([], false, false, at.next, [])
      case Converted(bytes, next, aux) =>
        Before(bytes, if spec.op == 110 then [(at.next, at.count)] else [],
               Interpret(rest, args, render, Place(next, at.count + |bytes|, aux)))
  {
    hide ScanSpec, Convert, Trapped;
  }

  lemma ByteStep(s: seq<Byte>, rest: seq<Byte>, args: Args, render: Renderer, at: Place)
    requires s != [] && s[0] != 37 && s[1..] == rest
    ensures Interpret(s, args, render, at) == Before([s[0]], [], Interpret(rest, args, render, at.(count := at.count + 1)))
  {
    hide ScanSpec, Convert, Trapped;
  }

  lemma BadStep(s: seq<Byte>, args: Args, render: Renderer, at: Place)
    requires s != [] && s[0] == 37 && ScanSpec(s[1..]).Bad? && !Trapped(s[1..], args, at.next)
    ensures Interpret(s, args, render, at) == Printed([], false, true, at.next, [])
  {
    hide ScanSpec, Convert, Trapped;
  }

  /** The argument that is printed: stars come first. */
  function ArgAt(f: Form, k: nat): nat {
    k + (if f.width == [42] then 1 else 0) + (if f.precision == [42] then 1 else 0)
  }

  /** It has its stars replaced by the numbers of their arguments; no precision is negative. */
  ghost predicate FilledAs(f: Form, g: Form, args: Args, k: nat) {
    && g == f.(width := g.width, precision := g.precision)
    && FilledIn(f.width, args(k).number, g.width)
    && FilledIn(f.precision, Max(args(if f.width == [42] then k + 1 else k).number, 0), g.precision)
  }

  lemma AllFilled(f: Form, args: Args, k: nat) returns (g: Form)
    ensures FilledAs(f, g, args, k)
  {
    var width, precision := args(k).number, Max(args(if f.width == [42] then k + 1 else k).number, 0);
    IntSpelt(Decimal(width), width);
    IntSpelt(Decimal(precision), precision);
    g := f.(width := if f.width == [42] then Decimal(width) else f.width,
            precision := if f.precision == [42] then Decimal(precision) else f.precision);
  }

  /** Stars stand for numbers of at most six digits. */
  predicate InRange(f: Form, args: Args, k: nat) {
    && (f.width == [42] ==> -999999 <= args(k).number <= 999999)
    && (f.precision == [42] ==> args(if f.width == [42] then k + 1 else k).number <= 999999)
  }

  /** The specification is rebuilt as it is spelt. */
  lemma FormRebuilt(f: Form, g: Form, args: Args, k: nat)
    requires |f.modifier| <= 1 && FilledAs(f, g, args, k)
    ensures var spec := f.AsSpec();
      Rebuilt(spec, Value(spec.width, args, k), Max(Value(spec.precision, args, After(spec.width, k)), 0)) == g.Text()
  {
    hide SpellsInt, AllDigits, Decimal;
    var m := f.AsSpec().modifier;
    assert f.modifier == if m.Some? then [m.value] else [];
    AmountFilled(f.width, Value(AmountOf(f.width), args, k), g.width);
    var k1 := After(AmountOf(f.width), k);
    AmountFilled(f.precision, Max(Value(AmountOf(f.precision), args, k1), 0), g.precision);
  }

  lemma FormConverts(f: Form, g: Form, args: Args, k: nat, render: Renderer, aux: nat)
    requires f.Shaped() && Accepts(f.op, f.modifier) && !(f.op == 115 && f.Alone())
    requires FilledAs(f, g, args, k) && InRange(f, args, k)
    ensures var text, c := render(g.Text(), args(ArgAt(f, k))), Convert(f.AsSpec(), args, k, render, aux);
      || (|text| >= 100 && c == Undefined)
      || (c.Converted? && c.bytes == UpToZero(text) && c.next == ArgAt(f, k) + 1)
  {
    hide Form.Text, Form.Shaped, FilledAs, Rebuilt, RequiredFor, UpToZero;
    var spec := f.AsSpec();
    FormRebuilt(f, g, args, k);
    assert Takes(spec.op, spec.modifier) && IsOp(spec.op) && spec.op != COUNT && spec.op != PERCENT && (spec.Bare() <==> f.Alone());
  }

  /**
   Every conversion, with each modifier that it may have, puts the text that sprintf writes for it with its stars filled
   in, up to the first zero, and then the rest of the format is printed; it takes one argument for each star and one for
   itself. Only a text of 100 bytes or more may be too long for the buffer.
   */
  lemma FormPrints(f: Form, rest: seq<Byte>, args: Args, render: Renderer, at: Place) returns (g: Form, aux: nat)
    requires f.Shaped() && Accepts(f.op, f.modifier) && !(f.op == 115 && f.Alone()) && InRange(f, args, at.next)
    ensures FilledAs(f, g, args, at.next)
    ensures var k := ArgAt(f, at.next);
      var text, o := render(g.Text(), args(k)), Interpret(f.Text() + rest, args, render, at);
      || (|text| >= 100 && o == Printed([], false, false, at.next, []))
      || o == Before(UpToZero(text), [], Interpret(rest, args, render, Place(k + 1, at.count + |UpToZero(text)|, aux)))
  {
    hide ScanSpec, Convert, Interpret, Form.Text, Form.Shaped, Form.AsSpec, FilledAs, InRange, UpToZero;
    g := AllFilled(f, args, at.next);
    FormScanned(f, rest);
    FormConverts(f, g, args, at.next, render, at.aux);
    OpOf(f);
    OneStep(f.Text() + rest, f.AsSpec(), rest, args, render, at);
    var c := Convert(f.AsSpec(), args, at.next, render, at.aux);
    aux := if c.Converted? then c.aux else 0;
  }

  lemma OpOf(f: Form)
    requires f.Shaped()
    ensures f.AsSpec().op == f.op && f.Text() != []
  {
  }

  /** A string without flags, width and precision; a percent sign; or a count. */
  predicate StandsAlone(f: Form) {
    && f.Alone() && f.precision == []
    && if f.op == 110 then f.modifier == [] || f.modifier == [104] || f.modifier == [108]
       else (f.op == 115 || f.op == 37) && f.modifier == []
  }

  function AloneBytes(op: Byte, arg: Arg): seq<Byte> {
    if op == 115 then arg.text else if op == 37 then [37] else []
  }

  lemma AloneConverts(f: Form, args: Args, k: nat, render: Renderer, aux: nat)
    requires StandsAlone(f)
    ensures f.Shaped() && |f.modifier| <= 1 && f.AsSpec().op == f.op && f.Text() == [37] + f.modifier + [f.op]
    ensures Convert(f.AsSpec(), args, k, render, aux)
         == Converted(AloneBytes(f.op, args(k)), if f.op == 37 then k else k + 1, aux)
  {
    assert Takes(f.op, f.AsSpec().modifier) && IsOp(f.op);
  }

  /**
   %s alone puts its argument as it is, however long it is. %% puts a percent sign and takes no argument. %n, %hn and %ln
   put nothing and store how many bytes have been put so far.
   */
  lemma AlonePrints(f: Form, rest: seq<Byte>, args: Args, render: Renderer, at: Place)
    requires StandsAlone(f)
    ensures var bytes, next := AloneBytes(f.op, args(at.next)), if f.op == 37 then at.next else at.next + 1;
      Interpret([37] + f.modifier + [f.op] + rest, args, render, at)
        == Before(bytes, if f.op == 110 then [(at.next, at.count)] else [],
                  Interpret(rest, args, render, Place(next, at.count + |bytes|, at.aux)))
  {
    hide ScanSpec, Interpret, Convert, Before, Form.AsSpec, Form.Text, Form.Shaped, StandsAlone, AloneBytes;
    AloneConverts(f, args, at.next, render, at.aux);
    FormScanned(f, rest);
    OneStep(f.Text() + rest, f.AsSpec(), rest, args, render, at);
  }

  /** Any other bytes are put as they are. */
  lemma {:induction false} BytesPrint(bytes: seq<Byte>, rest: seq<Byte>, args: Args, render: Renderer, at: Place)
    requires 37 !in bytes
    ensures Interpret(bytes + rest, args, render, at)
         == Before(bytes, [], Interpret(rest, args, render, at.(count := at.count + |bytes|)))
  {
    hide Interpret;
    var s, more := bytes + rest, Interpret(rest, args, render, at.(count := at.count + |bytes|));
    Units(more.counts);
    if bytes == [] {
      Units(rest);
      Units(more.bytes);
    } else {
      assert s[0] == bytes[0] && s[1..] == bytes[1..] + rest;
      ByteStep(s, bytes[1..] + rest, args, render, at);
      BytesPrint(bytes[1..], rest, args, render, at.(count := at.count + 1));
      assert bytes == [bytes[0]] + bytes[1..];
      Associate([bytes[0]], bytes[1..], more.bytes);
    }
  }

  /**
   A conversion with a modifier that it may not have, %% or %n with anything else, and a star whose number is out of range
   end the printing there, as a failure.
   */
  lemma FormRefused(f: Form, rest: seq<Byte>, args: Args, render: Renderer, at: Place)
    requires f.Shaped() && !(f.width == [42] && args(at.next).number == -0x8000_0000)
    requires if f.op == 37 then !f.Alone() || f.modifier != []
             else if f.op == 110 then !f.Alone() || f.modifier == [76]
             else !Accepts(f.op, f.modifier) || !InRange(f, args, at.next)
    ensures Interpret(f.Text() + rest, args, render, at) == Printed([], false, true, at.next, [])
  {
    hide ScanSpec, Interpret, Form.Text;
    FormScanned(f, rest);
    FormWrong(f, args, at.next, render, at.aux);
    OneStep(f.Text() + rest, f.AsSpec(), rest, args, render, at);
  }

  lemma FormWrong(f: Form, args: Args, k: nat, render: Renderer, aux: nat)
    requires f.Shaped() && !(f.width == [42] && args(k).number == -0x8000_0000)
    requires if f.op == 37 then !f.Alone() || f.modifier != []
             else if f.op == 110 then !f.Alone() || f.modifier == [76]
             else !Accepts(f.op, f.modifier) || !InRange(f, args, k)
    ensures Convert(f.AsSpec(), args, k, render, aux).Wrong?
  {
    hide Rendered;
    var spec := f.AsSpec();
    assert (spec.Bare() <==> f.Alone()) && (spec.width.Star? <==> f.width == [42]) && (spec.precision.Star? <==> f.precision == [42]);
    assert spec.modifier == None <==> f.modifier == [];
  }

  /** So does any other character where a conversion should be, and the end of the format. */
  lemma UnknownRefused(modifier: seq<Byte>, after: seq<Byte>, args: Args, render: Renderer, at: Place)
    requires OneModifier(modifier)
    requires after == [] || !(Integral(after[0]) || Floating(after[0]) || Plain(after[0]) || after[0] == 110 || after[0] == 37)
    requires modifier == [] && after != [] ==>
      var c := after[0]; !AllFlags([c]) && !AllDigits([c]) && c != 42 && c != 46 && !OneModifier([c])
    ensures Interpret([37] + (modifier + after), args, render, at) == Printed([], false, true, at.next, [])
  {
    hide Interpret;
    var s := modifier + after;
    assert ([37] + s)[1..] == s;
    if s == [] {
      NoSpec();
      BadStep([37] + s, args, render, at);
    } else {
      assert s[0] == if modifier == [] then after[0] else modifier[0];
      if modifier == [] {
        Units(after);
      }
      NotInFront(s[0]);
      NoAmount(s);
      ScanBare(s);
      assert modifier != [] ==> s[1..] == after;
      if after == [] {
        BadStep([37] + s, args, render, at);
      } else {
        OneStep([37] + s, ScanSpec(s).item, ScanSpec(s).rest, args, render, at);
      }
    }
  }

  lemma NotInFront(c: Byte)
    requires OneModifier([c]) || (!AllFlags([c]) && !AllDigits([c]) && c != 42 && c != 46)
    ensures !IsFlag(c) && !IsDigit(c) && c != STAR && c != DOT
  {
    assert [c][0] == c;
  }

  /** More than five flags, or more than six digits. */
  lemma LongRefused(flags: seq<Byte>, digits: seq<Byte>, rest: seq<Byte>, args: Args, render: Renderer, at: Place)
    requires AllFlags(flags) && AllDigits(digits) && (digits != [] ==> digits[0] != 48)
    requires rest != [] ==> !AllFlags([rest[0]]) && !AllDigits([rest[0]])
    requires (|flags| > 5 && digits == []) || (|flags| <= 5 && |digits| > 6)
    ensures Interpret([37] + (flags + (digits + rest)), args, render, at) == Printed([], false, true, at.next, [])
  {
    hide Interpret;
    var s := digits + rest;
    if rest != [] {
      var c := [rest[0]];
      assert c[0] == rest[0];
      assert !IsFlag(c[0]) && !IsDigit(c[0]);
    }
    assert s != [] ==> s[0] == if digits == [] then rest[0] else digits[0];
    FlagRunIs(flags, s);
    DigitRunIs(digits, rest);
    assert (flags + s)[|flags|..] == s;
    assert ([37] + (flags + s))[1..] == flags + s;
    BadStep([37] + (flags + s), args, render, at);
  }

  /** hello, a blank, and %s. */
  const HELLO: CString := [104, 101, 108, 108, 111, 32]

  lemma HelloMeans(args: Args, render: Renderer)
    ensures Interpret(HELLO + [37, 115], args, render, Place(0, 0, 0))
         == Printed(HELLO + args(0).text, true, true, 1, [])
  {
    hide Interpret;
    BytesPrint(HELLO, [37, 115], args, render, Place(0, 0, 0));
    var none: seq<Byte> := [];
    AlonePrints(Form(none, none, false, none, none, 115), none, args, render, Place(0, 6, 0));
    assert [37] + none + [115] + none == [37, 115];
    Units(args(0).text);
    NothingPrinted(args, render, Place(1, 6 + |args(0).text|, 0));
  }

  lemma NothingPrinted(args: Args, render: Renderer, at: Place)
    ensures Interpret([], args, render, at) == Printed([], true, true, at.next, [])
  {
  }

  /** Greeting somebody puts just these bytes and counts them, unless the stream has been closed or a write fails. */
  method Greet(stream: Writer, args: Args, render: Renderer) returns (count: int)
    requires stream.Valid()
    modifies stream, stream.buff, stream.conn
    ensures if count >= 0 then
              && count == 6 + |args(0).text|
              && PutSince(stream, old(stream.V()), HELLO + args(0).text, old(stream.conn.records))
            else count == -1 && Failing(stream, old(stream.V()), old(stream.conn.records))
  {
    hide Interpret, PutSince, Failing, Writer.Valid;
    HelloMeans(args, render);
    var counts;
    count, counts := VFPrintF(stream, HELLO + [37, 115], args, render);
  }

  /**
   How large a buffer is made for a conversion: ten bytes more than the larger of 46 and the precision of an integer,
   character or pointer; than what is taken of a string; than the precision, or 6, and eight for the exponent, or for f
   three and a third of the exponent of base two; and the width, if that is more. It is not made if 100 bytes will do.
   */
  lemma RoomMeans(op: Byte, precision: int, width: int, arg: Arg)
    requires precision >= -1
    ensures var p := if precision == -1 then 6 else precision;
      var text := if Integral(op) || op == 99 || op == 112 then Max(precision, 46)
                  else if op == 115 then (if precision == -1 then |arg.text| else Min(precision, |arg.text|))
                  else if op == 102 then p + 3 + Max(arg.exponent, 0) / 3
                  else p + 8;
      var required := Required(Estimate(op, precision, arg), width);
      required == Max(text + 10, width) && BuffLen(0, required) == Max(required, 100)
  {
  }
}
