/** Formatted output: how a format is taken apart, and the scanner that tries the simple conversions first. */
module Formats {
  import opened Protocol
  import opened GetValues
  import opened Environment
  import opened Writers

  const PERCENT: Byte := 37
  const STAR: Byte := 42
  const MINUS: Byte := 45
  const PLUS: Byte := 43
  const BLANK: Byte := 32
  const HASH: Byte := 35
  const DOT: Byte := 46
  const DIGIT_ZERO: Byte := 48
  const DIGIT_NINE: Byte := 57

  // Modifiers: h, l and L.
  const SHORT: Byte := 104
  const LONG: Byte := 108
  const LONG_DOUBLE: Byte := 76

  // Operations: d i u o x X, c p s, n, f e E g G.
  const DECIMAL: Byte := 100
  const INTEGER: Byte := 105
  const UNSIGNED: Byte := 117
  const OCTAL: Byte := 111
  const HEX: Byte := 120
  const UPPER_HEX: Byte := 88
  const CHARACTER: Byte := 99
  const ADDRESS: Byte := 112
  const STRING: Byte := 115
  const COUNT: Byte := 110
  const FIXED: Byte := 102
  const SCIENTIFIC: Byte := 101
  const UPPER_SCIENTIFIC: Byte := 69
  const GENERAL: Byte := 103
  const UPPER_GENERAL: Byte := 71

  /** Room for a conversion specification with its numbers filled in, and the zero after it. */
  const FMT_BUFFLEN := 25
  const MAX_AMOUNT := 999999

  /** The buffer that is there for every conversion. */
  const PRINTF_BUFFLEN := 100

  type CString = s: seq<Byte> | 0 !in s
  type CInt = x: int | -0x8000_0000 <= x < 0x8000_0000
  const INT_MIN: CInt := -0x8000_0000

  predicate IsFlag(c: Byte) {
    c == MINUS || c == DIGIT_ZERO || c == PLUS || c == BLANK || c == HASH
  }

  predicate IsDigit(c: Byte) {
    DIGIT_ZERO <= c <= DIGIT_NINE
  }

  predicate IsModifier(c: Byte) {
    c == LONG || c == LONG_DOUBLE || c == SHORT
  }

  predicate IsInteger(c: Byte) {
    c == DECIMAL || c == INTEGER || c == UNSIGNED || c == OCTAL || c == HEX || c == UPPER_HEX
  }

  predicate IsExponential(c: Byte) {
    c == SCIENTIFIC || c == UPPER_SCIENTIFIC || c == GENERAL || c == UPPER_GENERAL
  }

  predicate IsOp(c: Byte) {
    || IsInteger(c) || IsExponential(c) || c == FIXED || c == CHARACTER || c == ADDRESS || c == STRING
    || c == COUNT || c == PERCENT
  }

  function FlagRun(s: seq<Byte>): (n: nat)
    ensures n <= |s| && (n < |s| ==> !IsFlag(s[n])) && forall i :: 0 <= i < n ==> IsFlag(s[i])
  {
    if s == [] || !IsFlag(s[0]) then 0 else 1 + FlagRun(s[1..])
  }

  function DigitRun(s: seq<Byte>): (n: nat)
    ensures n <= |s| && (n < |s| ==> !IsDigit(s[n])) && forall i :: 0 <= i < n ==> IsDigit(s[i])
  {
    if s == [] || !IsDigit(s[0]) then 0 else 1 + DigitRun(s[1..])
  }

  /** A width or precision: not there, written out, or taken from the arguments. */
  datatype Amount = Absent | Written(digits: seq<Byte>) | Star {
    function Text(): seq<Byte> {
      match this
      case Absent => []
      case Written(digits) => digits
      case Star => [STAR]
    }
  }

  /** A conversion specification, after its percent sign. */
  datatype Spec = Spec(flags: seq<Byte>, width: Amount, dot: bool, precision: Amount, modifier: Option<Byte>, op: Byte) {
    function Text(): seq<Byte> {
      flags + width.Text() + (if dot then [DOT] else []) + precision.Text()
      + (if modifier.Some? then [modifier.value] else []) + [op]
    }

    predicate Bare() {
      flags == [] && width.Absent? && !dot
    }
  }

  datatype Scanned<+T> = Bad | Good(item: T, rest: seq<Byte>)

  /** A number of at most six digits, a star, or nothing. */
  function ScanAmount(s: seq<Byte>): (r: Scanned<Amount>)
    ensures r.Good? ==> s == r.item.Text() + r.rest
  {
    var n := DigitRun(s);
    if n > 6 then Bad
    else if n > 0 then
      assert s == s[..n] + s[n..];
      Good(Written(s[..n]), s[n..])
    else if s != [] && s[0] == STAR then
      assert s == [STAR] + s[1..];
      Good(Star, s[1..])
    else
      assert s == [] + s;
      Good(Absent, s)
  }

  function ScanSpec(s: seq<Byte>): (r: Scanned<Spec>)
    ensures r.Good? ==> |r.rest| < |s|
  {
    var n := FlagRun(s);
    if n > 5 then Bad else
    var w := ScanAmount(s[n..]);
    if w.Bad? then Bad else ScanPrecision(s[..n], w.item, w.rest)
  }

  function ScanPrecision(flags: seq<Byte>, width: Amount, s: seq<Byte>): (r: Scanned<Spec>)
    ensures r.Good? ==> |r.rest| < |s|
  {
    var dot := s != [] && s[0] == DOT;
    var p := if dot then ScanAmount(s[1..]) else Good(Absent, s);
    if p.Bad? then Bad else ScanOp(flags, width, dot, p.item, p.rest)
  }

  function ScanOp(flags: seq<Byte>, width: Amount, dot: bool, precision: Amount, s: seq<Byte>): (r: Scanned<Spec>)
    ensures r.Good? ==> |r.rest| < |s|
  {
    var modified := s != [] && IsModifier(s[0]);
    var t := if modified then s[1..] else s;
    if t == [] then Bad
    else Good(Spec(flags, width, dot, precision, if modified then Some(s[0]) else None, t[0]), t[1..])
  }

  /** The modifiers that a conversion takes. */
  predicate Takes(op: Byte, modifier: Option<Byte>) {
    if IsInteger(op) || op == COUNT then
      modifier == None || modifier == Some(LONG) || modifier == Some(SHORT)
    else if op == FIXED || IsExponential(op) then
      modifier == None || modifier == Some(LONG_DOUBLE)
    else
      modifier == None
  }

  /** A specification as it may be written: no width starts with a zero, which would be a flag. */
  predicate WellFormed(spec: Spec) {
    && |spec.flags| <= 5 && (forall i :: 0 <= i < |spec.flags| ==> IsFlag(spec.flags[i]))
    && WellFormedAmount(spec.width) && (spec.width.Written? ==> spec.width.digits[0] != DIGIT_ZERO)
    && WellFormedAmount(spec.precision) && (!spec.dot ==> spec.precision.Absent?)
    && IsOp(spec.op) && (spec.modifier.Some? ==> IsModifier(spec.modifier.value))
  }

  predicate WellFormedAmount(a: Amount) {
    a.Written? ==> 0 < |a.digits| <= 6 && forall i :: 0 <= i < |a.digits| ==> IsDigit(a.digits[i])
  }

  lemma {:induction false} FlagRunIs(flags: seq<Byte>, rest: seq<Byte>)
    requires forall i :: 0 <= i < |flags| ==> IsFlag(flags[i])
    requires rest != [] ==> !IsFlag(rest[0])
    ensures FlagRun(flags + rest) == |flags|
  {
    if flags == [] {
      Units(rest);
    } else {
      assert (flags + rest)[0] == flags[0] && (flags + rest)[1..] == flags[1..] + rest;
      FlagRunIs(flags[1..], rest);
    }
  }

  lemma {:induction false} DigitRunIs(digits: seq<Byte>, rest: seq<Byte>)
    requires forall i :: 0 <= i < |digits| ==> IsDigit(digits[i])
    requires rest != [] ==> !IsDigit(rest[0])
    ensures DigitRun(digits + rest) == |digits|
  {
    if digits == [] {
      Units(rest);
    } else {
      assert (digits + rest)[0] == digits[0] && (digits + rest)[1..] == digits[1..] + rest;
      DigitRunIs(digits[1..], rest);
    }
  }

  lemma AmountScanned(a: Amount, rest: seq<Byte>)
    requires WellFormedAmount(a) && rest != [] && !IsDigit(rest[0]) && rest[0] != STAR
    ensures ScanAmount(a.Text() + rest) == Good(a, rest)
  {
    match a
    case Absent =>
      Units(rest);
      DigitRunIs([], rest);
    case Written(digits) =>
      DigitRunIs(digits, rest);
      Cut(digits, rest, |digits|);
      Units(digits);
    case Star =>
      DigitRunIs([], [STAR] + rest);
      Units([STAR] + rest);
  }

  /** The last parts of a specification, and what comes after it. */
  function OpText(spec: Spec, rest: seq<Byte>): (s: seq<Byte>)
    ensures s != []
  {
    (if spec.modifier.Some? then [spec.modifier.value] else []) + ([spec.op] + rest)
  }

  function PrecisionText(spec: Spec, rest: seq<Byte>): (s: seq<Byte>)
    ensures s != []
  {
    if spec.dot then [DOT] + (spec.precision.Text() + OpText(spec, rest)) else OpText(spec, rest)
  }

  lemma OpIsPlain(c: Byte)
    requires IsOp(c) || IsModifier(c)
    ensures !IsFlag(c) && !IsDigit(c) && c != STAR && c != DOT
  {
  }

  lemma OpScanned(spec: Spec, rest: seq<Byte>)
    requires WellFormed(spec)
    ensures ScanOp(spec.flags, spec.width, spec.dot, spec.precision, OpText(spec, rest)) == Good(spec, rest)
    ensures var c := OpText(spec, rest)[0]; !IsDigit(c) && c != STAR && c != DOT && !IsFlag(c)
  {
    var t := [spec.op] + rest;
    assert t[1..] == rest;
    OpIsPlain(OpText(spec, rest)[0]);
    if spec.modifier.Some? {
      assert OpText(spec, rest)[1..] == t && OpText(spec, rest)[0] == spec.modifier.value;
    } else {
      Units(t);
      assert OpText(spec, rest) == t && t[0] == spec.op;
    }
  }

  lemma PrecisionScanned(spec: Spec, rest: seq<Byte>)
    requires WellFormed(spec)
    ensures ScanPrecision(spec.flags, spec.width, PrecisionText(spec, rest)) == Good(spec, rest)
    ensures var c := PrecisionText(spec, rest)[0]; !IsDigit(c) && c != STAR && !IsFlag(c)
  {
    hide ScanOp, OpText, ScanAmount;
    OpScanned(spec, rest);
    if spec.dot {
      AmountScanned(spec.precision, OpText(spec, rest));
      assert PrecisionText(spec, rest)[1..] == spec.precision.Text() + OpText(spec, rest);
    }
  }

  /** Scanning inverts writing. */
  lemma SpecScanned(spec: Spec, rest: seq<Byte>)
    requires WellFormed(spec)
    ensures ScanSpec(spec.Text() + rest) == Good(spec, rest)
  {
    hide ScanPrecision, ScanAmount, PrecisionText;
    var d := PrecisionText(spec, rest);
    var w := spec.width.Text() + d;
    SpecText(spec, rest);
    PrecisionScanned(spec, rest);
    WidthIsNoFlag(spec, d);
    FlagRunIs(spec.flags, w);
    Cut(spec.flags, w, |spec.flags|);
    Units(spec.flags);
    AmountScanned(spec.width, d);
  }

  lemma WidthIsNoFlag(spec: Spec, d: seq<Byte>)
    requires WellFormed(spec) && d != [] && !IsFlag(d[0])
    ensures spec.width.Text() + d != [] && !IsFlag((spec.width.Text() + d)[0])
  {
  }

  lemma SpecText(spec: Spec, rest: seq<Byte>)
    requires !spec.dot ==> spec.precision.Absent?
    ensures spec.Text() + rest == spec.flags + (spec.width.Text() + PrecisionText(spec, rest))
  {
    var m := if spec.modifier.Some? then [spec.modifier.value] else [];
    var p := spec.precision.Text();
    Units(m);
    Units(m + ([spec.op] + rest));
  }

  // ---- What a format means ----

  /** An argument: as a number, as the text it points to, and as the exponent of a floating-point number. */
  datatype Arg = Arg(number: CInt, text: CString, exponent: int)

  type Args = nat -> Arg

  /** All the bytes that sprintf writes for a specification and one argument, before the zero that closes them. */
  type Renderer = (seq<Byte>, Arg) -> seq<Byte>

  function Digits(n: nat): seq<Byte> {
    if n < 10 then [DIGIT_ZERO + n] else Digits(n / 10) + [DIGIT_ZERO + n % 10]
  }

  function Decimal(n: int): seq<Byte> {
    if n < 0 then [MINUS] + Digits(-n) else Digits(n)
  }

  /** The number that digits spell. */
  function Number(digits: seq<Byte>): int {
    if digits == [] then 0 else 10 * Number(digits[..|digits| - 1]) + digits[|digits| - 1] as int - DIGIT_ZERO as int
  }

  function Ten(k: nat): nat {
    if k == 0 then 1 else 10 * Ten(k - 1)
  }

  lemma {:induction false} DigitsLength(n: nat, k: nat)
    requires k > 0 && n < Ten(k)
    ensures |Digits(n)| <= k
    ensures Ten(k - 1) <= n ==> |Digits(n)| == k
  {
    if n >= 10 {
      assert Ten(k) == 10 * Ten(k - 1);
      DigitsLength(n / 10, k - 1);
    }
  }

  function Filled(a: Amount, value: int): seq<Byte> {
    if a.Star? then Decimal(value) else a.Text()
  }

  /** The size of a width or precision, a star standing for value. */
  function Size(a: Amount, value: int): int {
    match a
    case Absent => 0
    case Written(digits) => Number(digits)
    case Star => value
  }

  /** The specification with its stars filled in. */
  function Rebuilt(spec: Spec, width: int, precision: int): seq<Byte> {
    [PERCENT] + spec.flags + Filled(spec.width, width) + (if spec.dot then [DOT] else [])
    + Filled(spec.precision, precision) + (if spec.modifier.Some? then [spec.modifier.value] else []) + [spec.op]
  }

  /** The number a star stands for, and the argument after it. */
  function Value(a: Amount, args: Args, k: nat): int {
    if a.Star? then args(k).number else 0
  }

  function After(a: Amount, k: nat): nat {
    if a.Star? then k + 1 else k
  }

  /** How much the source thinks that a conversion prints, apart from its width; a precision of -1 is none. */
  function Estimate(op: Byte, precision: int, arg: Arg): int {
    if IsInteger(op) || op == CHARACTER || op == ADDRESS then Max(precision, 46)
    else if op == STRING then (if precision == -1 then |arg.text| else Min(precision, |arg.text|))
    else
      var p := if precision == -1 then 6 else precision;
      if op == FIXED then p + 3 + (if arg.exponent > 0 then arg.exponent / 3 else 0) else p + 8
  }

  /** The room that it makes for that, aux being the size of the buffer it has allocated before, if any. */
  function Required(estimate: int, width: int): int {
    Max(estimate + 10, width)
  }

  function AuxAfter(aux: nat, required: int): nat {
    if required <= PRINTF_BUFFLEN then aux else Max(aux, required)
  }

  function BuffLen(aux: nat, required: int): nat {
    if required <= PRINTF_BUFFLEN then PRINTF_BUFFLEN else Max(aux, required)
  }

  /** A conversion is wrong, or done; or the source's C code has no defined behaviour, as when its buffer is overrun. */
  datatype Conversion = Wrong | Undefined | Converted(bytes: seq<Byte>, next: nat, aux: nat)

  /** One conversion, whose arguments begin with number k: first those for stars, then its own. */
  function Convert(spec: Spec, args: Args, k: nat, render: Renderer, aux: nat): Conversion {
    if spec.width.Star? && args(k).number == INT_MIN then Undefined
    else if !IsOp(spec.op) || !Takes(spec.op, spec.modifier) then Wrong
    else if spec.op == COUNT then (if spec.Bare() then Converted([], k + 1, aux) else Wrong)
    else if spec.op == PERCENT then (if spec.Bare() then Converted([PERCENT], k, aux) else Wrong)
    else
      var width := Value(spec.width, args, k);
      var k1 := After(spec.width, k);
      var precision := Max(Value(spec.precision, args, k1), 0);
      var k2 := After(spec.precision, k1);
      if width > MAX_AMOUNT || width < -MAX_AMOUNT || precision > MAX_AMOUNT then Wrong
      else if spec.op == STRING && spec.Bare() then Converted(args(k2).text, k2 + 1, aux)
      else Rendered(spec, width, precision, args(k2), k2 + 1, render, aux)
  }

  /** What strlen sees of a buffer: a character of value zero hides everything from there on. */
  function UpToZero(s: seq<Byte>): (t: seq<Byte>)
    ensures t <= s && 0 !in t && (|t| < |s| ==> s[|t|] == 0)
  {
    if s == [] || s[0] == 0 then [] else [s[0]] + UpToZero(s[1..])
  }

  /** What is printed into a buffer, with the zero that sprintf puts behind it, and then taken up to the first zero. */
  function Rendered(spec: Spec, width: int, precision: int, arg: Arg, next: nat, render: Renderer, aux: nat): Conversion {
    var text := render(Rebuilt(spec, width, precision), arg);
    var required := RequiredFor(spec, width, precision, arg);
    if |text| + 1 <= BuffLen(aux, required) then Converted(UpToZero(text), next, AuxAfter(aux, required)) else Undefined
  }

  function RequiredFor(spec: Spec, width: int, precision: int, arg: Arg): int {
    Required(Estimate(spec.op, if spec.dot then Size(spec.precision, precision) else -1, arg), Size(spec.width, width))
  }

  /** A star for a width is INT_MIN, which has no absolute value. */
  predicate Trapped(s: seq<Byte>, args: Args, k: nat) {
    && FlagRun(s) <= 5
    && var w := ScanAmount(s[FlagRun(s)..]);
       w.Good? && w.item.Star? && args(k).number == INT_MIN
  }

  /**
   The bytes put, whether the format was right to its end, whether the C code has a defined behaviour, the next
   argument, and the counts that were stored.
   */
  datatype Printed = Printed(bytes: seq<Byte>, ok: bool, defined: bool, next: nat, counts: seq<(nat, int)>)

  /** How far printing has come: the next argument, the bytes put, and the size of the allocated buffer. */
  datatype Place = Place(next: nat, count: nat, aux: nat)

  function Before(bytes: seq<Byte>, counts: seq<(nat, int)>, p: Printed): Printed {
    p.(bytes := bytes + p.bytes, counts := counts + p.counts)
  }

  function Halt(at: Place, defined: bool): Printed {
    Printed([], false, defined, at.next, [])
  }

  function Stored(op: Byte, at: Place): seq<(nat, int)> {
    if op == COUNT then [(at.next, at.count)] else []
  }

  function Interpret(format: seq<Byte>, args: Args, render: Renderer, at: Place): (p: Printed)
    decreases |format|
  {
    if format == [] then Printed([], true, true, at.next, [])
    else if format[0] != PERCENT then Before([format[0]], [], Interpret(format[1..], args, render, at.(count := at.count + 1)))
    else
      var s := ScanSpec(format[1..]);
      if s.Bad? then Halt(at, !Trapped(format[1..], args, at.next)) else
      match Convert(s.item, args, at.next, render, at.aux)
      case Wrong => Halt(at, true)
      case Undefined => Halt(at, false)
      case Converted(bytes, next, aux) =>
        Before(bytes, Stored(s.item.op, at), Interpret(s.rest, args, render, Place(next, at.count + |bytes|, aux)))
  }

  // ---- Formats as they are written ----

  datatype Item = Literal(byte: Byte) | Directive(spec: Spec)

  predicate Proper(items: seq<Item>) {
    forall i :: 0 <= i < |items| ==>
      match items[i]
      case Literal(byte) => byte != PERCENT
      case Directive(spec) => WellFormed(spec)
  }

  function FormatText(items: seq<Item>): seq<Byte> {
    if items == [] then [] else
    (match items[0] case Literal(byte) => [byte] case Directive(spec) => [PERCENT] + spec.Text()) + FormatText(items[1..])
  }

  function Run(items: seq<Item>, args: Args, render: Renderer, at: Place): Printed {
    if items == [] then Printed([], true, true, at.next, []) else
    match items[0]
    case Literal(byte) => Before([byte], [], Run(items[1..], args, render, at.(count := at.count + 1)))
    case Directive(spec) =>
      match Convert(spec, args, at.next, render, at.aux)
      case Wrong => Halt(at, true)
      case Undefined => Halt(at, false)
      case Converted(bytes, next, aux) =>
        Before(bytes, Stored(spec.op, at), Run(items[1..], args, render, Place(next, at.count + |bytes|, aux)))
  }

  /** A format is understood as the items it was written from. */
  lemma {:induction false} FormatUnderstood(items: seq<Item>, args: Args, render: Renderer, at: Place)
    requires Proper(items)
    ensures Interpret(FormatText(items), args, render, at) == Run(items, args, render, at)
  {
    hide ScanSpec, Convert, WellFormed, Trapped;
    if items != [] {
      var more := FormatText(items[1..]);
      match items[0]
      case Literal(byte) =>
        assert ([byte] + more)[1..] == more;
        FormatUnderstood(items[1..], args, render, at.(count := at.count + 1));
      case Directive(spec) =>
        Associate([PERCENT], spec.Text(), more);
        assert ([PERCENT] + (spec.Text() + more))[1..] == spec.Text() + more;
        SpecScanned(spec, more);
        var c := Convert(spec, args, at.next, render, at.aux);
        if c.Converted? {
          FormatUnderstood(items[1..], args, render, Place(c.next, at.count + |c.bytes|, c.aux));
        }
    }
  }

  /** How many arguments a conversion takes: one for each star, and its own unless it is a percent sign. */
  function Arity(spec: Spec): nat {
    After(spec.precision, After(spec.width, if spec.op == PERCENT then 0 else 1))
  }

  function ArityOfAll(items: seq<Item>): nat {
    if items == [] then 0 else
    (match items[0] case Literal(_) => 0 case Directive(spec) => Arity(spec)) + ArityOfAll(items[1..])
  }

  lemma ConversionTakes(spec: Spec, args: Args, other: Args, k: nat, render: Renderer, aux: nat)
    requires !spec.dot ==> spec.precision.Absent?
    ensures var c := Convert(spec, args, k, render, aux);
      c.Converted? ==>
        && c.next == k + Arity(spec)
        && ((forall i :: k <= i < c.next ==> other(i) == args(i)) ==> Convert(spec, other, k, render, aux) == c)
  {
    hide Rebuilt, Takes, RequiredFor, BuffLen;
    var c := Convert(spec, args, k, render, aux);
    if c.Converted? && forall i :: k <= i < c.next ==> other(i) == args(i) {
      var k1 := After(spec.width, k);
      assert Value(spec.width, other, k) == Value(spec.width, args, k);
      assert Value(spec.precision, other, k1) == Value(spec.precision, args, k1);
    }
  }

  /** A format that is right takes exactly the arguments it names, each in its turn, and looks at no other. */
  lemma {:induction false} ArgumentsTaken(items: seq<Item>, args: Args, other: Args, render: Renderer, at: Place)
    requires Proper(items)
    ensures var o := Run(items, args, render, at);
      o.ok ==>
        && o.next == at.next + ArityOfAll(items)
        && ((forall i :: at.next <= i < o.next ==> other(i) == args(i)) ==> Run(items, other, render, at) == o)
  {
    hide Convert, Arity;
    if items != [] {
      match items[0]
      case Literal(byte) => ArgumentsTaken(items[1..], args, other, render, at.(count := at.count + 1));
      case Directive(spec) =>
        ConversionTakes(spec, args, other, at.next, render, at.aux);
        var c := Convert(spec, args, at.next, render, at.aux);
        if c.Converted? {
          ArgumentsTaken(items[1..], args, other, render, Place(c.next, at.count + |c.bytes|, c.aux));
        }
    }
  }

  // ---- When the buffer is large enough ----

  /** All that was written is put exactly when there is no zero in it. */
  lemma CutExactly(spec: Spec, width: int, precision: int, arg: Arg, next: nat, render: Renderer, aux: nat)
    ensures var text, c := render(Rebuilt(spec, width, precision), arg), Rendered(spec, width, precision, arg, next, render, aux);
      c.Converted? ==> c.bytes <= text && 0 !in c.bytes && (c.bytes == text <==> 0 !in text)
  {
  }

  /** %c with the value zero is written, but not put; in five columns, just the blanks in front of it are put. */
  lemma ZeroIsCut(args: Args, k: nat, render: Renderer, aux: nat)
    requires render([PERCENT, CHARACTER], args(k)) == [0]
    requires render([PERCENT, DIGIT_ZERO + 5, CHARACTER], args(k)) == [BLANK, BLANK, BLANK, BLANK, 0]
    ensures Convert(Spec([], Absent, false, Absent, None, CHARACTER), args, k, render, aux) == Converted([], k + 1, aux)
    ensures Convert(Spec([], Written([DIGIT_ZERO + 5]), false, Absent, None, CHARACTER), args, k, render, aux)
         == Converted([BLANK, BLANK, BLANK, BLANK], k + 1, aux)
  {
    var five: seq<Byte>, text: seq<Byte> := [DIGIT_ZERO + 5], [BLANK, BLANK, BLANK, BLANK, 0];
    assert five[..0] == [] && Number(five) == 5;
    BareRebuilt(None, CHARACTER);
    assert Rebuilt(Spec([], Written(five), false, Absent, None, CHARACTER), 0, 0) == [PERCENT, DIGIT_ZERO + 5, CHARACTER];
    var t := UpToZero(text);
    assert text[4] in text && t != text;
    assert |t| == 4 && t == text[..4];
  }

  function Magnitude(n: int): nat {
    if n < 0 then -n else n
  }

  /**
   What is to be expected of sprintf: without the width it prints no more than the source estimates, and the nine
   bytes of its allowance that are not for the zero; with the width it pads to that, on either side.
   */
  ghost predicate PrintsAsExpected(render: Renderer, spec: Spec, width: int, precision: int, arg: Arg) {
    var natural := |render(Rebuilt(spec.(width := Absent), 0, precision), arg)|;
    && natural <= Estimate(spec.op, if spec.dot then Size(spec.precision, precision) else -1, arg) + 9
    && |render(Rebuilt(spec, width, precision), arg)| == Max(natural, Magnitude(Size(spec.width, width)))
  }

  /** Then a conversion stays within the buffer exactly when its width is below the size of it. */
  lemma InBoundsExactly(spec: Spec, width: int, precision: int, arg: Arg, next: nat, render: Renderer, aux: nat)
    requires PrintsAsExpected(render, spec, width, precision, arg)
    ensures var required := RequiredFor(spec, width, precision, arg);
      var fits := Magnitude(Size(spec.width, width)) < BuffLen(aux, required);
      Rendered(spec, width, precision, arg, next, render, aux).Converted? <==> fits
  {
  }

  /** With no buffer left over from before: when the width has two digits, or is less than what is printed anyway. */
  lemma RoomExactly(estimate: int, width: int)
    ensures var n := Magnitude(width);
      n < BuffLen(0, Required(estimate, width)) <==> n < PRINTF_BUFFLEN || n < estimate + 10
  {
  }

  /** A width of two digits is always in bounds. */
  lemma NarrowFits(spec: Spec, width: int, precision: int, arg: Arg, next: nat, render: Renderer, aux: nat)
    requires PrintsAsExpected(render, spec, width, precision, arg) && Magnitude(Size(spec.width, width)) <= 99
    ensures Rendered(spec, width, precision, arg, next, render, aux).Converted?
  {
    InBoundsExactly(spec, width, precision, arg, next, render, aux);
  }

  /** %150d, %-150d, or %*d. */
  function InColumns(left: bool, star: bool): Spec {
    Spec(if left && !star then [MINUS] else [], if star then Star else Written([49, 53, 48]), false, Absent, None, DECIMAL)
  }

  /** An integer printed in 150 columns, with the number in front of the blanks or behind them, overruns its buffer. */
  lemma WideOverruns(left: bool, star: bool, args: Args, k: nat, render: Renderer)
    requires star ==> args(k).number == if left then -150 else 150
    requires var spec := InColumns(left, star);
      PrintsAsExpected(render, spec, Value(spec.width, args, k), 0, args(After(spec.width, k)))
    ensures Convert(InColumns(left, star), args, k, render, 0).Undefined?
  {
    var one: seq<Byte>, two: seq<Byte>, digits: seq<Byte> := [49], [49, 53], [49, 53, 48];
    assert digits[..2] == two && two[..1] == one && one[..0] == [];
    assert Number(one) == 1 && Number(two) == 15;
    var spec := InColumns(left, star);
    var width, arg := Value(spec.width, args, k), args(After(spec.width, k));
    InBoundsExactly(spec, width, 0, arg, After(spec.width, k) + 1, render, 0);
    RoomExactly(Estimate(DECIMAL, -1, arg), Size(spec.width, width));
  }

  /** A width of INT_MIN passes for one of six digits, and the rebuilt specification may then outgrow its own buffer. */
  lemma LeastWidth(spec: Spec, args: Args, k: nat, render: Renderer, aux: nat, precision: int)
    requires spec.width.Star? && args(k).number == INT_MIN
    ensures Convert(spec, args, k, render, aux).Undefined?
    ensures |spec.flags| == 5 && spec.dot && spec.precision.Written? && |spec.precision.digits| == 6 && spec.modifier.Some? ==>
      |Rebuilt(spec, INT_MIN, precision)| + 1 > FMT_BUFFLEN
  {
    assert Ten(9) == 1000000000 && Ten(10) == 10000000000 by {
      assert Ten(4) == 10000 && Ten(7) == 1000 * Ten(4);
    }
    DigitsLength(0x8000_0000, 10);
  }

  /** All widths, written or starred, have at most two digits, as long as conversions succeed. */
  predicate AllNarrow(items: seq<Item>, args: Args, k: nat) {
    items == [] ||
    match items[0]
    case Literal(_) => AllNarrow(items[1..], args, k)
    case Directive(spec) =>
      && Magnitude(Size(spec.width, Value(spec.width, args, k))) <= 99
      && AllNarrow(items[1..], args, k + Arity(spec))
  }

  /** A conversion that comes to be printed into a buffer, with stars for width and precision. */
  predicate Printable(spec: Spec, width: int, precision: int) {
    && WellFormed(spec) && Takes(spec.op, spec.modifier) && spec.op != COUNT && spec.op != PERCENT
    && !(spec.op == STRING && spec.Bare())
    && -MAX_AMOUNT <= width <= MAX_AMOUNT && 0 <= precision <= MAX_AMOUNT
  }

  /** If this conversion comes to be printed from the argument k on, it is printed as expected. */
  ghost predicate PrintsHere(render: Renderer, spec: Spec, args: Args, k: nat) {
    var width, k1 := Value(spec.width, args, k), After(spec.width, k);
    var precision, k2 := Max(Value(spec.precision, args, k1), 0), After(spec.precision, k1);
    Printable(spec, width, precision) ==> PrintsAsExpected(render, spec, width, precision, args(k2))
  }

  /** The conversions of a format, each with the arguments that it comes to, are printed as expected. */
  ghost predicate PrintsAll(render: Renderer, items: seq<Item>, args: Args, k: nat) {
    items == [] ||
    match items[0]
    case Literal(_) => PrintsAll(render, items[1..], args, k)
    case Directive(spec) => PrintsHere(render, spec, args, k) && PrintsAll(render, items[1..], args, k + Arity(spec))
  }

  /** A format with such widths never makes the source leave its buffers. */
  lemma {:induction false} NarrowIsDefined(items: seq<Item>, args: Args, render: Renderer, at: Place)
    requires Proper(items) && AllNarrow(items, args, at.next) && PrintsAll(render, items, args, at.next)
    ensures Run(items, args, render, at).defined
  {
    hide Rebuilt, PrintsAsExpected, PrintsHere, RequiredFor, BuffLen, Arity;
    if items != [] {
      match items[0]
      case Literal(byte) => NarrowIsDefined(items[1..], args, render, at.(count := at.count + 1));
      case Directive(spec) =>
        assert WellFormed(spec);
        NarrowConverts(spec, args, at.next, render, at.aux);
        ConversionTakes(spec, args, args, at.next, render, at.aux);
        var c := Convert(spec, args, at.next, render, at.aux);
        if c.Converted? {
          NarrowIsDefined(items[1..], args, render, Place(c.next, at.count + |c.bytes|, c.aux));
        }
    }
  }

  lemma NarrowFormat(items: seq<Item>, args: Args, render: Renderer)
    requires Proper(items) && AllNarrow(items, args, 0) && PrintsAll(render, items, args, 0)
    ensures Interpret(FormatText(items), args, render, Place(0, 0, 0)).defined
  {
    FormatUnderstood(items, args, render, Place(0, 0, 0));
    NarrowIsDefined(items, args, render, Place(0, 0, 0));
  }

  lemma NarrowConverts(spec: Spec, args: Args, k: nat, render: Renderer, aux: nat)
    requires WellFormed(spec) && PrintsHere(render, spec, args, k) && Magnitude(Size(spec.width, Value(spec.width, args, k))) <= 99
    ensures !Convert(spec, args, k, render, aux).Undefined?
  {
    hide Rebuilt, PrintsAsExpected, Rendered, WellFormed, Takes;
    var width, k1 := Value(spec.width, args, k), After(spec.width, k);
    var precision, k2 := Max(Value(spec.precision, args, k1), 0), After(spec.precision, k1);
    if Printable(spec, width, precision) {
      NarrowFits(spec, width, precision, args(k2), k2 + 1, render, aux);
    }
  }

  // ---- The scanner ----

  /** A try is out of bounds when the source's C code has no defined behaviour there. */
  datatype Try = Performed | NotPerformed | Failed | OutOfBounds

  /** The character at an index, or the zero that ends a C string. */
  function At(s: seq<Byte>, i: nat): Byte {
    if i < |s| then s[i] else 0
  }

  /** What a try at the conversion after a percent sign comes to, aux and larger being the buffer before and after. */
  ghost predicate Tried(t: Try, s: seq<Byte>, args: Args, k: nat, render: Renderer, aux: nat,
                        op: Byte, text: seq<Byte>, len: nat, next: nat, larger: nat) {
    var r := ScanSpec(s);
    match t
    case Performed =>
      && r.Good? && 0 < len <= |s| && r.rest == s[len..] && r.item.op == op
      && Convert(r.item, args, k, render, aux) == Converted(text, next, larger)
    case Failed => if r.Bad? then !Trapped(s, args, k) else Convert(r.item, args, k, render, aux).Wrong?
    case OutOfBounds => if r.Bad? then Trapped(s, args, k) else Convert(r.item, args, k, render, aux).Undefined?
    case NotPerformed => r.Good? && r.item.Bare() ==> !IsOp(r.item.op) || r.item.op == FIXED
  }

  /** A specification whose first character is neither flag, digit, star nor dot is its operation, perhaps modified. */
  lemma ScanBare(s: seq<Byte>)
    requires s != [] && !IsFlag(s[0]) && !IsDigit(s[0]) && s[0] != STAR && s[0] != DOT
    ensures ScanSpec(s) == ScanOp([], Absent, false, Absent, s)
  {
    assert s[0..] == s && s[..0] == [];
  }

  lemma ScanFancy(s: seq<Byte>)
    requires s != [] && (IsFlag(s[0]) || IsDigit(s[0]) || s[0] == STAR || s[0] == DOT)
    ensures ScanSpec(s).Good? ==> !ScanSpec(s).item.Bare()
  {
  }

  lemma NoAmount(s: seq<Byte>)
    requires s != [] && !IsFlag(s[0]) && !IsDigit(s[0]) && s[0] != STAR
    ensures FlagRun(s) == 0 && ScanAmount(s[0..]) == Good(Absent, s)
  {
    assert s[0..] == s;
  }

  lemma NoSpec()
    ensures ScanSpec([]).Bad? && ScanAmount([]) == Good(Absent, [])
  {
  }

  /** Tries the conversion as if it had no flags, width or precision. */
  method FastConvert(format: seq<Byte>, percent: nat, args: Args, k: nat, render: Renderer, ghost aux: nat)
    returns (t: Try, op: Byte, text: seq<Byte>, len: nat, next: nat)
    requires percent < |format| && format[percent] == PERCENT && 0 !in format
    ensures Tried(t, format[percent + 1..], args, k, render, aux, op, text, len, next, aux)
  {
    hide ScanSpec, Trapped;
    ghost var s := format[percent + 1..];
    op := At(format, percent + 1);
    var modifier: Option<Byte> := None;
    text, len, next := [], 1, k;
    if op == LONG || op == LONG_DOUBLE || op == SHORT {
      modifier := Some(op);
      op := At(format, percent + 2);
      len := 2;
    }
    FastScan(format, percent, args, k);
    if op == 0 {
      return Failed, op, text, len, next;
    }
    if op == FIXED || !IsOp(op) {
      return NotPerformed, op, text, len, next;
    }
    if !Takes(op, modifier) {
      return Failed, op, text, len, next;
    }
    if op == COUNT {
      next := k + 1;
    } else if op == PERCENT {
      text := [PERCENT];
    } else if op == STRING {
      text, next := args(k).text, k + 1;
    } else {
      var fmtBuff := if modifier.Some? then [PERCENT, modifier.value, op] else [PERCENT, op];
      text, next := render(fmtBuff, args(k)), k + 1;
      BareRebuilt(modifier, op);
      BareRoom(Spec([], Absent, false, Absent, modifier, op), args(k), aux);
      if |text| + 1 > PRINTF_BUFFLEN {
        return OutOfBounds, op, text, len, next;
      }
      text := UpToZero(text);
    }
    return Performed, op, text, len, next;
  }

  /** A conversion that stands alone needs no more than the buffer that is there. */
  lemma BareRoom(spec: Spec, arg: Arg, aux: nat)
    requires spec.Bare() && IsOp(spec.op) && spec.op != STRING && spec.op != FIXED && spec.op != COUNT && spec.op != PERCENT
    ensures var required := RequiredFor(spec, 0, 0, arg); BuffLen(aux, required) == PRINTF_BUFFLEN && AuxAfter(aux, required) == aux
  {
  }

  lemma BareRebuilt(modifier: Option<Byte>, op: Byte)
    ensures Rebuilt(Spec([], Absent, false, Absent, modifier, op), 0, 0)
         == if modifier.Some? then [PERCENT, modifier.value, op] else [PERCENT, op]
  {
  }

  /** What the fast look at one or two characters says about the scan. */
  lemma FastScan(format: seq<Byte>, percent: nat, args: Args, k: nat)
    requires percent < |format| && 0 !in format
    ensures var s := format[percent + 1..];
      var c := At(format, percent + 1);
      var modified := IsModifier(c);
      var op := if modified then At(format, percent + 2) else c;
      var len := if modified then 2 else 1;
      if op == 0 then ScanSpec(s).Bad? && !Trapped(s, args, k)
      else if !IsFlag(c) && !IsDigit(c) && c != STAR && c != DOT then
        ScanSpec(s) == Good(Spec([], Absent, false, Absent, if modified then Some(c) else None, op), s[len..])
      else !IsOp(op) && (ScanSpec(s).Good? ==> !ScanSpec(s).item.Bare())
  {
    hide FlagRun, DigitRun, ScanPrecision, ScanAmount;
    var s := format[percent + 1..];
    var c := At(format, percent + 1);
    if s == [] {
      NoSpec();
    } else {
      assert s[0] == c && c in format;
      assert |s| > 1 ==> s[1] == format[percent + 2] && s[1] in format;
      if !IsFlag(c) && !IsDigit(c) && c != STAR && c != DOT {
        NoAmount(s);
        ScanBare(s);
        assert |s| > 1 ==> s[1..][1..] == s[2..];
      } else {
        ScanFancy(s);
        if IsOp(c) {
          OpIsPlain(c);
        }
      }
    }
  }

  lemma DecimalLength(n: int)
    requires -MAX_AMOUNT <= n <= MAX_AMOUNT
    ensures |Decimal(n)| <= if n < 0 then 7 else 6
  {
    assert Ten(6) == 1000000 by {
      assert Ten(3) == 1000;
    }
    DigitsLength(if n < 0 then -n else n, 6);
  }

  /** A width or precision in the format, its size, and its text with a star filled in. */
  method SlowAmount(format: seq<Byte>, p: nat, args: Args, k: nat, least: int)
    returns (ok: bool, text: seq<Byte>, size: int, q: nat, next: nat, ghost a: Amount)
    requires p <= |format| && (least == 0 || least < -MAX_AMOUNT)
    ensures ok ==>
      && p <= q <= |format| && ScanAmount(format[p..]) == Good(a, format[q..]) && next == After(a, k)
      && -MAX_AMOUNT <= Max(Value(a, args, k), least) <= MAX_AMOUNT
      && text == Filled(a, Max(Value(a, args, k), least)) && size == Size(a, Max(Value(a, args, k), least))
      && |text| <= if least == 0 then 6 else 7
    ensures !ok ==>
      var r := ScanAmount(format[p..]);
      r.Good? ==> !(-MAX_AMOUNT <= Max(Value(r.item, args, k), least) <= MAX_AMOUNT)
  {
    ghost var s := format[p..];
    var n := DigitRun(format[p..]);
    ok, text, size, q, next, a := true, [], 0, p, k, Absent;
    if n == 0 {
      if At(format, p) == STAR {
        assert s[0] == STAR;
        var value := Max(args(k).number, least);
        next := k + 1;
        if value > MAX_AMOUNT || value < -MAX_AMOUNT {
          ok := false;
          return;
        }
        DecimalLength(value);
        text, size, q, a := Decimal(value), value, p + 1, Star;
        assert s[1..] == format[q..];
      } else {
        assert s != [] ==> s[0] == At(format, p);
      }
    } else if n <= 6 {
      text, size, q, a := format[p..p + n], Number(format[p..p + n]), p + n, Written(s[..n]);
      assert format[p..p + n] == s[..n];
      assert s[n..] == format[q..];
    } else {
      ok := false;
    }
  }

  /** Why a conversion fails whose width is malformed or out of range. */
  lemma WidthWrong(s: seq<Byte>, args: Args, k: nat, render: Renderer, aux: nat)
    requires FlagRun(s) <= 5 && !Trapped(s, args, k)
    requires var r := ScanAmount(s[FlagRun(s)..]); r.Good? ==> !(-MAX_AMOUNT <= Value(r.item, args, k) <= MAX_AMOUNT)
    ensures ScanSpec(s).Good? ==> Convert(ScanSpec(s).item, args, k, render, aux).Wrong?
  {
    hide ScanAmount, FlagRun, Rendered;
  }

  lemma PrecisionWrong(s: seq<Byte>, args: Args, k: nat, render: Renderer, aux: nat, w: Scanned<Amount>)
    requires FlagRun(s) <= 5 && !Trapped(s, args, k)
    requires w == ScanAmount(s[FlagRun(s)..]) && w.Good? && w.rest != [] && w.rest[0] == DOT
    requires var r := ScanAmount(w.rest[1..]); r.Good? ==> Value(r.item, args, After(w.item, k)) > MAX_AMOUNT
    ensures ScanSpec(s).Good? ==> Convert(ScanSpec(s).item, args, k, render, aux).Wrong?
  {
    hide ScanAmount, FlagRun, Rendered;
  }

  /**
   Performs a conversion that has been scanned in full, except those that must stand alone. A larger buffer is
   allocated if the one there is not large enough for what the source expects.
   */
  method FinishSlow(op: Byte, modifier: Option<Byte>, fmtBuff: seq<Byte>, minWidth: int, precision: int,
                    args: Args, k: nat, render: Renderer, aux: nat, ghost spec: Spec, ghost first: nat)
    returns (t: Try, text: seq<Byte>, next: nat, larger: nat)
    requires |fmtBuff| < FMT_BUFFLEN
    requires spec.op == op && spec.modifier == modifier && (spec.Bare() ==> !IsOp(op) || op == FIXED)
    requires !(spec.width.Star? && args(first).number == INT_MIN)
    requires var k1 := After(spec.width, first);
      var w := Value(spec.width, args, first);
      var p := Max(Value(spec.precision, args, k1), 0);
      && -MAX_AMOUNT <= w <= MAX_AMOUNT && p <= MAX_AMOUNT
      && k == After(spec.precision, k1) && fmtBuff == Rebuilt(spec, w, p)
      && minWidth == Size(spec.width, w) && precision == if spec.dot then Size(spec.precision, p) else -1
    ensures t.Performed? ==> Convert(spec, args, first, render, aux) == Converted(text, next, larger) && op != COUNT
    ensures t.Failed? ==> Convert(spec, args, first, render, aux).Wrong?
    ensures t.OutOfBounds? ==> Convert(spec, args, first, render, aux).Undefined?
    ensures !t.NotPerformed?
  {
    hide Rebuilt, Estimate;
    if !IsOp(op) || op == COUNT || op == PERCENT || !Takes(op, modifier) {
      return Failed, [], k, aux;
    }
    var buffReqd := Max(Estimate(op, precision, args(k)) + 10, minWidth);
    var buffLen := PRINTF_BUFFLEN;
    larger := aux;
    if buffReqd > PRINTF_BUFFLEN {
      if buffReqd > larger {
        larger := buffReqd;
      }
      buffLen := larger;
    }
    var written := render(fmtBuff, args(k));
    return if |written| + 1 <= buffLen then Performed else OutOfBounds, UpToZero(written), k + 1, larger;
  }

  /** The dot and the precision, if there is a dot, added to the specification copied so far. */
  method SlowPrecision(format: seq<Byte>, p: nat, args: Args, k: nat, copied: seq<Byte>,
                       ghost flags: seq<Byte>, ghost width: Amount)
    returns (ok: bool, fmtBuff: seq<Byte>, size: int, q: nat, next: nat, ghost dot: bool, ghost precision: Amount)
    requires p <= |format| && 0 !in format
    ensures dot == (At(format, p) == DOT)
    ensures ok ==>
      && p <= q <= |format| && next == After(precision, k) && (!dot ==> precision.Absent?)
      && ScanPrecision(flags, width, format[p..]) == ScanOp(flags, width, dot, precision, format[q..])
      && Max(Value(precision, args, k), 0) <= MAX_AMOUNT
      && size == (if dot then Size(precision, Max(Value(precision, args, k), 0)) else -1)
      && fmtBuff == copied + (if dot then [DOT] else []) + Filled(precision, Max(Value(precision, args, k), 0))
      && |fmtBuff| <= |copied| + 7
    ensures !ok ==> dot
    ensures !ok ==> var r := ScanAmount(format[p..][1..]); r.Good? ==> Value(r.item, args, k) > MAX_AMOUNT
  {
    hide ScanAmount, ScanOp, Decimal;
    ghost var s := format[p..];
    ok, fmtBuff, size, q, next, precision := true, copied, -1, p, k, Absent;
    dot := At(format, p) == DOT;
    assert s != [] ==> s[0] == At(format, p);
    Units(copied);
    if At(format, p) == DOT {
      assert s[1..] == format[p + 1..];
      var more;
      ok, more, size, q, next, precision := SlowAmount(format, p + 1, args, k, 0);
      fmtBuff := copied + [DOT] + more;
    }
  }

  /** The modifier, if there is one, and the operation, which is zero at the end of the format. */
  method SlowOp(format: seq<Byte>, p: nat, copied: seq<Byte>,
                ghost flags: seq<Byte>, ghost width: Amount, ghost dot: bool, ghost precision: Amount)
    returns (modifier: Option<Byte>, op: Byte, fmtBuff: seq<Byte>, q: nat)
    requires p <= |format| && 0 !in format
    ensures op == 0 ==> ScanOp(flags, width, dot, precision, format[p..]).Bad?
    ensures op != 0 ==>
      && p < q <= |format|
      && ScanOp(flags, width, dot, precision, format[p..]) == Good(Spec(flags, width, dot, precision, modifier, op), format[q..])
      && fmtBuff == copied + (if modifier.Some? then [modifier.value] else []) + [op] && |fmtBuff| <= |copied| + 2
  {
    ghost var s := format[p..];
    modifier, fmtBuff, q := None, copied, p;
    Units(copied);
    assert s != [] ==> s[0] == At(format, p) && s[0] in format && s[1..] == format[p + 1..];
    if IsModifier(At(format, p)) {
      modifier, q := Some(At(format, p)), p + 1;
      fmtBuff := fmtBuff + [At(format, p)];
    }
    op := At(format, q);
    assert format[q..] != [] ==> format[q..][0] == op && op in format && format[q..][1..] == format[q + 1..];
    if op != 0 {
      fmtBuff := fmtBuff + [op];
      q := q + 1;
    }
  }

  /** A star where a width may be, with INT_MIN for its argument. */
  lemma TrapFound(s: seq<Byte>, args: Args, k: nat, render: Renderer, aux: nat)
    requires FlagRun(s) <= 5
    ensures var at := FlagRun(s); Trapped(s, args, k) <==> at < |s| && s[at] == STAR && args(k).number == INT_MIN
    ensures Trapped(s, args, k) && ScanSpec(s).Good? ==> Convert(ScanSpec(s).item, args, k, render, aux).Undefined?
    ensures !Trapped(s, args, k) && ScanSpec(s).Good? ==> !(ScanSpec(s).item.width.Star? && args(k).number == INT_MIN)
  {
    hide FlagRun, Rendered;
    var t := s[FlagRun(s)..];
    assert t != [] ==> t[0] == s[FlagRun(s)];
  }

  /** The conversion in full: flags, width, precision, modifier and operation. */
  method SlowConvert(format: seq<Byte>, percent: nat, args: Args, k: nat, render: Renderer, aux: nat)
    returns (t: Try, op: Byte, text: seq<Byte>, len: nat, next: nat, larger: nat)
    requires percent < |format| && format[percent] == PERCENT && 0 !in format
    requires Tried(NotPerformed, format[percent + 1..], args, k, render, aux, 0, [], 0, k, aux)
    ensures Tried(t, format[percent + 1..], args, k, render, aux, op, text, len, next, larger) && !t.NotPerformed?
    ensures t.Performed? ==> op != COUNT
  {
    hide FlagRun, ScanAmount, Decimal, ScanOp, ScanPrecision, Convert, Filled, Trapped, Size;
    ghost var s := format[percent + 1..];
    t, op, text, len, next, larger := Failed, 0, [], 0, k, aux;
    var n := FlagRun(format[percent + 1..]);
    if n > 5 {
      TooManyFlags(s, args, k);
      return;
    }
    var fmtBuff := [PERCENT] + format[percent + 1..percent + 1 + n];
    assert format[percent + 1..percent + 1 + n] == s[..n];
    var p := percent + 1 + n;
    assert s[n..] == format[p..] && (n < |s| ==> s[n] == format[p]);
    TrapFound(s, args, k, render, aux);
    if At(format, p) == STAR && args(k).number == INT_MIN {
      return OutOfBounds, op, text, len, next, larger;
    }
    var ok, amount, minWidth, precision, k1, k2, modifier;
    ghost var width, dot, digits;
    ghost var w := ScanAmount(format[p..]);
    ok, amount, minWidth, p, k1, width := SlowAmount(format, p, args, k, -MAX_AMOUNT - 1);
    if !ok {
      WidthWrong(s, args, k, render, aux);
      return;
    }
    ghost var rest := format[p..];
    assert rest != [] ==> rest[0] == At(format, p);
    ok, fmtBuff, precision, p, k2, dot, digits := SlowPrecision(format, p, args, k1, fmtBuff + amount, s[..n], width);
    if !ok {
      PrecisionWrong(s, args, k, render, aux, w);
      return;
    }
    modifier, op, fmtBuff, p := SlowOp(format, p, fmtBuff, s[..n], width, dot, digits);
    if op == 0 {
      return;
    }
    assert |fmtBuff| < FMT_BUFFLEN;
    ghost var spec := Spec(s[..n], width, dot, digits, modifier, op);
    assert ScanSpec(s) == Good(spec, format[p..]);
    len := p - percent - 1;
    assert s[len..] == format[p..];
    t, text, next, larger := FinishSlow(op, modifier, fmtBuff, minWidth, precision, args, k2, render, aux, spec, k);
  }

  lemma TooManyFlags(s: seq<Byte>, args: Args, k: nat)
    requires FlagRun(s) > 5
    ensures ScanSpec(s).Bad? && !Trapped(s, args, k)
  {
  }

  /** At most two tries, the fast one first. */
  method ConvertNext(format: seq<Byte>, percent: nat, args: Args, k: nat, render: Renderer, aux: nat)
    returns (t: Try, op: Byte, text: seq<Byte>, len: nat, next: nat, larger: nat)
    requires percent < |format| && format[percent] == PERCENT && 0 !in format
    ensures Tried(t, format[percent + 1..], args, k, render, aux, op, text, len, next, larger) && !t.NotPerformed?
  {
    hide ScanSpec, Convert, Trapped;
    t, op, text, len, next := FastConvert(format, percent, args, k, render, aux);
    larger := aux;
    if t.NotPerformed? {
      t, op, text, len, next, larger := SlowConvert(format, percent, args, k, render, aux);
    }
  }

  // ---- Printing ----

  lemma PutTwice(v: Output, s: seq<Byte>, w: Output, d: seq<Record>, t: seq<Byte>, u: Output, e: seq<Record>)
    requires Put(v, s, w, d) && Put(w, t, u, e)
    ensures Put(v, s + t, u, d + e)
  {
    Associate(v.data, d, e);
    Associate(v.Accepted(), s, t);
    assert v.AllData(d + e);
  }

  /** What is printed when done has been put and the format from s on is still to come. */
  function Onwards(done: seq<Byte>, counts: seq<(nat, int)>, s: seq<Byte>, args: Args, render: Renderer, k: nat, aux: nat): Printed {
    Before(done, counts, Interpret(s, args, render, Place(k, |done|, aux)))
  }

  lemma {:induction false} LiteralRun(n: nat, done: seq<Byte>, counts: seq<(nat, int)>,
                                      s: seq<Byte>, args: Args, render: Renderer, k: nat, aux: nat)
    requires n <= |s| && PERCENT !in s[..n]
    ensures Onwards(done, counts, s, args, render, k, aux) == Onwards(done + s[..n], counts, s[n..], args, render, k, aux)
  {
    if n == 0 {
      assert s[..0] == [] && s[0..] == s;
      Units(done);
    } else {
      assert s[0] == s[..n][0] && s[1..][..n - 1] == s[..n][1..] && s[1..][n - 1..] == s[n..];
      LiteralRun(n - 1, done + [s[0]], counts, s[1..], args, render, k, aux);
      var more := Interpret(s[1..], args, render, Place(k, |done| + 1, aux));
      Associate(done, [s[0]], more.bytes);
      Units(more.counts);
      Associate(done, [s[0]], s[1..n]);
      assert [s[0]] + s[1..n] == s[..n];
    }
  }

  lemma ConversionDone(t: Try, op: Byte, text: seq<Byte>, len: nat, next: nat, larger: nat, done: seq<Byte>,
                       counts: seq<(nat, int)>, s: seq<Byte>, args: Args, render: Renderer, k: nat, aux: nat)
    requires s != [] && s[0] == PERCENT && !t.NotPerformed?
    requires Tried(t, s[1..], args, k, render, aux, op, text, len, next, larger)
    ensures var o := Onwards(done, counts, s, args, render, k, aux);
      if t.Performed? then
        && len < |s| && s[1..][len..] == s[len + 1..]
        && o == Onwards(done + text, counts + (if op == COUNT then [(k, |done|)] else []), s[len + 1..], args, render, next, larger)
      else o == Printed(done, false, t.Failed?, k, counts)
  {
    hide ScanSpec, Convert, Trapped;
    Units(done);
    Units(counts);
    if t.Performed? {
      assert s[1..][len..] == s[len + 1..];
      var more := Interpret(s[len + 1..], args, render, Place(next, |done| + |text|, larger));
      Associate(done, text, more.bytes);
      Associate(counts, if op == COUNT then [(k, |done|)] else [], more.counts);
    }
  }

  /** The bytes done have been put since the stream looked like v and the connection held the records before. */
  ghost predicate PutSince(stream: Writer, v: Output, done: seq<Byte>, before: seq<Record>)
    reads stream, stream.buff, stream.conn, stream.req
  {
    && stream.Valid() && before <= stream.conn.records && v.closed == stream.wasFCloseCalled
    && (v.closed ==> done == [] && stream.V() == v && stream.conn.records == before)
    && (stream.conn.sound && !v.closed ==> Put(v, done, stream.V(), stream.conn.records[|before|..]))
  }

  lemma PutSinceNow(stream: Writer)
    requires stream.Valid()
    ensures PutSince(stream, stream.V(), [], stream.conn.records)
  {
    assert stream.conn.records[|stream.conn.records|..] == [];
    PutNothing(stream.V());
  }

  /** No more can be put: the stream was closed from the start, or a call has failed. */
  ghost predicate Failing(stream: Writer, v: Output, before: seq<Record>)
    reads stream, stream.buff, stream.conn, stream.req
  {
    && stream.Valid() && before <= stream.conn.records && v.closed == stream.wasFCloseCalled
    && (v.closed ==> stream.V() == v && stream.conn.records == before)
    && (v.closed || !stream.conn.sound)
  }

  /** Puts more bytes after those done. */
  method Emit(stream: Writer, bytes: seq<Byte>, ghost v: Output, ghost done: seq<Byte>, ghost before: seq<Record>)
    returns (r: int)
    requires PutSince(stream, v, done, before) && bytes != []
    modifies stream, stream.buff, stream.conn
    ensures r == |bytes| || r == -1
    ensures r >= 0 ==> PutSince(stream, v, done + bytes, before)
    ensures r < 0 ==> Failing(stream, v, before)
  {
    hide Put, stream.Valid;
    ghost var w, d := stream.V(), stream.conn.records;
    r := stream.PutStr(bytes);
    if stream.conn.sound && !v.closed {
      PutTwice(v, done, w, d[|before|..], bytes, stream.V(), stream.conn.records[|d|..]);
      assert d[|before|..] + stream.conn.records[|d|..] == stream.conn.records[|before|..];
    }
  }

  /** The index of the next percent sign, or the end of the format. */
  method FindPercent(format: seq<Byte>, f: nat) returns (p: nat)
    requires f <= |format|
    ensures f <= p <= |format| && PERCENT !in format[f..p] && (p < |format| ==> format[p] == PERCENT)
  {
    p := f;
    while p < |format| && format[p] != PERCENT
      invariant f <= p <= |format| && PERCENT !in format[f..p]
    {
      p := p + 1;
    }
  }

  lemma Finished(done: seq<Byte>, counts: seq<(nat, int)>, args: Args, render: Renderer, k: nat, aux: nat)
    ensures Onwards(done, counts, [], args, render, k, aux) == Printed(done, true, true, k, counts)
  {
    Units(done);
    Units(counts);
  }

  /**
   Printing has stopped early: the format was wrong there, or no more could be put. Nothing is said of a format on which
   the C code has no defined behaviour.
   */
  ghost predicate Stopped(stream: Writer, v: Output, before: seq<Record>, o: Printed, counts: seq<(nat, int)>)
    reads stream, stream.buff, stream.conn, stream.req
  {
    || !o.defined
    || (!o.ok && counts == o.counts && PutSince(stream, v, o.bytes, before))
    || (o.bytes != [] && counts <= o.counts && Failing(stream, v, before))
  }

  /** Puts what is in front of the next percent sign. */
  method PutLiteral(stream: Writer, format: seq<Byte>, f: nat, ghost args: Args, ghost render: Renderer, ghost k: nat, ghost aux: nat,
                    counts: seq<(nat, int)>, ghost v: Output, ghost done: seq<Byte>, ghost before: seq<Record>)
    returns (ok: bool, percent: nat)
    requires f < |format| && PutSince(stream, v, done, before)
    modifies stream, stream.buff, stream.conn
    ensures var o := Onwards(done, counts, format[f..], args, render, k, aux);
      && f <= percent <= |format| && (percent < |format| ==> format[percent] == PERCENT)
      && (ok ==> PutSince(stream, v, done + format[f..percent], before)
                 && o == Onwards(done + format[f..percent], counts, format[percent..], args, render, k, aux))
      && (!ok ==> Stopped(stream, v, before, o, counts))
  {
    hide PutSince, Failing, Writer.Valid, Interpret;
    percent := FindPercent(format, f);
    assert format[f..percent] == format[f..][..percent - f] && format[f..][percent - f..] == format[percent..];
    LiteralRun(percent - f, done, counts, format[f..], args, render, k, aux);
    Units(done);
    ok := true;
    if percent != f {
      var r := Emit(stream, format[f..percent], v, done, before);
      ok := r >= 0;
    }
  }

  /** Performs the conversion after a percent sign and puts its text. */
  method PutConversion(stream: Writer, format: seq<Byte>, f: nat, args: Args, render: Renderer, k: nat, aux: nat,
                       stored: seq<(nat, int)>, streamCount: nat, ghost v: Output, ghost done: seq<Byte>, ghost before: seq<Record>)
    returns (ok: bool, text: seq<Byte>, g: nat, next: nat, larger: nat, counts: seq<(nat, int)>)
    requires f < |format| && format[f] == PERCENT && 0 !in format
    requires PutSince(stream, v, done, before) && streamCount == |done|
    modifies stream, stream.buff, stream.conn
    ensures var o := Onwards(done, stored, format[f..], args, render, k, aux);
      && (ok ==> f < g <= |format| && PutSince(stream, v, done + text, before)
                 && o == Onwards(done + text, counts, format[g..], args, render, next, larger))
      && (!ok ==> Stopped(stream, v, before, o, counts))
  {
    hide PutSince, Failing, Writer.Valid, Interpret, Tried;
    var t, op, len;
    assert format[f..][0] == PERCENT && format[f..][1..] == format[f + 1..];
    t, op, text, len, next, larger := ConvertNext(format, f, args, k, render, aux);
    ConversionDone(t, op, text, len, next, larger, done, stored, format[f..], args, render, k, aux);
    ok, g, counts := t.Performed?, f + 1 + len, stored;
    if ok {
      assert format[f..][len + 1..] == format[g..];
      counts := stored + if op == COUNT then [(k, streamCount)] else [];
      Units(done);
      if text != [] {
        var r := Emit(stream, text, v, done, before);
        ok := r >= 0;
      }
    }
  }

  /**
   Prints exactly what the format means, or stops where it is wrong or nothing more can be put; unless the C code has no
   defined behaviour, of which the meaning tells.
   */
  method VFPrintF(stream: Writer, format: seq<Byte>, args: Args, render: Renderer)
    returns (streamCount: int, counts: seq<(nat, int)>)
    requires stream.Valid() && 0 !in format
    modifies stream, stream.buff, stream.conn
    ensures var o := Interpret(format, args, render, Place(0, 0, 0));
      if streamCount >= 0 then
        && o.ok && streamCount == |o.bytes| && counts == o.counts
        && PutSince(stream, old(stream.V()), o.bytes, old(stream.conn.records))
      else
        streamCount == -1 && Stopped(stream, old(stream.V()), old(stream.conn.records), o, counts)
  {
    hide PutSince, Stopped, Writer.Valid, Interpret;
    ghost var v, before := stream.V(), stream.conn.records;
    ghost var done: seq<Byte> := [];
    var f, k, aux := 0, 0, 0;
    streamCount, counts := 0, [];
    PutSinceNow(stream);
    assert format[0..] == format;
    NothingDone(format, args, render);
    while f != |format|
      invariant f <= |format| && streamCount == |done|
      invariant Interpret(format, args, render, Place(0, 0, 0)) == Onwards(done, counts, format[f..], args, render, k, aux)
      invariant PutSince(stream, v, done, before)
    {
      var ok, percent := PutLiteral(stream, format, f, args, render, k, aux, counts, v, done, before);
      if !ok {
        return -1, counts;
      }
      streamCount := streamCount + (percent - f);
      done := done + format[f..percent];
      f := percent;
      if f == |format| {
        break;
      }
      var text;
      ok, text, f, k, aux, counts := PutConversion(stream, format, f, args, render, k, aux, counts, streamCount, v, done, before);
      if !ok {
        return -1, counts;
      }
      streamCount := streamCount + |text|;
      done := done + text;
    }
    assert format[f..] == [];
    Finished(done, counts, args, render, k, aux);
  }

  lemma NothingDone(format: seq<Byte>, args: Args, render: Renderer)
    ensures Onwards([], [], format, args, render, 0, 0) == Interpret(format, args, render, Place(0, 0, 0))
  {
    hide Interpret;
    var o := Interpret(format, args, render, Place(0, 0, 0));
    Units(o.bytes);
    Units(o.counts);
  }
}
