/** What a conversion that is written out in a format string means: its fields, the number that its
    argument is, and the text that is printed for it. */
module PrintfParsing {
  import opened Bits
  import opened Arith64
  import opened Printf
  import opened PrintfReading
  import opened PrintfLayout
  import opened Options

  // ---------------------------------------------------------------- conversions as they are written

  /** A width or precision: left out, written in digits, or taken from an argument. */
  datatype Field = Absent | Literal(digits: string) | Star

  datatype Length = Int | Short | Char | Long | LongLong | PtrDiff | IntMax | Size

  /** The flags in any order and number; `dot` says whether there is a precision. */
  datatype Conversion = Conversion(flags: string, width: Field, dot: bool, prec: Field, length: Length, c: char)

  function FieldText(d: Field): string {
    match d
    case Absent => ""
    case Literal(digits) => digits
    case Star => "*"
  }

  function LengthText(l: Length): string {
    match l
    case Int => ""
    case Short => "h"
    case Char => "hh"
    case Long => "l"
    case LongLong => "ll"
    case PtrDiff => "t"
    case IntMax => "j"
    case Size => "z"
  }

  function PrecText(d: Conversion): string {
    if d.dot then "." + FieldText(d.prec) else ""
  }

  function Written(d: Conversion): string {
    "%" + (d.flags + (FieldText(d.width) + (PrecText(d) + (LengthText(d.length) + [d.c]))))
  }

  predicate Numeric(c: char) {
    '0' <= c <= '9'
  }

  predicate FlagChar(c: char) {
    c == '0' || c == '-' || c == '+' || c == ' ' || c == '#'
  }

  predicate LengthChar(c: char) {
    c == 'h' || c == 'l' || c == 'j' || c == 'z' || c == 't'
  }

  predicate Has(s: string, c: char) {
    c in s
  }

  predicate Digital(s: string) {
    s != "" && forall i :: 0 <= i < |s| ==> Numeric(s[i])
  }

  predicate AllFlags(s: string) {
    forall i :: 0 <= i < |s| ==> FlagChar(s[i])
  }

  /** A width does not start with a zero, which would be a flag; the conversion character is none that
      could belong to a field before it. */
  predicate Proper(d: Conversion) {
    && AllFlags(d.flags)
    && (d.width.Literal? ==> Digital(d.width.digits) && d.width.digits[0] != '0')
    && (d.prec.Literal? ==> Digital(d.prec.digits)) && (!d.dot ==> d.prec.Absent?)
    && !FlagChar(d.c) && !Numeric(d.c) && d.c != '.' && d.c != '*' && !LengthChar(d.c)
  }

  /** How many arguments the fields take. */
  function Stars(d: Conversion): nat {
    (if d.width.Star? then 1 else 0) + if d.prec.Star? then 1 else 0
  }

  predicate StarsFit(d: Conversion, args: seq<Arg>) {
    Stars(d) <= |args| && forall i :: 0 <= i < Stars(d) ==> args[i].Number?
  }

  function StarValue(args: seq<Arg>, i: nat): int
    requires i < |args| && args[i].Number?
  {
    AsInt(args[i].bits)
  }

  /** The field in digits, as an `unsigned int`. */
  function Decimal(digits: string): nat {
    PrintfReading.Value(digits, 10) % UINT
  }

  function WidthOf(d: Conversion, args: seq<Arg>): nat
    requires StarsFit(d, args)
  {
    match d.width
    case Absent => 0
    case Literal(digits) => Decimal(digits)
    case Star => Magnitude(StarValue(args, 0))
  }

  /** A negative width from an argument puts the text on the left. */
  predicate LeftOf(d: Conversion, args: seq<Arg>)
    requires StarsFit(d, args)
  {
    Has(d.flags, '-') || (d.width.Star? && StarValue(args, 0) < 0)
  }

  /** A negative precision from an argument is 0. */
  function PrecOf(d: Conversion, args: seq<Arg>): nat
    requires StarsFit(d, args)
  {
    match d.prec
    case Absent => 0
    case Literal(digits) => Decimal(digits)
    case Star => var p := StarValue(args, Stars(d) - 1); if p > 0 then p else 0
  }

  function FlagsOf(d: Conversion, left: bool): Flags {
    Flags(Has(d.flags, '0'), left, Has(d.flags, '+'), Has(d.flags, ' '), Has(d.flags, '#'), false,
          d.length.Char?, d.length.Short? || d.length.Char?,
          !d.length.Int? && !d.length.Short? && !d.length.Char?, d.dot)
  }

  /** What the parser makes of the conversion at `i`. */
  function Meant(d: Conversion, i: nat, args: seq<Arg>): Spec
    requires StarsFit(d, args)
  {
    Spec(FlagsOf(d, LeftOf(d, args)), WidthOf(d, args), PrecOf(d, args), i + |Written(d)| - 1, args[Stars(d)..])
  }

  // ---------------------------------------------------------------- numbers

  /** The bits of the type that the length field names. */
  function BitsOf(l: Length): nat {
    match l
    case Char => 8
    case Short => 16
    case Int => 32
    case _ => 64
  }

  predicate Signs(c: char) {
    c == 'd' || c == 'i'
  }

  /** `v` is the number that the low `w` bits are, in the range of that type. */
  predicate Represents(v: int, bits: nat, w: nat, signed: bool)
    requires w > 0
  {
    && (v - bits) % Pow2(w) == 0
    && if signed then 0 - Pow2(w - 1) <= v < Pow2(w - 1) else 0 <= v < Pow2(w)
  }

  lemma Ranges()
    ensures Pow2(7) == 0x80 && Pow2(8) == 0x100 && Pow2(15) == 0x8000 && Pow2(16) == 0x1_0000
    ensures Pow2(31) == 0x8000_0000 && Pow2(32) == UINT && Pow2(63) == HALF && Pow2(64) == WORD
  {
    assert Pow2(7) == 0x80;
    Pow2Add(8, 7);
    Pow2Add(8, 8);
    Pow2Add(16, 15);
    Pow2Add(16, 16);
    Pow2Add(32, 31);
    Pow2Add(32, 32);
  }

  lemma Wraps(bits: nat, m: nat)
    requires m > 0
    ensures (bits % m - bits) % m == 0 && (bits % m - m - bits) % m == 0
  {
    var q := bits / m;
    assert bits % m - bits == m * (-q) && bits % m - m - bits == m * (-q - 1);
    ModUnique(bits % m - bits, m, -q, 0);
    ModUnique(bits % m - m - bits, m, -q - 1, 0);
  }

  lemma AsIntMeans(bits: nat)
    ensures Represents(AsInt(bits), bits, 32, true)
  {
    Ranges();
    hide Pow2;
    Wraps(bits, UINT);
  }

  /** The flags say which type it is. */
  predicate TypeIs(f: Flags, l: Length) {
    f.chr == l.Char? && f.short == (l.Short? || l.Char?) && f.long == (!l.Int? && !l.Short? && !l.Char?)
  }

  lemma SignedMeans(bits: nat, f: Flags, l: Length)
    requires TypeIs(f, l)
    ensures Represents(SignedValue(bits, f), bits, BitsOf(l), true)
  {
    Ranges();
    hide Pow2;
    Wraps(bits, Pow2(BitsOf(l)));
  }

  lemma UnsignedMeans(bits: nat, f: Flags, l: Length)
    requires TypeIs(f, l)
    ensures Represents(UnsignedValue(bits, f), bits, BitsOf(l), false)
  {
    Ranges();
    hide Pow2;
    Wraps(bits, Pow2(BitsOf(l)));
  }

  /** The number printed is the argument in the type that the length field names. */
  lemma ValueMeans(d: Conversion, bits: nat, i: nat, args: seq<Arg>)
    requires StarsFit(d, args)
    ensures Represents(IntegerValue(d.c, bits, Meant(d, i, args)), bits, BitsOf(d.length), Signs(d.c))
  {
    hide Decimal, AsInt, Stars, StarsFit, LeftOf, WidthOf, PrecOf, Represents;
    var f := IntegerFlags(Meant(d, i, args).f, d.c);
    if Signs(d.c) { SignedMeans(bits, f, d.length); } else { UnsignedMeans(bits, f, d.length); }
  }

  /** There is only one such number. */
  lemma RepresentsOnce(v: int, v': int, bits: nat, w: nat, signed: bool)
    requires w > 0 && Represents(v, bits, w, signed) && Represents(v', bits, w, signed)
    ensures v == v'
  {
    assert Pow2(w) == 2 * Pow2(w - 1);
    hide Pow2;
    OneInRange(v, v', bits, Pow2(w));
  }

  lemma OneInRange(v: int, v': int, bits: int, p: nat)
    requires p > 0 && (v - bits) % p == 0 && (v' - bits) % p == 0 && v - v' < p && v' - v < p
    ensures v == v'
  {
    var d := if v < v' then v' - v else v - v';
    Multiples(v - bits, v' - bits, p);
    ModUnique(d, p, 0, d);
  }

  lemma Multiples(x: int, y: int, p: nat)
    requires p > 0 && x % p == 0 && y % p == 0
    ensures (x - y) % p == 0 && (y - x) % p == 0
  {
    var a, b := x / p, y / p;
    assert x == p * a && y == p * b;
    assert x - y == p * (a - b) && y - x == p * (b - a);
    ModUnique(x - y, p, a - b, 0);
    ModUnique(y - x, p, b - a, 0);
  }

  // ---------------------------------------------------------------- parsing

  /** The text stands in the format at `i`. */
  predicate Holds(fmt: string, i: nat, t: string) {
    i + |t| <= |fmt| && fmt[i..i + |t|] == t
  }

  lemma HoldsSplit(fmt: string, i: nat, a: string, b: string)
    requires Holds(fmt, i, a + b)
    ensures Holds(fmt, i, a) && Holds(fmt, i + |a|, b)
  {
    var t := fmt[i..i + |a + b|];
    assert fmt[i..i + |a|] == t[..|a|] && fmt[i + |a|..i + |a| + |b|] == t[|a|..];
    assert (a + b)[..|a|] == a && (a + b)[|a|..] == b;
  }

  lemma HoldsAt(fmt: string, i: nat, t: string, k: nat)
    requires Holds(fmt, i, t) && k < |t|
    ensures fmt[i + k] == t[k] && CharAt(fmt, i + k) == t[k]
  {
    assert fmt[i..i + |t|][k] == fmt[i + k];
  }

  function Flagged(f: Flags, flags: string): Flags {
    Raised(f, Has(flags, '0'), Has(flags, '-'), Has(flags, '+'), Has(flags, ' '), Has(flags, '#'))
  }

  function Raised(f: Flags, zeropad: bool, left: bool, plus: bool, space: bool, hash: bool): Flags {
    f.(zeropad := f.zeropad || zeropad, left := f.left || left, plus := f.plus || plus, space := f.space || space,
       hash := f.hash || hash)
  }

  lemma RaisedStep(f: Flags, c: char, zeropad: bool, left: bool, plus: bool, space: bool, hash: bool)
    requires FlagChar(c)
    ensures Raised(WithFlag(f, c), zeropad, left, plus, space, hash) ==
      Raised(f, c == '0' || zeropad, c == '-' || left, c == '+' || plus, c == ' ' || space, c == '#' || hash)
  {
  }

  lemma FlaggedStep(f: Flags, flags: string)
    requires flags != "" && FlagChar(flags[0])
    ensures IsFlag(flags[0]) && Flagged(WithFlag(f, flags[0]), flags[1..]) == Flagged(f, flags)
  {
    hide Raised, WithFlag, Has;
    var h, t := flags[0], flags[1..];
    InTail(flags, '0');
    InTail(flags, '-');
    InTail(flags, '+');
    InTail(flags, ' ');
    InTail(flags, '#');
    RaisedStep(f, h, Has(t, '0'), Has(t, '-'), Has(t, '+'), Has(t, ' '), Has(t, '#'));
  }

  lemma InTail(s: string, c: char)
    requires s != ""
    ensures Has(s, c) <==> c == s[0] || Has(s[1..], c)
  {
  }

  lemma {:induction false} FlagsRun(fmt: string, i: nat, flags: string, f: Flags)
    requires Holds(fmt, i, flags) && AllFlags(flags) && i + |flags| < |fmt| && !FlagChar(fmt[i + |flags|])
    ensures ParseFlags(fmt, i, f) == (Flagged(f, flags), i + |flags|)
    decreases |flags|
  {
    hide Flagged, WithFlag;
    if flags == "" {
      FlaggedNone(f);
    } else {
      HoldsAt(fmt, i, flags, 0);
      assert flags == [flags[0]] + flags[1..];
      HoldsSplit(fmt, i, [flags[0]], flags[1..]);
      FlaggedStep(f, flags);
      FlagsRun(fmt, i + 1, flags[1..], WithFlag(f, flags[0]));
    }
  }

  lemma FlaggedNone(f: Flags)
    ensures Flagged(f, "") == f
  {
  }

  lemma DigitMod(v: nat, d: nat)
    ensures (v % UINT * 10 + d) % UINT == (10 * v + d) % UINT
  {
    var q := v / UINT;
    assert v % UINT * 10 + d == UINT * (-10 * q) + (10 * v + d);
    var x := 10 * v + d;
    ModUnique(v % UINT * 10 + d, UINT, x / UINT - 10 * q, x % UINT);
  }

  lemma {:induction false} AtoiRun(fmt: string, i: nat, digits: string, k: nat)
    requires Holds(fmt, i, digits) && Digital(digits) && k <= |digits|
    ensures Atoi(fmt, i, 0) == Atoi(fmt, i + k, Decimal(digits[..k]))
    decreases k
  {
    if k == 0 {
      assert Decimal(digits[..0]) == 0;
    } else {
      AtoiRun(fmt, i, digits, k - 1);
      HoldsAt(fmt, i, digits, k - 1);
      var v := PrintfReading.Value(digits[..k - 1], 10);
      assert digits[..k][..k - 1] == digits[..k - 1];
      DigitMod(v, DigitValue(digits[k - 1]));
    }
  }

  lemma AtoiIs(fmt: string, i: nat, digits: string)
    requires Holds(fmt, i, digits) && Digital(digits)
    requires i + |digits| < |fmt| && !Numeric(fmt[i + |digits|])
    ensures Atoi(fmt, i, 0) == (Decimal(digits), i + |digits|)
  {
    AtoiRun(fmt, i, digits, |digits|);
    assert digits[..|digits|] == digits;
  }

  /** Where the fields start. */
  function AfterFlags(d: Conversion, i: nat): nat { i + 1 + |d.flags| }
  function AfterWidth(d: Conversion, i: nat): nat { AfterFlags(d, i) + |FieldText(d.width)| }
  function AfterPrec(d: Conversion, i: nat): nat { AfterWidth(d, i) + |PrecText(d)| }
  function AfterLength(d: Conversion, i: nat): nat { AfterPrec(d, i) + |LengthText(d.length)| }

  lemma Parts(fmt: string, i: nat, d: Conversion)
    requires Holds(fmt, i, Written(d))
    ensures fmt[i] == '%' && Holds(fmt, i + 1, d.flags) && Holds(fmt, AfterFlags(d, i), FieldText(d.width))
    ensures Holds(fmt, AfterWidth(d, i), PrecText(d)) && Holds(fmt, AfterPrec(d, i), LengthText(d.length))
    ensures AfterLength(d, i) == i + |Written(d)| - 1 < |fmt| && fmt[AfterLength(d, i)] == d.c
  {
    hide Holds, FieldText, PrecText, LengthText, CharAt;
    var r4 := [d.c];
    var r3 := LengthText(d.length) + r4;
    var r2 := PrecText(d) + r3;
    var r1 := FieldText(d.width) + r2;
    HoldsAt(fmt, i, Written(d), 0);
    HoldsSplit(fmt, i, "%", d.flags + r1);
    HoldsSplit(fmt, i + 1, d.flags, r1);
    HoldsSplit(fmt, AfterFlags(d, i), FieldText(d.width), r2);
    HoldsSplit(fmt, AfterWidth(d, i), PrecText(d), r3);
    HoldsSplit(fmt, AfterPrec(d, i), LengthText(d.length), r4);
    HoldsAt(fmt, AfterLength(d, i), r4, 0);
  }

  /** The first characters of the fields cannot be taken for more of the field before. */
  lemma HeadOfLength(fmt: string, i: nat, d: Conversion)
    requires Holds(fmt, i, Written(d)) && Proper(d)
    ensures var c := CharAt(fmt, AfterPrec(d, i));
      AfterPrec(d, i) < |fmt| && !FlagChar(c) && !Numeric(c) && c != '.' && c != '*'
  {
    hide Written, Holds, FieldText, PrecText, AfterWidth;
    Parts(fmt, i, d);
    LengthHead(d.length);
    if !d.length.Int? { HoldsAt(fmt, AfterPrec(d, i), LengthText(d.length), 0); }
  }

  lemma LengthHead(l: Length)
    ensures if l.Int? then LengthText(l) == "" else LengthText(l) != "" && LengthChar(LengthText(l)[0])
  {
  }

  lemma HeadOfPrec(fmt: string, i: nat, d: Conversion)
    requires Holds(fmt, i, Written(d)) && Proper(d)
    ensures var c := CharAt(fmt, AfterWidth(d, i));
      AfterWidth(d, i) < |fmt| && !FlagChar(c) && !Numeric(c) && c != '*' && (c == '.' <==> d.dot)
  {
    hide Written, LengthText;
    Parts(fmt, i, d);
    HeadOfLength(fmt, i, d);
    if d.dot { HoldsAt(fmt, AfterWidth(d, i), PrecText(d), 0); }
  }

  lemma HeadOfWidth(fmt: string, i: nat, d: Conversion)
    requires Holds(fmt, i, Written(d)) && Proper(d)
    ensures var c := CharAt(fmt, AfterFlags(d, i));
      && AfterFlags(d, i) < |fmt| && !FlagChar(c)
      && (c == '*' <==> d.width.Star?) && (Numeric(c) <==> d.width.Literal?)
  {
    hide Written, LengthText, PrecText;
    Parts(fmt, i, d);
    HeadOfPrec(fmt, i, d);
    if !d.width.Absent? { HoldsAt(fmt, AfterFlags(d, i), FieldText(d.width), 0); }
  }

  lemma FlaggedLeft(flags: string)
    ensures var f := Flagged(NO_FLAGS, flags); (f.left <==> Has(flags, '-')) && !f.precision
  {
  }

  lemma WidthParses(fmt: string, i: nat, d: Conversion, args: seq<Arg>)
    requires Holds(fmt, i, Written(d)) && Proper(d) && StarsFit(d, args)
    ensures var r := args[if d.width.Star? then 1 else 0..];
      ParseWidth(fmt, Spec(Flagged(NO_FLAGS, d.flags), 0, 0, AfterFlags(d, i), args)) ==
        Some(Spec(Flagged(NO_FLAGS, d.flags).(left := LeftOf(d, args)), WidthOf(d, args), 0, AfterWidth(d, i), r))
  {
    hide Atoi, Written, AsInt, Decimal, Flagged, LengthText, PrecText;
    Parts(fmt, i, d);
    HeadOfWidth(fmt, i, d);
    HeadOfPrec(fmt, i, d);
    FlaggedLeft(d.flags);
    if d.width.Literal? { AtoiIs(fmt, AfterFlags(d, i), d.width.digits); }
  }

  lemma PrecParses(fmt: string, i: nat, d: Conversion, args: seq<Arg>, f: Flags, width: nat, r: seq<Arg>)
    requires Holds(fmt, i, Written(d)) && Proper(d) && StarsFit(d, args) && !f.precision
    requires r == args[if d.width.Star? then 1 else 0..]
    ensures ParsePrecision(fmt, Spec(f, width, 0, AfterWidth(d, i), r)) ==
      Some(Spec(f.(precision := d.dot), width, PrecOf(d, args), AfterPrec(d, i), args[Stars(d)..]))
  {
    hide Atoi, Written, AsInt, Decimal, LengthText, AfterFlags, Holds, FlagChar;
    Parts(fmt, i, d);
    HeadOfPrec(fmt, i, d);
    HeadOfLength(fmt, i, d);
    if d.dot { PrecField(fmt, AfterWidth(d, i), d, r); }
  }

  lemma PrecField(fmt: string, p: nat, d: Conversion, r: seq<Arg>)
    requires Holds(fmt, p, PrecText(d)) && Proper(d) && d.dot && p + |PrecText(d)| < |fmt|
    requires var c := CharAt(fmt, p + |PrecText(d)|); !Numeric(c) && c != '*'
    ensures |PrecText(d)| == 1 + |FieldText(d.prec)| && CharAt(fmt, p) == '.'
    ensures var c := CharAt(fmt, p + 1); (c == '*' <==> d.prec.Star?) && (Numeric(c) <==> d.prec.Literal?)
    ensures d.prec.Literal? ==> Atoi(fmt, p + 1, 0) == (Decimal(d.prec.digits), p + 1 + |d.prec.digits|)
  {
    hide Atoi, Decimal, Holds;
    HoldsSplit(fmt, p, ".", FieldText(d.prec));
    HoldsAt(fmt, p, ".", 0);
    if !d.prec.Absent? { HoldsAt(fmt, p + 1, FieldText(d.prec), 0); }
    if d.prec.Literal? { AtoiIs(fmt, p + 1, d.prec.digits); }
  }

  /** The flags of the length field. */
  function Sized(f: Flags, l: Length): Flags {
    f.(chr := l.Char?, short := l.Short? || l.Char?, long := !l.Int? && !l.Short? && !l.Char?)
  }

  lemma LengthParses(fmt: string, i: nat, d: Conversion, s: Spec)
    requires Holds(fmt, i, Written(d)) && Proper(d) && s.pos == AfterPrec(d, i) && Plain(s) && s.pos <= |fmt|
    requires !s.f.long && !s.f.short && !s.f.chr
    ensures ParseLength(fmt, s) == s.(pos := AfterLength(d, i), f := Sized(s.f, d.length))
  {
    hide Written, FieldText, PrecText;
    Parts(fmt, i, d);
    var p := AfterPrec(d, i);
    hide AfterPrec, Holds;
    LengthAt(fmt, p, d.length, d.c, s);
  }

  lemma LengthAt(fmt: string, p: nat, l: Length, c: char, s: Spec)
    requires Holds(fmt, p, LengthText(l)) && s.pos == p <= |fmt| && Plain(s)
    requires p + |LengthText(l)| < |fmt| && fmt[p + |LengthText(l)|] == c && !LengthChar(c)
    requires !s.f.long && !s.f.short && !s.f.chr
    ensures ParseLength(fmt, s) == s.(pos := p + |LengthText(l)|, f := Sized(s.f, l))
  {
    if !l.Int? { HoldsAt(fmt, p, LengthText(l), 0); }
    if l.Char? || l.LongLong? { HoldsAt(fmt, p, LengthText(l), 1); }
  }

  /** Parsing a written conversion gives its fields. */
  lemma ParsesWritten(fmt: string, i: nat, d: Conversion, args: seq<Arg>)
    requires Holds(fmt, i, Written(d)) && Proper(d) && StarsFit(d, args)
    ensures fmt[i] == '%' && ParseSpec(fmt, i + 1, args) == Some(Meant(d, i, args)) && Plain(Meant(d, i, args))
    ensures Meant(d, i, args).pos < |fmt| && fmt[Meant(d, i, args).pos] == d.c
  {
    hide Atoi, AsInt, Decimal, Written, ParseFlags, ParseWidth, ParsePrecision, ParseLength, Flagged, Sized, FlagsOf,
      Proper, Holds, FieldText, PrecText, LengthText;
    Parts(fmt, i, d);
    HeadOfWidth(fmt, i, d);
    ProperFlags(d);
    FlagsRun(fmt, i + 1, d.flags, NO_FLAGS);
    WidthParses(fmt, i, d, args);
    var f, r := Flagged(NO_FLAGS, d.flags).(left := LeftOf(d, args)), args[if d.width.Star? then 1 else 0..];
    PrecParses(fmt, i, d, args, f, WidthOf(d, args), r);
    var s := Spec(f.(precision := d.dot), WidthOf(d, args), PrecOf(d, args), AfterPrec(d, i), args[Stars(d)..]);
    FlagsTogether(d, LeftOf(d, args));
    LengthParses(fmt, i, d, s);
  }

  lemma ProperFlags(d: Conversion)
    requires Proper(d)
    ensures AllFlags(d.flags) && (!d.dot ==> d.prec.Absent?)
  {
  }

  lemma FlagsTogether(d: Conversion, left: bool)
    ensures var f := Flagged(NO_FLAGS, d.flags).(left := left);
      && !f.precision && !f.long && !f.short && !f.chr
      && Sized(f.(precision := d.dot), d.length) == FlagsOf(d, left) && FlagsOf(d, left).precision == d.dot
  {
  }

  // ---------------------------------------------------------------- what is printed

  /** A piece of output and what the rest of the format prints. */
  ghost predicate Prints(fmt: string, i: nat, args: seq<Arg>, text: string, j: nat, rest: seq<Arg>)
    requires i <= |fmt|
  {
    j <= |fmt| && Format(fmt, i, args) == Then(text, Format(fmt, j, rest))
  }

  /** Text without percent signs is printed as it is. */
  lemma {:induction false} PlainPrints(fmt: string, i: nat, j: nat, args: seq<Arg>)
    requires i <= j <= |fmt| && forall k :: i <= k < j ==> fmt[k] != '%'
    ensures Prints(fmt, i, args, fmt[i..j], j, args)
    decreases j - i
  {
    hide ParseSpec, ConversionText;
    if i == j {
      ThenNothing(Format(fmt, j, args));
      assert fmt[i..j] == "";
    } else {
      PlainPrints(fmt, i + 1, j, args);
      assert fmt[i..j] == [fmt[i]] + fmt[i + 1..j];
      ThenTwice([fmt[i]], fmt[i + 1..j], Format(fmt, j, args));
    }
  }

  lemma ThenNothing(r: Option<string>)
    ensures Then("", r) == r
  {
    if r.Some? { assert "" + r.value == r.value; }
  }

  lemma ThenTwice(a: string, b: string, r: Option<string>)
    ensures Then(a, Then(b, r)) == Then(a + b, r)
  {
    if r.Some? { assert a + (b + r.value) == (a + b) + r.value; }
  }

  /** A conversion prints its text, takes its arguments and leaves the rest of the format to go on. */
  lemma ConversionPrints(fmt: string, i: nat, d: Conversion, args: seq<Arg>)
    requires Holds(fmt, i, Written(d)) && Proper(d) && StarsFit(d, args)
    ensures Meant(d, i, args).pos <= |fmt| && Plain(Meant(d, i, args))
    ensures var t := ConversionText(fmt, Meant(d, i, args));
      t.Some? ==> Prints(fmt, i, args, t.value.0, i + |Written(d)|, args[Stars(d) + t.value.1..])
    ensures Meant(d, i, args).pos < |fmt| && fmt[Meant(d, i, args).pos] == d.c
  {
    hide ParseSpec, ConversionText, Written, Decimal, AsInt;
    ParsesWritten(fmt, i, d, args);
    var s := Meant(d, i, args);
    var t := ConversionText(fmt, s);
    if t.Some? { assert s.args[t.value.1..] == args[Stars(d) + t.value.1..]; }
  }

  predicate Integral(c: char) {
    c == 'd' || c == 'i' || c == 'u' || c == 'x' || c == 'X' || c == 'o' || c == 'b'
  }

  function Radix(c: char): nat {
    if c == 'x' || c == 'X' then 16 else if c == 'o' then 8 else if c == 'b' then 2 else 10
  }

  /** The flags that an integer conversion heeds: no plus or space where there is no sign, and no zeros with
      a precision. */
  function Heeded(f: Flags, c: char): Flags {
    f.(plus := f.plus && Signs(c), space := f.space && Signs(c), zeropad := f.zeropad && !f.precision,
       upper := c == 'X')
  }

  /** An integer conversion, written with any flags, width, precision and length: its argument is the number
      `v` of the type that the length names; that is what can be read from the text, in the base of the
      conversion, exactly where `Faithful` says; and how the text stands in its field. */
  lemma IntegerPrints(fmt: string, i: nat, d: Conversion, args: seq<Arg>) returns (text: string, core: string, v: int)
    requires Holds(fmt, i, Written(d)) && Proper(d) && StarsFit(d, args) && Integral(d.c)
    requires Stars(d) < |args| && args[Stars(d)].Number?
    ensures Prints(fmt, i, args, text, i + |Written(d)|, args[Stars(d) + 1..])
    ensures Represents(v, args[Stars(d)].bits, BitsOf(d.length), Signs(d.c))
    ensures Read(text, Radix(d.c)) == Some(v) <==> Faithful(d.c, args[Stars(d)].bits, Meant(d, i, args))
    ensures Looks(text, core, v < 0, WidthOf(d, args), Heeded(FlagsOf(d, LeftOf(d, args)), d.c))
    ensures WidthOf(d, args) <= |text| <==>
      LeftOf(d, args) || !Has(d.flags, '0') || d.dot || WidthOf(d, args) <= NTOA_BUFFER
  {
    hide IntegerText, Written, Decimal, AsInt, Prints, Represents, Read, Faithful, Looks, Holds, Proper, LeftOf,
      WidthOf, PrecOf, Has, Heeded, IntegerValue;
    ConversionPrints(fmt, i, d, args);
    var s, bits := Meant(d, i, args), args[Stars(d)].bits;
    assert s.args[0] == args[Stars(d)];
    text := IntegerText(d.c, bits, s);
    assert ConversionText(fmt, s) == Some((text, 1));
    v := IntegerValue(d.c, bits, s);
    ValueMeans(d, bits, i, args);
    IntegerReadsBackIff(d.c, bits, s);
    core := IntegerLooks(d.c, bits, s);
  }

  lemma IntegerLooks(c: char, bits: nat, s: Spec) returns (core: string)
    requires Integral(c) && !s.f.upper
    ensures Looks(IntegerText(c, bits, s), core, IntegerValue(c, bits, s) < 0, s.width, Heeded(s.f, c))
    ensures s.width <= |IntegerText(c, bits, s)| <==>
      s.f.left || !s.f.zeropad || s.f.precision || s.width <= NTOA_BUFFER
  {
    hide NumberText, Looks, IntegerText, IntegerValue, IntegerFlags, Heeded;
    var f, v := IntegerFlags(s.f, c), IntegerValue(c, bits, s);
    TextIs(c, bits, s);
    FlagsAgree(s.f, c);
    core := NumberLayout(Magnitude(v), v < 0, Base(c), s.prec, s.width, f);
    WidthIff(Magnitude(v), v < 0, Base(c), s.prec, s.width, f);
    SameLooks(IntegerText(c, bits, s), core, v < 0, s.width, f, Heeded(s.f, c));
  }

  lemma TextIs(c: char, bits: nat, s: Spec)
    ensures var f, v := IntegerFlags(s.f, c), IntegerValue(c, bits, s);
      (Signs(c) ==> Base(c) == 10) &&
      IntegerText(c, bits, s) == NumberText(Magnitude(v), v < 0, Base(c), s.prec, s.width, f)
  {
    hide NumberText, IntegerFlags, SignedValue;
  }

  lemma FlagsAgree(f: Flags, c: char)
    requires Integral(c) && !f.upper
    ensures var g, h := IntegerFlags(f, c), Heeded(f, c);
      && g.plus == h.plus && g.space == h.space && g.upper == h.upper && g.left == h.left == f.left
      && g.zeropad == h.zeropad == (f.zeropad && !f.precision)
      && Base(c) == Radix(c) && Base(c) in {2, 8, 10, 16} && (Base(c) != 2 || !g.upper)
  {
  }

  /** A pointer: sixteen digits of the 64 bits of the argument. */
  lemma PointerPrints(fmt: string, i: nat, d: Conversion, args: seq<Arg>) returns (text: string)
    requires Holds(fmt, i, Written(d)) && Proper(d) && StarsFit(d, args) && d.c == 'p'
    requires Stars(d) < |args| && args[Stars(d)].Number?
    ensures Prints(fmt, i, args, text, i + |Written(d)|, args[Stars(d) + 1..])
    ensures Read(text, 16) == Some(args[Stars(d)].bits % WORD) <==>
      FaithfulPointer(args[Stars(d)].bits, Meant(d, i, args))
  {
    hide PointerText, Written, Decimal, AsInt, Prints, Read, FaithfulPointer, Holds, Proper;
    ConversionPrints(fmt, i, d, args);
    var s := Meant(d, i, args);
    assert s.args[0] == args[Stars(d)];
    text := PointerText(args[Stars(d)].bits, s);
    PointerReadsBackIff(args[Stars(d)].bits, s);
  }

  /** A string, cut to the precision if there is one, in its field. */
  lemma StringPrints(fmt: string, i: nat, d: Conversion, args: seq<Arg>) returns (text: string)
    requires Holds(fmt, i, Written(d)) && Proper(d) && StarsFit(d, args) && d.c == 's'
    requires Stars(d) < |args| && args[Stars(d)].Text?
    ensures Prints(fmt, i, args, text, i + |Written(d)|, args[Stars(d) + 1..])
    ensures var s, p := args[Stars(d)].s, PrecOf(d, args);
      Placed(text, if d.dot && p < |s| then s[..p] else s, WidthOf(d, args), LeftOf(d, args))
  {
    hide StringText, Written, Decimal, AsInt, Prints, Placed, Holds, Proper;
    ConversionPrints(fmt, i, d, args);
    var s := Meant(d, i, args);
    assert s.args[0] == args[Stars(d)];
    text := StringText(s.args[0].s, s.prec, s.width, s.f);
    StringLayout(s.args[0].s, s.prec, s.width, s.f);
  }

  lemma CharPrints(fmt: string, i: nat, d: Conversion, args: seq<Arg>) returns (text: string)
    requires Holds(fmt, i, Written(d)) && Proper(d) && StarsFit(d, args) && d.c == 'c'
    requires Stars(d) < |args| && args[Stars(d)].Chr?
    ensures Prints(fmt, i, args, text, i + |Written(d)|, args[Stars(d) + 1..])
    ensures Placed(text, [args[Stars(d)].c], WidthOf(d, args), LeftOf(d, args))
  {
    hide CharText, Written, Decimal, AsInt, Prints, Placed, Holds, Proper;
    ConversionPrints(fmt, i, d, args);
    var s := Meant(d, i, args);
    assert s.args[0] == args[Stars(d)];
    text := CharText(s.args[0].c, s.width, s.f);
    CharLayout(s.args[0].c, s.width, s.f);
  }

  /** A percent sign, or a character that is no conversion, is printed as it is and takes no argument. */
  lemma OtherPrints(fmt: string, i: nat, d: Conversion, args: seq<Arg>)
    requires Holds(fmt, i, Written(d)) && Proper(d) && StarsFit(d, args)
    requires !Integral(d.c) && d.c !in {'f', 'F', 'e', 'E', 'g', 'G', 'c', 's', 'p'}
    ensures Prints(fmt, i, args, [d.c], i + |Written(d)|, args[Stars(d)..])
  {
    hide Written, Decimal, AsInt, Prints, Holds, Proper;
    ConversionPrints(fmt, i, d, args);
  }
}
