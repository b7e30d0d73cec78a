/** Reading back what an integer conversion prints: spaces, sign and base marker stripped, the rest
    taken as a numeral, most significant digit first. */
module PrintfReading {
  import opened Bits
  import opened Arith64
  import opened Printf
  import opened Options

  // ---------------------------------------------------------------- reading

  predicate IsDigitOf(c: char, base: nat) {
    ('0' <= c <= '9' || 'a' <= c <= 'f' || 'A' <= c <= 'F') && DigitValue(c) < base
  }

  predicate AllDigits(s: string, base: nat) {
    forall i :: 0 <= i < |s| ==> IsDigitOf(s[i], base)
  }

  /** The number that digits, most significant first, stand for; without digits it is 0. */
  function Value(s: string, base: nat): nat {
    if s == "" then 0 else base * Value(s[..|s| - 1], base) + DigitValue(s[|s| - 1])
  }

  function Strip(s: string): string {
    if s != "" && s[0] == ' ' then Strip(s[1..])
    else if s != "" && s[|s| - 1] == ' ' then Strip(s[..|s| - 1])
    else s
  }

  predicate HasMarker(s: string, base: nat) {
    |s| >= 2 && s[0] == '0' && ((base == 16 && (s[1] == 'x' || s[1] == 'X')) || (base == 2 && s[1] == 'b'))
  }

  /** Marker and digits. */
  function ReadBody(u: string, base: nat): Option<nat> {
    var d := if HasMarker(u, base) then u[2..] else u;
    if AllDigits(d, base) then Some(Value(d, base)) else None
  }

  function Negated(v: Option<nat>, negative: bool): Option<int> {
    if v.None? then None else Some(if negative then 0 - v.value else v.value)
  }

  function Read(text: string, base: nat): Option<int> {
    var t := Strip(text);
    if t != "" && (t[0] == '-' || t[0] == '+') then Negated(ReadBody(t[1..], base), t[0] == '-')
    else Negated(ReadBody(t, base), false)
  }

  // ---------------------------------------------------------------- the condition

  /** How many digits the value has. */
  function Significant(value: nat, base: nat): (d: nat)
    requires base >= 2
    ensures d >= 1
  {
    if Quot(value, base) == 0 then 1 else QuotLess(value, base); 1 + Significant(Quot(value, base), base)
  }

  lemma QuotLess(value: nat, base: nat)
    requires base >= 2
    ensures Quot(value, base) != 0 ==> Quot(value, base) < value
  {
    if value / base >= value > 0 { MulMono(2, base, value / base); }
  }

  function Max(a: nat, b: nat): nat {
    if a < b then b else a
  }

  /** Length after the leading zeros, of a number of `d` digits. */
  function ZeroedLength(d: nat, prec: nat, width: nat, f: Flags): nat {
    if f.left then d
    else
      var z := Max(d, Min(prec, NTOA_BUFFER));
      if f.zeropad then Max(z, Min(width, NTOA_BUFFER)) else z
  }

  /** How much of that the base marker leaves. */
  function KeptLength(z: nat, base: nat, prec: nat, width: nat, f: Flags): nat {
    if f.hash && !f.precision && z > 0 && (z == prec || z == width) then
      if base == 16 && z > 1 then z - 2 else z - 1
    else z
  }

  function MarkedLength(k: nat, base: nat, f: Flags): nat {
    if !f.hash then k else Min(NTOA_BUFFER, if base == 16 || base == 2 then k + 2 else k + 1)
  }

  /** There is no marker for 0. */
  function HashFor(value: nat, f: Flags): Flags {
    if value == 0 then f.(hash := false) else f
  }

  function DigitsFor(value: nat, base: nat, f: Flags): nat
    requires base >= 2
  {
    if f.precision && value == 0 then 0 else Min(Significant(value, base), NTOA_BUFFER)
  }

  function Kept(value: nat, negative: bool, base: nat, prec: nat, width: nat, f: Flags): nat
    requires base >= 2
  {
    var f', w := HashFor(value, f), SignWidth(negative, width, HashFor(value, f));
    KeptLength(ZeroedLength(DigitsFor(value, base, f), prec, w, f'), base, prec, w, f')
  }

  /** The number fits the buffer, the marker eats none of its digits and is put there in full or not
      at all, and a minus has room. */
  predicate ReadsBack(value: nat, negative: bool, base: nat, prec: nat, width: nat, f: Flags)
    requires base >= 2
  {
    var f', k := HashFor(value, f), Kept(value, negative, base, prec, width, f);
    && (base != 2 || value < UINT)
    && k >= DigitsFor(value, base, f)
    && !(f'.hash && (base == 2 || base == 16) && k == NTOA_BUFFER - 1)
    && (negative && value > 0 ==> MarkedLength(k, base, f') < NTOA_BUFFER)
  }

  // ---------------------------------------------------------------- strings

  lemma {:induction false} StripAround(p: string, core: string, q: string)
    requires (forall i :: 0 <= i < |p| ==> p[i] == ' ') && (forall i :: 0 <= i < |q| ==> q[i] == ' ')
    requires forall i :: 0 <= i < |core| ==> core[i] != ' '
    ensures Strip(p + core + q) == core
    decreases |p| + |q|
  {
    var s := p + core + q;
    if p != "" {
      assert s[0] == p[0] && s[1..] == p[1..] + core + q;
      StripAround(p[1..], core, q);
    } else if q != "" {
      assert s[|s| - 1] == q[|q| - 1] && s[..|s| - 1] == p + core + q[..|q| - 1];
      if core == "" {
        assert s[0] == q[0] && s[1..] == p + core + q[1..];
        StripAround(p, core, q[1..]);
      } else {
        assert s[0] == core[0];
        StripAround(p, core, q[..|q| - 1]);
      }
    } else {
      assert s == core;
    }
  }

  lemma {:induction false} SpacesOnly(n: int)
    ensures forall i :: 0 <= i < |Spaces(n)| ==> Spaces(n)[i] == ' '
  {
    if n > 0 { SpacesOnly(n - 1); }
  }

  lemma {:induction false} ReversedAppend(a: string, b: string)
    ensures Reversed(a + b) == Reversed(b) + Reversed(a)
  {
    if a == "" {
      assert a + b == b && Reversed(b) + "" == Reversed(b);
    } else {
      assert (a + b)[1..] == a[1..] + b;
      ReversedAppend(a[1..], b);
    }
  }

  lemma {:induction false} ReversedDigits(s: string, base: nat)
    requires AllDigits(s, base)
    ensures AllDigits(Reversed(s), base) && Value(Reversed(s), base) == Numeral(s, base)
  {
    if s != "" {
      ReversedDigits(s[1..], base);
      var r := Reversed(s[1..]);
      assert (r + [s[0]])[..|r|] == r;
    }
  }

  // ---------------------------------------------------------------- digits

  lemma DigitOf(d: nat, upper: bool, base: nat)
    requires d < base <= 16
    ensures IsDigitOf(DigitChar(d, upper), base) && DigitValue(DigitChar(d, upper)) == d
  {
  }

  lemma {:induction false} DigitsShape(value: nat, base: nat, upper: bool, n: nat)
    requires 2 <= base <= 16 && n > 0
    ensures var s := Digits(value, base, upper, n);
      && AllDigits(s, base) && |s| == Min(Significant(value, base), n)
      && (value > 0 && Significant(value, base) <= n ==> DigitValue(s[|s| - 1]) > 0)
    decreases n
  {
    hide DigitChar, DigitValue, IsDigitOf, Quot, Rem;
    DigitOf(Rem(value, base), upper, base);
    if Quot(value, base) != 0 && n > 1 {
      DigitsShape(Quot(value, base), base, upper, n - 1);
    } else if Quot(value, base) == 0 {
      SmallRem(value, base);
    }
  }

  lemma SmallRem(value: nat, base: nat)
    requires base > 0 && Quot(value, base) == 0
    ensures Rem(value, base) == value
  {
  }

  lemma {:induction false} NumeralSplit(s: string, k: nat, base: nat)
    requires k <= |s|
    ensures Numeral(s, base) == Numeral(s[..k], base) + Power(base, k) * Numeral(s[k..], base)
    decreases k
  {
    if k == 0 {
      assert s[..0] == "" && s[0..] == s;
    } else {
      NumeralSplit(s[1..], k - 1, base);
      assert s[..k][1..] == s[1..][..k - 1] && s[k..] == s[1..][k - 1..];
      var a, p, b := Numeral(s[1..][..k - 1], base), Power(base, k - 1), Numeral(s[k..], base);
      Spread(base, a, p, b);
    }
  }

  lemma Spread(b: nat, x: nat, p: nat, y: nat)
    ensures b * (x + p * y) == b * x + (b * p) * y
  {
    MulAssoc(b, p, y);
  }

  lemma {:induction false} TopDigit(s: string, base: nat)
    requires s != "" && DigitValue(s[|s| - 1]) > 0 && base > 0
    ensures Numeral(s, base) > 0
  {
    if |s| > 1 {
      TopDigit(s[1..], base);
      MulMono(1, Numeral(s[1..], base), base);
    } else {
      assert s[1..] == "";
    }
  }

  lemma {:induction false} ZerosAreZero(s: string, base: nat)
    requires forall i :: 0 <= i < |s| ==> s[i] == '0'
    ensures Numeral(s, base) == 0
  {
    if s != "" { ZerosAreZero(s[1..], base); }
  }

  lemma {:induction false} ZerosToShape(s: string, n: nat)
    ensures var r := ZerosTo(s, n);
      |s| <= |r| && r[..|s|] == s && (forall i :: |s| <= i < |r| ==> r[i] == '0') && |r| == Max(|s|, n)
    decreases n - |s|
  {
    if |s| < n {
      ZerosToShape(s + "0", n);
      var r := ZerosTo(s, n);
      assert r[..|s|] == r[..|s| + 1][..|s|];
      assert r[|s|] == r[..|s| + 1][|s|];
    }
  }

  /** The digits with zeros in front of them. */
  ghost predicate Extends(r: string, s: string) {
    |s| <= |r| && r[..|s|] == s && forall i :: |s| <= i < |r| ==> r[i] == '0'
  }

  lemma ZeroedShape(s: string, prec: nat, width: nat, f: Flags)
    requires |s| <= NTOA_BUFFER
    ensures Extends(Zeroed(s, prec, width, f), s) && |Zeroed(s, prec, width, f)| == ZeroedLength(|s|, prec, width, f)
  {
    hide ZerosTo;
    if !f.left {
      var s1 := ZerosTo(s, Min(prec, NTOA_BUFFER));
      ZerosToShape(s, Min(prec, NTOA_BUFFER));
      if f.zeropad {
        var r := ZerosTo(s1, Min(width, NTOA_BUFFER));
        ZerosToShape(s1, Min(width, NTOA_BUFFER));
        assert r[..|s|] == r[..|s1|][..|s|];
        forall i | |s| <= i < |s1| ensures r[i] == '0' { assert r[i] == r[..|s1|][i]; }
      }
    }
  }

  lemma ExtendsDigits(r: string, s: string, base: nat)
    requires Extends(r, s) && AllDigits(s, base) && base > 0
    ensures AllDigits(r, base) && Numeral(r, base) == Numeral(s, base)
  {
    forall i | 0 <= i < |r| ensures IsDigitOf(r[i], base) {
      if i < |s| { assert r[i] == r[..|s|][i]; }
    }
    NumeralSplit(r, |s|, base);
    ZerosAreZero(r[|s|..], base);
    MulZero(Power(base, |s|));
  }

  lemma MulZero(x: nat)
    ensures x * 0 == 0
  {
  }

  lemma {:induction false} PrefixBelow(s: string, k: nat, base: nat)
    requires k <= |s| && base > 0
    ensures Numeral(s[..k], base) <= Numeral(s, base)
    ensures k < |s| && DigitValue(s[|s| - 1]) > 0 ==> Numeral(s[..k], base) < Numeral(s, base)
  {
    NumeralSplit(s, k, base);
    PowerPositive(base, k);
    Product(Power(base, k), Numeral(s[k..], base));
    if k < |s| && DigitValue(s[|s| - 1]) > 0 {
      assert s[k..][|s| - k - 1] == s[|s| - 1];
      TopDigit(s[k..], base);
    }
  }

  lemma Product(x: nat, y: nat)
    requires x > 0
    ensures x * y >= 0 && (y > 0 ==> x * y > 0)
  {
  }

  /** The digits that are left after the marker stand for the value exactly when none of it is cut. */
  lemma KeptNumeral(value: nat, base: nat, upper: bool, r: string, k: nat)
    requires value < WORD && base in {2, 8, 10, 16} && k <= |r|
    requires Extends(r, Digits(value, base, upper, NTOA_BUFFER))
    ensures AllDigits(r[..k], base)
    ensures Numeral(r[..k], base) == value <==>
      (base != 2 || value < UINT) && (value == 0 || k >= Min(Significant(value, base), NTOA_BUFFER))
  {
    hide Digits, Significant, Numeral, DigitValue, IsDigitOf, Power;
    var s := Digits(value, base, upper, NTOA_BUFFER);
    DigitsShape(value, base, upper, NTOA_BUFFER);
    PrintsInFullIff(value, base, upper);
    ExtendsDigits(r, s, base);
    if k >= |s| {
      assert Extends(r[..k], s) by { assert r[..k][..|s|] == r[..|s|]; }
      ExtendsDigits(r[..k], s, base);
    } else {
      assert r[..k] == s[..k] by { assert r[..|s|][..k] == r[..k]; }
      PrefixBelow(s, k, base);
      if base != 2 || value < UINT {
        if value > 0 {
          FewDigits(value, base);
          assert DigitValue(s[|s| - 1]) > 0;
        }
      } else {
        DigitsMean(value, base, upper, NTOA_BUFFER);
        PowerBound(base);
        assert Numeral(s, base) < UINT;
      }
    }
  }

  lemma {:induction false} SignificantBound(value: nat, base: nat, n: nat)
    requires base >= 2 && n > 0 && value < Power(base, n)
    ensures Significant(value, base) <= n
    decreases n
  {
    hide Power;
    PowerNext(base, n);
    if Quot(value, base) != 0 {
      QuotBelow(value, base, Power(base, n - 1));
      if n > 1 { SignificantBound(Quot(value, base), base, n - 1); }
    }
  }

  lemma QuotBelow(value: nat, base: nat, p: nat)
    requires base >= 2 && value < base * p
    ensures Quot(value, base) < p
  {
    if value / base >= p { MulMono(p, value / base, base); }
  }

  lemma FewDigits(value: nat, base: nat)
    requires value < WORD && base in {2, 8, 10, 16} && (base != 2 || value < UINT)
    ensures Significant(value, base) <= NTOA_BUFFER
  {
    hide Power, Significant;
    PowerBound(base);
    SignificantBound(value, base, NTOA_BUFFER);
  }

  // ---------------------------------------------------------------- the whole text

  /** The base marker as it ends up behind `k` reversed digits. */
  function MarkFor(k: nat, base: nat, f: Flags): string {
    if !f.hash || k >= NTOA_BUFFER then ""
    else if base == 16 || base == 2 then
      [if base == 2 then 'b' else if f.upper then 'X' else 'x'] + (if k + 1 < NTOA_BUFFER then "0" else "")
    else "0"
  }

  function SignFor(len: nat, negative: bool, f: Flags): string {
    if len >= NTOA_BUFFER then ""
    else if negative then "-" else if f.plus then "+" else if f.space then " " else ""
  }

  lemma MarkedShape(z: string, base: nat, prec: nat, width: nat, f: Flags)
    requires |z| <= NTOA_BUFFER
    ensures var k := KeptLength(|z|, base, prec, width, f);
      && k <= |z| && Marked(z, base, prec, width, f) == z[..k] + MarkFor(k, base, f)
      && |z[..k] + MarkFor(k, base, f)| == MarkedLength(k, base, f)
  {
    var k := KeptLength(|z|, base, prec, width, f);
    assert z[..|z|] == z;
    if f.hash {
      var u := Unpad(z, base, prec, width, f);
      assert u == z[..k];
      if k + 1 < NTOA_BUFFER && (base == 16 || base == 2) {
        var m := if base == 2 then 'b' else if f.upper then 'X' else 'x';
        assert (u + [m]) + ['0'] == u + ([m] + "0");
      }
    }
  }

  lemma DressShape(s: string, negative: bool, base: nat, prec: nat, width: nat, f: Flags) returns (z: string)
    requires |s| <= NTOA_BUFFER
    ensures var w := SignWidth(negative, width, f);
      var k := KeptLength(ZeroedLength(|s|, prec, w, f), base, prec, w, f);
      && Extends(z, s) && k <= |z| <= NTOA_BUFFER
      && Dress(s, negative, base, prec, width, f) ==
           z[..k] + MarkFor(k, base, f) + SignFor(MarkedLength(k, base, f), negative, f)
  {
    hide Zeroed, Marked, ZeroedLength, KeptLength, MarkedLength, MarkFor, Extends;
    var w := SignWidth(negative, width, f);
    z := Zeroed(s, prec, w, f);
    ZeroedShape(s, prec, w, f);
    MarkedShape(z, base, prec, w, f);
  }

  /** A numeral in its dress, as printed. */
  function Printed(b: string, mark: string, sign: string): string {
    sign + (Reversed(mark) + Reversed(b))
  }

  lemma PrintedIs(b: string, mark: string, sign: string)
    requires |sign| <= 1
    ensures Reversed(b + mark + sign) == Printed(b, mark, sign)
  {
    ReversedAppend(b + mark, sign);
    ReversedAppend(b, mark);
    if sign != "" { assert sign[1..] == ""; }
  }

  lemma PaddedStrips(b: string, mark: string, sign: string, width: nat, f: Flags)
    requires |sign| <= 1
    requires forall i :: 0 <= i < |Reversed(mark) + Reversed(b)| ==> (Reversed(mark) + Reversed(b))[i] != ' '
    ensures Strip(Padded(b + mark + sign, width, f)) == Printed(b, mark, if sign == " " then "" else sign)
  {
    hide Strip, Reversed, Spaces;
    var r, core := b + mark + sign, Reversed(mark) + Reversed(b);
    PrintedIs(b, mark, sign);
    var p := if !f.left && !f.zeropad then Spaces(width - |r|) else "";
    var q := if f.left then Spaces(width - |r|) else "";
    SpacesOnly(width - |r|);
    if sign == " " {
      assert Padded(r, width, f) == (p + " ") + core + q;
      StripAround(p + " ", core, q);
      assert "" + core == core;
    } else {
      assert Padded(r, width, f) == p + (sign + core) + q;
      StripAround(p, sign + core, q);
    }
  }

  lemma ReversedMark(k: nat, base: nat, f: Flags)
    ensures var m, r := MarkFor(k, base, f), Reversed(MarkFor(k, base, f));
      && (|m| == 0 ==> r == "") && (|m| == 1 ==> r == m) && (|m| == 2 ==> r == "0" + [m[0]])
  {
    var m := MarkFor(k, base, f);
    if |m| == 1 { assert m[1..] == ""; }
    if |m| == 2 { assert m[1..] == "0" && m[1..][1..] == ""; }
  }

  ghost predicate HalfMarked(k: nat, base: nat, f: Flags) {
    f.hash && (base == 2 || base == 16) && k == NTOA_BUFFER - 1
  }

  /** Reading a numeral in its dress: half a marker is no numeral. */
  lemma ReadDressed(b: string, k: nat, base: nat, f: Flags)
    requires base in {2, 8, 10, 16} && AllDigits(b, base) && |b| == k <= NTOA_BUFFER
    ensures var u := Reversed(MarkFor(k, base, f)) + Reversed(b);
      && (forall i :: 0 <= i < |u| ==> u[i] != ' ') && (u != "" ==> u[0] != '-' && u[0] != '+')
      && ReadBody(u, base) == if HalfMarked(k, base, f) then None else Some(Numeral(b, base))
  {
    hide Reversed, Numeral, Value;
    var mark, d := MarkFor(k, base, f), Reversed(b);
    var u := Reversed(mark) + d;
    ReversedMark(k, base, f);
    ReversedDigits(b, base);
    NoMarker(d, base);
    if mark == "" {
      assert u == d;
    } else if |mark| == 2 {
      assert u[2..] == d && u[0] == '0' && u[1] == mark[0];
    } else if mark == "0" {
      assert u == "0" + d;
      LeadingZero(d, base);
      NoMarker(u, base);
    } else {
      assert u[0] == mark[0];
    }
  }

  lemma NoMarker(d: string, base: nat)
    requires AllDigits(d, base)
    ensures !HasMarker(d, base) && (d != "" ==> d[0] != '-' && d[0] != '+')
    ensures forall i :: 0 <= i < |d| ==> d[i] != ' '
  {
    if |d| >= 2 { assert IsDigitOf(d[1], base); }
    if d != "" { assert IsDigitOf(d[0], base); }
  }

  lemma {:induction false} LeadingZero(d: string, base: nat)
    requires AllDigits(d, base) && base > 0
    ensures AllDigits("0" + d, base) && Value("0" + d, base) == Value(d, base)
  {
    var z := "0" + d;
    if d == "" {
      assert z[..0] == "";
    } else {
      LeadingZero(d[..|d| - 1], base);
      assert z[..|z| - 1] == "0" + d[..|d| - 1];
    }
  }

  lemma ReadSigned(text: string, sign: string, u: string, base: nat)
    requires sign in {"", "+", "-"} && Strip(text) == sign + u && (u != "" ==> u[0] != '-' && u[0] != '+')
    ensures Read(text, base) == Negated(ReadBody(u, base), sign == "-")
  {
    hide Strip, ReadBody;
    var t := sign + u;
    if sign == "" { assert t == u; } else { assert t[1..] == u; }
  }

  /** What a conversion prints, read back. */
  lemma ReadText(s: string, negative: bool, base: nat, prec: nat, width: nat, f: Flags, pad: nat) returns (z: string)
    requires base in {2, 8, 10, 16} && |s| <= NTOA_BUFFER && AllDigits(s, base)
    ensures var w := SignWidth(negative, width, f);
      var k := KeptLength(ZeroedLength(|s|, prec, w, f), base, prec, w, f);
      && Extends(z, s) && k <= |z| && AllDigits(z[..k], base)
      && Read(Padded(Dress(s, negative, base, prec, width, f), pad, f), base) ==
           Negated(if HalfMarked(k, base, f) then None else Some(Numeral(z[..k], base)),
                   negative && MarkedLength(k, base, f) < NTOA_BUFFER)
  {
    hide Extends, KeptLength, ZeroedLength, MarkedLength, MarkFor, HalfMarked, Dress, Padded, Read, ReadBody, Reversed;
    var w := SignWidth(negative, width, f);
    var k := KeptLength(ZeroedLength(|s|, prec, w, f), base, prec, w, f);
    z := DressShape(s, negative, base, prec, width, f);
    ExtendsDigits(z, s, base);
    var mark, sign := MarkFor(k, base, f), SignFor(MarkedLength(k, base, f), negative, f);
    ReadDressed(z[..k], k, base, f);
    PaddedStrips(z[..k], mark, sign, pad, f);
    var shown := if sign == " " then "" else sign;
    ReadSigned(Padded(z[..k] + mark + sign, pad, f), shown, Reversed(mark) + Reversed(z[..k]), base);
  }

  /** What a number conversion prints is read back as the number exactly when `ReadsBack` says so. */
  lemma ReadsBackIff(value: nat, negative: bool, base: nat, prec: nat, width: nat, f: Flags)
    requires value < WORD && base in {2, 8, 10, 16}
    ensures Read(NumberText(value, negative, base, prec, width, f), base) == Some(if negative then 0 - value else value)
            <==> ReadsBack(value, negative, base, prec, width, f)
  {
    hide Digits, Significant, Read, Padded, Dress, Extends, KeptLength, ZeroedLength, Numeral, AllDigits;
    var f' := HashFor(value, f);
    var s := if !f.precision || value != 0 then Digits(value, base, f.upper, NTOA_BUFFER) else "";
    DigitsShape(value, base, f.upper, NTOA_BUFFER);
    NoDigits(base);
    var z := ReadText(s, negative, base, prec, width, f', SignWidth(negative, width, f'));
    var k := Kept(value, negative, base, prec, width, f);
    if s == "" {
      AllZeros(z, k, base);
    } else {
      KeptNumeral(value, base, f.upper, z, k);
      if value == 0 { ZeroKept(negative, base, prec, width, f); }
    }
  }

  lemma ZeroKept(negative: bool, base: nat, prec: nat, width: nat, f: Flags)
    requires base >= 2
    ensures Kept(0, negative, base, prec, width, f) >= DigitsFor(0, base, f)
  {
  }

  lemma NoDigits(base: nat)
    ensures AllDigits("", base)
  {
  }

  lemma AllZeros(z: string, k: nat, base: nat)
    requires Extends(z, "") && k <= |z|
    ensures Numeral(z[..k], base) == 0
  {
    ZerosAreZero(z[..k], base);
  }

  // ---------------------------------------------------------------- conversions

  /** The number that an integer conversion is given. */
  function IntegerValue(c: char, bits: nat, s: Spec): int {
    var f := IntegerFlags(s.f, c);
    if c == 'd' || c == 'i' then SignedValue(bits, f) else UnsignedValue(bits, f)
  }

  /** The marker of an octal number overwrites a digit, that of a hexadecimal one two. */
  predicate Eaten(d: nat, base: nat, width: nat, f: Flags) {
    !f.precision && (d == width || (base == 16 && f.zeropad && !f.left && d + 1 == width))
  }

  /** There is room for the letter of the marker, but not for its zero. */
  predicate Halved(d: nat, width: nat, prec: nat, f: Flags) {
    if f.precision then (if f.left then d == 31 else Max(d, prec) == 31)
    else if f.zeropad && !f.left then width == 32 || (d == 31 && width < 31)
    else d == 31
  }

  /** The inputs for which an integer conversion prints its number. */
  predicate Faithful(c: char, bits: nat, s: Spec) {
    var f, v := IntegerFlags(s.f, c), IntegerValue(c, bits, s);
    var d := Significant(Magnitude(v), Base(c));
    match Base(c)
    case 10 => v >= 0 || f.left || (s.prec < 32 && (f.zeropad ==> s.width <= 32))
    case 8 => !(f.hash && v > 0 && Eaten(d, 8, s.width, f))
    case 16 => !(f.hash && v > 0 && (Eaten(d, 16, s.width, f) || (f.precision && !f.left && s.prec == 31)))
    case _ => v < UINT && !(f.hash && v > 0 && (Eaten(d, 2, s.width, f) || Halved(d, s.width, s.prec, f)))
  }

  lemma SignificantWord(value: nat, base: nat)
    requires value < WORD && base in {8, 10, 16}
    ensures Significant(value, base) <= if base == 16 then 16 else 24
  {
    hide Significant, Power;
    PowerFour(base);
    PowerAdd(base, 4, 4);
    PowerAdd(base, 8, 8);
    PowerAdd(base, 16, 8);
    SignificantBound(value, base, if base == 16 then 16 else 24);
  }

  lemma SignificantHalf(value: nat)
    requires value < UINT
    ensures Significant(value, 2) <= 32
  {
    FewDigits(value, 2);
  }

  lemma ValueFits(c: char, bits: nat, s: Spec)
    ensures Magnitude(IntegerValue(c, bits, s)) < WORD && (c != 'd' && c != 'i' ==> IntegerValue(c, bits, s) >= 0)
  {
  }

  /** Exactly those: what is printed reads back as the value of the argument. */
  lemma IntegerReadsBackIff(c: char, bits: nat, s: Spec)
    requires IsInteger(c) && Plain(s)
    ensures Read(IntegerText(c, bits, s), Base(c)) == Some(IntegerValue(c, bits, s)) <==> Faithful(c, bits, s)
  {
    hide NumberText, Read, Significant, SignedValue, UnsignedValue;
    var f, v := IntegerFlags(s.f, c), IntegerValue(c, bits, s);
    ValueFits(c, bits, s);
    ReadsBackIff(Magnitude(v), v < 0, Base(c), s.prec, s.width, f);
    hide ReadsBack;
    if Base(c) == 2 {
      BinaryCase(v, s.prec, s.width, f);
    } else if Base(c) == 10 {
      DecimalCase(Magnitude(v), v < 0, s.prec, s.width, f);
    } else {
      MarkedCase(v, Base(c), s.prec, s.width, f);
    }
  }

  lemma DecimalCase(value: nat, negative: bool, prec: nat, width: nat, f: Flags)
    requires value < WORD && !f.hash && (negative ==> value > 0) && (!f.precision ==> prec == 0)
    ensures ReadsBack(value, negative, 10, prec, width, f) <==>
      !negative || f.left || (prec < 32 && (f.zeropad ==> width <= 32))
  {
    hide Significant;
    SignificantWord(value, 10);
  }

  lemma MarkedCase(value: nat, base: nat, prec: nat, width: nat, f: Flags)
    requires value < WORD && (base == 8 || base == 16) && !f.plus && !f.space && (!f.precision ==> prec == 0)
    requires f.precision ==> !f.zeropad
    ensures var d := Significant(value, base);
      ReadsBack(value, false, base, prec, width, f) <==>
        !(f.hash && value > 0 && (Eaten(d, base, width, f) || (base == 16 && f.precision && !f.left && prec == 31)))
  {
    hide Significant;
    SignificantWord(value, base);
  }

  lemma BinaryCase(value: nat, prec: nat, width: nat, f: Flags)
    requires !f.plus && !f.space && (!f.precision ==> prec == 0) && (f.precision ==> !f.zeropad)
    ensures var d := Significant(value, 2);
      ReadsBack(value, false, 2, prec, width, f) <==>
        value < UINT && !(f.hash && value > 0 && (Eaten(d, 2, width, f) || Halved(d, width, prec, f)))
  {
    hide Significant;
    if value < UINT { SignificantHalf(value); }
  }

  /** The inputs for which a pointer is printed. */
  predicate FaithfulPointer(bits: nat, s: Spec) {
    var v, w := bits % WORD, if !s.f.left && (s.f.plus || s.f.space) then 15 else 16;
    s.f.hash && v > 0 ==>
      if s.f.precision then s.f.left || s.prec != 31
      else
        var d := Significant(v, 16);
        d != w && (s.f.left || d + 1 != w)
  }

  lemma PointerReadsBackIff(bits: nat, s: Spec)
    requires Plain(s)
    ensures Read(PointerText(bits, s), 16) == Some(bits % WORD) <==> FaithfulPointer(bits, s)
  {
    hide NumberText, Read, Significant;
    var f := s.f.(zeropad := true, upper := true);
    ReadsBackIff(bits % WORD, false, 16, s.prec, 16, f);
    SignificantWord(bits % WORD, 16);
  }

  // ---------------------------------------------------------------- inputs that are printed wrongly

  lemma FourDigits()
    ensures Digits(0x1234, 16, false, NTOA_BUFFER) == "4321"
  {
    assert Quot(0x1234, 16) == 0x123 && Quot(0x123, 16) == 0x12 && Quot(0x12, 16) == 1 && Quot(1, 16) == 0;
    assert Digits(1, 16, false, 29) == "1";
    assert Digits(0x12, 16, false, 30) == "21";
    assert Digits(0x123, 16, false, 31) == "321";
  }

  lemma FourInFour()
    ensures NumberText(0x1234, false, 16, 0, 4, NO_FLAGS.(hash := true)) == "0x34"
  {
    var f := NO_FLAGS.(hash := true);
    FourDigits();
    var s := "4321";
    assert Zeroed(s, 0, 4, f) == s;
    assert Unpad(s, 16, 0, 4, f) == "43" by { assert s[..3] == "432" && "432"[..2] == "43"; }
    assert Dress(s, false, 16, 0, 4, f) == "43x0";
    ReversedFour('4', '3', 'x', '0');
  }

  lemma ReversedFour(a: char, b: char, c: char, d: char)
    ensures Reversed([a, b, c, d]) == [d, c, b, a]
  {
    assert [a, b, c, d][1..] == [b, c, d] && [b, c, d][1..] == [c, d] && [c, d][1..] == [d];
    assert Reversed([d]) == [d];
    assert Reversed([c, d]) == [d, c];
    assert Reversed([b, c, d]) == [d, c, b];
  }

  lemma ParsedHash(args: seq<Arg>)
    ensures ParseSpec("%#4x", 1, args) == Some(Spec(NO_FLAGS.(hash := true), 4, 0, 3, args))
  {
    var fmt, f := "%#4x", NO_FLAGS.(hash := true);
    assert ParseFlags(fmt, 2, f) == (f, 2);
    assert ParseFlags(fmt, 1, NO_FLAGS) == (f, 2);
    assert Atoi(fmt, 3, 4) == (4, 3);
    assert Atoi(fmt, 2, 0) == (4, 3);
  }

  /** Two of the four digits give way to the marker. */
  lemma HashEatsDigits()
    ensures Format("%#4x", 0, [Number(0x1234)]) == Some("0x34")
  {
    hide ParseSpec, NumberText;
    var fmt, args := "%#4x", [Number(0x1234)];
    ParsedHash(args);
    FourInFour();
    var s := Spec(NO_FLAGS.(hash := true), 4, 0, 3, args);
    assert IntegerText('x', 0x1234, s) == "0x34";
    assert ConversionText(fmt, s) == Some(("0x34", 1));
    assert Format(fmt, 4, s.args[1..]) == Some("");
    assert "0x34" + "" == "0x34";
  }

  /** Where the zeros leave no room for the minus, the number is printed as a positive one. */
  lemma MinusDropped(value: nat, prec: nat, width: nat, f: Flags)
    requires 0 < value < WORD && !f.hash && !f.left && (prec >= 32 || (f.zeropad && width > 32))
    ensures Read(NumberText(value, true, 10, prec, width, f), 10) == Some(value)
  {
    hide Digits, Significant, Read, Padded, Dress, Extends, Numeral, AllDigits;
    DigitsShape(value, 10, f.upper, NTOA_BUFFER);
    var z := ReadText(Digits(value, 10, f.upper, NTOA_BUFFER), true, 10, prec, width, f, SignWidth(true, width, f));
    SignificantWord(value, 10);
    KeptNumeral(value, 10, f.upper, z, NTOA_BUFFER);
  }

  lemma ParsedPrecision(args: seq<Arg>)
    ensures ParseSpec("%.32d", 1, args) == Some(Spec(NO_FLAGS.(precision := true), 0, 32, 4, args))
  {
    var fmt := "%.32d";
    assert ParseFlags(fmt, 1, NO_FLAGS) == (NO_FLAGS, 1);
    assert Atoi(fmt, 4, 32) == (32, 4);
    assert Atoi(fmt, 3, 3) == (32, 4);
    assert Atoi(fmt, 2, 0) == (32, 4);
  }

  /** The `int` -5 is read back as 5. */
  lemma MinusFiveIsFive()
    ensures var text := Format("%.32d", 0, [Number(UINT - 5)]);
      text.Some? && Read(text.value, 10) == Some(5)
  {
    hide ParseSpec, NumberText, Read;
    var fmt, args := "%.32d", [Number(UINT - 5)];
    ParsedPrecision(args);
    var s := Spec(NO_FLAGS.(precision := true), 0, 32, 4, args);
    MinusDropped(5, 32, 0, NO_FLAGS.(precision := true));
    assert SignedValue(UINT - 5, IntegerFlags(s.f, 'd')) == -5;
    var t := IntegerText('d', UINT - 5, s);
    assert ConversionText(fmt, s) == Some((t, 1));
    assert Format(fmt, 5, s.args[1..]) == Some("");
    assert t + "" == t;
  }
}
