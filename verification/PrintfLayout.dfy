/** Where the text of a conversion stands in its field: padding, sign and letter case. */
module PrintfLayout {
  import opened Printf
  import opened PrintfReading

  /** `core` stands at the left or right end of `text`, which is as wide as asked for, or as `core` if that
      is wider; everything else is spaces. */
  predicate Placed(text: string, core: string, width: nat, left: bool) {
    var at := if left then 0 else |text| - |core|;
    && |text| == Max(|core|, width) && text[at..at + |core|] == core
    && forall i :: 0 <= i < |text| && (i < at || at + |core| <= i) ==> text[i] == ' '
  }

  lemma PlacedIs(core: string, width: nat, left: bool)
    ensures Placed((if left then "" else Spaces(width - |core|)) + core + (if left then Spaces(width - |core|) else ""),
                   core, width, left)
  {
    hide Spaces;
    SpacesOnly(width - |core|);
    var p, q := if left then "" else Spaces(width - |core|), if left then Spaces(width - |core|) else "";
    assert (p + core + q)[|p|..|p| + |core|] == core;
  }

  /** `%s`: the string, or as much of it as the precision allows. */
  lemma StringLayout(s: string, prec: nat, width: nat, f: Flags)
    ensures Placed(StringText(s, prec, width, f), if f.precision && prec < |s| then s[..prec] else s, width, f.left)
  {
    hide Spaces, Placed;
    var t := if f.precision then s[..Min(|s|, prec)] else s;
    assert s[..|s|] == s;
    PlacedIs(t, width, f.left);
  }

  lemma CharLayout(c: char, width: nat, f: Flags)
    ensures Placed(CharText(c, width, f), [c], width, f.left)
  {
    hide Spaces, Placed;
    PlacedIs([c], width, f.left);
  }

  // ---------------------------------------------------------------- numbers

  lemma {:induction false} ReversedAt(s: string, k: nat)
    requires k < |s|
    ensures Reversed(s)[k] == s[|s| - 1 - k]
  {
    if k < |s| - 1 { ReversedAt(s[1..], k); }
  }

  predicate IsSign(c: char) {
    c == '-' || c == '+' || c == ' '
  }

  /** A minus, or what the flags ask for in its place. */
  predicate SignShown(core: string, negative: bool, f: Flags) {
    if negative then core != "" && core[0] == '-'
    else if f.plus then core != "" && core[0] == '+'
    else if f.space then core != "" && core[0] == ' '
    else core != "" ==> !IsSign(core[0])
  }

  /** Letters of one case only. */
  predicate Cased(s: string, upper: bool) {
    forall i :: 0 <= i < |s| ==> if upper then !('a' <= s[i] <= 'z') else !('A' <= s[i] <= 'Z')
  }

  lemma DigitCase(d: nat, upper: bool)
    requires d < 16
    ensures Cased([DigitChar(d, upper)], upper)
  {
  }

  lemma {:induction false} DigitsCase(value: nat, base: nat, upper: bool, n: nat)
    requires 2 <= base <= 16 && n > 0
    ensures Cased(Digits(value, base, upper, n), upper)
    decreases n
  {
    hide DigitChar, Quot, Rem;
    DigitCase(Rem(value, base), upper);
    assert [DigitChar(Rem(value, base), upper)][0] == DigitChar(Rem(value, base), upper);
    if Quot(value, base) != 0 && n > 1 { DigitsCase(Quot(value, base), base, upper, n - 1); }
  }

  /** The reversed number: digits with zeros, the marker and the sign. */
  lemma DressCase(z: string, s: string, k: nat, base: nat, f: Flags, sign: string, upper: bool)
    requires Extends(z, s) && k <= |z| && Cased(s, upper) && (base != 2 || !upper) && f.upper == upper
    requires sign in {"", "-", "+", " "}
    ensures Cased(z[..k] + MarkFor(k, base, f) + sign, upper)
  {
    var r := z[..k] + MarkFor(k, base, f) + sign;
    forall i | 0 <= i < |r| ensures if upper then !('a' <= r[i] <= 'z') else !('A' <= r[i] <= 'Z') {
      if i < k {
        assert r[i] == z[i];
        if i < |s| { assert z[i] == z[..|s|][i] == s[i]; }
      }
    }
  }

  lemma ReversedCase(r: string, upper: bool)
    requires Cased(r, upper)
    ensures Cased(Reversed(r), upper)
  {
    forall i | 0 <= i < |r| ensures Reversed(r)[i] == r[|r| - 1 - i] { ReversedAt(r, i); }
  }

  /** How long the dressed number is: never shorter than the zeros ask for. */
  lemma DressLength(d: nat, negative: bool, base: nat, prec: nat, width: nat, f: Flags)
    requires d <= NTOA_BUFFER
    ensures var w := SignWidth(negative, width, f);
      var k := KeptLength(ZeroedLength(d, prec, w, f), base, prec, w, f);
      var m := MarkedLength(k, base, f);
      && k <= NTOA_BUFFER && k + |MarkFor(k, base, f)| == m <= NTOA_BUFFER
      && (f.zeropad && !f.left ==> Min(width, NTOA_BUFFER) <= m + |SignFor(m, negative, f)|)
  {
  }

  /** The sign is the last character put into the buffer, unless that is full; a space stands nowhere
      else. */
  lemma DressSign(b: string, mark: string, sign: string, negative: bool, base: nat, f: Flags, k: nat)
    requires AllDigits(b, base) && |b| == k <= NTOA_BUFFER && mark == MarkFor(k, base, f)
    requires k + |mark| <= NTOA_BUFFER && sign == SignFor(k + |mark|, negative, f)
    ensures var core := Reversed(b + mark + sign);
      && (|core| < NTOA_BUFFER ==> SignShown(core, negative, f)) && |core| <= NTOA_BUFFER
      && forall i :: 1 <= i < |core| ==> core[i] != ' '
  {
    var r := b + mark + sign;
    var core := Reversed(r);
    forall i | 0 <= i < |r|
      ensures core[i] == r[|r| - 1 - i] && (|r| - 1 - i < k + |mark| ==> !IsSign(core[i]))
    {
      ReversedAt(r, i);
      var j := |r| - 1 - i;
      if j < k { assert r[j] == b[j] && IsDigitOf(b[j], base); }
      else if j < k + |mark| { assert r[j] == mark[j - k]; }
    }
    if sign != "" { assert r[|r| - 1] == sign[0]; }
  }

  /** The number before it is padded with spaces: one case, the sign in front unless the buffer is full, no
      other space, and with zeros as long as asked for, as far as the buffer reaches. */
  ghost predicate CoreLooks(core: string, negative: bool, width: nat, f: Flags) {
    && |core| <= NTOA_BUFFER && Cased(core, f.upper) && (forall i :: 1 <= i < |core| ==> core[i] != ' ')
    && (|core| < NTOA_BUFFER ==> SignShown(core, negative, f))
    && (f.zeropad && !f.left ==> Min(width, NTOA_BUFFER) <= |core|)
  }

  /** The number in its field. */
  ghost predicate Looks(text: string, core: string, negative: bool, width: nat, f: Flags) {
    && CoreLooks(core, negative, width, f)
    && (if f.left || !f.zeropad then Placed(text, core, width, f.left) else text == core)
  }

  /** Flags that make no difference for the layout. */
  lemma SameLooks(text: string, core: string, negative: bool, width: nat, f: Flags, f': Flags)
    requires f.plus == f'.plus && f.space == f'.space && f.upper == f'.upper
    requires f.left == f'.left && f.zeropad == f'.zeropad
    ensures Looks(text, core, negative, width, f) == Looks(text, core, negative, width, f')
  {
    hide Placed, Cased;
  }

  lemma CoreLayout(s: string, negative: bool, base: nat, prec: nat, width: nat, f: Flags)
    requires base in {2, 8, 10, 16} && |s| <= NTOA_BUFFER && AllDigits(s, base)
    requires Cased(s, f.upper) && (base != 2 || !f.upper)
    ensures CoreLooks(Reversed(Dress(s, negative, base, prec, width, f)), negative, width, f)
  {
    hide Dress, Extends, KeptLength, ZeroedLength, MarkedLength, MarkFor, SignFor, AllDigits, Cased, Reversed,
      SignShown, SignWidth, Min;
    var w := SignWidth(negative, width, f);
    var k := KeptLength(ZeroedLength(|s|, prec, w, f), base, prec, w, f);
    var z := DressShape(s, negative, base, prec, width, f);
    DressLength(|s|, negative, base, prec, width, f);
    var mark, sign := MarkFor(k, base, f), SignFor(MarkedLength(k, base, f), negative, f);
    ExtendsDigits(z, s, base);
    SomeDigits(z, k, base);
    SignChoice(MarkedLength(k, base, f), negative, f);
    DressCase(z, s, k, base, f, sign, f.upper);
    DressSign(z[..k], mark, sign, negative, base, f, k);
    ReversedCase(z[..k] + mark + sign, f.upper);
  }

  /** What a number conversion prints: sign, marker and digits, in the case asked for, at the end of the
      field that the flags say; or filled with zeros as far as the buffer reaches. */
  lemma NumberLayout(value: nat, negative: bool, base: nat, prec: nat, width: nat, f: Flags) returns (core: string)
    requires base in {2, 8, 10, 16} && (base != 2 || !f.upper)
    ensures Looks(NumberText(value, negative, base, prec, width, f), core, negative, width, f)
  {
    hide Dress, Reversed, Looks, CoreLooks, Padded, NumberText, NumberDigits, AllDigits, Cased, HashFor, SignWidth;
    var f', s := HashFor(value, f), NumberDigits(value, base, f);
    HashOnly(value, f);
    NumberTextIs(value, negative, base, prec, width, f);
    CoreLayout(s, negative, base, prec, width, f');
    var r := Dress(s, negative, base, prec, width, f');
    core := Reversed(r);
    PaddedLooks(r, negative, width, f');
    SameLooks(NumberText(value, negative, base, prec, width, f), core, negative, width, f, f');
  }

  lemma HashOnly(value: nat, f: Flags)
    ensures var f' := HashFor(value, f);
      f.plus == f'.plus && f.space == f'.space && f.upper == f'.upper && f.left == f'.left && f.zeropad == f'.zeropad
  {
  }

  /** No digits for 0 with a precision. */
  function NumberDigits(value: nat, base: nat, f: Flags): string
    requires 2 <= base <= 16
  {
    if !f.precision || value != 0 then Digits(value, base, f.upper, NTOA_BUFFER) else ""
  }

  lemma NumberTextIs(value: nat, negative: bool, base: nat, prec: nat, width: nat, f: Flags)
    requires 2 <= base <= 16
    ensures var f', s := HashFor(value, f), NumberDigits(value, base, f);
      && |s| <= NTOA_BUFFER && AllDigits(s, base) && Cased(s, f.upper)
      && NumberText(value, negative, base, prec, width, f) ==
           Padded(Dress(s, negative, base, prec, width, f'), SignWidth(negative, width, f'), f')
  {
    hide Digits, Significant, Dress, AllDigits, Cased, Padded, SignWidth;
    DigitsShape(value, base, f.upper, NTOA_BUFFER);
    DigitsCase(value, base, f.upper, NTOA_BUFFER);
    NoDigits(base);
    NoCase(f.upper);
  }

  lemma PaddedLooks(r: string, negative: bool, width: nat, f: Flags)
    requires CoreLooks(Reversed(r), negative, width, f)
    ensures Looks(Padded(r, SignWidth(negative, width, f), f), Reversed(r), negative, width, f)
  {
    hide Reversed, Placed, Padded, CoreLooks;
    PaddedPlaces(r, SignWidth(negative, width, f), f);
  }

  lemma PaddedPlaces(r: string, width: nat, f: Flags)
    ensures f.left || !f.zeropad ==> Placed(Padded(r, width, f), Reversed(r), width, f.left)
    ensures f.zeropad && !f.left ==> Padded(r, width, f) == Reversed(r)
  {
    hide Reversed, Spaces, Placed;
    PlacedIs(Reversed(r), width, f.left);
    assert "" + Reversed(r) + "" == Reversed(r);
  }

  lemma NoCase(upper: bool)
    ensures Cased("", upper)
  {
  }

  lemma SomeDigits(z: string, k: nat, base: nat)
    requires AllDigits(z, base) && k <= |z|
    ensures AllDigits(z[..k], base)
  {
  }

  lemma SignChoice(len: nat, negative: bool, f: Flags)
    ensures SignFor(len, negative, f) in {"", "-", "+", " "}
  {
  }

  /** The text is as wide as asked for unless zeros should fill more than the buffer holds. */
  lemma WidthIff(value: nat, negative: bool, base: nat, prec: nat, width: nat, f: Flags)
    requires base in {2, 8, 10, 16} && (base != 2 || !f.upper)
    ensures width <= |NumberText(value, negative, base, prec, width, f)| <==>
      f.left || !f.zeropad || width <= NTOA_BUFFER
  {
    hide NumberText, SignShown, Cased;
    var core := NumberLayout(value, negative, base, prec, width, f);
  }
}
