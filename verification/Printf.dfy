/** The bounded formatted output of `printf.c`, for integers, characters, strings and percent signs. */
module Printf {
  import opened Bits
  import opened Arith64
  import opened Options

  const UINT: nat := 0x1_0000_0000
  const NTOA_BUFFER := 32

  /** An argument: the 64 bits of a number or pointer, a character, or a string without its NUL. */
  datatype Arg = Number(bits: nat) | Chr(c: char) | Text(s: string)

  datatype Flags = Flags(zeropad: bool, left: bool, plus: bool, space: bool, hash: bool, upper: bool,
                         chr: bool, short: bool, long: bool, precision: bool)

  // ---------------------------------------------------------------- numerals

  function DigitChar(d: nat, upper: bool): char
    requires d < 16
  {
    if upper then "0123456789ABCDEF"[d] else "0123456789abcdef"[d]
  }

  function Quot(v: nat, b: nat): nat
    requires b > 0
  {
    v / b
  }

  function Rem(v: nat, b: nat): (r: nat)
    requires b > 0
    ensures r < b
  {
    v % b
  }

  /** Digits of a value, least significant first, as far as `n` places reach; at least one. */
  function Digits(value: nat, base: nat, upper: bool, n: nat): (s: string)
    requires 2 <= base <= 16 && n > 0
    ensures 1 <= |s| <= n
  {
    var d := [DigitChar(Rem(value, base), upper)];
    if Quot(value, base) != 0 && n > 1 then d + Digits(Quot(value, base), base, upper, n - 1) else d
  }

  function DigitValue(c: char): (d: nat) {
    if '0' <= c <= '9' then c as int - '0' as int
    else if 'a' <= c <= 'f' then c as int - 'a' as int + 10
    else if 'A' <= c <= 'F' then c as int - 'A' as int + 10
    else 0
  }

  /** The number that digits, least significant first, stand for. */
  function Numeral(s: string, base: nat): nat {
    if s == "" then 0 else DigitValue(s[0]) + base * Numeral(s[1..], base)
  }

  function Power(b: nat, n: nat): nat {
    if n == 0 then 1 else b * Power(b, n - 1)
  }

  lemma DigitRoundTrip(d: nat, upper: bool)
    requires d < 16
    ensures DigitValue(DigitChar(d, upper)) == d
  {
  }

  /** The digits stand for the value, except for what lies beyond the buffer. */
  lemma {:induction false} DigitsMean(value: nat, base: nat, upper: bool, n: nat)
    requires 2 <= base <= 16 && n > 0
    ensures Power(base, n) > 0 && Numeral(Digits(value, base, upper, n), base) == Rem(value, Power(base, n))
    decreases n
  {
    hide Digits, DigitChar, DigitValue, Numeral, Power, Quot, Rem;
    PowerPositive(base, n);
    PowerPositive(base, n - 1);
    PowerNext(base, n);
    var q, p := Quot(value, base), Power(base, n - 1);
    DigitRoundTrip(Rem(value, base), upper);
    DigitsSplit(value, base, upper, n);
    if q != 0 && n > 1 {
      DigitsMean(q, base, upper, n - 1);
    } else {
      RemZero(q, p);
    }
    ModDigit(value, base, p);
  }

  lemma RemZero(q: nat, p: nat)
    requires p > 0
    ensures q == 0 || p == 1 ==> Rem(q, p) == 0
  {
    if q == 0 { ModUnique(q, p, 0, 0); }
  }

  lemma PowerNext(b: nat, n: nat)
    requires n > 0
    ensures Power(b, n) == b * Power(b, n - 1) && (n == 1 ==> Power(b, n - 1) == 1)
  {
  }

  lemma DigitsSplit(value: nat, base: nat, upper: bool, n: nat)
    requires 2 <= base <= 16 && n > 0
    ensures var q := Quot(value, base);
      Numeral(Digits(value, base, upper, n), base) == DigitValue(DigitChar(Rem(value, base), upper)) +
        base * (if q != 0 && n > 1 then Numeral(Digits(q, base, upper, n - 1), base) else 0)
  {
    hide DigitChar, DigitValue, Quot, Rem;
    var s, q := Digits(value, base, upper, n), Quot(value, base);
    assert s[0] == DigitChar(Rem(value, base), upper);
    assert s[1..] == if q != 0 && n > 1 then Digits(q, base, upper, n - 1) else "";
  }

  lemma {:induction false} PowerPositive(b: nat, n: nat)
    requires b > 0
    ensures Power(b, n) > 0
  {
    if n > 0 { PowerPositive(b, n - 1); }
  }

  lemma ModDigit(value: nat, base: nat, p: nat)
    requires base > 0 && p > 0
    ensures base * p > 0 && Rem(value, base * p) == Rem(value, base) + base * Rem(Quot(value, base), p)
  {
    hide Quot, Rem;
    var d, q := Rem(value, base), Quot(value, base);
    var u, t := Quot(q, p), Rem(q, p);
    Divides(value, base);
    Divides(q, p);
    DigitSum(base, p, u, t, d);
    RemUnique(value, base * p, u, d + base * t);
  }

  lemma Divides(v: nat, b: nat)
    requires b > 0
    ensures v == b * Quot(v, b) + Rem(v, b)
  {
  }

  lemma RemUnique(v: nat, b: nat, q: nat, r: nat)
    requires r < b && v == b * q + r
    ensures Rem(v, b) == r
  {
    ModUnique(v, b, q, r);
  }

  /** A number written with a last digit `d` in one base, and the rest split by `p`. */
  lemma DigitSum(base: nat, p: nat, u: nat, t: nat, d: nat)
    requires d < base && t < p
    ensures base * p > 0 && base * (p * u + t) + d == (base * p) * u + (d + base * t)
    ensures d + base * t < base * p
  {
    MulMono(t + 1, p, base);
    assert (t + 1) * base == base * t + base && p * base == base * p;
    MulAssoc(base, p, u);
    Distribute3(base, p * u, t);
  }

  lemma Distribute3(a: nat, x: nat, y: nat)
    ensures a * (x + y) == a * x + a * y
  {
  }

  /** Numbers of 64 bits print in full in every base but two; there exactly those below 2^32 do. */
  lemma PrintsInFullIff(value: nat, base: nat, upper: bool)
    requires value < WORD && base in {2, 8, 10, 16}
    ensures Numeral(Digits(value, base, upper, NTOA_BUFFER), base) == value <==> base != 2 || value < UINT
  {
    DigitsMean(value, base, upper, NTOA_BUFFER);
    PowerBound(base);
    if value < Power(base, 32) {
      ModUnique(value, Power(base, 32), 0, value);
    }
  }

  lemma PowerBound(base: nat)
    requires base in {2, 8, 10, 16}
    ensures if base == 2 then Power(base, 32) == UINT else Power(base, 32) >= WORD
  {
    hide Power;
    PowerFour(base);
    PowerAdd(base, 4, 4);
    PowerAdd(base, 8, 8);
    PowerAdd(base, 16, 16);
  }

  lemma PowerFour(base: nat)
    requires base in {2, 8, 10, 16}
    ensures Power(base, 4) == if base == 2 then 16 else if base == 8 then 4096 else if base == 10 then 10000 else 65536
  {
  }

  lemma {:induction false} PowerAdd(b: nat, m: nat, n: nat)
    ensures Power(b, m + n) == Power(b, m) * Power(b, n)
  {
    if m > 0 {
      PowerAdd(b, m - 1, n);
      MulAssoc(b, Power(b, m - 1), Power(b, n));
    }
  }

  // ---------------------------------------------------------------- what each conversion prints

  function Spaces(n: int): (s: string)
    ensures |s| == if n > 0 then n else 0
  {
    if n <= 0 then "" else " " + Spaces(n - 1)
  }

  function ZerosTo(s: string, n: nat): (r: string)
    ensures |r| == if |s| < n then n else |s|
    decreases n - |s|
  {
    if |s| < n then ZerosTo(s + "0", n) else s
  }

  function Min(a: nat, b: nat): nat {
    if a < b then a else b
  }

  /** One more character at the front of the (reversed) number, if the buffer has room. */
  function Prefix(s: string, c: char): (r: string)
    requires |s| <= NTOA_BUFFER
    ensures |r| <= NTOA_BUFFER
  {
    if |s| < NTOA_BUFFER then s + [c] else s
  }

  /** `_ntoa_format` up to the output: leading zeros, base marker and sign, in reverse. */
  function Dress(s: string, negative: bool, base: nat, prec: nat, width: nat, f: Flags): (r: string)
    requires |s| <= NTOA_BUFFER
    ensures |r| <= NTOA_BUFFER
  {
    var w := SignWidth(negative, width, f);
    Sign(Marked(Zeroed(s, prec, w, f), base, prec, w, f), negative, f)
  }

  function Zeroed(s: string, prec: nat, width: nat, f: Flags): (r: string)
    requires |s| <= NTOA_BUFFER
    ensures |r| <= NTOA_BUFFER
  {
    if f.left then s
    else
      var s1 := ZerosTo(s, Min(prec, NTOA_BUFFER));
      if f.zeropad then ZerosTo(s1, Min(width, NTOA_BUFFER)) else s1
  }

  function Marked(s: string, base: nat, prec: nat, width: nat, f: Flags): (r: string)
    requires |s| <= NTOA_BUFFER
    ensures |r| <= NTOA_BUFFER
  {
    if f.hash then Mark(Unpad(s, base, prec, width, f), base, f) else s
  }

  function Sign(s: string, negative: bool, f: Flags): (r: string)
    requires |s| <= NTOA_BUFFER
    ensures |r| <= NTOA_BUFFER
  {
    if negative then Prefix(s, '-') else if f.plus then Prefix(s, '+') else if f.space then Prefix(s, ' ') else s
  }

  /** Zero padding leaves room for a sign. */
  function SignWidth(negative: bool, width: nat, f: Flags): nat {
    if !f.left && width > 0 && f.zeropad && (negative || f.plus || f.space) then width - 1 else width
  }

  /** The base marker may overwrite padding zeros. */
  function Unpad(s: string, base: nat, prec: nat, width: nat, f: Flags): (r: string)
    ensures |r| <= |s|
  {
    if !f.precision && |s| > 0 && (|s| == prec || |s| == width) then
      var r := s[..|s| - 1];
      if |r| > 0 && base == 16 then r[..|r| - 1] else r
    else s
  }

  function Mark(s: string, base: nat, f: Flags): (r: string)
    requires |s| <= NTOA_BUFFER
    ensures |r| <= NTOA_BUFFER
  {
    var m := if base == 16 then Prefix(s, if f.upper then 'X' else 'x') else if base == 2 then Prefix(s, 'b') else s;
    Prefix(m, '0')
  }

  function Reversed(s: string): (r: string)
    ensures |r| == |s|
  {
    if s == "" then "" else Reversed(s[1..]) + [s[0]]
  }

  /** `_out_rev`: the reversed buffer, padded with spaces on the side the flags say. */
  function Padded(s: string, width: nat, f: Flags): string {
    (if !f.left && !f.zeropad then Spaces(width - |s|) else "") + Reversed(s) +
    (if f.left then Spaces(width - |s|) else "")
  }

  function NumberText(value: nat, negative: bool, base: nat, prec: nat, width: nat, f: Flags): string
    requires 2 <= base <= 16
  {
    var f' := if value == 0 then f.(hash := false) else f;
    var s := if !f.precision || value != 0 then Digits(value, base, f.upper, NTOA_BUFFER) else "";
    Padded(Dress(s, negative, base, prec, width, f'), SignWidth(negative, width, f'), f')
  }

  function CharText(c: char, width: nat, f: Flags): string {
    (if f.left then "" else Spaces(width - 1)) + [c] + (if f.left then Spaces(width - 1) else "")
  }

  function StringText(s: string, prec: nat, width: nat, f: Flags): string {
    var t := if f.precision then s[..Min(|s|, prec)] else s;
    (if f.left then "" else Spaces(width - |t|)) + t + (if f.left then Spaces(width - |t|) else "")
  }

  // ---------------------------------------------------------------- output

  /** `_out_buffer` and the running index. `stream` is everything output so far, `initial` what the
      buffer held before. */
  class Sink {
    const buffer: array<char>
    const maxlen: nat
    var idx: nat
    ghost var stream: string
    ghost const initial: string

    /** The buffer holds the beginning of the stream, as far as it reaches, and is unchanged behind. */
    ghost predicate Valid()
      reads this, buffer
    {
      && maxlen <= buffer.Length == |initial| && idx == |stream|
      && (forall i :: 0 <= i < idx && i < maxlen ==> buffer[i] == stream[i])
      && (forall i :: 0 <= i < buffer.Length && (i >= idx || i >= maxlen) ==> buffer[i] == initial[i])
    }

    constructor (buffer: array<char>, maxlen: nat)
      requires maxlen <= buffer.Length
      ensures Valid() && stream == "" && this.buffer == buffer && this.maxlen == maxlen && initial == buffer[..]
    {
      this.buffer, this.maxlen, idx, stream, initial := buffer, maxlen, 0, "", buffer[..];
    }

    method Out(c: char)
      requires Valid()
      modifies this`idx, this`stream, buffer
      ensures Valid() && stream == old(stream) + [c]
    {
      if idx < maxlen {
        buffer[idx] := c;
      }
      idx := idx + 1;
      stream := stream + [c];
    }

    method OutSpaces(from: nat, width: nat)
      requires Valid()
      modifies this`idx, this`stream, buffer
      ensures Valid() && stream == old(stream) + Spaces(width - from)
    {
      var i := from;
      while i < width
        invariant Valid() && stream + Spaces(width - i) == old(stream) + Spaces(width - from)
        decreases width - i
      {
        assert Spaces(width - i) == " " + Spaces(width - i - 1);
        Out(' ');
        i := i + 1;
      }
    }
  }

  /** The loop that adds leading zeros. */
  method PadZeros(buf: array<char>, len: nat, n: nat) returns (len': nat)
    requires buf.Length == NTOA_BUFFER && len <= NTOA_BUFFER
    modifies buf
    ensures len' <= NTOA_BUFFER && buf[..len'] == ZerosTo(old(buf[..len]), Min(n, NTOA_BUFFER))
  {
    len' := len;
    while len' < n && len' < NTOA_BUFFER
      invariant len <= len' <= NTOA_BUFFER
      invariant ZerosTo(buf[..len'], Min(n, NTOA_BUFFER)) == ZerosTo(old(buf[..len]), Min(n, NTOA_BUFFER))
      decreases NTOA_BUFFER - len'
    {
      ghost var s := buf[..len'];
      buf[len'] := '0';
      assert buf[..len' + 1] == s + "0";
      len' := len' + 1;
    }
  }

  method PutFront(buf: array<char>, len: nat, c: char) returns (len': nat)
    requires buf.Length == NTOA_BUFFER && len <= NTOA_BUFFER
    modifies buf
    ensures len' <= NTOA_BUFFER && buf[..len'] == Prefix(old(buf[..len]), c)
  {
    len' := len;
    if len < NTOA_BUFFER {
      buf[len] := c;
      len' := len + 1;
    }
  }

  lemma {:induction false} ReversedLast(s: string)
    requires s != ""
    ensures Reversed(s) == [s[|s| - 1]] + Reversed(s[..|s| - 1])
  {
    if |s| > 1 {
      ReversedLast(s[1..]);
      assert s[1..][..|s| - 2] == s[..|s| - 1][1..];
    }
  }

  method OutReversed(out: Sink, s: string)
    requires out.Valid()
    modifies out`idx, out`stream, out.buffer
    ensures out.Valid() && out.stream == old(out.stream) + Reversed(s)
  {
    hide Reversed;
    var len := |s|;
    assert s[..len] == s;
    while len > 0
      invariant out.Valid() && 0 <= len <= |s| && out.stream + Reversed(s[..len]) == old(out.stream) + Reversed(s)
    {
      ReversedLast(s[..len]);
      assert s[..len][..len - 1] == s[..len - 1];
      len := len - 1;
      ghost var now := out.stream;
      out.Out(s[len]);
      assert now + ([s[len]] + Reversed(s[..len])) == out.stream + Reversed(s[..len]);
    }
    assert s[..0] == "";
    ReversedEmpty();
  }

  lemma ReversedEmpty()
    ensures Reversed("") == ""
  {
  }

  /** `_out_rev`. */
  method OutRev(out: Sink, s: string, width: nat, f: Flags)
    requires out.Valid()
    modifies out`idx, out`stream, out.buffer
    ensures out.Valid() && out.stream == old(out.stream) + Padded(s, width, f)
  {
    hide Reversed, Spaces;
    if !f.left && !f.zeropad {
      out.OutSpaces(|s|, width);
    }
    OutReversed(out, s);
    if f.left {
      out.OutSpaces(|s|, width);
    }
  }

  method PutZeros(buf: array<char>, len: nat, prec: nat, width: nat, f: Flags) returns (len': nat)
    requires buf.Length == NTOA_BUFFER && len <= NTOA_BUFFER
    modifies buf
    ensures len' <= NTOA_BUFFER && buf[..len'] == Zeroed(old(buf[..len]), prec, width, f)
  {
    hide ZerosTo;
    len' := len;
    if !f.left {
      len' := PadZeros(buf, len', prec);
      if f.zeropad {
        len' := PadZeros(buf, len', width);
      }
    }
  }

  method PutMark(buf: array<char>, len: nat, base: nat, prec: nat, width: nat, f: Flags) returns (len': nat)
    requires buf.Length == NTOA_BUFFER && len <= NTOA_BUFFER
    modifies buf
    ensures len' <= NTOA_BUFFER && buf[..len'] == Marked(old(buf[..len]), base, prec, width, f)
  {
    hide Prefix;
    len' := len;
    if f.hash {
      if !f.precision && len' > 0 && (len' == prec || len' == width) {
        len' := len' - 1;
        if len' > 0 && base == 16 {
          len' := len' - 1;
        }
      }
      Unpadded(old(buf[..len]), base, prec, width, f);
      assert buf[..len'] == old(buf[..len])[..len'];
      if base == 16 && !f.upper {
        len' := PutFront(buf, len', 'x');
      } else if base == 16 {
        len' := PutFront(buf, len', 'X');
      } else if base == 2 {
        len' := PutFront(buf, len', 'b');
      }
      len' := PutFront(buf, len', '0');
    }
  }

  lemma Unpadded(s: string, base: nat, prec: nat, width: nat, f: Flags)
    ensures var n := if f.precision || |s| == 0 || (|s| != prec && |s| != width) then |s|
                     else if |s| > 1 && base == 16 then |s| - 2 else |s| - 1;
      Unpad(s, base, prec, width, f) == s[..n]
  {
    assert s[..|s|] == s;
  }

  method PutSign(buf: array<char>, len: nat, negative: bool, f: Flags) returns (len': nat)
    requires buf.Length == NTOA_BUFFER && len <= NTOA_BUFFER
    modifies buf
    ensures len' <= NTOA_BUFFER && buf[..len'] == Sign(old(buf[..len]), negative, f)
  {
    hide Prefix;
    len' := len;
    if negative {
      len' := PutFront(buf, len', '-');
    } else if f.plus {
      len' := PutFront(buf, len', '+');
    } else if f.space {
      len' := PutFront(buf, len', ' ');
    }
  }

  /** `_ntoa_format`. */
  method NtoaFormat(out: Sink, buf: array<char>, len0: nat, negative: bool, base: nat, prec: nat, width0: nat, f: Flags)
    requires out.Valid() && buf.Length == NTOA_BUFFER && len0 <= NTOA_BUFFER && buf != out.buffer
    modifies out`idx, out`stream, out.buffer, buf
    ensures out.Valid()
    ensures out.stream == old(out.stream) +
      Padded(Dress(old(buf[..len0]), negative, base, prec, width0, f), SignWidth(negative, width0, f), f)
  {
    hide Padded, Zeroed, Marked, Sign;
    var width := width0;
    if !f.left && width > 0 && f.zeropad && (negative || f.plus || f.space) {
      width := width - 1;
    }
    var len := PutZeros(buf, len0, prec, width, f);
    len := PutMark(buf, len, base, prec, width, f);
    len := PutSign(buf, len, negative, f);
    OutRev(out, buf[..len], width, f);
  }

  /** The digit loop of `_ntoa_long`. */
  method PutDigits(buf: array<char>, value0: nat, base: nat, upper: bool) returns (len: nat)
    requires buf.Length == NTOA_BUFFER && 2 <= base <= 16
    modifies buf
    ensures len <= NTOA_BUFFER && buf[..len] == Digits(value0, base, upper, NTOA_BUFFER)
  {
    hide DigitChar, Quot, Rem, Digits;
    var value := Quot(value0, base);
    buf[0] := DigitChar(Rem(value0, base), upper);
    len := 1;
    DigitsFrom(value0, base, upper, NTOA_BUFFER);
    assert buf[..1] == [DigitChar(Rem(value0, base), upper)];
    while value != 0 && len < NTOA_BUFFER
      invariant 1 <= len <= NTOA_BUFFER
      invariant Digits(value0, base, upper, NTOA_BUFFER) ==
        buf[..len] + (if value != 0 && len < NTOA_BUFFER then Digits(value, base, upper, NTOA_BUFFER - len) else "")
      decreases NTOA_BUFFER - len
    {
      ghost var s, was := buf[..len], value;
      DigitsFrom(was, base, upper, NTOA_BUFFER - len);
      buf[len] := DigitChar(Rem(value, base), upper);
      assert buf[..len + 1] == s + [DigitChar(Rem(was, base), upper)];
      value := Quot(value, base);
      len := len + 1;
    }
  }

  lemma DigitsFrom(value: nat, base: nat, upper: bool, n: nat)
    requires 2 <= base <= 16 && n > 0
    ensures var q := Quot(value, base);
      Digits(value, base, upper, n) ==
        [DigitChar(Rem(value, base), upper)] + (if q != 0 && n > 1 then Digits(q, base, upper, n - 1) else "")
  {
    hide DigitChar, Quot, Rem;
  }

  /** `_ntoa_long` and `_ntoa_long_long`. */
  method Ntoa(out: Sink, value: nat, negative: bool, base: nat, prec: nat, width: nat, f: Flags)
    requires out.Valid() && 2 <= base <= 16
    modifies out`idx, out`stream, out.buffer
    ensures out.Valid() && out.stream == old(out.stream) + NumberText(value, negative, base, prec, width, f)
  {
    hide Padded, Dress, Digits;
    var buf := new char[NTOA_BUFFER];
    var len := 0;
    var f' := if value == 0 then f.(hash := false) else f;
    if !f.precision || value != 0 {
      len := PutDigits(buf, value, base, f.upper);
    }
    assert buf[..len] == if !f.precision || value != 0 then Digits(value, base, f.upper, NTOA_BUFFER) else "";
    NtoaFormat(out, buf, len, negative, base, prec, width, f');
  }

  method OutChar(out: Sink, c: char, width: nat, f: Flags)
    requires out.Valid()
    modifies out`idx, out`stream, out.buffer
    ensures out.Valid() && out.stream == old(out.stream) + CharText(c, width, f)
  {
    if !f.left {
      out.OutSpaces(1, width);
    }
    out.Out(c);
    if f.left {
      out.OutSpaces(1, width);
    }
  }

  method OutString(out: Sink, s: string, prec: nat, width: nat, f: Flags)
    requires out.Valid()
    modifies out`idx, out`stream, out.buffer
    ensures out.Valid() && out.stream == old(out.stream) + StringText(s, prec, width, f)
  {
    hide Spaces, StringText;
    var l := if f.precision then Min(|s|, prec) else |s|;
    ghost var was, pre := out.stream, if f.left then "" else Spaces(width - l);
    if !f.left {
      out.OutSpaces(l, width);
    }
    for i := 0 to l
      invariant out.Valid() && out.stream == was + pre + s[..i]
    {
      out.Out(s[i]);
    }
    StringParts(s, prec, width, f, l);
    ghost var post := if f.left then Spaces(width - l) else "";
    assert (was + pre + s[..l]) + post == was + (pre + s[..l] + post);
    if f.left {
      out.OutSpaces(l, width);
    } else {
      assert out.stream == out.stream + post;
    }
  }

  lemma StringParts(s: string, prec: nat, width: nat, f: Flags, l: nat)
    requires l == if f.precision then Min(|s|, prec) else |s|
    ensures StringText(s, prec, width, f) ==
      (if f.left then "" else Spaces(width - l)) + s[..l] + (if f.left then Spaces(width - l) else "")
  {
    hide Spaces;
    assert s[..l] == if f.precision then s[..Min(|s|, prec)] else s;
  }

  // ---------------------------------------------------------------- the format string

  /** A conversion while it is being read: flags, width, precision, position and arguments left. */
  datatype Spec = Spec(f: Flags, width: nat, prec: nat, pos: nat, args: seq<Arg>)

  const NO_FLAGS := Flags(false, false, false, false, false, false, false, false, false, false)

  function CharAt(fmt: string, i: nat): char {
    if i < |fmt| then fmt[i] else '\0'
  }

  predicate IsDigit(c: char) {
    '0' <= c <= '9'
  }

  function Atoi(fmt: string, i: nat, n: nat): (r: (nat, nat))
    requires i <= |fmt|
    ensures i <= r.1 <= |fmt|
    decreases |fmt| - i
  {
    if i < |fmt| && IsDigit(fmt[i]) then Atoi(fmt, i + 1, (n * 10 + DigitValue(fmt[i])) % UINT) else (n, i)
  }

  predicate IsFlag(c: char) {
    c == '0' || c == '-' || c == '+' || c == ' ' || c == '#'
  }

  function WithFlag(f: Flags, c: char): Flags {
    if c == '0' then f.(zeropad := true)
    else if c == '-' then f.(left := true)
    else if c == '+' then f.(plus := true)
    else if c == ' ' then f.(space := true)
    else f.(hash := true)
  }

  function ParseFlags(fmt: string, i: nat, f: Flags): (r: (Flags, nat))
    requires i <= |fmt|
    ensures i <= r.1 <= |fmt| && r.0.precision == f.precision
    decreases |fmt| - i
  {
    if i < |fmt| && IsFlag(fmt[i]) then ParseFlags(fmt, i + 1, WithFlag(f, fmt[i])) else (f, i)
  }

  /** A precision comes with its flag. */
  predicate Plain(s: Spec) {
    !s.f.precision ==> s.prec == 0
  }

  /** The argument read as an `int`. */
  function AsInt(bits: nat): int {
    var w := bits % UINT;
    if w < UINT / 2 then w else w - UINT
  }

  predicate NextIsNumber(args: seq<Arg>) {
    args != [] && args[0].Number?
  }

  function ParseWidth(fmt: string, s: Spec): (r: Option<Spec>)
    requires s.pos <= |fmt| && Plain(s)
    ensures r.Some? ==> s.pos <= r.value.pos <= |fmt| && Plain(r.value)
  {
    if IsDigit(CharAt(fmt, s.pos)) then
      var (n, i) := Atoi(fmt, s.pos, 0); Some(s.(width := n, pos := i))
    else if CharAt(fmt, s.pos) == '*' then
      if !NextIsNumber(s.args) then None
      else
        var w := AsInt(s.args[0].bits);
        var f := if w < 0 then s.f.(left := true) else s.f;
        Some(s.(f := f, width := Magnitude(w), pos := s.pos + 1, args := s.args[1..]))
    else Some(s)
  }

  function ParsePrecision(fmt: string, s: Spec): (r: Option<Spec>)
    requires s.pos <= |fmt| && Plain(s)
    ensures r.Some? ==> s.pos <= r.value.pos <= |fmt| && Plain(r.value)
  {
    if CharAt(fmt, s.pos) != '.' then Some(s)
    else
      var s := s.(f := s.f.(precision := true), pos := s.pos + 1);
      if IsDigit(CharAt(fmt, s.pos)) then
        var (n, i) := Atoi(fmt, s.pos, 0); Some(s.(prec := n, pos := i))
      else if CharAt(fmt, s.pos) == '*' then
        if !NextIsNumber(s.args) then None
        else
          var p := AsInt(s.args[0].bits);
          Some(s.(prec := if p > 0 then p else 0, pos := s.pos + 1, args := s.args[1..]))
      else Some(s)
  }

  function ParseLength(fmt: string, s: Spec): (r: Spec)
    requires s.pos <= |fmt| && Plain(s)
    ensures s.pos <= r.pos <= |fmt| && Plain(r)
  {
    var c := CharAt(fmt, s.pos);
    if c == 'l' then
      s.(f := s.f.(long := true), pos := if CharAt(fmt, s.pos + 1) == 'l' then s.pos + 2 else s.pos + 1)
    else if c == 'h' then
      if CharAt(fmt, s.pos + 1) == 'h' then s.(f := s.f.(short := true, chr := true), pos := s.pos + 2)
      else s.(f := s.f.(short := true), pos := s.pos + 1)
    else if c == 't' || c == 'j' || c == 'z' then s.(f := s.f.(long := true), pos := s.pos + 1)
    else s
  }

  /** Everything between the percent sign and the conversion character. */
  function ParseSpec(fmt: string, i: nat, args: seq<Arg>): (r: Option<Spec>)
    requires i <= |fmt|
    ensures r.Some? ==> i <= r.value.pos <= |fmt| && Plain(r.value)
  {
    var (f, j) := ParseFlags(fmt, i, NO_FLAGS);
    var w := ParseWidth(fmt, Spec(f, 0, 0, j, args));
    if w.None? then None
    else
      var p := ParsePrecision(fmt, w.value);
      if p.None? then None else Some(ParseLength(fmt, p.value))
  }

  /** The argument in the type that the length field says. */
  function SignedValue(bits: nat, f: Flags): int {
    if f.long then Signed(bits % WORD)
    else if f.chr then (if bits % 256 < 128 then bits % 256 else bits % 256 - 256)
    else if f.short then (if bits % 65536 < 32768 then bits % 65536 else bits % 65536 - 65536)
    else AsInt(bits)
  }

  function UnsignedValue(bits: nat, f: Flags): nat {
    if f.long then bits % WORD else if f.chr then bits % 256 else if f.short then bits % 65536 else bits % UINT
  }

  function Base(c: char): (b: nat)
    ensures 2 <= b <= 16
  {
    if c == 'x' || c == 'X' then 16 else if c == 'o' then 8 else if c == 'b' then 2 else 10
  }

  /** Flags of an integer conversion after the adjustments for its character. */
  function IntegerFlags(f: Flags, c: char): Flags {
    var f := if Base(c) == 10 then f.(hash := false) else f;
    var f := if c == 'X' then f.(upper := true) else f;
    var f := if c != 'd' && c != 'i' then f.(plus := false, space := false) else f;
    if f.precision then f.(zeropad := false) else f
  }

  predicate IsInteger(c: char) {
    c in {'d', 'i', 'u', 'x', 'X', 'o', 'b'}
  }

  function IntegerText(c: char, bits: nat, s: Spec): string {
    var f := IntegerFlags(s.f, c);
    if c == 'd' || c == 'i' then
      var v := SignedValue(bits, f); NumberText(Magnitude(v), v < 0, 10, s.prec, s.width, f)
    else NumberText(UnsignedValue(bits, f), false, Base(c), s.prec, s.width, f)
  }

  function PointerText(bits: nat, s: Spec): string {
    NumberText(bits % WORD, false, 16, s.prec, 16, s.f.(zeropad := true, upper := true))
  }

  /** What a conversion prints, and how many arguments it takes. There is no result when the format
      ends in the middle of it, when the argument does not fit, or for floating point. */
  function ConversionText(fmt: string, s: Spec): (r: Option<(string, nat)>)
    requires s.pos <= |fmt|
    ensures r.Some? ==> s.pos < |fmt| && r.value.1 <= |s.args|
  {
    if s.pos == |fmt| then None
    else
      var c := fmt[s.pos];
      if IsInteger(c) then
        if NextIsNumber(s.args) then Some((IntegerText(c, s.args[0].bits, s), 1)) else None
      else if c in {'f', 'F', 'e', 'E', 'g', 'G'} then None
      else if c == 'c' then
        if s.args != [] && s.args[0].Chr? then Some((CharText(s.args[0].c, s.width, s.f), 1)) else None
      else if c == 's' then
        if s.args != [] && s.args[0].Text? then Some((StringText(s.args[0].s, s.prec, s.width, s.f), 1)) else None
      else if c == 'p' then
        if NextIsNumber(s.args) then Some((PointerText(s.args[0].bits, s), 1)) else None
      else Some(([c], 0))
  }

  /** The whole output stream from position `i` on. */
  function Format(fmt: string, i: nat, args: seq<Arg>): Option<string>
    requires i <= |fmt|
    decreases |fmt| - i
  {
    if i == |fmt| then Some("")
    else if fmt[i] != '%' then Then([fmt[i]], Format(fmt, i + 1, args))
    else
      var s := ParseSpec(fmt, i + 1, args);
      if s.None? then None
      else
        var t := ConversionText(fmt, s.value);
        if t.None? then None else Then(t.value.0, Format(fmt, s.value.pos + 1, s.value.args[t.value.1..]))
  }

  function Then(s: string, r: Option<string>): Option<string> {
    if r.None? then None else Some(s + r.value)
  }

  /** The output of one conversion. */
  method Convert(out: Sink, fmt: string, s: Spec) returns (taken: nat)
    requires out.Valid() && s.pos <= |fmt| && ConversionText(fmt, s).Some?
    modifies out`idx, out`stream, out.buffer
    ensures out.Valid() && taken == ConversionText(fmt, s).value.1
    ensures out.stream == old(out.stream) + ConversionText(fmt, s).value.0
  {
    hide NumberText, CharText, StringText, SignedValue, UnsignedValue;
    var c := fmt[s.pos];
    if IsInteger(c) {
      var f := IntegerFlags(s.f, c);
      if c == 'd' || c == 'i' {
        var v := SignedValue(s.args[0].bits, f);
        Ntoa(out, Magnitude(v), v < 0, 10, s.prec, s.width, f);
      } else {
        Ntoa(out, UnsignedValue(s.args[0].bits, f), false, Base(c), s.prec, s.width, f);
      }
      return 1;
    } else if c == 'c' {
      OutChar(out, s.args[0].c, s.width, s.f);
      return 1;
    } else if c == 's' {
      OutString(out, s.args[0].s, s.prec, s.width, s.f);
      return 1;
    } else if c == 'p' {
      Ntoa(out, s.args[0].bits % WORD, false, 16, s.prec, 16, s.f.(zeropad := true, upper := true));
      return 1;
    }
    out.Out(c);
    return 0;
  }

  /** `_vsnprintf` into a buffer of `maxlen` characters. The text does not depend on the buffer; as
      much of it as leaves room for the NUL is stored, nothing is written from `maxlen` on, and the
      length of the whole text is returned (as far as an `int` can hold it). */
  method Vsnprintf(buffer: array<char>, maxlen: nat, fmt: string, args: seq<Arg>) returns (ret: int)
    requires maxlen <= buffer.Length && Format(fmt, 0, args).Some?
    modifies buffer
    ensures var text := Format(fmt, 0, args).value;
      && (|text| < UINT / 2 ==> ret == |text|)
      && (maxlen > 0 ==>
            var n := Min(|text|, maxlen - 1);
            && (forall i :: 0 <= i < n ==> buffer[i] == text[i]) && buffer[n] == '\0'
            && (forall i :: n < i < buffer.Length ==> buffer[i] == old(buffer[i])))
      && (maxlen == 0 ==> forall i :: 0 <= i < buffer.Length ==> buffer[i] == old(buffer[i]))
  {
    hide Format, ParseSpec, ConversionText;
    var out := new Sink(buffer, maxlen);
    ghost var text := Format(fmt, 0, args).value;
    var i, rest := 0, args;
    while i < |fmt|
      invariant out.Valid() && fresh(out) && out.buffer == buffer && out.maxlen == maxlen
      invariant out.initial == old(buffer[..])
      invariant 0 <= i <= |fmt| && Format(fmt, i, rest).Some? && out.stream + Format(fmt, i, rest).value == text
      decreases |fmt| - i
    {
      ghost var stream := out.stream;
      FormatStep(fmt, i, rest, stream);
      if fmt[i] != '%' {
        out.Out(fmt[i]);
        i := i + 1;
      } else {
        var s := ParseSpec(fmt, i + 1, rest).value;
        var taken := Convert(out, fmt, s);
        i, rest := s.pos + 1, s.args[taken..];
      }
    }
    FormatEnd(fmt, rest);
    var at := if out.idx < maxlen then out.idx else maxlen - 1;
    if 0 <= at < maxlen {
      buffer[at] := '\0';
    }
    ret := AsInt(out.idx);
  }

  lemma FormatEnd(fmt: string, args: seq<Arg>)
    ensures Format(fmt, |fmt|, args) == Some("")
  {
  }

  lemma FormatStep(fmt: string, i: nat, args: seq<Arg>, stream: string)
    requires i < |fmt| && Format(fmt, i, args).Some?
    ensures fmt[i] != '%' ==>
      && Format(fmt, i + 1, args).Some?
      && stream + Format(fmt, i, args).value == (stream + [fmt[i]]) + Format(fmt, i + 1, args).value
    ensures fmt[i] == '%' ==>
      var s := ParseSpec(fmt, i + 1, args);
      && s.Some? && s.value.pos <= |fmt| && ConversionText(fmt, s.value).Some?
      && (var t := ConversionText(fmt, s.value).value;
          && s.value.pos < |fmt| && t.1 <= |s.value.args| && i < s.value.pos
          && Format(fmt, s.value.pos + 1, s.value.args[t.1..]).Some?
          && stream + Format(fmt, i, args).value ==
               (stream + t.0) + Format(fmt, s.value.pos + 1, s.value.args[t.1..]).value)
  {
    hide ParseSpec, ConversionText;
  }
}
