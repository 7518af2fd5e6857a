/**
 * Digit strings used by the token and password-hash models: fixed-width and
 * shortest numerals in bases 2 to 16, and a hexadecimal encoding of strings
 * (six hex digits per Unicode scalar value).  Its output alphabet is the
 * sixteen lower-case hex digits, like the base64url alphabet of a real JWT it
 * contains no '=', ';', ' ', '.' or '$'.
 */
module Codec {
  import opened Wrappers

  const HexDigits := "0123456789abcdef"

  /** Compile-time width of one encoded character: 16^6 > 0x10FFFF. */
  const CharWidth := 6

  function DigitChar(d: nat): (c: char)
    requires d < 16
    ensures c in HexDigits
  {
    HexDigits[d]
  }

  function DigitValue(c: char): (r: Option<nat>)
    ensures r.Some? ==> r.value < 16 && DigitChar(r.value) == c
    ensures r.None? ==> c !in HexDigits
  {
    if '0' <= c <= '9' then Some(c as int - '0' as int)
    else if 'a' <= c <= 'f' then Some(c as int - 'a' as int + 10)
    else None
  }

  lemma DigitRoundTrip(d: nat)
    requires d < 16
    ensures DigitValue(DigitChar(d)) == Some(d)
  {
    var r := DigitValue(DigitChar(d));
    assert r.Some?;
    assert DigitChar(r.value) == DigitChar(d);
    assert HexDigits[r.value] == HexDigits[d];
  }

  function Pow(b: nat, k: nat): (p: nat)
    ensures b >= 1 ==> p >= 1
  {
    if k == 0 then 1 else b * Pow(b, k - 1)
  }

  /** Reads digits of `base`, most significant first; `None` for an empty or ill-formed string. */
  function FromDigits(s: string, base: nat): (r: Option<nat>)
    requires 2 <= base <= 16
    decreases |s|
  {
    if |s| == 0 then None
    else
      var d := DigitValue(s[|s| - 1]);
      if d.None? || d.value >= base then None
      else if |s| == 1 then Some(d.value)
      else match FromDigits(s[..|s| - 1], base)
        case None => None
        case Some(v) => Some(Shift(v, base, d.value))
  }

  /** Appends digit `d` to the number `v`. */
  function Shift(v: nat, base: nat, d: nat): nat {
    v * base + d
  }

  /** The `width` least significant digits of `n`. */
  function FixedDigits(n: nat, base: nat, width: nat): (s: string)
    requires 2 <= base <= 16
    ensures |s| == width
    ensures forall i :: 0 <= i < |s| ==> s[i] in HexDigits
  {
    if width == 0 then [] else FixedDigits(n / base, base, width - 1) + [DigitChar(n % base)]
  }

  /** The shortest numeral of `n` ("0" for zero). */
  function Numeral(n: nat, base: nat): (s: string)
    requires 2 <= base <= 16
    ensures s != []
    ensures forall i :: 0 <= i < |s| ==> s[i] in HexDigits
  {
    if n < base then [DigitChar(n)] else Numeral(n / base, base) + [DigitChar(n % base)]
  }

  /** Multiplying by the same positive factor keeps a strict order only if it was there. */
  lemma {:induction false} MulCancel(a: nat, b: nat, c: nat)
    requires c >= 1 && a * c < b * c
    ensures a < b
    decreases a
  {
    if a > 0 && b > 0 {
      assert (a - 1) * c == a * c - c;
      assert (b - 1) * c == b * c - c;
      MulCancel(a - 1, b - 1, c);
    }
  }

  /** Dropping the last digit of a number below `base^(k+1)` leaves one below `base^k`. */
  lemma DivBound(n: nat, base: nat, k: nat)
    requires 2 <= base && n < Pow(base, k + 1)
    ensures n / base < Pow(base, k)
  {
    var q := n / base;
    assert q * base <= n;
    MulCancel(q, Pow(base, k), base);
  }

  /** A number below the base is its own last digit. */
  lemma SmallDivMod(n: nat, base: nat)
    requires 2 <= base && n < Pow(base, 1)
    ensures n / base == 0 && n % base == n
  {
    assert Pow(base, 1) == base;
  }

  lemma ShiftDivMod(n: nat, base: nat)
    requires 2 <= base
    ensures Shift(n / base, base, n % base) == n
  {
  }

  /** Reading a string splits off its last digit. */
  lemma FromDigitsSnoc(p: string, base: nat, d: nat)
    requires 2 <= base <= 16 && d < base && p != []
    ensures FromDigits(p + [DigitChar(d)], base) ==
      match FromDigits(p, base) case None => None case Some(v) => Some(Shift(v, base, d))
  {
    var s := p + [DigitChar(d)];
    DigitRoundTrip(d);
    assert s[|s| - 1] == DigitChar(d);
    assert s[..|s| - 1] == p;
  }

  /** The last digit and the rest of a number below `base^(k+1)`. */
  lemma LastDigit(n: nat, base: nat, k: nat) returns (q: nat, d: nat)
    requires 2 <= base && n < Pow(base, k + 1)
    ensures q == n / base && d == n % base
    ensures q < Pow(base, k) && d < base && Shift(q, base, d) == n
  {
    q, d := n / base, n % base;
    DivBound(n, base, k);
    ShiftDivMod(n, base);
  }

  lemma {:induction false} FixedDigitsRoundTrip(n: nat, base: nat, width: nat)
    requires 2 <= base <= 16 && 1 <= width && n < Pow(base, width)
    ensures FromDigits(FixedDigits(n, base, width), base) == Some(n)
    decreases width
  {
    if width == 1 {
      SmallDivMod(n, base);
      assert FixedDigits(n, base, 1) == [DigitChar(n)];
      DigitRoundTrip(n);
    } else {
      var q, d := LastDigit(n, base, width - 1);
      var prefix := FixedDigits(q, base, width - 1);
      assert FixedDigits(n, base, width) == prefix + [DigitChar(d)];
      FixedDigitsRoundTrip(q, base, width - 1);
      FromDigitsSnoc(prefix, base, d);
    }
  }

  lemma {:induction false} NumeralRoundTrip(n: nat, base: nat)
    requires 2 <= base <= 16
    ensures FromDigits(Numeral(n, base), base) == Some(n)
  {
    if n < base {
      DigitRoundTrip(n);
    } else {
      NumeralRoundTrip(n / base, base);
      FromDigitsSnoc(Numeral(n / base, base), base, n % base);
      ShiftDivMod(n, base);
    }
  }

  /** The code points a Dafny `char` can hold. */
  predicate IsScalar(v: nat) {
    v < 0xD800 || (0xE000 <= v < 0x11_0000)
  }

  /** Six hex digits per character. */
  function EncodeHex(s: string): (h: string)
    ensures |h| == CharWidth * |s|
    ensures forall i :: 0 <= i < |h| ==> h[i] in HexDigits
  {
    if s == [] then [] else FixedDigits(s[0] as int, 16, CharWidth) + EncodeHex(s[1..])
  }

  function DecodeHex(h: string): (r: Option<string>)
    decreases |h|
  {
    if h == [] then Some([])
    else if |h| < CharWidth then None
    else match FromDigits(h[..CharWidth], 16)
      case None => None
      case Some(v) =>
        if !IsScalar(v) then None
        else match DecodeHex(h[CharWidth..])
          case None => None
          case Some(rest) => Some([v as char] + rest)
  }

  lemma {:induction false} HexRoundTrip(s: string)
    ensures DecodeHex(EncodeHex(s)) == Some(s)
  {
    if s != [] {
      var h := EncodeHex(s);
      var v: nat := s[0] as int;
      assert Pow(16, CharWidth) == 0x100_0000;
      FixedDigitsRoundTrip(v, 16, CharWidth);
      assert h[..CharWidth] == FixedDigits(v, 16, CharWidth);
      assert h[CharWidth..] == EncodeHex(s[1..]);
      HexRoundTrip(s[1..]);
      assert [s[0]] + s[1..] == s;
    }
  }

  /** Distinct strings have distinct encodings. */
  lemma HexInjective(a: string, b: string)
    requires EncodeHex(a) == EncodeHex(b)
    ensures a == b
  {
    HexRoundTrip(a);
    HexRoundTrip(b);
  }
}
