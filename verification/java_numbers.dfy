/** Java's fixed-width integers and the number/text conversions the wire
    formats use: `Integer.parseInt`, `Long.parseLong(_, 16)`,
    `String.valueOf(int)` (also `%d`) and `Long.toHexString`. Digits are the
    ASCII ones; `Character.digit` also accepts other Unicode digits, which no
    peer of this system emits. */
module JavaNumbers {
  import opened Wrappers
  import opened JavaText

  const INT_MIN: int := -0x8000_0000
  const INT_MAX: int := 0x7FFF_FFFF
  const LONG_MIN: int := -0x8000_0000_0000_0000
  const LONG_MAX: int := 0x7FFF_FFFF_FFFF_FFFF

  /** A Java `int`. */
  type int32 = x: int | INT_MIN <= x <= INT_MAX

  /** A Java `byte` read as unsigned, as stream APIs deliver it. */
  type byte = x: int | 0 <= x < 0x100

  /** The value of `CRC32.getValue()`: a 32-bit unsigned number in a `long`. */
  type Crc32 = x: int | 0 <= x < 0x1_0000_0000

  /** Java `int` arithmetic: the mathematical result reduced modulo 2^32
      into the signed range. */
  function WrapInt32(x: int): (r: int32)
    ensures (r - x) % 0x1_0000_0000 == 0
    ensures INT_MIN <= x <= INT_MAX ==> r == x
  {
    (x - INT_MIN) % 0x1_0000_0000 + INT_MIN
  }

  /** `Character.digit(c, 36)` on ASCII: the digit's value, either case. */
  function DigitValue(c: char): (r: Option<nat>)
    ensures r.Some? ==> r.value < 36
    ensures r.Some? <==> ('0' <= c <= '9' || 'a' <= c <= 'z' || 'A' <= c <= 'Z')
  {
    if '0' <= c <= '9' then Some(c as int - '0' as int)
    else if 'a' <= c <= 'z' then Some(c as int - 'a' as int + 10)
    else if 'A' <= c <= 'Z' then Some(c as int - 'A' as int + 10)
    else None
  }

  /** `Character.forDigit`: digits above 9 are lower-case letters. */
  function DigitChar(d: nat): (c: char)
    requires d < 36
    ensures IsDigitChar(c)
    ensures DigitValue(c) == Some(d)
  {
    if d < 10 then ('0' as int + d) as char else ('a' as int + d - 10) as char
  }

  predicate IsDigitChar(c: char) {
    '0' <= c <= '9' || 'a' <= c <= 'z'
  }

  /** The value of a string of digits in `radix`; `None` as soon as one
      character is not such a digit. The empty string reads as 0. */
  function ParseDigits(s: string, radix: nat): (r: Option<nat>)
    requires radix == 10 || radix == 16
    decreases |s|
  {
    if |s| == 0 then Some(0)
    else
      match ParseDigits(s[..|s| - 1], radix)
      case None => None
      case Some(high) =>
        match DigitValue(s[|s| - 1])
        case None => None
        case Some(d) => if d < radix then Some(high * radix + d) else None
  }

  /** Euclidean division by a radix, in the form the digit functions use. */
  lemma DivideByRadix(n: nat, radix: nat)
    requires (radix == 10 || radix == 16) && n >= radix
    ensures 0 < n / radix < n
    ensures 0 <= n % radix < radix
    ensures (n / radix) * radix + n % radix == n
  {
    if radix == 10 {
      assert n / 10 < n;
    } else {
      assert n / 16 < n;
    }
  }

  /** The digits of `n` in `radix`, without leading zeros (`"0"` for zero). */
  function FormatNat(n: nat, radix: nat): (r: string)
    requires radix == 10 || radix == 16
    ensures |r| >= 1
    ensures forall k :: 0 <= k < |r| ==> IsDigitChar(r[k])
    ensures forall k :: 0 <= k < |r| ==> DigitValue(r[k]).Some? && DigitValue(r[k]).value < radix
    ensures r[0] == '0' ==> n == 0
    decreases n
  {
    if n < radix then [DigitChar(n)]
    else
      DivideByRadix(n, radix);
      FormatNat(n / radix, radix) + [DigitChar(n % radix)]
  }

  /** Reading back the digits `FormatNat` writes gives the number. */
  lemma {:induction false} FormatNatParses(n: nat, radix: nat)
    requires radix == 10 || radix == 16
    ensures ParseDigits(FormatNat(n, radix), radix) == Some(n)
    decreases n
  {
    var s := FormatNat(n, radix);
    if n < radix {
      assert s[..0] == [];
    } else {
      DivideByRadix(n, radix);
      var high := FormatNat(n / radix, radix);
      assert s[..|s| - 1] == high;
      FormatNatParses(n / radix, radix);
    }
  }

  /** `Integer.parseInt(s, radix)` / `Long.parseLong(s, radix)`: an optional
      sign, at least one digit, and a value inside `[lo, hi]`; anything else
      is the `NumberFormatException` (here `None`). */
  function ParseSigned(s: string, radix: nat, lo: int, hi: int): (r: Option<int>)
    requires radix == 10 || radix == 16
    ensures r.Some? ==> lo <= r.value <= hi
    ensures r.Some? ==> |s| > 0
  {
    if |s| == 0 then None
    else
      var negative := s[0] == '-';
      var digits := if s[0] == '-' || s[0] == '+' then s[1..] else s;
      if |digits| == 0 then None
      else
        match ParseDigits(digits, radix)
        case None => None
        case Some(n) =>
          var v := if negative then 0 - n as int else n as int;
          if lo <= v <= hi then Some(v) else None
  }

  /** `Integer.parseInt(s)`. */
  function ParseInt(s: string): (r: Option<int32>) {
    match ParseSigned(s, 10, INT_MIN, INT_MAX)
    case None => None
    case Some(v) => Some(v)
  }

  /** Text whose last character is not a decimal digit is no `int`. */
  lemma ParseIntLastNotDigit(s: string)
    requires |s| > 0 && !('0' <= s[|s| - 1] <= '9')
    ensures ParseInt(s) == None
  {
    var digits := if s[0] == '-' || s[0] == '+' then s[1..] else s;
    if |digits| > 0 {
      assert digits[|digits| - 1] == s[|s| - 1];
    }
  }

  /** `Long.parseLong(s, 16)`. */
  function ParseLongHex(s: string): (r: Option<int>)
    ensures r.Some? ==> LONG_MIN <= r.value <= LONG_MAX
  {
    ParseSigned(s, 16, LONG_MIN, LONG_MAX)
  }

  /** `String.valueOf(i)`, also what `%d` and string concatenation print. */
  function IntToString(i: int): (r: string)
    ensures IsWord(r)
    ensures r[0] > ' ' && r[|r| - 1] > ' '
    ensures forall k :: 0 <= k < |r| ==> r[k] == '-' || IsDigitChar(r[k])
  {
    if i < 0 then "-" + FormatNat(-i, 10) else FormatNat(i, 10)
  }

  /** `Long.toHexString(v)` for a non-negative `long`. */
  function LongToHexString(v: int): (r: string)
    requires 0 <= v <= LONG_MAX
    ensures IsWord(r)
    ensures r[0] > ' ' && r[|r| - 1] > ' '
    ensures forall k :: 0 <= k < |r| ==> '0' <= r[k] <= '9' || 'a' <= r[k] <= 'f'
  {
    FormatNat(v, 16)
  }

  /** `Integer.parseInt` reads back every `int` that `String.valueOf`
      prints. */
  lemma IntToStringParses(i: int32)
    ensures ParseInt(IntToString(i)) == Some(i)
  {
    var s := IntToString(i);
    if i < 0 {
      var m: nat := 0 - i as int;
      var f := FormatNat(m, 10);
      FormatNatParses(m, 10);
      assert s == "-" + f;
      assert s[0] == '-' && s[1..] == f;
      assert ParseDigits(s[1..], 10) == Some(m);
    } else {
      FormatNatParses(i, 10);
      assert s[0] != '-' && s[0] != '+';
    }
    assert ParseSigned(s, 10, INT_MIN, INT_MAX) == Some(i);
  }

  /** Printing is injective: distinct `int`s print differently. */
  lemma IntToStringInjective(a: int32, b: int32)
    requires IntToString(a) == IntToString(b)
    ensures a == b
  {
    IntToStringParses(a);
    IntToStringParses(b);
  }

  /** A CRC value survives `Long.toHexString` followed by
      `Long.parseLong(_, 16)` unchanged. */
  lemma HexRoundTrip(v: Crc32)
    ensures ParseLongHex(LongToHexString(v)) == Some(v)
  {
    FormatNatParses(v, 16);
  }

  /** Distinct CRC values have distinct hexadecimal texts. */
  lemma HexInjective(a: Crc32, b: Crc32)
    requires LongToHexString(a) == LongToHexString(b)
    ensures a == b
  {
    HexRoundTrip(a);
    HexRoundTrip(b);
  }
}
