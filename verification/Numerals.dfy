/** Numbers as decimal numerals and as bytes. */
module Numerals {
  import opened Text

  type Bytes = seq<Byte>

  /** A decimal u64 as the library parses it: an optional plus sign and at least one digit. */
  function ParseU64(s: string): Option<nat> {
    var digits := if s != "" && s[0] == '+' then s[1..] else s;
    if digits == "" || (exists i :: 0 <= i < |digits| && !IsDigit(digits[i])) then None
    else if DecimalValue(digits) >= U64_BOUND then None
    else Some(DecimalValue(digits))
  }

  function DecimalValue(digits: string): nat
    requires forall i :: 0 <= i < |digits| ==> IsDigit(digits[i])
    decreases |digits|
  {
    if digits == "" then 0
    else
      var last := digits[|digits| - 1];
      assert IsDigit(last);
      10 * DecimalValue(digits[..|digits| - 1]) + (last - '0') as int
  }

  function Digit(d: nat): char
    requires d < 10
  {
    '0' + d as char
  }

  /** The numeral of a number, without leading zeroes. */
  function Decimal(n: nat): (s: string)
    ensures s != "" && forall i :: 0 <= i < |s| ==> IsDigit(s[i])
    ensures s[0] == '0' ==> n == 0
  {
    if n < 10 then [Digit(n)] else Decimal(n / 10) + [Digit(n % 10)]
  }

  lemma {:induction false} DecimalHasValue(n: nat)
    ensures DecimalValue(Decimal(n)) == n
  {
    var s := Decimal(n);
    if n >= 10 {
      DecimalHasValue(n / 10);
      assert s[..|s| - 1] == Decimal(n / 10);
    } else {
      assert s[..0] == "";
    }
  }

  lemma DecimalRoundTrip(n: nat)
    ensures n < U64_BOUND ==> ParseU64(Decimal(n)) == Some(n)
  {
    DecimalHasValue(n);
  }

  // ----- numbers as bytes

  /** Little-endian bytes of a number. */
  function LittleEndian(n: nat, width: nat): (bytes: Bytes)
    ensures |bytes| == width
  {
    if width == 0 then [] else [n % 256] + LittleEndian(n / 256, width - 1)
  }

  function FromLittleEndian(bytes: Bytes): nat {
    if bytes == [] then 0 else bytes[0] + 256 * FromLittleEndian(bytes[1..])
  }

  function Power256(width: nat): nat {
    if width == 0 then 1 else 256 * Power256(width - 1)
  }

  lemma {:induction false} LittleEndianRoundTrip(n: nat, width: nat)
    ensures n < Power256(width) ==> FromLittleEndian(LittleEndian(n, width)) == n
  {
    if width > 0 {
      LittleEndianRoundTrip(n / 256, width - 1);
      assert LittleEndian(n, width)[1..] == LittleEndian(n / 256, width - 1);
    }
  }

  lemma U64RoundTrip(n: nat)
    ensures n < U64_BOUND ==> FromLittleEndian(LittleEndian(n, 8)) == n
  {
    assert Power256(8) == U64_BOUND by {
      assert Power256(4) == 0x1_0000_0000;
    }
    LittleEndianRoundTrip(n, 8);
  }

  /** Big-endian bytes of a number. */
  function BigEndian(n: nat, width: nat): (bytes: Bytes)
    ensures |bytes| == width
  {
    if width == 0 then [] else BigEndian(n / 256, width - 1) + [n % 256]
  }

  /** The first byte counts most. */
  function FromBigEndian(bytes: Bytes): nat {
    if bytes == [] then 0 else bytes[0] * Power256(|bytes| - 1) + FromBigEndian(bytes[1..])
  }

  lemma {:induction false} FromBigEndianLast(bytes: Bytes, last: Byte)
    ensures FromBigEndian(bytes + [last]) == 256 * FromBigEndian(bytes) + last
  {
    var all := bytes + [last];
    if bytes == [] {
      assert all[1..] == [];
    } else {
      FromBigEndianLast(bytes[1..], last);
      assert all[1..] == bytes[1..] + [last];
    }
  }

  lemma {:induction false} BigEndianRoundTrip(n: nat, width: nat)
    requires n < Power256(width)
    ensures FromBigEndian(BigEndian(n, width)) == n
  {
    if width > 0 {
      BigEndianRoundTrip(n / 256, width - 1);
      FromBigEndianLast(BigEndian(n / 256, width - 1), n % 256);
    }
  }

  lemma U64Reads(n: nat)
    requires n < U64_BOUND
    ensures FromBigEndian(BigEndian(n, 8)) == n
  {
    assert Power256(8) == U64_BOUND by {
      assert Power256(4) == 0x1_0000_0000;
    }
    BigEndianRoundTrip(n, 8);
  }

  lemma U64Injective(m: nat, n: nat)
    requires m < U64_BOUND && n < U64_BOUND && BigEndian(m, 8) == BigEndian(n, 8)
    ensures m == n
  {
    U64Reads(m);
    U64Reads(n);
  }
}
