/** Hexadecimal text: the digits, two-digit bytes and numbers that several commands print and read back. */
module HexText {
  import opened Sequences

  type Byte = b: int | 0 <= b < 256

  predicate IsHexDigit(c: char) {
    '0' <= c <= '9' || 'a' <= c <= 'f' || 'A' <= c <= 'F'
  }

  predicate AllHex(s: string) {
    forall i :: 0 <= i < |s| ==> IsHexDigit(s[i])
  }

  function DigitValue(c: char): (v: nat)
    requires IsHexDigit(c)
    ensures v < 16
  {
    if '0' <= c <= '9' then c as int - '0' as int
    else if 'a' <= c <= 'f' then c as int - 'a' as int + 10
    else c as int - 'A' as int + 10
  }

  /** The character is the digit v, in either case. */
  predicate Writes(c: char, v: nat) {
    v < 16 && (c == "0123456789abcdef"[v] || c == "0123456789ABCDEF"[v])
  }

  /** The digits and their values are those of the two alphabets. */
  lemma DigitsAreWritten(c: char, v: nat)
    ensures Writes(c, v) <==> IsHexDigit(c) && DigitValue(c) == v
  {
    if v < 16 { AlphabetAt(v); }
    if IsHexDigit(c) { AlphabetAt(DigitValue(c)); }
  }

  lemma AlphabetAt(v: nat)
    requires v < 16
    ensures "0123456789abcdef"[v] as int == if v < 10 then '0' as int + v else 'a' as int + v - 10
    ensures "0123456789ABCDEF"[v] as int == if v < 10 then '0' as int + v else 'A' as int + v - 10
  {
  }

  /** Two lower-case digits that write the byte. */
  predicate IsByteText(s: string, b: Byte) {
    |s| == 2 && s[0] == "0123456789abcdef"[b / 16] && s[1] == "0123456789abcdef"[b % 16]
  }

  /** The number in lower-case digits, with no more zeros in front than a text of `width` digits needs. */
  predicate IsNumberText(s: string, n: nat, width: nat) {
    && |s| >= width && (|s| > width ==> s[0] != '0')
    && (forall i :: 0 <= i < |s| ==> '0' <= s[i] <= '9' || 'a' <= s[i] <= 'f')
    && AllHex(s) && HexValue(s) == n
  }

  /** The lower-case digit that Python's `x` format prints. */
  function DigitChar(d: nat): (c: char)
    requires d < 16
    ensures IsHexDigit(c) && DigitValue(c) == d
  {
    if d < 10 then ('0' as int + d) as char else ('a' as int + (d - 10)) as char
  }

  /** Python's "{:02x}".format(b). */
  function ByteHex(b: Byte): (s: string)
    ensures |s| == 2 && AllHex(s)
    ensures PairValue(s[0], s[1]) == b
  {
    [DigitChar(b / 16), DigitChar(b % 16)]
  }

  function PairValue(high: char, low: char): (b: Byte)
    requires IsHexDigit(high) && IsHexDigit(low)
  {
    16 * DigitValue(high) + DigitValue(low)
  }

  function HexBytes(bytes: seq<Byte>): (s: string)
    ensures |s| == 2 * |bytes| && AllHex(s)
  {
    if bytes == [] then "" else ByteHex(bytes[0]) + HexBytes(bytes[1..])
  }

  /** The bytes written by an even number of digits, two digits a byte. */
  function PairBytes(s: string): (bytes: seq<Byte>)
    requires |s| % 2 == 0 && AllHex(s)
    ensures |bytes| == |s| / 2
    ensures forall k :: 0 <= k < |bytes| ==> bytes[k] == PairValue(s[2 * k], s[2 * k + 1])
  {
    seq(|s| / 2, k requires 0 <= k < |s| / 2 => PairValue(s[2 * k], s[2 * k + 1]))
  }

  lemma PairBytesConcat(a: string, b: string)
    requires |a| % 2 == 0 && |b| % 2 == 0 && AllHex(a) && AllHex(b)
    ensures AllHex(a + b) && PairBytes(a + b) == PairBytes(a) + PairBytes(b)
  {
    forall k | 0 <= k < |a + b| / 2
      ensures PairBytes(a + b)[k] == (PairBytes(a) + PairBytes(b))[k]
    {
      if k >= |a| / 2 {
        assert (a + b)[2 * k] == b[2 * (k - |a| / 2)] && (a + b)[2 * k + 1] == b[2 * (k - |a| / 2) + 1];
      }
    }
  }

  lemma {:induction false} PairBytesOfHexBytes(bytes: seq<Byte>)
    ensures PairBytes(HexBytes(bytes)) == bytes
  {
    if bytes != [] {
      PairBytesOfHexBytes(bytes[1..]);
      PairBytesConcat(ByteHex(bytes[0]), HexBytes(bytes[1..]));
      OnePair(bytes[0]);
      HeadTail(bytes);
    }
  }

  lemma OnePair(b: Byte)
    ensures PairBytes(ByteHex(b)) == [b]
  {
  }

  lemma {:induction false} HexBytesConcat(a: seq<Byte>, b: seq<Byte>)
    ensures HexBytes(a + b) == HexBytes(a) + HexBytes(b)
  {
    if a == [] {
      assert a + b == b;
    } else {
      ConcatTail(a, b);
      HexBytesConcat(a[1..], b);
      AppendAssociates(ByteHex(a[0]), HexBytes(a[1..]), HexBytes(b));
    }
  }

  /** The number that a string of digits writes, most significant digit first. */
  function HexValue(s: string): (n: nat)
    requires AllHex(s)
  {
    if s == "" then 0 else 16 * HexValue(s[..|s| - 1]) + DigitValue(s[|s| - 1])
  }

  function HexDigits(n: nat): (s: string)
    ensures |s| > 0 && AllHex(s)
    ensures HexValue(s) == n
  {
    if n < 16 then
      var s := [DigitChar(n)];
      assert s[..0] == "";
      s
    else
      var s := HexDigits(n / 16) + [DigitChar(n % 16)];
      assert s[..|s| - 1] == HexDigits(n / 16);
      s
  }

  /** Python's hex(n) for an address. */
  function Hex(n: nat): (s: string)
    ensures |s| > 2 && s[..2] == "0x" && AllHex(s[2..])
    ensures HexValue(s[2..]) == n
  {
    var s := "0x" + HexDigits(n);
    assert s[2..] == HexDigits(n);
    s
  }

  lemma ByteHexIs(b: Byte)
    ensures IsByteText(ByteHex(b), b)
  {
    AlphabetAt(b / 16);
    AlphabetAt(b % 16);
  }

  lemma {:induction false} HexDigitsIs(n: nat)
    ensures IsNumberText(HexDigits(n), n, 1) && (n > 0 ==> HexDigits(n)[0] != '0')
  {
    AlphabetAt(n % 16);
    if n >= 16 {
      HexDigitsIs(n / 16);
      assert HexDigits(n) == HexDigits(n / 16) + [DigitChar(n % 16)];
    }
  }

  /** Python's hex(n): the prefix and the digits, without leading zeros. */
  lemma HexIs(n: nat)
    ensures Hex(n)[..2] == "0x" && IsNumberText(Hex(n)[2..], n, 1)
  {
    HexDigitsIs(n);
    assert Hex(n)[2..] == HexDigits(n);
  }
}
