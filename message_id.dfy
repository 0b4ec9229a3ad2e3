/**
 * The message id bitchat_generate_message_id writes (protocol/bitchat_protocol.c):
 * a version-4 UUID in the textual layout of section 4.4 of RFC 4122, printed
 * from four 32-bit random words with "%08lx-%04lx-4%03lx-%04lx-%012llx". The
 * words come from the hardware generator in the source; here they are
 * parameters. Characters are their ASCII codes, as in the message's char arrays.
 */
module MessageId {
  import opened Bytes
  import opened CString

  const Hyphen: Byte := '-' as int
  const VersionDigit: Byte := '4' as int

  /** The length of the id text; with its terminator it fills the 37-byte id array exactly. */
  const IdLength: nat := 36

  predicate IsHexDigit(c: Byte)
  {
    '0' as int <= c <= '9' as int || 'a' as int <= c <= 'f' as int
  }

  /** The lowercase hex digit `%x` prints for d. */
  function HexDigit(d: nat): (c: Byte)
    requires d < 16
    ensures IsHexDigit(c) && c != Nul
  {
    if d < 10 then '0' as int + d else 'a' as int + (d - 10)
  }

  function DigitValue(c: Byte): (d: nat)
    requires IsHexDigit(c)
    ensures d < 16 && HexDigit(d) == c
  {
    if c <= '9' as int then c - '0' as int else c - 'a' as int + 10
  }

  lemma DigitValueOfHexDigit(d: nat)
    requires d < 16
    ensures DigitValue(HexDigit(d)) == d
  {
  }

  predicate HexDigits(s: seq<Byte>)
  {
    forall i :: 0 <= i < |s| ==> IsHexDigit(s[i])
  }

  function Pow16(n: nat): (r: nat)
    ensures r >= 1
  {
    if n == 0 then 1 else 16 * Pow16(n - 1)
  }

  /** `%0<n>x` of a value below 16^n: exactly n lowercase digits, most significant first. */
  function Hex(v: nat, n: nat): (r: seq<Byte>)
    ensures |r| == n && HexDigits(r)
  {
    if n == 0 then [] else [HexDigit(v / Pow16(n - 1) % 16)] + Hex(v % Pow16(n - 1), n - 1)
  }

  /** The number a string of hex digits denotes. */
  function HexValue(s: seq<Byte>): (r: nat)
    requires HexDigits(s)
    ensures r < Pow16(|s|)
  {
    if s == [] then 0
    else
      var low := HexValue(s[1..]);
      var p := Pow16(|s| - 1);
      assert Pow16(|s|) == 16 * p;
      DigitBound(DigitValue(s[0]), p, low);
      DigitValue(s[0]) * p + low
  }

  lemma {:induction false} HexRoundTrip(v: nat, n: nat)
    requires v < Pow16(n)
    ensures HexValue(Hex(v, n)) == v
  {
    if n > 0 {
      var p := Pow16(n - 1);
      var q, r := v / p, v % p;
      TopDigit(v, p);
      var s := Hex(v, n);
      assert s == [HexDigit(q)] + Hex(r, n - 1);
      assert s[1..] == Hex(r, n - 1);
      HexRoundTrip(r, n - 1);
      DigitValueOfHexDigit(q);
      assert HexValue(s) == q * p + r;
    }
  }

  /** A digit times p, plus less than p, stays below 16 p. */
  lemma DigitBound(d: nat, p: nat, low: nat)
    requires d < 16 && low < p
    ensures d * p + low < 16 * p
  {
    MulLe(p, d, 15);
  }

  /** Below 16 p, the quotient by p is a single digit. */
  lemma TopDigit(v: nat, p: nat)
    requires p > 0 && v < 16 * p
    ensures v / p < 16 && v / p % 16 == v / p && v == v / p * p + v % p
  {
  }
  // The five words the format prints, from the four random words. Masks and
  // shifts of values below 2^32 are written as remainders and quotients.

  /** `r1`: 8 digits. */
  function TimeLow(r1: U32): nat { r1 }

  /** `(r2 >> 16) & 0xFFFF`: 4 digits. */
  function TimeMid(r2: U32): (w: nat)
    ensures w < 0x1_0000
  {
    r2 / 0x1_0000
  }

  /** `r2 & 0x0FFF`: 3 digits after the version digit '4'. */
  function TimeHigh(r2: U32): (w: nat)
    ensures w < 0x1000
  {
    r2 % 0x1000
  }

  /** `((r3 >> 16) & 0x3FFF) | 0x8000`: the variant bits 10 on top, then 14 random bits. */
  function ClockSeq(r3: U32): (w: nat)
    ensures 0x8000 <= w < 0xC000
  {
    (r3 / 0x1_0000) % 0x4000 + 0x8000
  }

  /** `((uint64_t)(r3 & 0xFFFF) << 32) | r4`: 12 digits. */
  function Node(r3: U32, r4: U32): (w: nat)
    ensures w < 0x1_0000_0000_0000
  {
    (r3 % 0x1_0000) * 0x1_0000_0000 + r4
  }

  /** The text snprintf writes into the id array (37 bytes suffice for it and its terminator). */
  function FormatId(r1: U32, r2: U32, r3: U32, r4: U32): (id: seq<Byte>)
    ensures |id| == IdLength
  {
    Hex(TimeLow(r1), 8) + [Hyphen] + Hex(TimeMid(r2), 4) + [Hyphen] + [VersionDigit] + Hex(TimeHigh(r2), 3)
      + [Hyphen] + Hex(ClockSeq(r3), 4) + [Hyphen] + Hex(Node(r3, r4), 12)
  }

  predicate IsHyphenPosition(i: nat)
  {
    i == 8 || i == 13 || i == 18 || i == 23
  }

  /** Whatever the random words, the id has its hyphens at 8, 13, 18 and 23 and nowhere else. */
  lemma IdHyphens(r1: U32, r2: U32, r3: U32, r4: U32)
    ensures var id := FormatId(r1, r2, r3, r4);
            forall i :: 0 <= i < IdLength ==> (id[i] == Hyphen <==> IsHyphenPosition(i))
  {
    IdDigits(r1, r2, r3, r4);
    IdParts(r1, r2, r3, r4);
  }

  /** Every other character is a lowercase hex digit. */
  lemma IdDigits(r1: U32, r2: U32, r3: U32, r4: U32)
    ensures var id := FormatId(r1, r2, r3, r4);
            forall i :: 0 <= i < IdLength && !IsHyphenPosition(i) ==> IsHexDigit(id[i])
  {
    var id := FormatId(r1, r2, r3, r4);
    IdParts(r1, r2, r3, r4);
    DigitsAt(id, 0, Hex(TimeLow(r1), 8));
    DigitsAt(id, 9, Hex(TimeMid(r2), 4));
    DigitsAt(id, 15, Hex(TimeHigh(r2), 3));
    DigitsAt(id, 19, Hex(ClockSeq(r3), 4));
    DigitsAt(id, 24, Hex(Node(r3, r4), 12));
  }

  /** The version digit '4' at 14, and at 19 one of 8, 9, a, b: the RFC 4122 variant. */
  lemma IdVersionAndVariant(r1: U32, r2: U32, r3: U32, r4: U32)
    ensures var id := FormatId(r1, r2, r3, r4);
            id[14] == VersionDigit && id[19] in {'8' as int, '9' as int, 'a' as int, 'b' as int}
  {
    var id := FormatId(r1, r2, r3, r4);
    var w := ClockSeq(r3);
    IdParts(r1, r2, r3, r4);
    assert Pow16(3) == 0x1000;
    assert id[19] == Hex(w, 4)[0] == HexDigit(w / 0x1000 % 16);
    VariantDigit(w);
  }

  lemma VariantDigit(w: nat)
    requires 0x8000 <= w < 0xC000
    ensures 8 <= w / 0x1000 % 16 < 12
  {
  }

  /** A run of digits inside the id: no hyphen among them. */
  lemma DigitsAt(id: seq<Byte>, lo: nat, s: seq<Byte>)
    requires lo + |s| <= |id| && id[lo..lo + |s|] == s && HexDigits(s)
    ensures forall i :: lo <= i < lo + |s| ==> IsHexDigit(id[i]) && id[i] != Hyphen
  {
    forall i | lo <= i < lo + |s|
      ensures IsHexDigit(id[i])
    {
      assert id[i] == s[i - lo];
    }
  }

  /** Where each printed word lies in the id. */
  lemma IdParts(r1: U32, r2: U32, r3: U32, r4: U32)
    ensures var id := FormatId(r1, r2, r3, r4);
            && id[0..8] == Hex(TimeLow(r1), 8)
            && id[8] == Hyphen && id[9..13] == Hex(TimeMid(r2), 4)
            && id[13] == Hyphen && id[14] == VersionDigit && id[15..18] == Hex(TimeHigh(r2), 3)
            && id[18] == Hyphen && id[19..23] == Hex(ClockSeq(r3), 4)
            && id[23] == Hyphen && id[24..36] == Hex(Node(r3, r4), 12)
  {
    Layout(Hex(TimeLow(r1), 8), Hex(TimeMid(r2), 4), Hex(TimeHigh(r2), 3), Hex(ClockSeq(r3), 4), Hex(Node(r3, r4), 12));
  }

  /** The 8-4-4-4-12 layout, whatever the digit runs. */
  lemma Layout(a: seq<Byte>, b: seq<Byte>, c: seq<Byte>, d: seq<Byte>, e: seq<Byte>)
    requires |a| == 8 && |b| == 4 && |c| == 3 && |d| == 4 && |e| == 12
    ensures var id := a + [Hyphen] + b + [Hyphen] + [VersionDigit] + c + [Hyphen] + d + [Hyphen] + e;
            && id[0..8] == a
            && id[8] == Hyphen && id[9..13] == b
            && id[13] == Hyphen && id[14] == VersionDigit && id[15..18] == c
            && id[18] == Hyphen && id[19..23] == d
            && id[23] == Hyphen && id[24..36] == e
  {
  }

  /**
   * The id determines the five printed words: parsing each run of digits gives
   * back r1, the top half of r2, the low 12 bits of r2, the clock sequence with
   * its variant bits, and the 48-bit node built from r3 and r4.
   */
  lemma IdWordsRecoverable(r1: U32, r2: U32, r3: U32, r4: U32)
    ensures var id := FormatId(r1, r2, r3, r4);
            && HexDigits(id[0..8]) && HexValue(id[0..8]) == r1
            && HexDigits(id[9..13]) && HexValue(id[9..13]) == r2 / 0x1_0000
            && HexDigits(id[15..18]) && HexValue(id[15..18]) == r2 % 0x1000
            && HexDigits(id[19..23]) && HexValue(id[19..23]) == ClockSeq(r3)
            && HexDigits(id[24..36]) && HexValue(id[24..36]) == Node(r3, r4)
  {
    IdParts(r1, r2, r3, r4);
    assert Pow16(4) == 0x1_0000;
    assert Pow16(8) == 0x1_0000_0000;
    assert Pow16(12) == 0x1_0000_0000_0000;
    HexRoundTrip(TimeLow(r1), 8);
    HexRoundTrip(TimeMid(r2), 4);
    HexRoundTrip(TimeHigh(r2), 3);
    HexRoundTrip(ClockSeq(r3), 4);
    HexRoundTrip(Node(r3, r4), 12);
  }

  /** The id is a C string that fits the message's 37-byte id array. */
  lemma IdFitsIdArray(r1: U32, r2: U32, r3: U32, r4: U32)
    ensures |FormatId(r1, r2, r3, r4)| < 37 && NulFree(FormatId(r1, r2, r3, r4))
  {
    IdHyphens(r1, r2, r3, r4);
    IdDigits(r1, r2, r3, r4);
  }
}
