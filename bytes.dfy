/**
 * Fixed-width unsigned integers and their big-endian wire form, as used by the
 * BitChat codec (protocol/bitchat_protocol.c: encode_u16_be, decode_u16_be,
 * encode_u64_be, decode_u64_be), plus the `memcpy` into a caller buffer that
 * every encoder is built from.
 */
module Bytes {

  type Byte = b: int | 0 <= b < 0x100
  type U16 = x: int | 0 <= x < 0x1_0000
  type U32 = x: int | 0 <= x < 0x1_0000_0000
  type U64 = x: int | 0 <= x < 0x1_0000_0000_0000_0000

  /** 256^n */
  function Pow256(n: nat): (r: nat)
    ensures r >= 1
  {
    if n == 0 then 1 else 256 * Pow256(n - 1)
  }

  /** The n-byte big-endian form of v (of v modulo 256^n), most significant byte first. */
  function BeBytes(v: nat, n: nat): (r: seq<Byte>)
    ensures |r| == n
  {
    if n == 0 then [] else BeBytes(v / 256, n - 1) + [v % 256]
  }

  /** The number a big-endian byte string denotes. */
  function BeValue(s: seq<Byte>): (r: nat)
    ensures r < Pow256(|s|)
  {
    if s == [] then 0
    else
      var prefix := BeValue(s[..|s| - 1]);
      assert prefix <= Pow256(|s| - 1) - 1;
      assert prefix * 256 <= Pow256(|s|) - 256;
      prefix * 256 + s[|s| - 1]
  }

  // MulAtLeast to MulAssoc are nonlinear-arithmetic hints for the solver, used by
  // DivModUnique, DivDiv and ModPeel below (and a few bounds elsewhere); they model nothing of the codec.

  lemma MulAtLeast(m: int, d: int)
    requires m > 0 && d >= 1
    ensures m * d >= m
  {
  }

  lemma MulSub(m: int, a: int, b: int)
    ensures m * a - m * b == m * (a - b)
  {
  }

  lemma MulLe(m: int, x: int, y: int)
    requires m >= 0 && x <= y
    ensures m * x <= m * y
  {
    MulSub(m, y, x);
  }

  lemma MulDistrib(m: int, x: int, y: int)
    ensures m * (x + y) == m * x + m * y
  {
  }

  lemma MulAssoc(x: int, y: int, z: int)
    ensures x * (y * z) == (x * y) * z
  {
  }

  /** Euclidean division is unique: a witness quotient and remainder are THE quotient and remainder. */
  lemma DivModUnique(v: int, m: int, q: int, r: int)
    requires m > 0 && 0 <= r < m && v == m * q + r
    ensures v / m == q && v % m == r
  {
    var q', r' := v / m, v % m;
    assert v == m * q' + r';
    if q' < q {
      MulSub(m, q, q');
      MulAtLeast(m, q - q');
      assert false;
    } else if q < q' {
      MulSub(m, q', q);
      MulAtLeast(m, q' - q);
      assert false;
    }
  }

  lemma DivDiv(v: nat, a: nat, b: nat)
    requires a > 0 && b > 0
    ensures (v / a) / b == v / (a * b)
  {
    var q1, r1 := v / a, v % a;
    var q2, r2 := q1 / b, q1 % b;
    assert v == a * q1 + r1;
    assert q1 == b * q2 + r2;
    MulDistrib(a, b * q2, r2);
    MulAssoc(a, b, q2);
    assert v == (a * b) * q2 + (a * r2 + r1);
    MulLe(a, r2, b - 1);
    MulSub(a, b, 1);
    assert a * r2 + r1 < a * b;
    DivModUnique(v, a * b, q2, a * r2 + r1);
  }

  /** Peeling the low byte off a residue modulo 256*p. */
  lemma ModPeel(v: nat, p: nat)
    requires p > 0
    ensures ((v / 256) % p) * 256 + v % 256 == v % (256 * p)
  {
    var a, b := (v / 256) / p, (v / 256) % p;
    assert v / 256 == p * a + b;
    assert v == 256 * (v / 256) + v % 256;
    MulDistrib(256, p * a, b);
    MulAssoc(256, p, a);
    assert v == (256 * p) * a + (b * 256 + v % 256);
    MulLe(256, b, p - 1);
    MulSub(256, p, 1);
    DivModUnique(v, 256 * p, a, b * 256 + v % 256);
  }

  lemma {:induction false} BeValueOfBeBytes(v: nat, n: nat)
    ensures BeValue(BeBytes(v, n)) == v % Pow256(n)
  {
    if n == 0 {
      assert v % 1 == 0;
    } else {
      var hi := BeBytes(v / 256, n - 1);
      var s := hi + [v % 256];
      assert s[..|s| - 1] == hi;
      BeValueOfBeBytes(v / 256, n - 1);
      ModPeel(v, Pow256(n - 1));
    }
  }

  lemma {:induction false} BeBytesOfBeValue(s: seq<Byte>)
    ensures BeBytes(BeValue(s), |s|) == s
  {
    if s != [] {
      var init := s[..|s| - 1];
      var v := BeValue(s);
      DivModUnique(v, 256, BeValue(init), s[|s| - 1]);
      BeBytesOfBeValue(init);
      assert s == init + [s[|s| - 1]];
    }
  }

  /** Byte n-1-k of the big-endian form is bits 8k..8k+7 of v, i.e. `(v >> (8*k)) & 0xFF`. */
  lemma {:induction false} BeBytesAt(v: nat, n: nat, k: nat)
    requires k < n
    ensures BeBytes(v, n)[n - 1 - k] == (v / Pow256(k)) % 256
  {
    if k > 0 {
      BeBytesAt(v / 256, n - 1, k - 1);
      DivDiv(v, 256, Pow256(k - 1));
    }
  }

  /** The value of an 8-byte big-endian field, as a 64-bit unsigned number. */
  function BeU64(s: seq<Byte>): (r: U64)
    requires |s| == 8
    ensures r == BeValue(s)
  {
    assert Pow256(8) == 0x1_0000_0000_0000_0000;
    BeValue(s)
  }

  lemma U64RoundTrip(v: U64)
    ensures BeU64(BeBytes(v, 8)) == v
  {
    BeValueOfBeBytes(v, 8);
    assert Pow256(8) == 0x1_0000_0000_0000_0000;
  }

  /** `encode_u16_be`: high byte then low byte. */
  function EncodeU16Be(v: U16): (r: seq<Byte>)
    ensures r == BeBytes(v, 2)
  {
    [v / 256, v % 256]
  }

  /** `decode_u16_be`: the first two bytes read as a big-endian number. */
  function DecodeU16Be(s: seq<Byte>): (r: U16)
    requires |s| >= 2
    ensures r == BeValue(s[..2])
  {
    assert s[..2][..1] == [s[0]];
    (s[0] as int) * 256 + s[1]
  }

  lemma U16RoundTrip(v: U16, rest: seq<Byte>)
    ensures DecodeU16Be(EncodeU16Be(v) + rest) == v
  {
    BeValueOfBeBytes(v, 2);
    assert (EncodeU16Be(v) + rest)[..2] == EncodeU16Be(v);
  }

  lemma U16Canonical(s: seq<Byte>)
    requires |s| >= 2
    ensures EncodeU16Be(DecodeU16Be(s)) == s[..2]
  {
    BeBytesOfBeValue(s[..2]);
  }

  /** `encode_u64_be`: writes the 8-byte big-endian form of v at buf[off..off+8], nothing else. */
  method EncodeU64Be(buf: array<Byte>, off: nat, v: U64)
    requires off + 8 <= buf.Length
    modifies buf
    ensures buf[..] == old(buf[..])[..off] + BeBytes(v, 8) + old(buf[..])[off + 8..]
  {
    var i := 7;
    while i >= 0
      invariant -1 <= i <= 7
      invariant forall k :: i < k <= 7 ==> buf[off + 7 - k] == (v / Pow256(k)) % 256
      invariant forall j :: 0 <= j < buf.Length && !(off <= j < off + 7 - i) ==> buf[j] == old(buf[j])
    {
      buf[off + 7 - i] := (v / Pow256(i)) % 256;
      i := i - 1;
    }
    var want := old(buf[..])[..off] + BeBytes(v, 8) + old(buf[..])[off + 8..];
    forall j | 0 <= j < buf.Length
      ensures buf[j] == want[j]
    {
      if off <= j < off + 8 {
        BeBytesAt(v, 8, 7 - (j - off));
      }
    }
    assert buf[..] == want;
  }

  /** `decode_u64_be`: the 8 bytes at data[off..off+8] read as a big-endian number. */
  method DecodeU64Be(data: seq<Byte>, off: nat) returns (v: U64)
    requires off + 8 <= |data|
    ensures v == BeU64(data[off..off + 8])
  {
    var acc: nat := 0;
    var i := 0;
    while i < 8
      invariant 0 <= i <= 8
      invariant acc == BeValue(data[off..off + i])
    {
      assert data[off..off + i + 1][..i] == data[off..off + i];
      acc := acc * 256 + data[off + i];
      i := i + 1;
    }
    assert Pow256(8) == 0x1_0000_0000_0000_0000;
    v := acc;
  }

  /** `memcpy(&buf[off], src, |src|)`: src lands at off, every other byte is kept. */
  method WriteBytes(buf: array<Byte>, off: nat, src: seq<Byte>)
    requires off + |src| <= buf.Length
    modifies buf
    ensures buf[..] == old(buf[..])[..off] + src + old(buf[..])[off + |src|..]
  {
    var i := 0;
    while i < |src|
      invariant 0 <= i <= |src|
      invariant forall k :: 0 <= k < i ==> buf[off + k] == src[k]
      invariant forall j :: 0 <= j < buf.Length && !(off <= j < off + i) ==> buf[j] == old(buf[j])
    {
      buf[off + i] := src[i];
      i := i + 1;
    }
    assert buf[..] == old(buf[..])[..off] + src + old(buf[..])[off + |src|..];
  }

  /** Writing `src` right after an already-written prefix extends the prefix and eats into the rest. */
  lemma Splice(written: seq<Byte>, rest: seq<Byte>, src: seq<Byte>)
    requires |src| <= |rest|
    ensures (written + rest)[..|written|] + src + (written + rest)[|written| + |src|..]
            == (written + src) + rest[|src|..]
  {
    assert (written + rest)[..|written|] == written;
    assert (written + rest)[|written| + |src|..] == rest[|src|..];
  }

  /** Appends `src` after the `written` prefix of the buffer; the rest still holds `orig`. */
  method Put(buffer: array<Byte>, offset: nat, src: seq<Byte>, ghost written: seq<Byte>, ghost orig: seq<Byte>)
    requires offset == |written| && offset + |src| <= buffer.Length == |orig|
    requires buffer[..] == written + orig[offset..]
    modifies buffer
    ensures buffer[..] == (written + src) + orig[offset + |src|..]
  {
    WriteBytes(buffer, offset, src);
    Splice(written, orig[offset..], src);
    assert orig[offset..][|src|..] == orig[offset + |src|..];
  }

  /** Appends the 8 big-endian bytes of v after the `written` prefix of the buffer. */
  method PutU64(buffer: array<Byte>, offset: nat, v: U64, ghost written: seq<Byte>, ghost orig: seq<Byte>)
    requires offset == |written| && offset + 8 <= buffer.Length == |orig|
    requires buffer[..] == written + orig[offset..]
    modifies buffer
    ensures buffer[..] == (written + BeBytes(v, 8)) + orig[offset + 8..]
  {
    EncodeU64Be(buffer, offset, v);
    Splice(written, orig[offset..], BeBytes(v, 8));
    assert orig[offset..][8..] == orig[offset + 8..];
  }
}
