/**
  The big-endian 64-bit codec of tree.c (`to_big` / `from_big`), used for node
  pointers and for the length fields of value records.  Integers are
  unbounded here; a byte is a natural number below 256.
 */
module Codec {

  type byte = b: int | 0 <= b < 256

  /** Number of bytes of an encoded integer (`sizeof(uint64_t)`). */
  const LONG: nat := 8

  const TWO_64: nat := 0x1_0000_0000_0000_0000

  function Pow2(n: nat): (r: nat)
    ensures r > 0
  {
    if n == 0 then 1 else 2 * Pow2(n - 1)
  }

  /** `v >> n` on a natural number. */
  function Shr(v: nat, n: nat): int
  {
    v / Pow2(n)
  }

  /** `v << n` on a natural number. */
  function Shl(v: nat, n: nat): nat
  {
    v * Pow2(n)
  }

  /** The 8 bytes `to_big` writes: byte i is `(v >> (56 - 8i)) & 0xff`. */
  function Encode(v: nat): (r: seq<byte>)
  {
    seq(LONG, i requires 0 <= i < LONG => Shr(v, 56 - 8 * i) % 256)
  }

  /** The value `from_big` accumulates: the sum of `b[i] << 8(|b|-1-i)`. */
  function Decode(b: seq<byte>): nat
  {
    if |b| == 0 then 0 else Shl(b[0], 8 * (|b| - 1)) + Decode(b[1..])
  }

  // ---------------------------------------------------------------------
  // Arithmetic facts

  lemma MulDistrib(x: nat, y: nat, z: nat)
    ensures (x + y) * z == x * z + y * z
  {
  }

  lemma MulAssoc(x: nat, y: nat, z: nat)
    ensures (x * y) * z == x * (y * z)
  {
  }

  lemma {:induction false} Pow2Add(a: nat, b: nat)
    ensures Pow2(a + b) == Pow2(a) * Pow2(b)
  {
    if a > 0 {
      Pow2Add(a - 1, b);
      assert Pow2(a + b) == 2 * Pow2(a - 1 + b);
      MulAssoc(2, Pow2(a - 1), Pow2(b));
    }
  }

  lemma Pow2Mono(a: nat, b: nat)
    requires a <= b
    ensures Pow2(a) <= Pow2(b)
    decreases b
  {
    if a < b { Pow2Mono(a, b - 1); }
  }

  lemma Pow2_64()
    ensures Pow2(64) == TWO_64
  {
    Pow2_8();
    Pow2Add(8, 8);
    assert Pow2(16) == 0x1_0000;
    Pow2Add(16, 16);
    assert Pow2(32) == 0x1_0000_0000;
    Pow2Add(32, 32);
  }

  lemma Pow2_8()
    ensures Pow2(8) == 256
  {
    assert Pow2(2) == 4;
    assert Pow2(4) == 16;
    assert Pow2(6) == 64;
  }

  lemma MulLe(a: nat, b: nat, c: nat)
    requires a <= b
    ensures a * c <= b * c
  {
  }

  lemma DivModUnique(v: nat, d: nat, q: nat, r: nat)
    requires d > 0 && v == q * d + r && r < d
    ensures v / d == q && v % d == r
  {
    var q0, r0 := v / d, v % d;
    assert v == q0 * d + r0;
    if q0 < q {
      MulLe(q0 + 1, q, d);
      assert false;
    } else if q0 > q {
      MulLe(q + 1, q0, d);
      assert false;
    }
  }

  /** `(v % (a*b))` splits into the digit `(v / a) % b` and the rest `v % a`. */
  lemma ModSplit(v: nat, a: nat, b: nat)
    requires a > 0 && b > 0
    ensures v % (a * b) == ((v / a) % b) * a + v % a
  {
    var q, r := v / a, v % a;
    var q2, r2 := q / b, q % b;
    assert v == q * a + r;
    assert q == q2 * b + r2;
    assert q * a == q2 * (a * b) + r2 * a by {
      MulDistrib(q2 * b, r2, a);
      MulAssoc(q2, b, a);
      assert b * a == a * b;
    }
    assert r2 * a + r < a * b by {
      MulLe(r2, b - 1, a);
      MulDistrib(b - 1, 1, a);
      assert a * b == b * a;
    }
    DivModUnique(v, a * b, q2, r2 * a + r);
  }

  // ---------------------------------------------------------------------
  // Properties of the codec

  /** Decoding n bytes gives a value below 2^(8n). */
  lemma {:induction false} DecodeBound(b: seq<byte>)
    ensures Decode(b) < Pow2(8 * |b|)
  {
    if |b| > 0 {
      DecodeBound(b[1..]);
      var n := 8 * (|b| - 1);
      assert Pow2(8 * |b|) == Pow2(8) * Pow2(n) by { Pow2Add(8, n); }
      Pow2_8();
      MulLe(b[0], 255, Pow2(n));
      assert 255 * Pow2(n) + Pow2(n) == 256 * Pow2(n);
    }
  }

  /** A decoded 8-byte field is a uint64. */
  lemma DecodeIsU64(b: seq<byte>)
    requires |b| == LONG
    ensures Decode(b) < TWO_64
  {
    DecodeBound(b);
    Pow2_64();
  }

  /** The last k bytes of `Encode(v)` decode to `v mod 2^(8k)`. */
  lemma {:induction false} DecodeEncodeSuffix(v: nat, k: nat)
    requires k <= LONG
    ensures Decode(Encode(v)[LONG - k..]) == v % Pow2(8 * k)
  {
    var e := Encode(v);
    if k == 0 {
      assert e[LONG..] == [];
    } else {
      DecodeEncodeSuffix(v, k - 1);
      var tail := e[LONG - k..];
      assert tail[1..] == e[LONG - (k - 1)..];
      assert tail[0] == Shr(v, 8 * (k - 1)) % 256;
      var a := Pow2(8 * (k - 1));
      Pow2_8();
      assert Pow2(8 * k) == a * 256 by { Pow2Add(8 * (k - 1), 8); }
      ModSplit(v, a, 256);
    }
  }

  /** Codec round trip: `from_big(to_big(v)) == v` for every uint64 v. */
  lemma DecodeEncode(v: nat)
    requires v < TWO_64
    ensures Decode(Encode(v)) == v
  {
    DecodeEncodeSuffix(v, LONG);
    assert Encode(v)[0..] == Encode(v);
    Pow2_64();
  }

  /** Equal-length byte strings with the same value are equal. */
  lemma {:induction false} DecodeInjective(b: seq<byte>, c: seq<byte>)
    requires |b| == |c| && Decode(b) == Decode(c)
    ensures b == c
  {
    if |b| > 0 {
      var n := 8 * (|b| - 1);
      DecodeBound(b[1..]);
      DecodeBound(c[1..]);
      DivModUnique(Decode(b), Pow2(n), b[0], Decode(b[1..]));
      DivModUnique(Decode(c), Pow2(n), c[0], Decode(c[1..]));
      DecodeInjective(b[1..], c[1..]);
    }
  }

  /** Codec round trip the other way: `to_big(from_big(b)) == b` for 8 bytes. */
  lemma EncodeDecode(b: seq<byte>)
    requires |b| == LONG
    ensures Encode(Decode(b)) == b
  {
    DecodeIsU64(b);
    DecodeEncode(Decode(b));
    DecodeInjective(Encode(Decode(b)), b);
  }

  /** A value below 2^56 has a zero most-significant byte. */
  lemma EncodeHighByte(v: nat)
    requires v < Pow2(56)
    ensures Encode(v)[0] == 0
  {
    DivModUnique(v, Pow2(56), 0, v);
  }

  // ---------------------------------------------------------------------
  // The two C routines

  /** `to_big(buf + off, v)`: writes the 8 bytes of v, most significant first. */
  method ToBig(buf: array<byte>, off: nat, v: nat)
    requires off + LONG <= buf.Length
    modifies buf
    ensures buf[..] == old(buf[..off]) + Encode(v) + old(buf[off + LONG..])
  {
    var i := 0;
    while i < LONG
      invariant 0 <= i <= LONG
      invariant forall j :: 0 <= j < buf.Length && !(off <= j < off + i) ==> buf[j] == old(buf[j])
      invariant forall j :: 0 <= j < i ==> buf[off + j] == Encode(v)[j]
    {
      buf[off + i] := Shr(v, 56 - i * 8) % 256;
      i := i + 1;
    }
    assert buf[..] == old(buf[..off]) + Encode(v) + old(buf[off + LONG..]);
  }

  /** `from_big(buf)`: accumulates the 8 bytes of buf, most significant first. */
  method FromBig(buf: seq<byte>) returns (v: nat)
    requires |buf| == LONG
    ensures v == Decode(buf) && v < TWO_64
    ensures Encode(v) == buf
  {
    v := 0;
    var i := 0;
    while i < LONG
      invariant 0 <= i <= LONG
      invariant v + Decode(buf[i..]) == Decode(buf)
    {
      assert buf[i..][1..] == buf[i + 1..];
      // the shifted byte occupies bits that v does not have set, so `|` adds
      v := v + Shl(buf[i], 56 - i * 8);
      i := i + 1;
    }
    assert buf[LONG..] == [];
    DecodeIsU64(buf);
    EncodeDecode(buf);
  }
}
