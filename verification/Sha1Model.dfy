/** SHA-1 as sections 4 to 6 of FIPS 180-4 define it, and HMAC as section 2 of RFC 2104 does. */
module Sha1Model {
  type Word = bv32
  type Byte = bv8

  // ------------------------------------------------------------------
  // Functions and constants (sections 4.1.1 and 4.2.1)
  // ------------------------------------------------------------------

  function Rotl1(x: Word): Word { (x << 1) | (x >> 31) }
  function Rotl5(x: Word): Word { (x << 5) | (x >> 27) }
  function Rotl30(x: Word): Word { (x << 30) | (x >> 2) }

  function Ch(x: Word, y: Word, z: Word): Word { (x & y) ^ (!x & z) }
  function Parity(x: Word, y: Word, z: Word): Word { x ^ y ^ z }
  function Maj(x: Word, y: Word, z: Word): Word { (x & y) ^ (x & z) ^ (y & z) }

  function Mix(t: nat, x: Word, y: Word, z: Word): Word {
    if t < 20 then Ch(x, y, z) else if t < 40 then Parity(x, y, z) else if t < 60 then Maj(x, y, z) else Parity(x, y, z)
  }

  function K(t: nat): Word {
    if t < 20 then 0x5a82_7999 else if t < 40 then 0x6ed9_eba1 else if t < 60 then 0x8f1b_bcdc else 0xca62_c1d6
  }

  // ------------------------------------------------------------------
  // Hashing blocks (section 6.1.2)
  // ------------------------------------------------------------------

  function Add(x: Word, y: Word): Word { x + y }
  function Add5(a: Word, b: Word, c: Word, d: Word, e: Word): Word { a + b + c + d + e }
  function Xor(x: Word, y: Word): Word { x ^ y }

  /** The message schedule of 80 words. */
  function Schedule(m: seq<Word>, t: nat): Word
    requires |m| == 16
  {
    if t < 16 then m[t]
    else Rotl1(Xor(Xor(Xor(Schedule(m, t - 3), Schedule(m, t - 8)), Schedule(m, t - 14)), Schedule(m, t - 16)))
  }

  datatype Vars = Vars(a: Word, b: Word, c: Word, d: Word, e: Word)

  function Round(v: Vars, t: nat, w: Word): Vars {
    var temp := Add5(Rotl5(v.a), Mix(t, v.b, v.c, v.d), v.e, K(t), w);
    Vars(temp, v.a, Rotl30(v.b), v.c, v.d)
  }

  /** The working variables after t rounds. */
  function Rounds(v: Vars, m: seq<Word>, t: nat): Vars
    requires |m| == 16
  {
    if t == 0 then v else Round(Rounds(v, m, t - 1), t - 1, Schedule(m, t - 1))
  }

  function AddVars(x: Vars, y: Vars): Vars {
    Vars(Add(x.a, y.a), Add(x.b, y.b), Add(x.c, y.c), Add(x.d, y.d), Add(x.e, y.e))
  }

  function Compress(h: Vars, m: seq<Word>): Vars
    requires |m| == 16
  {
    AddVars(Rounds(h, m, 80), h)
  }

  function Wide(b: Byte): Word { b as Word }
  function Narrow(w: Word): Byte { (w & 0xff) as Byte }

  /** Four bytes, the most significant first. */
  function BigEndian(b0: Byte, b1: Byte, b2: Byte, b3: Byte): Word {
    (Wide(b0) << 24) | (Wide(b1) << 16) | (Wide(b2) << 8) | Wide(b3)
  }

  function Block(b: seq<Byte>): (m: seq<Word>)
    requires |b| == 64
    ensures |m| == 16
  {
    seq(16, i requires 0 <= i < 16 => BigEndian(b[4 * i], b[4 * i + 1], b[4 * i + 2], b[4 * i + 3]))
  }

  /** The hash value after all complete blocks of b; what is left over is not looked at. */
  function Blocks(h: Vars, b: seq<Byte>): Vars
    decreases |b|
  {
    if |b| < 64 then h else Blocks(Compress(h, Block(b[..64])), b[64..])
  }

  /** Section 5.3.1. */
  const H0 := Vars(0x6745_2301, 0xefcd_ab89, 0x98ba_dcfe, 0x1032_5476, 0xc3d2_e1f0)

  // ------------------------------------------------------------------
  // Padding (section 5.1.1) and the digest
  // ------------------------------------------------------------------

  function ByteOf(n: nat): Byte
    requires n < 256
  {
    n as Byte
  }

  function Pow256(k: nat): (p: nat)
    ensures p >= 1
  {
    if k == 0 then 1 else 256 * Pow256(k - 1)
  }

  /** n in k bytes, the most significant first. */
  function Bytes(n: nat, k: nat): (b: seq<Byte>)
    ensures |b| == k
  {
    if k == 0 then [] else Bytes(n / 256, k - 1) + [ByteOf(n % 256)]
  }

  function Zeros(n: nat): (b: seq<Byte>)
    ensures |b| == n && forall i :: 0 <= i < n ==> b[i] == 0
  {
    seq(n, _ => 0)
  }

  /** How many zero bytes come after the byte 0x80. */
  function Fill(n: nat): (k: nat)
    ensures k < 64 && (n + 1 + k) % 64 == 56
  {
    (55 - n % 64 + 64) % 64
  }

  /** The padding for a message of n bytes, with the bit length that is written at its end. */
  function Padding(n: nat, bits: nat): seq<Byte> {
    [0x80] + Zeros(Fill(n)) + Bytes(bits, 8)
  }

  function WordBytes(w: Word): (b: seq<Byte>)
    ensures |b| == 4
  {
    [Narrow(w >> 24), Narrow(w >> 16), Narrow(w >> 8), Narrow(w)]
  }

  function Digest(h: Vars): (b: seq<Byte>)
    ensures |b| == 20
  {
    WordBytes(h.a) + WordBytes(h.b) + WordBytes(h.c) + WordBytes(h.d) + WordBytes(h.e)
  }

  /** SHA-1, with a given number of bits written into the padding. */
  function HashWith(m: seq<Byte>, bits: nat): (d: seq<Byte>)
    ensures |d| == 20
  {
    Digest(Blocks(H0, m + Padding(|m|, bits)))
  }

  function Sha1(m: seq<Byte>): (d: seq<Byte>)
    ensures |d| == 20
  {
    HashWith(m, 8 * |m|)
  }

  // ------------------------------------------------------------------
  // HMAC (section 2 of RFC 2104)
  // ------------------------------------------------------------------

  function XorAll(k: seq<Byte>, pad: Byte): (r: seq<Byte>)
    ensures |r| == |k| && forall i :: 0 <= i < |k| ==> r[i] == k[i] ^ pad
  {
    seq(|k|, i requires 0 <= i < |k| => k[i] ^ pad)
  }

  /** The key brought to the length of a block. */
  function BlockKey(key: seq<Byte>): (k: seq<Byte>)
    ensures |k| == 64
  {
    if |key| > 64 then Sha1(key) + Zeros(44) else key + Zeros(64 - |key|)
  }

  function Hmac(key: seq<Byte>, text: seq<Byte>): seq<Byte> {
    var k := BlockKey(key);
    Sha1(XorAll(k, 0x5c) + Sha1(XorAll(k, 0x36) + text))
  }

  // ------------------------------------------------------------------
  // Facts
  // ------------------------------------------------------------------

  /** Hashing can go on after any whole number of blocks. */
  lemma {:induction false} BlocksAppend(h: Vars, a: seq<Byte>, b: seq<Byte>)
    requires |a| % 64 == 0
    decreases |a|
    ensures Blocks(h, a + b) == Blocks(Blocks(h, a), b)
  {
    if a == [] {
      assert a + b == b;
    } else {
      assert (a + b)[..64] == a[..64] && (a + b)[64..] == a[64..] + b;
      BlocksAppend(Compress(h, Block(a[..64])), a[64..], b);
    }
  }

  lemma OneBlock(h: Vars, b: seq<Byte>)
    requires |b| == 64
    ensures Blocks(h, b) == Compress(h, Block(b))
  {
    assert b[..64] == b;
    assert |b[64..]| == 0;
  }
}
