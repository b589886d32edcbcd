/** What the definitions of `Sha1Model` amount to: rotations by value, the constants, numbers in bytes,
    and the example of FIPS 180, the digest of the three letters abc, computed in small steps. */
module Sha1Facts {
  import opened Arithmetic
  import opened Sha1Model

  // ------------------------------------------------------------------
  // The rotations and the constants, by what they are for
  // ------------------------------------------------------------------

  /** A rotation by n takes hi * 2^(32-n) + lo, where lo is below 2^(32-n), to lo * 2^n + hi. */
  lemma Rotl1Is(hi: Word, lo: Word)
    requires hi < 0x2 && lo < 0x8000_0000
    ensures Rotl1(hi * 0x8000_0000 + lo) == lo * 0x2 + hi
  {
  }

  lemma Rotl5Is(hi: Word, lo: Word)
    requires hi < 0x20 && lo < 0x800_0000
    ensures Rotl5(hi * 0x800_0000 + lo) == lo * 0x20 + hi
  {
  }

  lemma Rotl30Is(hi: Word, lo: Word)
    requires hi < 0x4000_0000 && lo < 0x4
    ensures Rotl30(hi * 0x4 + lo) == lo * 0x4000_0000 + hi
  {
  }

  /** The four constants are the square roots of 2, 3, 5 and 10 in units of 2^-30, cut off. */
  lemma ConstantsAreRoots(t: nat, k: int)
    requires t < 80 && k == K(t) as int
    ensures var c := if t < 20 then 2 else if t < 40 then 3 else if t < 60 then 5 else 10;
            k * k <= c * 0x1000_0000_0000_0000 < (k + 1) * (k + 1)
  {
  }

  /** The initial value is made of the bytes 01 23 .. ef, fe dc .. 10, f0 e1 d2 c3, each word with its
      least significant byte first. */
  lemma InitialBytes()
    ensures H0.a == BigEndian(0x67, 0x45, 0x23, 0x01) && H0.b == BigEndian(0xef, 0xcd, 0xab, 0x89)
    ensures H0.c == BigEndian(0x98, 0xba, 0xdc, 0xfe) && H0.d == BigEndian(0x10, 0x32, 0x54, 0x76)
    ensures H0.e == BigEndian(0xc3, 0xd2, 0xe1, 0xf0)
  {
  }

  /** Byte i of k is the digit of n for 256^(k-1-i). */
  lemma {:induction false} BytesAt(n: nat, k: nat, i: nat)
    requires i < k
    ensures Bytes(n, k)[i] == ByteOf(n / Pow256(k - 1 - i) % 256)
  {
    if i < k - 1 {
      BytesAt(n / 256, k - 1, i);
      DivDiv(n, Pow256(k - 2 - i));
    }
  }

  lemma DivDiv(n: nat, p: nat)
    requires p > 0
    ensures n / 256 / p == n / (256 * p)
  {
    var q := n / 256 / p;
    var r := n / 256 - q * p;
    DivUnique(n, 256 * p, q, 256 * r + n % 256);
  }

  // ------------------------------------------------------------------
  // The digest of abc
  // ------------------------------------------------------------------

  const ABC: seq<Byte> := [0x61, 0x62, 0x63]

  /** The one block: the message, the bit 1, zeros, and the length of 24 bits. */
  function AbcBlock(): (m: seq<Word>)
    ensures |m| == 16
  {
    [0x6162_6380, 0, 0, 0, 0, 0, 0, 0, 0, 0, 0, 0, 0, 0, 0, 24]
  }

  ghost predicate Abc(m: seq<Word>) { m == AbcBlock() }

  /** The schedule and the working variables for the block m. */
  function W(m: seq<Word>, t: nat): Word { if |m| == 16 then Schedule(m, t) else 0 }
  function V(m: seq<Word>, t: nat): Vars { if |m| == 16 then Rounds(H0, m, t) else H0 }

  lemma FirstWord(m: seq<Word>, t: nat)
    requires Abc(m) && t < 16
    ensures W(m, t) == AbcBlock()[t]
  {
  }

  lemma NextWord(m: seq<Word>, t: nat)
    requires Abc(m) && t >= 16
    ensures W(m, t) == Rotl1(Xor(Xor(Xor(W(m, t - 3), W(m, t - 8)), W(m, t - 14)), W(m, t - 16)))
  {
  }

  lemma NextVars(m: seq<Word>, t: nat)
    requires Abc(m)
    ensures V(m, t + 1) == Round(V(m, t), t, W(m, t))
  {
  }

  /** Eight words of the schedule, from word t on. */
  ghost predicate Eight(m: seq<Word>, t: nat, w0: Word, w1: Word, w2: Word, w3: Word, w4: Word, w5: Word, w6: Word, w7: Word) {
    && W(m, t) == w0 && W(m, t + 1) == w1 && W(m, t + 2) == w2 && W(m, t + 3) == w3
    && W(m, t + 4) == w4 && W(m, t + 5) == w5 && W(m, t + 6) == w6 && W(m, t + 7) == w7
  }

  lemma Words0(m: seq<Word>)
    requires Abc(m)
    ensures Eight(m, 0, 0x6162_6380, 0x0000_0000, 0x0000_0000, 0x0000_0000,
                  0x0000_0000, 0x0000_0000, 0x0000_0000, 0x0000_0000)
  {
    hide W, Abc;
    FirstWord(m, 0); FirstWord(m, 1); FirstWord(m, 2); FirstWord(m, 3); FirstWord(m, 4); FirstWord(m, 5); FirstWord(m, 6); FirstWord(m, 7);
  }

  lemma Words8(m: seq<Word>)
    requires Abc(m)
    ensures Eight(m, 8, 0x0000_0000, 0x0000_0000, 0x0000_0000, 0x0000_0000,
                  0x0000_0000, 0x0000_0000, 0x0000_0000, 0x0000_0018)
  {
    hide W, Abc;
    FirstWord(m, 8); FirstWord(m, 9); FirstWord(m, 10); FirstWord(m, 11); FirstWord(m, 12); FirstWord(m, 13); FirstWord(m, 14); FirstWord(m, 15);
  }

  lemma Words16(m: seq<Word>)
    requires Abc(m)
    ensures Eight(m, 16, 0xc2c4_c700, 0x0000_0000, 0x0000_0030, 0x8589_8e01,
                  0x0000_0000, 0x0000_0060, 0x0b13_1c03, 0x0000_0030)
  {
    hide W, Abc;
    Words8(m);
    Words0(m);
    NextWord(m, 16); NextWord(m, 17); NextWord(m, 18); NextWord(m, 19); NextWord(m, 20); NextWord(m, 21); NextWord(m, 22); NextWord(m, 23);
  }

  lemma Words24(m: seq<Word>)
    requires Abc(m)
    ensures Eight(m, 24, 0x8589_8ec1, 0x1626_3806, 0x0000_0000, 0x0000_0180,
                  0x2c4c_700c, 0x0000_00f0, 0x93af_b507, 0x5898_e048)
  {
    hide W, Abc;
    Words16(m);
    Words8(m);
    NextWord(m, 24); NextWord(m, 25); NextWord(m, 26); NextWord(m, 27); NextWord(m, 28); NextWord(m, 29); NextWord(m, 30); NextWord(m, 31);
  }

  lemma Words32(m: seq<Word>)
    requires Abc(m)
    ensures Eight(m, 32, 0x8e9a_9202, 0x0000_0600, 0xb131_c0f0, 0x1626_3bc6,
                  0x4ebe_d41e, 0x6263_80a1, 0x1626_3806, 0x0000_18c0)
  {
    hide W, Abc;
    Words24(m);
    Words16(m);
    NextWord(m, 32); NextWord(m, 33); NextWord(m, 34); NextWord(m, 35); NextWord(m, 36); NextWord(m, 37); NextWord(m, 38); NextWord(m, 39);
  }

  lemma Words40(m: seq<Word>)
    requires Abc(m)
    ensures Eight(m, 40, 0xd2e1_38c4, 0x0000_0f00, 0x3afb_5079, 0x898e_04e5,
                  0xe2ba_3c2b, 0x0000_60c0, 0x053a_37cd, 0x7445_8547)
  {
    hide W, Abc;
    Words32(m);
    Words24(m);
    NextWord(m, 40); NextWord(m, 41); NextWord(m, 42); NextWord(m, 43); NextWord(m, 44); NextWord(m, 45); NextWord(m, 46); NextWord(m, 47);
  }

  lemma Words48(m: seq<Word>)
    requires Abc(m)
    ensures Eight(m, 48, 0xda94_15ed, 0x2638_0a16, 0x6263_83a1, 0x4ebf_54de,
                  0x3835_b44b, 0x0000_f600, 0x1e84_c7a3, 0x98e0_4d98)
  {
    hide W, Abc;
    Words40(m);
    Words32(m);
    NextWord(m, 48); NextWord(m, 49); NextWord(m, 50); NextWord(m, 51); NextWord(m, 52); NextWord(m, 53); NextWord(m, 54); NextWord(m, 55);
  }

  lemma Words56(m: seq<Word>)
    requires Abc(m)
    ensures Eight(m, 56, 0x651d_16a0, 0x6265_8ca1, 0x4585_44d6, 0x4458_4cb7,
                  0x7ba0_6619, 0x6380_aea2, 0x0ae5_5269, 0x627b_49a1)
  {
    hide W, Abc;
    Words48(m);
    Words40(m);
    NextWord(m, 56); NextWord(m, 57); NextWord(m, 58); NextWord(m, 59); NextWord(m, 60); NextWord(m, 61); NextWord(m, 62); NextWord(m, 63);
  }

  lemma Words64(m: seq<Word>)
    requires Abc(m)
    ensures Eight(m, 64, 0x7cd4_5c9d, 0x000f_0000, 0xfb50_753a, 0xec67_65e8,
                  0xba3c_2be2, 0x0060_c000, 0x3a37_cd05, 0x4585_46f4)
  {
    hide W, Abc;
    Words56(m);
    Words48(m);
    NextWord(m, 64); NextWord(m, 65); NextWord(m, 66); NextWord(m, 67); NextWord(m, 68); NextWord(m, 69); NextWord(m, 70); NextWord(m, 71);
  }

  lemma Words72(m: seq<Word>)
    requires Abc(m)
    ensures Eight(m, 72, 0xb859_9dd6, 0x380a_1a26, 0x01e0_2203, 0xe7cc_3456,
                  0xe6e6_0b69, 0x00f6_0a00, 0x5795_ef4f, 0x822e_0879)
  {
    hide W, Abc;
    Words64(m);
    Words56(m);
    NextWord(m, 72); NextWord(m, 73); NextWord(m, 74); NextWord(m, 75); NextWord(m, 76); NextWord(m, 77); NextWord(m, 78); NextWord(m, 79);
  }

  lemma Rounds0(m: seq<Word>)
    requires Abc(m)
    ensures V(m, 8) == Vars(0x9e8c_07d4, 0x993e_30c1, 0x0ff1_f290, 0xb3f5_2677, 0xf376_3846)
  {
    hide W, V, Abc;
    NoRounds(m);
    Words0(m);
    NextVars(m, 0); NextVars(m, 1); NextVars(m, 2); NextVars(m, 3); NextVars(m, 4); NextVars(m, 5); NextVars(m, 6); NextVars(m, 7);
  }

  lemma Rounds8(m: seq<Word>)
    requires Abc(m)
    ensures V(m, 16) == Vars(0x20bd_d62f, 0x196b_ee77, 0x644a_3da5, 0x1181_ed99, 0x18c6_23f9)
  {
    hide W, V, Abc;
    Rounds0(m);
    Words8(m);
    NextVars(m, 8); NextVars(m, 9); NextVars(m, 10); NextVars(m, 11); NextVars(m, 12); NextVars(m, 13); NextVars(m, 14); NextVars(m, 15);
  }

  lemma Rounds16(m: seq<Word>)
    requires Abc(m)
    ensures V(m, 24) == Vars(0xd541_f12d, 0x2128_3486, 0x0ce8_8eff, 0x868d_ec32, 0x7f67_875f)
  {
    hide W, V, Abc;
    Rounds8(m);
    Words16(m);
    NextVars(m, 16); NextVars(m, 17); NextVars(m, 18); NextVars(m, 19); NextVars(m, 20); NextVars(m, 21); NextVars(m, 22); NextVars(m, 23);
  }

  lemma Rounds24(m: seq<Word>)
    requires Abc(m)
    ensures V(m, 32) == Vars(0x3b84_5d33, 0x1267_b407, 0x717e_ebd7, 0xa0dc_2d4b, 0xd2aa_1365)
  {
    hide W, V, Abc;
    Rounds16(m);
    Words24(m);
    NextVars(m, 24); NextVars(m, 25); NextVars(m, 26); NextVars(m, 27); NextVars(m, 28); NextVars(m, 29); NextVars(m, 30); NextVars(m, 31);
  }

  lemma Rounds32(m: seq<Word>)
    requires Abc(m)
    ensures V(m, 40) == Vars(0x32de_1cba, 0x4c98_6405, 0xf718_e5cf, 0x03d4_47f6, 0xf72e_ec32)
  {
    hide W, V, Abc;
    Rounds24(m);
    Words32(m);
    NextVars(m, 32); NextVars(m, 33); NextVars(m, 34); NextVars(m, 35); NextVars(m, 36); NextVars(m, 37); NextVars(m, 38); NextVars(m, 39);
  }

  lemma Rounds40(m: seq<Word>)
    requires Abc(m)
    ensures V(m, 48) == Vars(0xbead_02ca, 0xa01b_846c, 0x8714_787c, 0x503c_a382, 0xfb86_c6ab)
  {
    hide W, V, Abc;
    Rounds32(m);
    Words40(m);
    NextVars(m, 40); NextVars(m, 41); NextVars(m, 42); NextVars(m, 43); NextVars(m, 44); NextVars(m, 45); NextVars(m, 46); NextVars(m, 47);
  }

  lemma Rounds48(m: seq<Word>)
    requires Abc(m)
    ensures V(m, 56) == Vars(0x5e64_56af, 0x7b71_f76d, 0x09fa_7c76, 0x7924_10db, 0x8e11_eb59)
  {
    hide W, V, Abc;
    Rounds40(m);
    Words48(m);
    NextVars(m, 48); NextVars(m, 49); NextVars(m, 50); NextVars(m, 51); NextVars(m, 52); NextVars(m, 53); NextVars(m, 54); NextVars(m, 55);
  }

  lemma Rounds56(m: seq<Word>)
    requires Abc(m)
    ensures V(m, 64) == Vars(0x6b61_c9e1, 0xb66c_020b, 0x9523_272c, 0xf5d5_b051, 0x8fd4_b796)
  {
    hide W, V, Abc;
    Rounds48(m);
    Words56(m);
    NextVars(m, 56); NextVars(m, 57); NextVars(m, 58); NextVars(m, 59); NextVars(m, 60); NextVars(m, 61); NextVars(m, 62); NextVars(m, 63);
  }

  lemma Rounds64(m: seq<Word>)
    requires Abc(m)
    ensures V(m, 72) == Vars(0x3985_9de7, 0xc199_f8c7, 0x8fc9_6230, 0x125c_24f0, 0xde37_534a)
  {
    hide W, V, Abc;
    Rounds56(m);
    Words64(m);
    NextVars(m, 64); NextVars(m, 65); NextVars(m, 66); NextVars(m, 67); NextVars(m, 68); NextVars(m, 69); NextVars(m, 70); NextVars(m, 71);
  }

  lemma Rounds72(m: seq<Word>)
    requires Abc(m)
    ensures V(m, 80) == Vars(0x4254_1b35, 0x5738_d5e1, 0x2183_4873, 0x681e_6df6, 0xd8fd_f6ad)
  {
    hide W, V, Abc;
    Rounds64(m);
    Words72(m);
    NextVars(m, 72); NextVars(m, 73); NextVars(m, 74); NextVars(m, 75); NextVars(m, 76); NextVars(m, 77); NextVars(m, 78); NextVars(m, 79);
  }

  lemma NoRounds(m: seq<Word>)
    requires Abc(m)
    ensures V(m, 0) == H0
  {
  }

  /** The message with its padding. */
  function Padded(): (p: seq<Byte>)
    ensures |p| == 64
  {
    [0x61, 0x62, 0x63, 0x80] + Zeros(52) + [0, 0, 0, 0, 0, 0, 0, 24]
  }

  lemma LengthPart()
    ensures Bytes(24, 8) == [0, 0, 0, 0, 0, 0, 0, 24]
  {
    ZeroBytes(7);
    assert ByteOf(24) == 24;
  }

  lemma {:induction false} ZeroBytes(k: nat)
    ensures Bytes(0, k) == Zeros(k)
  {
    if k > 0 { ZeroBytes(k - 1); }
  }

  lemma AbcPadded()
    ensures ABC + Padding(3, 24) == Padded()
  {
    LengthPart();
    hide Bytes, Zeros;
    assert Fill(3) == 52;
    Together(ABC, [0x80], Zeros(52), Bytes(24, 8));
  }

  lemma Together(a: seq<Byte>, b: seq<Byte>, c: seq<Byte>, d: seq<Byte>)
    ensures a + (b + c + d) == (a + b) + c + d
  {
  }

  lemma WordsOf()
    ensures BigEndian(0x61, 0x62, 0x63, 0x80) == 0x6162_6380
    ensures BigEndian(0, 0, 0, 0) == 0 && BigEndian(0, 0, 0, 24) == 24
  {
  }

  lemma PaddedAt(j: nat)
    requires 4 <= j < 63
    ensures Padded()[j] == 0
  {
  }

  lemma BlockAt(p: seq<Byte>, i: nat)
    requires |p| == 64 && i < 16
    ensures Block(p)[i] == BigEndian(p[4 * i], p[4 * i + 1], p[4 * i + 2], p[4 * i + 3])
  {
    hide BigEndian;
  }

  lemma AbcBlockIs()
    ensures Block(Padded()) == AbcBlock()
  {
    hide BigEndian, Block;
    WordsOf();
    var p, m := Padded(), AbcBlock();
    forall i | 0 <= i < 16 ensures Block(p)[i] == m[i] {
      BlockAt(p, i);
      if 1 <= i < 15 { PaddedAt(4 * i); PaddedAt(4 * i + 1); PaddedAt(4 * i + 2); PaddedAt(4 * i + 3); }
    }
  }

  lemma AbcSum()
    ensures AddVars(Vars(0x4254_1b35, 0x5738_d5e1, 0x2183_4873, 0x681e_6df6, 0xd8fd_f6ad), H0) ==
            Vars(0xa999_3e36, 0x4706_816a, 0xba3e_2571, 0x7850_c26c, 0x9cd0_d89d)
  {
  }

  lemma AbcCompressed()
    ensures Compress(H0, AbcBlock()) == Vars(0xa999_3e36, 0x4706_816a, 0xba3e_2571, 0x7850_c26c, 0x9cd0_d89d)
  {
    hide *;
    var m := AbcBlock();
    assert Abc(m) by { BlockIsAbc(); }
    Rounds72(m);
    AbcSum();
    CompressIs(m);
  }

  lemma BlockIsAbc()
    ensures Abc(AbcBlock())
  {
  }

  lemma CompressIs(m: seq<Word>)
    requires |m| == 16
    ensures Compress(H0, m) == AddVars(V(m, 80), H0)
  {
    hide Rounds, Add;
  }

  lemma DigestBytes()
    ensures WordBytes(0xa999_3e36) == [0xa9, 0x99, 0x3e, 0x36]
    ensures WordBytes(0x4706_816a) == [0x47, 0x06, 0x81, 0x6a]
    ensures WordBytes(0xba3e_2571) == [0xba, 0x3e, 0x25, 0x71]
    ensures WordBytes(0x7850_c26c) == [0x78, 0x50, 0xc2, 0x6c]
    ensures WordBytes(0x9cd0_d89d) == [0x9c, 0xd0, 0xd8, 0x9d]
  {
  }

  /** The digest that FIPS 180 gives for abc. */
  lemma AbcDigest()
    ensures Sha1Model.Sha1(ABC) ==
            [0xa9, 0x99, 0x3e, 0x36, 0x47, 0x06, 0x81, 0x6a, 0xba, 0x3e,
             0x25, 0x71, 0x78, 0x50, 0xc2, 0x6c, 0x9c, 0xd0, 0xd8, 0x9d]
  {
    hide Compress, Padding, Blocks, Block, WordBytes;
    AbcPadded();
    AbcBlockIs();
    AbcCompressed();
    OneBlock(H0, Padded());
    DigestBytes();
  }
}
