/** The SHA-1 and HMAC stream object of klib/kurl.c. */
module Sha1 {
  import opened Arithmetic
  import opened Sha1Model

  function F0(x: Word): Word { (x >> 24) & 0xff }
  function F1(x: Word): Word { (x >> 16) & 0xff }
  function F2(x: Word): Word { (x >> 8) & 0xff }
  function F3(x: Word): Word { x & 0xff }

  /** Byte k of a word, where byte 0 is the most significant: on a little-endian machine the byte
      at offset k ^ 3, which is how the source addresses it. */
  function Field(x: Word, k: nat): Word
    requires k < 4
  {
    if k == 0 then F0(x) else if k == 1 then F1(x) else if k == 2 then F2(x) else F3(x)
  }

  function GetByte(x: Word, k: nat): Byte
    requires k < 4
  {
    Narrow(Field(x, k))
  }

  function S0(x: Word, m: Word): Word { (x & 0x00ff_ffff) | (m << 24) }
  function S1(x: Word, m: Word): Word { (x & 0xff00_ffff) | (m << 16) }
  function S2(x: Word, m: Word): Word { (x & 0xffff_00ff) | (m << 8) }
  function S3(x: Word, m: Word): Word { (x & 0xffff_ff00) | m }

  function SetField(x: Word, k: nat, m: Word): Word
    requires k < 4
  {
    if k == 0 then S0(x, m) else if k == 1 then S1(x, m) else if k == 2 then S2(x, m) else S3(x, m)
  }

  function PutByte(x: Word, k: nat, d: Byte): Word
    requires k < 4
  {
    SetField(x, k, Wide(d))
  }

  lemma WideSmall(d: Byte)
    ensures Wide(d) & 0xff == Wide(d) && Narrow(Wide(d)) == d
  {
  }

  lemma NarrowWide(x: Word)
    ensures Wide(Narrow(x)) == x & 0xff
  {
  }

  lemma Set0(x: Word, m: Word)
    requires m & 0xff == m
    ensures F0(S0(x, m)) == m && F1(S0(x, m)) == F1(x) && F2(S0(x, m)) == F2(x) && F3(S0(x, m)) == F3(x)
  {
  }

  lemma Set1(x: Word, m: Word)
    requires m & 0xff == m
    ensures F0(S1(x, m)) == F0(x) && F1(S1(x, m)) == m && F2(S1(x, m)) == F2(x) && F3(S1(x, m)) == F3(x)
  {
  }

  lemma Set2(x: Word, m: Word)
    requires m & 0xff == m
    ensures F0(S2(x, m)) == F0(x) && F1(S2(x, m)) == F1(x) && F2(S2(x, m)) == m && F3(S2(x, m)) == F3(x)
  {
  }

  lemma Set3(x: Word, m: Word)
    requires m & 0xff == m
    ensures F0(S3(x, m)) == F0(x) && F1(S3(x, m)) == F1(x) && F2(S3(x, m)) == F2(x) && F3(S3(x, m)) == m
  {
  }

  lemma SetFields(x: Word, k: nat, m: Word)
    requires k < 4 && m & 0xff == m
    ensures forall j :: 0 <= j < 4 ==> Field(SetField(x, k, m), j) == if j == k then m else Field(x, j)
  {
    hide F0, F1, F2, F3, S0, S1, S2, S3;
    Set0(x, m);
    Set1(x, m);
    Set2(x, m);
    Set3(x, m);
  }

  lemma PutBytes(x: Word, k: nat, d: Byte)
    requires k < 4
    ensures forall j :: 0 <= j < 4 ==> GetByte(PutByte(x, k, d), j) == if j == k then d else GetByte(x, j)
  {
    hide Wide, Narrow, Field, SetField;
    WideSmall(d);
    SetFields(x, k, Wide(d));
  }

  lemma Fields(x: Word)
    ensures x == (Field(x, 0) << 24) | (Field(x, 1) << 16) | (Field(x, 2) << 8) | Field(x, 3)
  {
  }

  lemma FieldSmall(x: Word, k: nat)
    requires k < 4
    ensures Field(x, k) & 0xff == Field(x, k)
  {
  }

  lemma WordOf(x: Word)
    ensures x == BigEndian(GetByte(x, 0), GetByte(x, 1), GetByte(x, 2), GetByte(x, 3))
  {
    hide Wide, Narrow, Field;
    Fields(x);
    FieldSmall(x, 0); FieldSmall(x, 1); FieldSmall(x, 2); FieldSmall(x, 3);
    NarrowWide(Field(x, 0)); NarrowWide(Field(x, 1)); NarrowWide(Field(x, 2)); NarrowWide(Field(x, 3));
  }

  // The source's forms of Ch and Maj, and its order of additions.
  function Choose(b: Word, c: Word, d: Word): Word { d ^ (b & (c ^ d)) }
  function Majority(b: Word, c: Word, d: Word): Word { (b & c) | (d & (b | c)) }
  function Gather(k: Word, f: Word, a: Word, e: Word, w: Word): Word { (k + f) + (a + e + w) }

  lemma ChIs(b: Word, c: Word, d: Word)
    ensures d ^ (b & (c ^ d)) == Ch(b, c, d)
  {
  }

  lemma ChooseIs(b: Word, c: Word, d: Word)
    ensures Choose(b, c, d) == d ^ (b & (c ^ d))
  {
  }

  lemma ChooseIsCh(b: Word, c: Word, d: Word)
    ensures Choose(b, c, d) == Ch(b, c, d)
  {
    hide *;
    ChooseIs(b, c, d);
    ChIs(b, c, d);
  }

  lemma MajIs(b: Word, c: Word, d: Word)
    ensures (b & c) | (d & (b | c)) == Maj(b, c, d)
  {
  }

  lemma MajorityIs(b: Word, c: Word, d: Word)
    ensures Majority(b, c, d) == (b & c) | (d & (b | c))
  {
  }

  lemma MajorityIsMaj(b: Word, c: Word, d: Word)
    ensures Majority(b, c, d) == Maj(b, c, d)
  {
    hide *;
    MajorityIs(b, c, d);
    MajIs(b, c, d);
  }

  lemma GatherIsAdd5(k: Word, f: Word, a: Word, e: Word, w: Word)
    ensures Gather(k, f, a, e, w) == Add5(a, f, e, k, w)
  {
  }

  // ------------------------------------------------------------------
  // Hashing a block in sixteen words
  // ------------------------------------------------------------------

  function VarsOf(s: seq<Word>): Vars
    requires |s| == 5
  {
    Vars(s[0], s[1], s[2], s[3], s[4])
  }

  function Lo(i: nat): nat { if i < 16 then 0 else i - 16 }
  function Hi(i: nat): nat { if i < 16 then 16 else i }

  /** Before round i the words hold the last sixteen entries of the schedule. */
  ghost predicate Window(w: seq<Word>, m: seq<Word>, i: nat) {
    |w| == |m| == 16 && forall t: nat :: Lo(i) <= t < Hi(i) ==> w[t % 16] == Schedule(m, t)
  }

  lemma WindowStart(m: seq<Word>)
    requires |m| == 16
    ensures Window(m, m, 0)
  {
  }

  lemma WindowAt(w: seq<Word>, m: seq<Word>, i: nat, t: nat)
    requires Window(w, m, i) && Lo(i) <= t < Hi(i)
    ensures |w| == |m| == 16 && w[t % 16] == Schedule(m, t)
  {
  }

  /** The entry that round i needs, and where the earlier ones it is made of are found. */
  lemma WindowNext(w: seq<Word>, m: seq<Word>, i: nat)
    requires Window(w, m, i)
    ensures |w| == |m| == 16
    ensures i < 16 ==> w[i % 16] == Schedule(m, i) && Window(w, m, i + 1)
    ensures i >= 16 ==>
              && Schedule(m, i) == Rotl1(Xor(Xor(Xor(w[(i + 13) % 16], w[(i + 8) % 16]), w[(i + 2) % 16]), w[i % 16]))
              && Window(w[i % 16 := Schedule(m, i)], m, i + 1)
  {
    if i < 16 {
      WindowAt(w, m, i, i);
    } else {
      WindowAt(w, m, i, i - 3);
      WindowAt(w, m, i, i - 8);
      WindowAt(w, m, i, i - 14);
      WindowAt(w, m, i, i - 16);
      ModPlus(i - 3, 16);
      ModPlus(i - 8, 16);
      ModPlus(i - 14, 16);
      ModPlus(i - 16, 16);
      WindowPut(w, m, i);
    }
  }

  lemma WindowPut(w: seq<Word>, m: seq<Word>, i: nat)
    requires Window(w, m, i) && i >= 16
    ensures Window(w[i % 16 := Schedule(m, i)], m, i + 1)
  {
    hide Schedule;
    var w' := w[i % 16 := Schedule(m, i)];
    forall t: nat | Lo(i + 1) <= t < Hi(i + 1) ensures w'[t % 16] == Schedule(m, t) {
      if t < i && t % 16 == i % 16 { ModGap(t, i, 16); }
    }
  }

  /** The body of the loop over the rounds. */
  method OneRound(i: nat, v: Vars, w: Word) returns (v': Vars)
    ensures v' == Round(v, i, w)
  {
    hide *;
    var a, b, c, d, e := v.a, v.b, v.c, v.d, v.e;
    var t;
    if i < 20 { t := Gather(0x5a82_7999, Choose(b, c, d), Rotl5(a), e, w); }
    else if i < 40 { t := Gather(0x6ed9_eba1, Parity(b, c, d), Rotl5(a), e, w); }
    else if i < 60 { t := Gather(0x8f1b_bcdc, Majority(b, c, d), Rotl5(a), e, w); }
    else { t := Gather(0xca62_c1d6, Parity(b, c, d), Rotl5(a), e, w); }
    ChooseIsCh(b, c, d);
    MajorityIsMaj(b, c, d);
    MixIs(i, b, c, d);
    GatherIsAdd5(K(i), Mix(i, b, c, d), Rotl5(a), e, w);
    e := d;
    d := c;
    c := Rotl30(b);
    b := a;
    a := t;
    v' := Vars(a, b, c, d, e);
    RoundIs(v, i, w);
  }

  lemma MixIs(i: nat, b: Word, c: Word, d: Word)
    ensures i < 20 ==> Mix(i, b, c, d) == Ch(b, c, d) && K(i) == 0x5a82_7999
    ensures 20 <= i < 40 ==> Mix(i, b, c, d) == Parity(b, c, d) && K(i) == 0x6ed9_eba1
    ensures 40 <= i < 60 ==> Mix(i, b, c, d) == Maj(b, c, d) && K(i) == 0x8f1b_bcdc
    ensures 60 <= i ==> Mix(i, b, c, d) == Parity(b, c, d) && K(i) == 0xca62_c1d6
  {
    hide Ch, Parity, Maj;
  }

  lemma RoundIs(v: Vars, t: nat, w: Word)
    ensures Round(v, t, w) == Vars(Add5(Rotl5(v.a), Mix(t, v.b, v.c, v.d), v.e, K(t), w), v.a, Rotl30(v.b), v.c, v.d)
  {
    hide Add5, Rotl5, Rotl30, Mix, K;
  }

  /** `sha1_hashBlock`: the schedule is made in place, in the sixteen words of the buffer. */
  method HashBlock(w: array<Word>, state: array<Word>)
    requires w.Length == 16 && state.Length == 5 && w != state
    modifies w, state
    ensures VarsOf(state[..]) == Compress(old(VarsOf(state[..])), old(w[..]))
  {
    hide *;
    ghost var m := w[..];
    var h := Vars(state[0], state[1], state[2], state[3], state[4]);
    var v := h;
    WindowStart(m);
    RoundsStart(h, m);
    for i := 0 to 80
      invariant state[..] == old(state[..]) && Window(w[..], m, i) && v == Rounds(h, m, i)
    {
      WindowNext(w[..], m, i);
      if i >= 16 {
        var t := Xor(Xor(Xor(w[(i + 13) % 16], w[(i + 8) % 16]), w[(i + 2) % 16]), w[i % 16]);
        ghost var before := w[..];
        w[i % 16] := Rotl1(t);
        assert w[..] == before[i % 16 := Schedule(m, i)];
      }
      RoundsNext(h, m, i);
      v := OneRound(i, v, w[i % 16]);
    }
    ghost var s := state[..];
    VarsOfIs(s);
    state[0], state[1], state[2], state[3], state[4] :=
      Add(v.a, state[0]), Add(v.b, state[1]), Add(v.c, state[2]), Add(v.d, state[3]), Add(v.e, state[4]);
    VarsOfIs(state[..]);
    CompressIs(h, m, v);
  }

  lemma VarsOfIs(s: seq<Word>)
    requires |s| == 5
    ensures VarsOf(s) == Vars(s[0], s[1], s[2], s[3], s[4])
  {
  }

  lemma RoundsStart(h: Vars, m: seq<Word>)
    requires |m| == 16
    ensures Rounds(h, m, 0) == h
  {
  }

  lemma RoundsNext(h: Vars, m: seq<Word>, i: nat)
    requires |m| == 16
    ensures Rounds(h, m, i + 1) == Round(Rounds(h, m, i), i, Schedule(m, i))
  {
  }

  lemma CompressIs(h: Vars, m: seq<Word>, v: Vars)
    requires |m| == 16 && v == Rounds(h, m, 80)
    ensures Compress(h, m) == Vars(Add(v.a, h.a), Add(v.b, h.b), Add(v.c, h.c), Add(v.d, h.d), Add(v.e, h.e))
  {
    hide Rounds, Add;
  }

  // ------------------------------------------------------------------
  // The stream
  // ------------------------------------------------------------------

  /** The first off bytes of the buffer are the last off bytes of what has been added. */
  ghost predicate Pending(w: seq<Word>, fed: seq<Byte>, off: nat) {
    && |w| == 16 && off <= 64 && off <= |fed|
    && forall k: nat :: k < off ==> GetByte(w[k / 4], k % 4) == fed[|fed| - off + k]
  }

  lemma PendingNone(w: seq<Word>, fed: seq<Byte>)
    requires |w| == 16
    ensures Pending(w, fed, 0)
  {
  }

  lemma PendingNext(w: seq<Word>, fed: seq<Byte>, off: nat, d: Byte)
    requires Pending(w, fed, off) && off < 64
    ensures |w| == 16 && off / 4 < 16
    ensures Pending(w[off / 4 := PutByte(w[off / 4], off % 4, d)], fed + [d], off + 1)
  {
    hide GetByte, PutByte;
    PutBytes(w[off / 4], off % 4, d);
    var w', fed' := w[off / 4 := PutByte(w[off / 4], off % 4, d)], fed + [d];
    forall k: nat | k < off + 1 ensures GetByte(w'[k / 4], k % 4) == fed'[|fed'| - (off + 1) + k] {
      if k < off {
        assert fed'[|fed'| - (off + 1) + k] == fed[|fed| - off + k];
        if k / 4 == off / 4 { assert k % 4 != off % 4; }
      }
    }
  }

  lemma PendingFull(w: seq<Word>, fed: seq<Byte>)
    requires Pending(w, fed, 64)
    ensures |fed| >= 64 && w == Block(fed[|fed| - 64..])
  {
    var b := fed[|fed| - 64..];
    forall i | 0 <= i < 16 ensures w[i] == Block(b)[i] {
      PendingAt(w, fed, 4 * i);
      PendingAt(w, fed, 4 * i + 1);
      PendingAt(w, fed, 4 * i + 2);
      PendingAt(w, fed, 4 * i + 3);
      WordOf(w[i]);
    }
  }

  lemma PendingAt(w: seq<Word>, fed: seq<Byte>, k: nat)
    requires Pending(w, fed, 64) && k < 64
    ensures |w| == 16 && |fed| >= 64 && GetByte(w[k / 4], k % 4) == fed[|fed| - 64..][k]
  {
  }

  /** h is the hash value after all complete blocks of fed. */
  ghost predicate Hashed(h: Vars, fed: seq<Byte>, off: nat) {
    off <= |fed| && (|fed| - off) % 64 == 0 && h == Blocks(H0, fed[..|fed| - off])
  }

  lemma HashedNext(h: Vars, fed: seq<Byte>, off: nat, d: Byte)
    requires Hashed(h, fed, off)
    ensures Hashed(h, fed + [d], off + 1)
  {
    assert (fed + [d])[..|fed| - off] == fed[..|fed| - off];
  }

  lemma HashedBlock(h: Vars, fed: seq<Byte>)
    requires Hashed(h, fed, 64)
    ensures Hashed(Compress(h, Block(fed[|fed| - 64..])), fed, 0)
  {
    var n := |fed| - 64;
    assert fed[..n] + fed[n..] == fed && fed[..|fed|] == fed;
    BlocksAppend(H0, fed[..n], fed[n..]);
    OneBlock(h, fed[n..]);
  }

  class Sha1Info {
    const w: array<Word>
    const state: array<Word>
    const keyBuffer: array<Byte>
    const innerHash: array<Byte>
    var bufOffset: nat
    var byteCount: nat
    ghost var fed: seq<Byte>

    constructor ()
      ensures Shaped() && fresh(w) && fresh(state) && fresh(keyBuffer) && fresh(innerHash)
    {
      w, state, keyBuffer, innerHash := new Word[16], new Word[5], new Byte[64], new Byte[20];
      bufOffset, byteCount, fed := 0, 0, [];
    }

    predicate Shaped() {
      w.Length == 16 && state.Length == 5 && w != state && keyBuffer.Length == 64 && innerHash.Length == 20 && keyBuffer != innerHash
    }

    /** All bytes of fed have gone in; those of the last block are in the buffer. */
    ghost predicate Fed()
      reads this, w, state
    {
      && Shaped() && bufOffset < 64
      && Hashed(VarsOf(state[..]), fed, bufOffset) && Pending(w[..], fed, bufOffset)
    }

    /** Nothing but message bytes has gone in, and they have been counted. */
    ghost predicate Open()
      reads this, w, state
    {
      Fed() && byteCount == |fed| % 0x1_0000_0000
    }

    /** `sha1_init`. The source copies bytes; on a little-endian machine they are these words. */
    method Init()
      requires Shaped()
      modifies this, state
      ensures Open() && fed == []
    {
      hide *;
      ShapedIs();
      state[0], state[1], state[2], state[3], state[4] := H0.a, H0.b, H0.c, H0.d, H0.e;
      byteCount, bufOffset, fed := 0, 0, [];
      InitIs();
    }

    lemma ShapedIs()
      requires Shaped()
      ensures w.Length == 16 && state.Length == 5 && w != state && keyBuffer.Length == 64 && innerHash.Length == 20
    {
    }

    lemma InitIs()
      requires Shaped() && bufOffset == 0 && byteCount == 0 && fed == []
      requires state.Length == 5 && VarsIs(state[..], H0)
      ensures Open()
    {
      PendingNone(w[..], fed);
    }

    /** `sha1_add` */
    method AddByte(data: Byte)
      requires Fed()
      modifies this, w, state
      ensures Fed() && fed == old(fed) + [data] && byteCount == old(byteCount)
    {
      hide *;
      FedIs();
      ghost var ws := w[..];
      PendingNext(ws, fed, bufOffset, data);
      HashedNext(VarsOf(state[..]), fed, bufOffset, data);
      w[bufOffset / 4] := PutByte(w[bufOffset / 4], bufOffset % 4, data);
      assert w[..] == ws[bufOffset / 4 := PutByte(ws[bufOffset / 4], bufOffset % 4, data)];
      bufOffset, fed := bufOffset + 1, fed + [data];
      if bufOffset == 64 {
        PendingFull(w[..], fed);
        HashedBlock(VarsOf(state[..]), fed);
        HashBlock(w, state);
        bufOffset := 0;
        PendingNone(w[..], fed);
      }
      FedIf();
    }

    lemma FedIs()
      requires Fed()
      ensures Shaped() && w.Length == 16 && state.Length == 5 && w != state && bufOffset < 64
      ensures Hashed(VarsOf(state[..]), fed, bufOffset) && Pending(w[..], fed, bufOffset)
    {
    }

    lemma FedIf()
      requires Shaped() && bufOffset < 64 && state.Length == 5
      requires Hashed(VarsOf(state[..]), fed, bufOffset) && Pending(w[..], fed, bufOffset)
      ensures Fed()
    {
    }

    /** `sha1_write1` */
    method Write1(data: Byte)
      requires Open()
      modifies this, w, state
      ensures Open() && fed == old(fed) + [data]
    {
      hide Hashed, Pending, Shaped;
      byteCount := (byteCount + 1) % 0x1_0000_0000;
      AddByte(data);
    }

    /** `sha1_write`: however a message is cut into pieces, what counts is the pieces put together. */
    method Write(data: seq<Byte>)
      requires Open()
      modifies this, w, state
      ensures Open() && fed == old(fed) + data
    {
      for i := 0 to |data|
        invariant Open() && fed == old(fed) + data[..i]
      {
        Write1(data[i]);
        assert data[..i + 1] == data[..i] + [data[i]];
      }
      assert data[..|data|] == data;
    }

    /** `sha1_final`: the digest of all bytes written. The number of bits that goes into the padding
        is that of the byte counter, which has 32 bits. */
    method Final() returns (digest: array<Byte>)
      requires Open()
      modifies this, w, state
      ensures Shaped() && fresh(digest) && digest[..] == HashWith(old(fed), 8 * (|old(fed)| % 0x1_0000_0000))
      ensures |old(fed)| < 0x1_0000_0000 ==> digest[..] == Sha1Model.Sha1(old(fed))
    {
      hide *;
      ghost var msg, n := fed, |fed|;
      OpenIs();
      var count := byteCount;
      AddByte(0x80);
      AddZeros(n, msg + [0x80]);
      AddLength(count);
      PaddingIs(n, 8 * count);
      assert fed == msg + Padding(n, 8 * count);
      FedIs();
      PaddedWhole(msg, 8 * count);
      OffsetIs();
      WholeIs(VarsOf(state[..]), fed);
      HashWithIs(msg, 8 * count);
      digest := Output();
      if n < 0x1_0000_0000 { SmallMod(n, 0x1_0000_0000); Sha1Is(msg); }
    }

    /** The loop that adds zeros until eight bytes are left in the block. */
    method AddZeros(ghost n: nat, ghost start: seq<Byte>)
      requires Fed() && fed == start && |start| == n + 1
      modifies this, w, state
      ensures Fed() && fed == start + Zeros(Fill(n))
    {
      hide *;
      ghost var j := 0;
      FedIs();
      OffsetIs();
      assert fed == start + Zeros(0);
      while bufOffset != 56
        invariant Fed() && j <= Fill(n) && fed == start + Zeros(j) && bufOffset == (n + 1 + j) % 64
        decreases Fill(n) - j
      {
        FillNext(n, j);
        AddByte(0);
        FedIs();
        OffsetIs();
        assert Zeros(j) + [0] == Zeros(j + 1);
        j := j + 1;
      }
      FillDone(n, j);
    }

    method AddLength(count: nat)
      requires Fed() && count < 0x1_0000_0000
      modifies this, w, state
      ensures Fed() && fed == old(fed) + Bytes(8 * count, 8)
    {
      hide *;
      AddByte(0);
      AddByte(0);
      AddByte(0);
      AddByte(ByteOf(count / 0x2000_0000 % 256));
      AddByte(ByteOf(count / 0x20_0000 % 256));
      AddByte(ByteOf(count / 0x2000 % 256));
      AddByte(ByteOf(count / 0x20 % 256));
      AddByte(ByteOf(count * 8 % 0x1_0000_0000 % 256));
      LengthBytes(count);
    }

    lemma OpenIs()
      requires Open()
      ensures Fed() && Shaped() && bufOffset == |fed| % 64 && byteCount == |fed| % 0x1_0000_0000
    {
    }

    lemma OffsetIs()
      requires Fed()
      ensures bufOffset == |fed| % 64
    {
    }

    /** The last loop of `sha1_final` reverses the bytes of each word, so that they are stored with
        the most significant first. */
    method Output() returns (digest: array<Byte>)
      requires Shaped()
      modifies state
      ensures fresh(digest) && digest[..] == Digest(old(VarsOf(state[..])))
    {
      hide *;
      ShapedIs();
      VarsOfIs(state[..]);
      ghost var s := state[..];
      for i := 0 to 5
        invariant forall k :: 0 <= k < i ==> state[k] == Reverse(s[k])
        invariant forall k :: i <= k < 5 ==> state[k] == s[k]
      {
        state[i] := Reverse(state[i]);
      }
      digest := new Byte[20];
      for i := 0 to 5
        invariant forall k :: 0 <= k < 5 ==> state[k] == Reverse(s[k])
        invariant digest.Length == 20 && digest[..4 * i] == FirstBytes(s, i)
      {
        ReverseBytes(s[i]);
        FirstBytesNext(s, i);
        ghost var before := digest[..4 * i];
        digest[4 * i], digest[4 * i + 1], digest[4 * i + 2], digest[4 * i + 3] :=
          Narrow(state[i]), Narrow(Shift8(state[i])), Narrow(Shift16(state[i])), Narrow(Shift24(state[i]));
        assert digest[..4 * (i + 1)] == before + [digest[4 * i], digest[4 * i + 1], digest[4 * i + 2], digest[4 * i + 3]];
      }
      assert digest[..20] == digest[..];
      DigestIs(s);
    }

    /** `sha1_init_hmac` */
    method InitHmac(key: seq<Byte>)
      requires Shaped() && |key| < 0x8000_0000
      modifies this, w, state, keyBuffer
      ensures Open() && keyBuffer[..] == BlockKey(key) && fed == XorAll(BlockKey(key), 0x36)
    {
      hide *;
      ShapedIs();
      for i := 0 to 64
        invariant forall k :: 0 <= k < i ==> keyBuffer[k] == 0
      {
        keyBuffer[i] := 0;
      }
      assert keyBuffer[..] == Zeros(64);
      if |key| > 64 {
        Init();
        Write(key);
        assert [] + key == key;
        var digest := Final();
        Copy(digest[..], 20);
      } else {
        Copy(key, |key|);
      }
      BlockKeyIs(key);
      Init();
      WriteKey(0x36);
      assert [] + XorAll(BlockKey(key), 0x36) == XorAll(BlockKey(key), 0x36);
    }

    /** memcpy to the beginning of the key buffer. */
    method Copy(b: seq<Byte>, n: nat)
      requires Shaped() && n == |b| <= 64 && keyBuffer[..] == Zeros(64)
      modifies keyBuffer
      ensures keyBuffer[..] == b + Zeros(64 - n)
    {
      for i := 0 to n
        invariant forall k :: 0 <= k < i ==> keyBuffer[k] == b[k]
        invariant forall k :: i <= k < 64 ==> keyBuffer[k] == old(keyBuffer[k])
      {
        keyBuffer[i] := b[i];
      }
      assert forall k :: 0 <= k < 64 ==> old(keyBuffer[k]) == old(keyBuffer[..])[k];
    }

    method WriteKey(pad: Byte)
      requires Open()
      modifies this, w, state
      ensures Open() && fed == old(fed) + XorAll(keyBuffer[..], pad)
    {
      hide *;
      OpenIs();
      ShapedIs();
      ghost var x := XorAll(keyBuffer[..], pad);
      for i := 0 to 64
        invariant Open() && fed == old(fed) + x[..i]
      {
        Write1(keyBuffer[i] ^ pad);
        assert x[..i + 1] == x[..i] + [x[i]];
      }
      assert x[..64] == x;
    }

    /** `sha1_final_hmac`, after `sha1_init_hmac` with the key and writing the text. */
    method FinalHmac(ghost key: seq<Byte>, ghost text: seq<Byte>) returns (digest: array<Byte>)
      requires Open() && keyBuffer[..] == BlockKey(key) && fed == XorAll(BlockKey(key), 0x36) + text
      requires |text| + 64 < 0x1_0000_0000
      modifies this, w, state, innerHash
      ensures Shaped() && fresh(digest) && digest[..] == Hmac(key, text)
    {
      hide *;
      OpenIs();
      ShapedIs();
      var inner := Final();
      ghost var hash := inner[..];
      for i := 0 to 20
        invariant inner[..] == hash && innerHash[..i] == hash[..i]
      {
        innerHash[i] := inner[i];
      }
      assert innerHash[..] == hash;
      Init();
      WriteKey(0x5c);
      ghost var outer := fed;
      for i := 0 to 20
        invariant innerHash[..] == hash && Open() && fed == outer + innerHash[..i]
      {
        Write1(innerHash[i]);
      }
      assert innerHash[..20] == innerHash[..];
      assert fed == XorAll(BlockKey(key), 0x5c) + hash;
      digest := Final();
      HmacIs(key, text);
    }
  }

  /** The bytes of the first i words. */
  function FirstBytes(s: seq<Word>, i: nat): (b: seq<Byte>)
    requires i <= |s|
    ensures |b| == 4 * i
  {
    if i == 0 then [] else FirstBytes(s, i - 1) + WordBytes(s[i - 1])
  }

  lemma FirstBytesNext(s: seq<Word>, i: nat)
    requires i < |s|
    ensures FirstBytes(s, i + 1) == FirstBytes(s, i) + WordBytes(s[i]) && FirstBytes(s, 0) == []
  {
  }

  lemma BlockKeyIs(key: seq<Byte>)
    ensures BlockKey(key) == if |key| > 64 then Sha1Model.Sha1(key) + Zeros(44) else key + Zeros(64 - |key|)
  {
  }

  lemma HmacIs(key: seq<Byte>, text: seq<Byte>)
    ensures var k := BlockKey(key);
            Hmac(key, text) == Sha1Model.Sha1(XorAll(k, 0x5c) + Sha1Model.Sha1(XorAll(k, 0x36) + text))
  {
  }

  function Shift8(x: Word): Word { x >> 8 }
  function Shift16(x: Word): Word { x >> 16 }
  function Shift24(x: Word): Word { x >> 24 }

  /** The four bytes of a word in the opposite order. */
  function Reverse(a: Word): Word { (a << 24) | ((a << 8) & 0x00ff_0000) | ((a >> 8) & 0x0000_ff00) | (a >> 24) }

  lemma ReverseFields(a: Word)
    ensures var r := Reverse(a);
            && r & 0xff == (a >> 24) & 0xff && Shift8(r) & 0xff == (a >> 16) & 0xff
            && Shift16(r) & 0xff == (a >> 8) & 0xff && Shift24(r) & 0xff == a & 0xff
  {
  }

  lemma ReverseBytes(a: Word)
    ensures var r := Reverse(a);
            WordBytes(a) == [Narrow(r), Narrow(Shift8(r)), Narrow(Shift16(r)), Narrow(Shift24(r))]
  {
    ReverseFields(a);
    hide Reverse, Shift8, Shift16, Shift24;
  }

  lemma DigestIs(s: seq<Word>)
    requires |s| == 5
    ensures FirstBytes(s, 5) == Digest(VarsOf(s))
  {
    hide WordBytes;
    FirstBytesNext(s, 0);
    FirstBytesNext(s, 1);
    FirstBytesNext(s, 2);
    FirstBytesNext(s, 3);
    FirstBytesNext(s, 4);
  }

  lemma FillNext(n: nat, j: nat)
    requires j <= Fill(n) && (n + 1 + j) % 64 != 56
    ensures j < Fill(n)
  {
  }

  lemma FillDone(n: nat, j: nat)
    requires j <= Fill(n) && (n + 1 + j) % 64 == 56
    ensures j == Fill(n)
  {
    ModGap(n + 1 + j, n + 1 + Fill(n), 64);
  }

  lemma LengthBytes(n: nat)
    requires n < 0x1_0000_0000
    ensures Bytes(8 * n, 8) == [0, 0, 0, ByteOf(n / 0x2000_0000 % 256), ByteOf(n / 0x20_0000 % 256),
                                ByteOf(n / 0x2000 % 256), ByteOf(n / 0x20 % 256), ByteOf(n * 8 % 0x1_0000_0000 % 256)]
  {
    hide *;
    LengthDivs(n);
    BytesStep(8 * n, 7);
    BytesStep(n / 0x20, 6);
    BytesStep(n / 0x2000, 5);
    BytesStep(n / 0x20_0000, 4);
    BytesStep(n / 0x2000_0000, 3);
    BytesZero();
  }

  lemma LengthDivs(n: nat)
    requires n < 0x1_0000_0000
    ensures 8 * n / 256 == n / 0x20 && n / 0x20 / 256 == n / 0x2000 && n / 0x2000 / 256 == n / 0x20_0000
    ensures n / 0x20_0000 / 256 == n / 0x2000_0000 && n / 0x2000_0000 / 256 == 0
    ensures 8 * n % 256 == n * 8 % 0x1_0000_0000 % 256
  {
  }

  lemma BytesStep(n: nat, k: nat)
    ensures Bytes(n, k + 1) == Bytes(n / 256, k) + [ByteOf(n % 256)]
  {
  }

  lemma BytesZero()
    ensures Bytes(0, 3) == [0, 0, 0]
  {
    assert ByteOf(0) == 0;
    assert Bytes(0, 0) == [];
    BytesStep(0, 0);
    BytesStep(0, 1);
    BytesStep(0, 2);
  }

  lemma PaddingIs(n: nat, bits: nat)
    ensures Padding(n, bits) == [0x80] + Zeros(Fill(n)) + Bytes(bits, 8)
  {
  }

  lemma PaddedWhole(m: seq<Byte>, bits: nat)
    ensures |m + Padding(|m|, bits)| % 64 == 0
  {
  }

  lemma WholeIs(h: Vars, fed: seq<Byte>)
    requires Hashed(h, fed, 0)
    ensures h == Blocks(H0, fed)
  {
    assert fed[..|fed|] == fed;
  }

  lemma HashWithIs(m: seq<Byte>, bits: nat)
    ensures HashWith(m, bits) == Digest(Blocks(H0, m + Padding(|m|, bits)))
  {
  }

  lemma Sha1Is(m: seq<Byte>)
    ensures Sha1Model.Sha1(m) == HashWith(m, 8 * |m|)
  {
  }

  ghost predicate VarsIs(s: seq<Word>, h: Vars) {
    |s| == 5 && s[0] == h.a && s[1] == h.b && s[2] == h.c && s[3] == h.d && s[4] == h.e
  }
}
