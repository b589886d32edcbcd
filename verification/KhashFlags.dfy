/** The two-bit bucket flags of klib/khash.h, sixteen to a 32-bit word. */
module KhashFlags {

  /** What the two bits of a bucket say: 2 never used, 1 deleted, 0 holding an element.
      No operation of the table produces both bits at once. */
  datatype Slot = Vacant | Deleted | Live | Both

  function Fsize(m: nat): nat { if m < 16 then 1 else m / 16 }

  /** Both bits of bucket i (`__ac_iseither`). */
  function Cell(flags: seq<bv32>, i: nat): bv32
    requires i / 16 < |flags|
  {
    Bits(flags[i / 16], i % 16)
  }

  /** The two bits of bucket k, moved down to the low end of its word. */
  function Bits(w: bv32, k: nat): bv32
    requires k < 16
  {
    match k
    case 0 => (w >> 0) & 3 case 1 => (w >> 2) & 3 case 2 => (w >> 4) & 3 case 3 => (w >> 6) & 3
    case 4 => (w >> 8) & 3 case 5 => (w >> 10) & 3 case 6 => (w >> 12) & 3 case 7 => (w >> 14) & 3
    case 8 => (w >> 16) & 3 case 9 => (w >> 18) & 3 case 10 => (w >> 20) & 3 case 11 => (w >> 22) & 3
    case 12 => (w >> 24) & 3 case 13 => (w >> 26) & 3 case 14 => (w >> 28) & 3 case _ => (w >> 30) & 3
  }

  /** A word with the lower of these two bits set. */
  function One(k: nat): bv32
    requires k < 16
  {
    match k
    case 0 => 0x1 case 1 => 0x4 case 2 => 0x10 case 3 => 0x40
    case 4 => 0x100 case 5 => 0x400 case 6 => 0x1000 case 7 => 0x4000
    case 8 => 0x10000 case 9 => 0x40000 case 10 => 0x100000 case 11 => 0x400000
    case 12 => 0x1000000 case 13 => 0x4000000 case 14 => 0x10000000 case _ => 0x40000000
  }

  function SlotOf(c: bv32): Slot {
    if c & 2 != 0 then (if c & 1 != 0 then Both else Vacant) else if c & 1 != 0 then Deleted else Live
  }

  /** The state of the first n buckets. */
  function Slots(flags: seq<bv32>, n: nat): (s: seq<Slot>)
    requires n <= 16 * |flags|
    ensures |s| == n && forall i :: 0 <= i < n ==> s[i] == SlotOf(Cell(flags, i))
  {
    seq(n, i requires 0 <= i < n => SlotOf(Cell(flags, i)))
  }

  // What the three bit operations of the macros do to one word: or 1, clear 2, clear 3,
  // all shifted to the bucket.
  function OrDel(w: bv32, k: nat): bv32 requires k < 16 { w | One(k) }
  function ClearEmpty(w: bv32, k: nat): bv32 requires k < 16 { w & NotTwo(k) }
  function ClearBoth(w: bv32, k: nat): bv32 requires k < 16 { w & NotThree(k) }
  function NotTwo(k: nat): bv32 requires k < 16 { !(One(k) << 1) }
  function NotThree(k: nat): bv32 requires k < 16 { !(One(k) | (One(k) << 1)) }

  // A mask that leaves a bucket alone, and masks that change it.
  lemma OrZero(w: bv32, m: bv32, k: nat)
    requires k < 16 && Bits(m, k) == 0
    ensures Bits(w | m, k) == Bits(w, k)
  {
    match k
    case 0 => case 1 => case 2 => case 3 =>
    case 4 => case 5 => case 6 => case 7 =>
    case 8 => case 9 => case 10 => case 11 =>
    case 12 => case 13 => case 14 => case _ =>
  }

  lemma AndThree(w: bv32, m: bv32, k: nat)
    requires k < 16 && Bits(m, k) == 3
    ensures Bits(w & m, k) == Bits(w, k)
  {
    match k
    case 0 => case 1 => case 2 => case 3 =>
    case 4 => case 5 => case 6 => case 7 =>
    case 8 => case 9 => case 10 => case 11 =>
    case 12 => case 13 => case 14 => case _ =>
  }

  lemma OrOne(w: bv32, m: bv32, k: nat)
    requires k < 16 && Bits(m, k) == 1 && Bits(w, k) == 0
    ensures Bits(w | m, k) == 1
  {
    match k
    case 0 => case 1 => case 2 => case 3 =>
    case 4 => case 5 => case 6 => case 7 =>
    case 8 => case 9 => case 10 => case 11 =>
    case 12 => case 13 => case 14 => case _ =>
  }

  lemma AndOne(w: bv32, m: bv32, k: nat)
    requires k < 16 && Bits(m, k) == 1 && Bits(w, k) == 2
    ensures Bits(w & m, k) == 0
  {
    match k
    case 0 => case 1 => case 2 => case 3 =>
    case 4 => case 5 => case 6 => case 7 =>
    case 8 => case 9 => case 10 => case 11 =>
    case 12 => case 13 => case 14 => case _ =>
  }

  lemma AndZero(w: bv32, m: bv32, k: nat)
    requires k < 16 && Bits(m, k) == 0
    ensures Bits(w & m, k) == 0
  {
    match k
    case 0 => case 1 => case 2 => case 3 =>
    case 4 => case 5 => case 6 => case 7 =>
    case 8 => case 9 => case 10 => case 11 =>
    case 12 => case 13 => case 14 => case _ =>
  }

  lemma OneBits(i: nat, k: nat)
    requires i < 16 && k < 16
    ensures Bits(One(i), k) == (if i == k then 1 else 0)
    ensures Bits(NotTwo(i), k) == (if i == k then 1 else 3)
    ensures Bits(NotThree(i), k) == (if i == k then 0 else 3)
  {
  }

  lemma BitsRange(w: bv32, k: nat)
    requires k < 16
    ensures Bits(w, k) <= 3
    ensures (Bits(w, k) != 0) <==> (Bits(w, k) & 2 != 0 || Bits(w, k) & 1 != 0)
  {
  }

  // The bits of the other fifteen buckets of the word do not change.

  lemma OtherOrDel(w: bv32, i: nat, k: nat)
    requires i < 16 && k < 16 && i != k
    ensures Bits(OrDel(w, i), k) == Bits(w, k)
  {
    OneBits(i, k);
    hide Bits, One;
    OrZero(w, One(i), k);
  }

  lemma OtherClearEmpty(w: bv32, i: nat, k: nat)
    requires i < 16 && k < 16 && i != k
    ensures Bits(ClearEmpty(w, i), k) == Bits(w, k)
  {
    OneBits(i, k);
    hide Bits, NotTwo;
    AndThree(w, NotTwo(i), k);
  }

  lemma OtherClearBoth(w: bv32, i: nat, k: nat)
    requires i < 16 && k < 16 && i != k
    ensures Bits(ClearBoth(w, i), k) == Bits(w, k)
  {
    OneBits(i, k);
    hide Bits, NotThree;
    AndThree(w, NotThree(i), k);
  }

  // The bucket's own bits do.

  lemma SameOrDel(w: bv32, i: nat)
    requires i < 16 && SlotOf(Bits(w, i)) == Live
    ensures SlotOf(Bits(OrDel(w, i), i)) == Deleted
  {
    BitsRange(w, i);
    SlotValues(Bits(w, i));
    OneBits(i, i);
    hide Bits, One;
    OrOne(w, One(i), i);
  }

  lemma SameClearEmpty(w: bv32, i: nat)
    requires i < 16 && SlotOf(Bits(w, i)) == Vacant
    ensures SlotOf(Bits(ClearEmpty(w, i), i)) == Live
  {
    BitsRange(w, i);
    SlotValues(Bits(w, i));
    OneBits(i, i);
    hide Bits, NotTwo;
    AndOne(w, NotTwo(i), i);
  }

  lemma SameClearBoth(w: bv32, i: nat)
    requires i < 16
    ensures SlotOf(Bits(ClearBoth(w, i), i)) == Live
  {
    OneBits(i, i);
    hide Bits, NotThree;
    AndZero(w, NotThree(i), i);
  }

  lemma SlotValues(c: bv32)
    requires c <= 3
    ensures SlotOf(c) == Live <==> c == 0
    ensures SlotOf(c) == Deleted <==> c == 1
    ensures SlotOf(c) == Vacant <==> c == 2
  {
  }

  /** Writing word w for bucket i changes no other bucket. */
  lemma WordUpdate(flags: seq<bv32>, i: nat, w: bv32, n: nat)
    requires i < n <= 16 * |flags|
    requires forall k: nat :: k < 16 && k != i % 16 ==> Bits(w, k) == Bits(flags[i / 16], k)
    ensures Slots(flags[i / 16 := w], n) == Slots(flags, n)[i := SlotOf(Bits(w, i % 16))]
  {
    hide Bits, SlotOf;
    var flags' := flags[i / 16 := w];
    forall j: nat | j < n ensures Slots(flags', n)[j] == Slots(flags, n)[i := SlotOf(Bits(w, i % 16))][j] {
      if j != i && j / 16 == i / 16 {
        assert j % 16 != i % 16;
      }
    }
  }

  // Reading a bucket.
  predicate IsEmpty(flags: array<bv32>, i: nat)
    requires i / 16 < flags.Length
    reads flags
  {
    Bits(flags[i / 16], i % 16) & 2 != 0
  }

  predicate IsDel(flags: array<bv32>, i: nat)
    requires i / 16 < flags.Length
    reads flags
  {
    Bits(flags[i / 16], i % 16) & 1 != 0
  }

  predicate IsEither(flags: array<bv32>, i: nat)
    requires i / 16 < flags.Length
    reads flags
  {
    Bits(flags[i / 16], i % 16) != 0
  }

  lemma ReadSlot(flags: array<bv32>, i: nat, n: nat)
    requires i < n <= 16 * flags.Length
    ensures var s := Slots(flags[..], n)[i];
            && (IsEmpty(flags, i) <==> s == Vacant || s == Both)
            && (IsDel(flags, i) <==> s == Deleted || s == Both)
            && (IsEither(flags, i) <==> s != Live)
  {
    BitsRange(flags[i / 16], i % 16);
  }

  /** `__ac_set_isdel_true` on a bucket that holds an element. */
  method SetIsdelTrue(flags: array<bv32>, i: nat, ghost n: nat)
    requires i < n <= 16 * flags.Length && Slots(flags[..], n)[i] == Live
    modifies flags
    ensures Slots(flags[..], n) == old(Slots(flags[..], n))[i := Deleted]
  {
    hide SlotOf, Bits, OrDel, Slots;
    ghost var s, w := flags[..], flags[i / 16];
    var w' := OrDel(flags[i / 16], i % 16);
    forall k: nat | k < 16 && k != i % 16 ensures Bits(w', k) == Bits(w, k) { OtherOrDel(w, i % 16, k); }
    SameOrDel(w, i % 16);
    WordUpdate(s, i, w', n);
    flags[i / 16] := w';
    assert flags[..] == s[i / 16 := w'];
  }

  /** `__ac_set_isempty_false` on a bucket never used. */
  method SetIsemptyFalse(flags: array<bv32>, i: nat, ghost n: nat)
    requires i < n <= 16 * flags.Length && Slots(flags[..], n)[i] == Vacant
    modifies flags
    ensures Slots(flags[..], n) == old(Slots(flags[..], n))[i := Live]
  {
    hide SlotOf, Bits, ClearEmpty, Slots;
    ghost var s, w := flags[..], flags[i / 16];
    var w' := ClearEmpty(flags[i / 16], i % 16);
    forall k: nat | k < 16 && k != i % 16 ensures Bits(w', k) == Bits(w, k) { OtherClearEmpty(w, i % 16, k); }
    SameClearEmpty(w, i % 16);
    WordUpdate(s, i, w', n);
    flags[i / 16] := w';
    assert flags[..] == s[i / 16 := w'];
  }

  /** `__ac_set_isboth_false`. */
  method SetIsbothFalse(flags: array<bv32>, i: nat, ghost n: nat)
    requires i < n <= 16 * flags.Length
    modifies flags
    ensures Slots(flags[..], n) == old(Slots(flags[..], n))[i := Live]
  {
    hide SlotOf, Bits, ClearBoth, Slots;
    ghost var s, w := flags[..], flags[i / 16];
    var w' := ClearBoth(flags[i / 16], i % 16);
    forall k: nat | k < 16 && k != i % 16 ensures Bits(w', k) == Bits(w, k) { OtherClearBoth(w, i % 16, k); }
    SameClearBoth(w, i % 16);
    WordUpdate(s, i, w', n);
    flags[i / 16] := w';
    assert flags[..] == s[i / 16 := w'];
  }

  /** memset(flags, 0xaa, ...): every bucket becomes vacant. */
  method SetAllVacant(flags: array<bv32>, ghost n: nat)
    requires n <= 16 * flags.Length
    modifies flags
    ensures Slots(flags[..], n) == seq(n, _ => Vacant)
  {
    for j := 0 to flags.Length
      invariant forall i :: 0 <= i < j ==> flags[i] == 0xaaaa_aaaa
    {
      flags[j] := 0xaaaa_aaaa;
    }
    forall i | 0 <= i < n ensures Slots(flags[..], n)[i] == Vacant {
      AllVacant(i % 16);
    }
  }

  lemma AllVacant(k: nat)
    requires k < 16
    ensures SlotOf(Bits(0xaaaa_aaaa, k)) == Vacant
  {
  }
}
