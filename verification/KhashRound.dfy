/** kroundup32 of klib/khash.h on 32-bit words computes the rounding the table relies on. */
module KhashRound {
  import opened Arithmetic
  import Khash

  /** One less, then the highest bit copied into all lower ones by shifts of 1, 2, 4, 8 and 16,
      then one more. */
  function Kroundup32(x: bv32): bv32 {
    var a := x - 1;
    var b := a | (a >> 1);
    var c := b | (b >> 2);
    var d := c | (c >> 4);
    var e := d | (d >> 8);
    var f := e | (e >> 16);
    f + 1
  }

  function Shr(b: bv32): bv32 { b >> 1 }
  predicate Odd(b: bv32) { b & 1 == 1 }
  predicate Lt(x: bv32, y: bv32) { x <= y && x != y }

  /** The number a word stands for. */
  function Val(b: bv32): nat
    decreases b
  {
    if b == 0 then 0 else 2 * Val(Shr(b)) + (if Odd(b) then 1 else 0)
  }

  lemma ValBits(b: bv32)
    ensures Val(b) == 2 * Val(Shr(b)) + (if Odd(b) then 1 else 0)
  {
    if b == 0 { assert Shr(b) == 0 && !Odd(b); }
  }

  predicate Le(x: bv32, y: bv32) { x <= y }

  lemma ShrLt(x: bv32, y: bv32)
    requires Lt(x, y)
    ensures Lt(Shr(x), Shr(y)) || (Shr(x) == Shr(y) && !Odd(x) && Odd(y))
  {
    hide Shr, Odd, Lt, Le;
    LtLe(x, y);
    HalfLe(x, y);
    if Shr(x) == Shr(y) { HalfEq(x, y); } else { LeLt(Shr(x), Shr(y)); }
  }

  lemma LtLe(x: bv32, y: bv32)
    requires Lt(x, y)
    ensures Le(x, y)
  {
  }

  lemma LeLt(x: bv32, y: bv32)
    requires Le(x, y) && x != y
    ensures Lt(x, y)
  {
  }

  lemma HalfLe(x: bv32, y: bv32)
    requires Le(x, y)
    ensures Le(Shr(x), Shr(y))
  {
  }

  lemma HalfEq(x: bv32, y: bv32)
    requires Lt(x, y) && Shr(x) == Shr(y)
    ensures !Odd(x) && Odd(y)
  {
  }

  lemma {:induction false} ValLt(x: bv32, y: bv32, k: nat)
    requires Lt(x, y) && Val(y) <= k
    ensures Val(x) < Val(y)
    decreases k
  {
    hide *;
    ValBits(x);
    ValBits(y);
    ShrLt(x, y);
    if Lt(Shr(x), Shr(y)) && k > 0 { ValLt(Shr(x), Shr(y), k / 2); }
    if k == 0 { ValLeast(x, y); }
  }

  lemma ValLeast(x: bv32, y: bv32)
    requires Lt(x, y)
    ensures Val(y) > 0
  {
    ValPositive(y);
  }

  lemma {:induction false} ValPositive(y: bv32)
    requires y != 0
    ensures Val(y) > 0
    decreases y
  {
    if !Odd(y) { ShrNonzero(y); ValPositive(Shr(y)); }
  }

  lemma ShrNonzero(y: bv32)
    requires y != 0 && !Odd(y)
    ensures Shr(y) != 0 && Shr(y) < y
  {
  }

  lemma OneBit(r: bv32)
    requires r != 0 && r & (r - 1) == 0
    ensures Odd(r) ==> r == 1
    ensures !Odd(r) ==> Shr(r) != 0 && Shr(r) & (Shr(r) - 1) == 0 && Shr(r) < r
  {
  }

  lemma {:induction false} ValPower(r: bv32) returns (k: nat)
    requires r != 0 && r & (r - 1) == 0
    ensures Val(r) == Pow2(k)
    decreases r
  {
    OneBit(r);
    ValBits(r);
    if Odd(r) {
      k := 0;
      ValBits(0);
    } else {
      k := ValPower(Shr(r));
      k := k + 1;
    }
  }

  lemma Rounds(x: bv32)
    requires x != 0 && x <= 0x8000_0000
    ensures var r := Kroundup32(x); r != 0 && r & (r - 1) == 0 && (r == x || Lt(x, r)) && Lt(Shr(r), x)
  {
  }

  lemma Wraps(x: bv32)
    requires x == 0 || x > 0x8000_0000
    ensures Kroundup32(x) == 0
  {
  }

  lemma Doubled(b: bv32)
    requires 0 < b < 0x8000_0000
    ensures Val(b << 1) == 2 * Val(b)
  {
    ValBits(b << 1);
    ShlShr(b);
  }

  lemma ShlShr(b: bv32)
    requires b < 0x8000_0000
    ensures Shr(b << 1) == b && !Odd(b << 1)
  {
  }

  lemma ValTop()
    ensures Val(0x8000_0000) == 0x8000_0000
  {
    ValBits(1);
    ValBits(0);
    Doubled(0x1); Doubled(0x2); Doubled(0x4); Doubled(0x8);
    Doubled(0x10); Doubled(0x20); Doubled(0x40); Doubled(0x80);
    Doubled(0x100); Doubled(0x200); Doubled(0x400); Doubled(0x800);
    Doubled(0x1000); Doubled(0x2000); Doubled(0x4000); Doubled(0x8000);
    Doubled(0x10000); Doubled(0x20000); Doubled(0x40000); Doubled(0x80000);
    Doubled(0x100000); Doubled(0x200000); Doubled(0x400000); Doubled(0x800000);
    Doubled(0x1000000); Doubled(0x2000000); Doubled(0x4000000); Doubled(0x8000000);
    Doubled(0x10000000); Doubled(0x20000000); Doubled(0x40000000);
  }

  /** On every word, kroundup32 is the least power of two that is not less, or zero when that
      does not fit: the rounding that the resize model uses. */
  lemma KroundupIsRoundUp(x: bv32)
    ensures Val(Kroundup32(x)) == Khash.RoundUp(Val(x))
  {
    ValTop();
    ValBits(0);
    if x == 0 {
      Wraps(x);
    } else if x > 0x8000_0000 {
      Wraps(x);
      TopLt(x);
      hide *;
      ValLt(0x8000_0000, x, Val(x));
    } else {
      RoundsWithin(x);
    }
  }

  lemma TopLt(x: bv32)
    requires x > 0x8000_0000
    ensures Lt(0x8000_0000, x)
  {
  }

  lemma RoundsWithin(x: bv32)
    requires x != 0 && x <= 0x8000_0000
    ensures Val(Kroundup32(x)) == Khash.RoundUp(Val(x))
  {
    hide *;
    Rounds(x);
    ValPositive(x);
    var r := Kroundup32(x);
    var k := ValPower(r);
    ValLt(Shr(r), x, Val(x));
    HalfBelow(r, x);
    if r != x { ValLt(x, r, Val(r)); }
    BelowTop(x);
    Khash.CeilUnique(Val(x), k);
    RoundsUp(Val(x));
  }

  lemma RoundsUp(n: nat)
    requires 0 < n <= 0x8000_0000
    ensures Khash.RoundUp(n) == Khash.CeilPow2(n)
  {
  }

  lemma BelowTop(x: bv32)
    requires x <= 0x8000_0000
    ensures Val(x) <= 0x8000_0000
  {
    ValTop();
    AtMostTop(x);
    hide *;
    if x != 0x8000_0000 { ValLt(x, 0x8000_0000, 0x8000_0000); }
  }

  /** Half of the rounded word is below x, so the rounded number is below twice x. */
  lemma HalfBelow(r: bv32, x: bv32)
    requires r != 0 && r & (r - 1) == 0 && Val(Shr(r)) < Val(x) && Val(x) > 0
    ensures Val(r) < 2 * Val(x)
  {
    hide *;
    ValBits(r);
    EvenOrOne(r);
  }

  lemma AtMostTop(x: bv32)
    requires x <= 0x8000_0000
    ensures x == 0x8000_0000 || Lt(x, 0x8000_0000)
  {
  }

  lemma EvenOrOne(r: bv32)
    requires r != 0 && r & (r - 1) == 0
    ensures Odd(r) ==> Val(r) == 1
  {
    OneBit(r);
    ValBits(1);
    ValBits(0);
  }
}
