/** Triangular probing over a power-of-two table (klib/khash.h). */
module KhashProbe {
  import opened Arithmetic

  /** 0 + 1 + ... + s: how far s steps of growing length go. */
  function Tri(s: nat): nat {
    if s == 0 then 0 else Tri(s - 1) + s
  }

  /** The bucket looked at after s steps from bucket home. */
  function Probe(home: nat, s: nat, n: nat): (i: nat)
    requires n > 0
    ensures i < n
  {
    (home + Tri(s)) % n
  }

  /** The masked sum of the bucket and the step number is the next bucket. */
  lemma ProbeNext(home: nat, s: nat, n: nat)
    requires n > 0
    ensures (Probe(home, s, n) + (s + 1)) % n == Probe(home, s + 1, n)
  {
    ModAdd(home + Tri(s), s + 1, n);
  }

  lemma {:induction false} TriTwice(s: nat)
    ensures 2 * Tri(s) == s * (s + 1)
  {
    if s > 0 { TriTwice(s - 1); }
  }

  /** An odd factor does not help a power of two divide. */
  lemma {:induction false} OddFactor(d: nat, e: nat, q: nat, k: nat)
    requires d % 2 == 1 && d * e == q * Pow2(k)
    ensures exists c: nat :: e == c * Pow2(k)
  {
    if k == 0 {
      assert e == e * Pow2(0);
    } else {
      assert q * Pow2(k) == 2 * (q * Pow2(k - 1));
      EvenCofactor(d, e, q * Pow2(k - 1));
      var e' := e / 2;
      assert d * e == 2 * (d * e');
      OddFactor(d, e', q, k - 1);
      var c: nat :| e' == c * Pow2(k - 1);
      assert e == c * Pow2(k);
    }
  }

  lemma EvenCofactor(d: nat, e: nat, h: nat)
    requires d % 2 == 1 && d * e == 2 * h
    ensures e % 2 == 0
  {
    if e % 2 == 1 {
      OddTimesOdd(d, e);
    }
  }

  lemma OddTimesOdd(d: nat, e: nat)
    requires d % 2 == 1 && e % 2 == 1
    ensures d * e % 2 == 1
  {
    var a, b := d / 2, e / 2;
    assert d * e == (2 * a + 1) * (2 * b + 1);
    assert (2 * a + 1) * (2 * b + 1) == 2 * (2 * a * b + a + b) + 1;
  }

  /** The first 2^m probes all differ: the claim at klib/khash.h:51-52. */
  lemma ProbeInjective(home: nat, a: nat, b: nat, m: nat)
    requires a < b < Pow2(m)
    ensures Probe(home, a, Pow2(m)) != Probe(home, b, Pow2(m))
  {
    if Probe(home, a, Pow2(m)) == Probe(home, b, Pow2(m)) {
      var d, e, q := StepsBetween(home, a, b, m);
      hide *;
      if d % 2 == 1 { NotMultiple(d, e, q, m + 1); } else { NotMultiple(e, d, q, m + 1); }
    }
  }

  lemma NotMultiple(d: nat, e: nat, q: nat, k: nat)
    requires d % 2 == 1 && 0 < e < Pow2(k)
    ensures d * e != q * Pow2(k)
  {
    if d * e == q * Pow2(k) {
      OddFactor(d, e, q, k);
      var c: nat :| e == c * Pow2(k);
      TooSmall(e, c, Pow2(k));
    }
  }

  /** If two probes meet, (b - a) * (a + b + 1) is a multiple of 2^(m+1). */
  lemma StepsBetween(home: nat, a: nat, b: nat, m: nat) returns (d: nat, e: nat, q: nat)
    requires a < b < Pow2(m) && Probe(home, a, Pow2(m)) == Probe(home, b, Pow2(m))
    ensures d * e == q * Pow2(m + 1) && e * d == q * Pow2(m + 1)
    ensures 0 < d < Pow2(m + 1) && 0 < e < Pow2(m + 1) && (d % 2 == 1 || e % 2 == 1)
  {
    hide *;
    q := TriDifference(home, a, b, Pow2(m));
    Doubled(a, b);
    d, e := b - a, a + b + 1;
    Twice(q, Pow2(m), d * e, Tri(b) - Tri(a));
    Pow2Step(m);
    Commute(d, e);
    OneOdd(a, b);
  }

  lemma OneOdd(a: nat, b: nat)
    requires a < b
    ensures (b - a) % 2 == 1 || (a + b + 1) % 2 == 1
  {
  }

  lemma Pow2Step(m: nat)
    ensures Pow2(m + 1) == 2 * Pow2(m)
  {
  }

  lemma Commute(d: nat, e: nat)
    ensures d * e == e * d
  {
  }

  lemma Doubled(a: nat, b: nat)
    requires a < b
    ensures Tri(a) <= Tri(b) && 2 * (Tri(b) - Tri(a)) == (b - a) * (a + b + 1)
  {
    TriTwice(a);
    TriTwice(b);
    Factored(a, b);
  }

  lemma TriDifference(home: nat, a: nat, b: nat, n: nat) returns (q: nat)
    requires n > 0 && a < b && Probe(home, a, n) == Probe(home, b, n)
    ensures Tri(b) - Tri(a) == q * n
  {
    Doubled(a, b);
    var x, y := home + Tri(a), home + Tri(b);
    SameRemainder(x, y, n);
    q := y / n - x / n;
  }

  lemma Factored(a: nat, b: nat)
    requires a <= b
    ensures b * (b + 1) - a * (a + 1) == (b - a) * (a + b + 1)
    ensures a * (a + 1) <= b * (b + 1)
  {
    assert (b - a) * (a + b + 1) == b * (a + b + 1) - a * (a + b + 1);
  }

  lemma Twice(q: nat, n: nat, x: nat, y: nat)
    requires y == q * n && 2 * y == x
    ensures x == q * (2 * n)
  {
  }

  lemma TooSmall(e: nat, c: nat, p: nat)
    requires 0 < e < p
    ensures e != c * p
  {
    if c > 0 { assert c * p >= p; }
  }

  /** The buckets looked at in the first k steps. */
  ghost function Visited(home: nat, k: nat, n: nat): set<nat>
    requires n > 0
  {
    if k == 0 then {} else Visited(home, k - 1, n) + {Probe(home, k - 1, n)}
  }

  lemma {:induction false} VisitedWhen(home: nat, k: nat, n: nat, i: nat)
    requires n > 0
    ensures i in Visited(home, k, n) <==> exists s: nat :: s < k && Probe(home, s, n) == i
  {
    if k > 0 {
      VisitedWhen(home, k - 1, n, i);
      if Probe(home, k - 1, n) == i {
        assert k - 1 < k;
      }
    }
  }

  function Range(n: nat): (r: set<nat>)
    ensures forall i: nat :: i in r <==> i < n
  {
    if n == 0 then {} else Range(n - 1) + {n - 1}
  }

  lemma {:induction false} VisitedSize(home: nat, k: nat, m: nat)
    requires k <= Pow2(m)
    ensures |Visited(home, k, Pow2(m))| == k
    ensures Visited(home, k, Pow2(m)) <= Range(Pow2(m))
  {
    if k > 0 {
      var n := Pow2(m);
      VisitedSize(home, k - 1, m);
      var i := Probe(home, k - 1, n);
      VisitedWhen(home, k - 1, n, i);
      if i in Visited(home, k - 1, n) {
        var s: nat :| s < k - 1 && Probe(home, s, n) == i;
        ProbeInjective(home, s, k - 1, m);
      }
    }
  }

  lemma {:induction false} RangeSize(n: nat)
    ensures |Range(n)| == n
  {
    if n > 0 {
      RangeSize(n - 1);
    }
  }

  lemma SubsetSize(a: set<nat>, b: set<nat>)
    requires a <= b
    ensures |a| <= |b| && (|a| == |b| ==> a == b)
  {
    assert b == a + (b - a);
    assert |b| == |a| + |b - a|;
  }

  /** Every bucket is looked at within the first 2^m steps. */
  lemma ProbeCovers(home: nat, i: nat, m: nat) returns (s: nat)
    requires i < Pow2(m)
    ensures s < Pow2(m) && Probe(home, s, Pow2(m)) == i
  {
    var n := Pow2(m);
    VisitedSize(home, n, m);
    RangeSize(n);
    SubsetSize(Visited(home, n, n), Range(n));
    VisitedWhen(home, n, n, i);
    s :| s < n && Probe(home, s, n) == i;
  }
}
