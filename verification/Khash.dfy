/** The hash table of klib/khash.h: open addressing with deleted marks, and rehashing in place. */
module Khash {
  import opened Arithmetic
  import opened KhashFlags
  import opened KhashProbe
  import opened KhashModel

  /** The source's `(khint_t)(n * 0.77 + 0.5)`, which is exact for powers of two. */
  function Upper(n: nat): nat { (77 * n + 50) / 100 }

  /** Walk from bucket home to the first bucket of the new table that was never used. */
  method FindVacant(flags: array<bv32>, n: nat, home: nat, ghost m: nat) returns (i: nat)
    requires n == Pow2(m) && n <= 16 * flags.Length && HasVacant(Slots(flags[..], n))
    requires forall j :: 0 <= j < n ==> Slots(flags[..], n)[j] != Both
    ensures i < n && Slots(flags[..], n)[i] == Vacant
    ensures OnChain(Slots(flags[..], n)[i := Live], home, i)
  {
    hide *;
    ghost var slots := Slots(flags[..], n);
    ghost var s := 0;
    var step := 0;
    i := home % n;
    ProbeFirst(slots, home, n);
    ReadSlot(flags, i, n);
    while !IsEmpty(flags, i)
      invariant i < n && step == s && i == Probe(home, s, n) && Solid(slots, home, s)
      invariant IsEmpty(flags, i) <==> slots[i] == Vacant
      decreases n - s
    {
      SolidNext(slots, home, s);
      StepBound(slots, home, s, m);
      ProbeNext(home, s, n);
      step, s := step + 1, s + 1;
      i := (i + step) % n;
      StepBound(slots, home, s, m);
      ReadSlot(flags, i, n);
    }
    StepBound(slots, home, s, m);
    ChainHere(slots, home, s, Live);
  }

  lemma ProbeFirst(slots: seq<Slot>, home: nat, n: nat)
    requires n == |slots| && n > 0
    ensures Probe(home, 0, n) == home % n && Solid(slots, home, 0)
  {
  }

  ghost function LiveSet(slots: seq<Slot>): set<nat> { set j: nat | j < |slots| && slots[j] == Live }

  lemma LiveSetDown(slots: seq<Slot>, i: nat)
    requires i < |slots| && slots[i] == Live
    ensures |LiveSet(slots[i := Deleted])| < |LiveSet(slots)|
  {
    assert LiveSet(slots) == LiveSet(slots[i := Deleted]) + {i};
  }

  ghost predicate Apart<K, V>(flags: array<bv32>, newFlags: array<bv32>, keys: array<K>, vals: array<V>) {
    && flags != newFlags && keys as object != vals as object
    && flags as object !in {keys as object, vals as object}
    && newFlags as object !in {keys as object, vals as object}
  }

  /** The kick-out loop: find a bucket for (key, val) in the new table; if an unmoved element is
      there, it is thrown out and must find a bucket next. */
  method KickOut<K(!new), V(!new)>(flags: array<bv32>, n: nat, newFlags: array<bv32>, newN: nat, keys: array<K>, vals: array<V>,
                       hash: K -> nat, key0: K, val0: V, ghost m: map<K, V>, ghost lg: nat)
    requires Apart(flags, newFlags, keys, vals)
    requires n <= 16 * flags.Length && newN <= 16 * newFlags.Length && newN == Pow2(lg) && |m| <= newN
    requires Mid(Slots(flags[..], n), Slots(newFlags[..], newN), keys[..], vals[..], Full(key0, val0), m, hash)
    modifies flags, newFlags, keys, vals
    ensures Mid(Slots(flags[..], n), Slots(newFlags[..], newN), keys[..], vals[..], Empty, m, hash)
    ensures forall j :: 0 <= j < n && old(Slots(flags[..], n)[j]) != Live ==> Slots(flags[..], n)[j] != Live
  {
    var key, val := key0, val0;
    while true
      invariant Mid(Slots(flags[..], n), Slots(newFlags[..], newN), keys[..], vals[..], Full(key, val), m, hash)
      invariant forall j :: 0 <= j < n && old(Slots(flags[..], n)[j]) != Live ==> Slots(flags[..], n)[j] != Live
      decreases |LiveSet(Slots(flags[..], n))|
    {
      ghost var oldT, newT, ks, vs := Slots(flags[..], n), Slots(newFlags[..], newN), keys[..], vals[..];
      MidVacant(oldT, newT, ks, vs, Full(key, val), m, hash);
      var i := FindVacant(newFlags, newN, hash(key), lg);
      SetIsemptyFalse(newFlags, i, newN);
      if i < n { ReadSlot(flags, i, n); }
      if i < n && !IsEither(flags, i) {
        ghost var k0, v0 := key, val;
        key, keys[i] := keys[i], key;
        val, vals[i] := vals[i], val;
        LiveSetDown(Slots(flags[..], n), i);
        SetIsdelTrue(flags, i, n);
        MidPlace(oldT, newT, ks, vs, Full(k0, v0), i, Slots(flags[..], n), Slots(newFlags[..], newN), keys[..], vals[..], Full(key, val), m, hash);
      } else {
        keys[i] := key;
        vals[i] := val;
        MidPlace(oldT, newT, ks, vs, Full(key, val), i, Slots(flags[..], n), Slots(newFlags[..], newN), keys[..], vals[..], Empty, m, hash);
        break;
      }
    }
  }

  /** The loop over the old buckets. */
  method Rehash<K(!new), V(!new)>(flags: array<bv32>, n: nat, newFlags: array<bv32>, newN: nat, keys: array<K>, vals: array<V>,
                      hash: K -> nat, ghost m: map<K, V>, ghost lg: nat)
    requires Apart(flags, newFlags, keys, vals)
    requires n <= 16 * flags.Length && newN <= 16 * newFlags.Length && newN == Pow2(lg) && |m| <= newN
    requires Mid(Slots(flags[..], n), Slots(newFlags[..], newN), keys[..], vals[..], Empty, m, hash)
    modifies flags, newFlags, keys, vals
    ensures Ok(Slots(newFlags[..], newN), keys[..newN], hash)
    ensures Holds(Slots(newFlags[..], newN), keys[..newN], vals[..newN], m)
    ensures |Used(Slots(newFlags[..], newN))| == |m|
    ensures forall j :: 0 <= j < newN ==> Slots(newFlags[..], newN)[j] != Deleted
    ensures newN <= keys.Length && newN <= vals.Length
  {
    for j := 0 to n
      invariant Mid(Slots(flags[..], n), Slots(newFlags[..], newN), keys[..], vals[..], Empty, m, hash)
      invariant forall i :: 0 <= i < j ==> Slots(flags[..], n)[i] != Live
    {
      ReadSlot(flags, j, n);
      if !IsEither(flags, j) {
        var key, val := keys[j], vals[j];
        MidTake(Slots(flags[..], n), Slots(newFlags[..], newN), keys[..], vals[..], m, hash, j);
        SetIsdelTrue(flags, j, n);
        KickOut(flags, n, newFlags, newN, keys, vals, hash, key, val, m, lg);
      }
    }
    MidEnd(Slots(flags[..], n), Slots(newFlags[..], newN), keys[..], vals[..], m, hash);
    assert keys[..newN] == keys[..][..newN] && vals[..newN] == vals[..][..newN];
  }

  /** realloc: a buffer of n elements that starts like a. */
  method Realloc<T(0)>(a: array<T>, n: nat) returns (b: array<T>)
    ensures fresh(b) && b.Length == n
    ensures n <= a.Length ==> b[..] == a[..n]
    ensures a.Length <= n ==> a[..] <= b[..]
  {
    b := new T[n];
    for i := 0 to if n < a.Length then n else a.Length
      invariant forall k :: 0 <= k < i ==> b[k] == a[k]
    {
      b[i] := a[i];
    }
  }

  /** The number of buckets that a request for newN of them asks for. */
  function Rounded(newN: nat): nat { if RoundUp(newN) < 4 then 4 else RoundUp(newN) }

  lemma RoundedPower(newN: nat) returns (k: nat)
    ensures 2 <= k <= 31 && Rounded(newN) == Pow2(k)
  {
    if newN == 0 || newN > 0x8000_0000 || CeilPow2(newN) < 4 {
      k := 2;
      assert Pow2(2) == 4;
    } else {
      k :| CeilPow2(newN) == Pow2(k);
      PowRange(k);
    }
  }

  lemma FirstSize()
    ensures Rounded(1) == 4 && Upper(4) == 3
  {
  }

  /** Asking for one bucket less gives the same table size again. */
  lemma SameSize(n: nat, k: nat, size: nat)
    requires 2 <= k <= 31 && n == Pow2(k) && n > 2 * size
    ensures Rounded(n - 1) == n && size < Upper(n)
  {
    TwoToThe31(k);
    CeilUnique(n - 1, k);
  }

  /** Asking for one bucket more gives twice the size. */
  lemma DoubleSize(n: nat, k: nat, size: nat)
    requires 2 <= k <= 31 && n == Pow2(k) && n < 0x8000_0000 && size <= Upper(n)
    ensures Rounded(n + 1) == 2 * n && size < Upper(2 * n)
  {
    TwoToThe31(k);
    Pow2Step(k);
    CeilUnique(n + 1, k + 1);
  }

  lemma TwoToThe31(k: nat)
    requires 2 <= k <= 31
    ensures 4 <= Pow2(k) <= 0x8000_0000 && (Pow2(k) < 0x8000_0000 ==> 2 * Pow2(k) <= 0x8000_0000)
  {
    Pow2Monotone(2, k);
    assert Pow2(2) == 4;
    Pow2At31();
    if k < 31 {
      Pow2Monotone(k, 30);
      Pow2Step(30);
    }
  }

  /** What `kh_resize` does once it has decided to rehash into newN buckets. */
  method Rebuild<K(!new, 0), V(!new, 0)>(flags: array<bv32>, n: nat, newN: nat, keys: array<K>, vals: array<V>,
                                     hash: K -> nat, ghost m: map<K, V>, ghost lg: nat)
    returns (newFlags: array<bv32>, newKeys: array<K>, newVals: array<V>)
    requires keys as object != vals as object && flags as object !in {keys as object, vals as object}
    requires n <= 16 * flags.Length && keys.Length == vals.Length == n
    requires newN == Pow2(lg) && |m| <= newN
    requires n == 0 ==> m == map[]
    requires n > 0 ==> Ok(Slots(flags[..], n), keys[..], hash) && Holds(Slots(flags[..], n), keys[..], vals[..], m)
    modifies flags, keys, vals
    ensures fresh(newFlags) && (newKeys == keys || fresh(newKeys)) && (newVals == vals || fresh(newVals))
    ensures newKeys as object != newVals as object && newFlags as object !in {newKeys as object, newVals as object}
    ensures newN <= 16 * newFlags.Length && newKeys.Length == newVals.Length == newN
    ensures Ok(Slots(newFlags[..], newN), newKeys[..], hash)
    ensures Holds(Slots(newFlags[..], newN), newKeys[..], newVals[..], m)
    ensures |Used(Slots(newFlags[..], newN))| == |m|
    ensures forall j :: 0 <= j < newN ==> Slots(newFlags[..], newN)[j] != Deleted
  {
    hide Ok, Holds, Mid, Pow2, Used;
    newFlags := new bv32[Fsize(newN)];
    FsizeEnough(lg);
    SetAllVacant(newFlags, newN);
    newKeys, newVals := keys, vals;
    if n < newN {
      newKeys := Realloc(keys, newN);
      newVals := Realloc(vals, newN);
    }
    MidStart(Slots(flags[..], n), keys[..], vals[..], m, hash, Slots(newFlags[..], newN), newKeys[..], newVals[..]);
    Rehash(flags, n, newFlags, newN, newKeys, newVals, hash, m, lg);
    ghost var ks, vs := newKeys[..newN], newVals[..newN];
    if n > newN {
      newKeys := Realloc(newKeys, newN);
      newVals := Realloc(newVals, newN);
    }
    assert newKeys[..] == ks && newVals[..] == vs;
  }

  /** kroundup32: the least power of two that is at least x, modulo 2^32. */
  function RoundUp(x: nat): nat {
    if x == 0 || x > 0x8000_0000 then 0 else CeilPow2(x)
  }

  function CeilPow2(x: nat): (p: nat)
    requires x > 0
    ensures x <= p < 2 * x
    ensures exists k: nat :: p == Pow2(k)
  {
    if x == 1 then assert Pow2(0) == 1; 1
    else
      var q := CeilPow2((x + 1) / 2);
      var k: nat :| q == Pow2(k);
      assert Pow2(k + 1) == 2 * q;
      2 * q
  }

  /** What the probing loops may rely on. */
  ghost predicate Searchable<K(!new), V(!new)>(slots: seq<Slot>, keys: seq<K>, vals: seq<V>, m: map<K, V>, hash: K -> nat, lg: nat) {
    |slots| == Pow2(lg) && HasVacant(slots) && Ok(slots, keys, hash) && Holds(slots, keys, vals, m)
  }

  lemma Searched<K(!new), V(!new)>(slots: seq<Slot>, keys: seq<K>, vals: seq<V>, m: map<K, V>, hash: K -> nat, lg: nat, key: K, s: nat, i: nat)
    requires Searchable(slots, keys, vals, m, hash, lg) && i == Probe(hash(key), s, |slots|)
    requires Missed(slots, keys, hash(key), key, s)
    ensures slots[i] != Both
    ensures slots[i] == Vacant ==> key !in m
    ensures slots[i] == Live ==> keys[i] in m && m[keys[i]] == vals[i]
  {
    if slots[i] == Vacant { Absent(slots, keys, vals, m, hash, key, s); }
    if slots[i] == Live { assert LiveAt(slots, i); }
  }

  /** The search loop of `kh_get`: the bucket of key, or n when it is not held. */
  method Find<K(!new, ==), V(!new)>(flags: array<bv32>, keys: array<K>, ghost vals: seq<V>, n: nat, hash: K -> nat, key: K,
                                    ghost m: map<K, V>, ghost lg: nat) returns (i: nat)
    requires 0 < n <= 16 * flags.Length && keys.Length == n == |vals|
    requires Searchable(Slots(flags[..], n), keys[..], vals, m, hash, lg)
    ensures i == n <==> key !in m
    ensures i != n ==> i < n && Slots(flags[..], n)[i] == Live && keys[i] == key && vals[i] == m[key]
  {
    ghost var slots, home, ks := Slots(flags[..], n), hash(key), keys[..];
    assert |slots| == Pow2(lg) && HasVacant(slots);
    hide *;
    var step := 0;
    i := hash(key) % n;
    var last := i;
    SearchStart(slots, ks, home, key);
    ReadSlot(flags, i, n);
    while !IsEmpty(flags, i) && (IsDel(flags, i) || keys[i] != key)
      invariant i == Probe(home, step, n) && last == Probe(home, 0, n)
      invariant Solid(slots, home, step) && Missed(slots, ks, home, key, step)
      decreases n - step
    {
      ReadSlot(flags, i, n);
      SearchNext(slots, ks, home, key, step, lg);
      step := step + 1;
      i := (i + step) % n;
      assert i != last;  // so the source's test for having come full circle never succeeds
    }
    ReadSlot(flags, i, n);
    Searched(slots, ks, vals, m, hash, lg, key, step, i);
    if IsEither(flags, i) { i := n; }
  }

  /** The search loop of `kh_put`: the bucket of key if it is held, or else a bucket for it,
      the last deleted one passed or the unused one at the end. */
  method Seek<K(!new, ==), V(!new)>(flags: array<bv32>, keys: array<K>, ghost vals: seq<V>, n: nat, hash: K -> nat, key: K,
                                    ghost m: map<K, V>, ghost lg: nat) returns (x: nat)
    requires 0 < n <= 16 * flags.Length && keys.Length == n == |vals|
    requires Searchable(Slots(flags[..], n), keys[..], vals, m, hash, lg)
    ensures Sought(Slots(flags[..], n), keys[..], vals, m, hash(key), key, x)
  {
    ghost var slots, ks := Slots(flags[..], n), keys[..];
    assert |slots| == Pow2(lg) && HasVacant(slots);
    hide *;
    var step: nat, site: nat := 0, n;
    var i: nat := hash(key) % n;
    x := n;
    SeekStart(slots, ks, hash(key), key, lg);
    if IsEmpty(flags, i) {
      x := i;
    } else {
      i, step, site := Walk(flags, keys, vals, n, hash, key, i, m, lg);
      if x == n {
        if IsEmpty(flags, i) && site != n { x := site; } else { x := i; }
      }
    }
    SeekDone(flags, n, ks, vals, m, hash, lg, key, i, step, site, x);
  }

  /** From bucket first on to the end of the chain of key; site is the last deleted bucket passed. */
  method Walk<K(!new, ==), V(!new)>(flags: array<bv32>, keys: array<K>, ghost vals: seq<V>, n: nat, hash: K -> nat, key: K,
                                    first: nat, ghost m: map<K, V>, ghost lg: nat) returns (i: nat, step: nat, site: nat)
    requires 0 < n <= 16 * flags.Length && keys.Length == n == |vals| && first == Probe(hash(key), 0, n)
    requires Searchable(Slots(flags[..], n), keys[..], vals, m, hash, lg)
    requires Seeking(Slots(flags[..], n), keys[..], hash(key), key, first, 0, n)
    ensures i < n && Seeking(Slots(flags[..], n), keys[..], hash(key), key, i, step, site)
    ensures IsEmpty(flags, i) || (!IsDel(flags, i) && keys[i] == key)
  {
    ghost var slots, ks := Slots(flags[..], n), keys[..];
    hide *;
    i, step, site := first, 0, n;
    var last := i;
    while !IsEmpty(flags, i) && (IsDel(flags, i) || keys[i] != key)
      invariant i < n && step < n && Seeking(slots, ks, hash(key), key, i, step, site)
      decreases n - step
    {
      SeekNext(flags, n, ks, vals, m, hash, lg, key, i, step, site);
      if IsDel(flags, i) { site := i; }
      step := step + 1;
      i := (i + step) % n;
      assert i != last;  // so the source's test for having come full circle never succeeds
    }
  }

  /** A deleted bucket passed by the search could take the key. */
  ghost predicate Spare(slots: seq<Slot>, home: nat, site: nat) {
    site < |slots| && slots[site] == Deleted && OnChain(slots[site := Live], home, site)
  }

  /** site is the last deleted bucket among the first s on the chain, or |slots| if there is none. */
  ghost predicate LastDeleted(slots: seq<Slot>, home: nat, s: nat, site: nat)
    requires slots != []
  {
    if site == |slots| then forall e: nat :: e < s ==> slots[Probe(home, e, |slots|)] != Deleted
    else exists d: nat :: d < s && DeletedAt(slots, home, d, s, site)
  }

  ghost predicate DeletedAt(slots: seq<Slot>, home: nat, d: nat, s: nat, site: nat)
    requires slots != []
  {
    && site == Probe(home, d, |slots|) && slots[site] == Deleted
    && forall e: nat :: d < e < s ==> slots[Probe(home, e, |slots|)] != Deleted
  }

  /** The chain of key up to the first bucket that is not used or holds key has s buckets. */
  ghost predicate StopsAt<K(!new)>(slots: seq<Slot>, keys: seq<K>, home: nat, key: K, s: nat)
    requires slots != [] && |slots| <= |keys|
  {
    && Ends(slots, keys, key, Probe(home, s, |slots|))
    && forall e: nat :: e < s ==> !Ends(slots, keys, key, Probe(home, e, |slots|))
  }

  predicate Ends<K(==)>(slots: seq<Slot>, keys: seq<K>, key: K, i: nat)
    requires i < |slots| <= |keys|
  {
    slots[i] == Vacant || (slots[i] == Live && keys[i] == key)
  }

  /** The bucket that `kh_put` chooses for key: the one that holds it, or else the last deleted one
      before the end of its chain, or else the unused one at the end. */
  ghost predicate BucketFor<K(!new)>(slots: seq<Slot>, keys: seq<K>, home: nat, key: K, x: nat) {
    && slots != [] && |slots| <= |keys|
    && exists s: nat :: StopsAt(slots, keys, home, key, s) && Takes(slots, home, s, x)
  }

  ghost predicate Takes(slots: seq<Slot>, home: nat, s: nat, x: nat)
    requires slots != []
  {
    var i := Probe(home, s, |slots|);
    if slots[i] == Live || LastDeleted(slots, home, s, |slots|) then x == i else x < |slots| && LastDeleted(slots, home, s, x)
  }

  /** x is the bucket for key, live just when key is held, and then with its value; otherwise the key
      can be put there. */
  ghost predicate Sought<K(!new), V(!new)>(slots: seq<Slot>, keys: seq<K>, vals: seq<V>, m: map<K, V>, home: nat, key: K, x: nat) {
    && x < |slots| <= |keys| && |slots| <= |vals|
    && slots[x] != Both && (slots[x] == Live <==> key in m)
    && (if key in m then keys[x] == key && vals[x] == m[key] else OnChain(slots[x := Live], home, x))
    && BucketFor(slots, keys, home, key, x)
  }

  /** After the given number of steps the search is at bucket i; site is the last deleted one passed. */
  ghost predicate Seeking<K(!new)>(slots: seq<Slot>, keys: seq<K>, home: nat, key: K, i: nat, s: nat, site: nat) {
    && s < |slots| <= |keys| && i == Probe(home, s, |slots|) && i < |slots|
    && Solid(slots, home, s) && Missed(slots, keys, home, key, s)
    && (site == |slots| || Spare(slots, home, site)) && LastDeleted(slots, home, s, site)
  }

  lemma SeekStart<K(!new)>(slots: seq<Slot>, keys: seq<K>, home: nat, key: K, lg: nat)
    requires |slots| == Pow2(lg) && HasVacant(slots) && |slots| <= |keys|
    ensures |slots| > 0 && Probe(home, 0, |slots|) == home % |slots|
    ensures Seeking(slots, keys, home, key, home % |slots|, 0, |slots|)
  {
    SearchStart(slots, keys, home, key);
    StepBound(slots, home, 0, lg);
  }

  lemma SeekNext<K(!new), V(!new)>(flags: array<bv32>, n: nat, keys: seq<K>, vals: seq<V>, m: map<K, V>, hash: K -> nat, lg: nat,
                                   key: K, i: nat, s: nat, site: nat)
    requires i < n <= 16 * flags.Length && n <= |keys|
    requires var slots := Slots(flags[..], n);
             Searchable(slots, keys, vals, m, hash, lg) && Seeking(slots, keys, hash(key), key, i, s, site)
    requires !IsEmpty(flags, i) && (IsDel(flags, i) || keys[i] != key)
    ensures var i' := (i + (s + 1)) % n;
            && Seeking(Slots(flags[..], n), keys, hash(key), key, i', s + 1, if IsDel(flags, i) then i else site)
            && s + 1 < n && i' < n && i' != Probe(hash(key), 0, n)
  {
    hide Solid, Missed, OnChain, Probe, Slots, LastDeleted;
    var slots := Slots(flags[..], n);
    ReadSlot(flags, i, n);
    Searched(slots, keys, vals, m, hash, lg, key, s, i);
    SearchNext(slots, keys, hash(key), key, s, lg);
    LastNext(slots, hash(key), s, site);
    if slots[i] == Deleted { ChainHere(slots, hash(key), s, Live); }
  }

  /** Where the search has ended, and which of the two buckets is taken. */
  lemma SeekDone<K(!new), V(!new)>(flags: array<bv32>, n: nat, keys: seq<K>, vals: seq<V>, m: map<K, V>, hash: K -> nat, lg: nat,
                                   key: K, i: nat, s: nat, site: nat, x: nat)
    requires i < n <= 16 * flags.Length && n <= |keys| && n <= |vals|
    requires var slots := Slots(flags[..], n);
             Searchable(slots, keys, vals, m, hash, lg) && Seeking(slots, keys, hash(key), key, i, s, site)
    requires IsEmpty(flags, i) || (!IsDel(flags, i) && keys[i] == key)
    requires x == if IsEmpty(flags, i) && site != n then site else i
    ensures Sought(Slots(flags[..], n), keys, vals, m, hash(key), key, x)
  {
    hide Solid, Missed, OnChain, Probe, Slots, LastDeleted, BucketFor;
    var slots := Slots(flags[..], n);
    ReadSlot(flags, i, n);
    Searched(slots, keys, vals, m, hash, lg, key, s, i);
    if x == i { ChainHere(slots, hash(key), s, Live); }
    SeekBucket(slots, keys, hash(key), key, s, site, x);
  }

  lemma LastNext(slots: seq<Slot>, home: nat, s: nat, site: nat)
    requires slots != [] && LastDeleted(slots, home, s, site)
    ensures var i := Probe(home, s, |slots|); LastDeleted(slots, home, s + 1, if slots[i] == Deleted then i else site)
  {
    hide Probe;
    var i := Probe(home, s, |slots|);
    if slots[i] == Deleted {
      assert DeletedAt(slots, home, s, s + 1, i);
    } else if site != |slots| {
      var d: nat :| d < s && DeletedAt(slots, home, d, s, site);
      assert DeletedAt(slots, home, d, s + 1, site);
    }
  }

  lemma SeekBucket<K(!new)>(slots: seq<Slot>, keys: seq<K>, home: nat, key: K, s: nat, site: nat, x: nat)
    requires slots != [] && |slots| <= |keys| && Solid(slots, home, s) && Missed(slots, keys, home, key, s)
    requires Ends(slots, keys, key, Probe(home, s, |slots|)) && LastDeleted(slots, home, s, site)
    requires x == if slots[Probe(home, s, |slots|)] == Vacant && site != |slots| then site else Probe(home, s, |slots|)
    ensures BucketFor(slots, keys, home, key, x)
  {
    assert StopsAt(slots, keys, home, key, s);
    LastSmall(slots, home, s, site);
    hide StopsAt, Solid, Missed, Probe;
    assert Takes(slots, home, s, x);
  }

  lemma LastSmall(slots: seq<Slot>, home: nat, s: nat, site: nat)
    requires slots != [] && LastDeleted(slots, home, s, site)
    ensures site <= |slots| && (site < |slots| ==> !LastDeleted(slots, home, s, |slots|))
  {
    hide Probe;
    if site < |slots| {
      var d: nat :| d < s && DeletedAt(slots, home, d, s, site);
      assert slots[Probe(home, d, |slots|)] == Deleted;
    }
  }

  /** The size after a rehash at the load limit: the same if more than half of the buckets hold no
      element, and otherwise twice the size, but at least four. */
  function RoomFor(nBuckets: nat, size: nat): nat {
    if nBuckets > 2 * size then nBuckets else if nBuckets == 0 then 4 else 2 * nBuckets
  }

  class KHash<K(!new, ==, 0), V(!new, 0)> {
    const hash: K -> nat
    var nBuckets: nat
    var size: nat
    var nOccupied: nat
    var upperBound: nat
    var flags: array<bv32>
    var keys: array<K>
    var vals: array<V>
    ghost var contents: map<K, V>
    ghost var lg: nat

    /** The state of the buckets. */
    ghost function S(): seq<Slot>
      requires nBuckets <= 16 * flags.Length
      reads this, flags
    {
      Slots(flags[..], nBuckets)
    }

    ghost predicate Shaped()
      reads this
    {
      && keys as object != vals as object && flags as object !in {keys as object, vals as object}
      && keys.Length == vals.Length == nBuckets && nBuckets <= 16 * flags.Length
      && (nBuckets == 0 || (2 <= lg <= 31 && nBuckets == Pow2(lg)))
    }

    ghost predicate Valid()
      reads this, flags, keys, vals
    {
      && Shaped() && size == |contents|
      && upperBound == (if nBuckets == 0 then 0 else Upper(nBuckets)) && nOccupied <= upperBound
      && nOccupied == |Used(S())|
      && (nBuckets > 0 ==> Ok(S(), keys[..], hash) && Holds(S(), keys[..], vals[..], contents))
      && (nBuckets == 0 ==> contents == map[])
    }

    ghost function Repr(): set<object>
      reads this
    {
      {this, flags, keys, vals}
    }

    /** `kh_init`. */
    constructor (hash: K -> nat)
      ensures Valid() && fresh(Repr()) && contents == map[] && this.hash == hash
    {
      this.hash := hash;
      nBuckets, size, nOccupied, upperBound, lg := 0, 0, 0, 0, 0;
      flags, keys, vals := new bv32[0], new K[0], new V[0];
      contents := map[];
      new;
      UsedNone(S());
    }

    /** `kh_get`: the bucket of key, or nBuckets when it is not held. */
    method Get(key: K) returns (i: nat)
      requires Valid()
      ensures i == nBuckets <==> key !in contents
      ensures i != nBuckets ==> i < nBuckets && S()[i] == Live && keys[i] == key && vals[i] == contents[key]
    {
      if nBuckets == 0 { return 0; }
      SomeVacant();
      i := Find(flags, keys, vals[..], nBuckets, hash, key, contents, lg);
    }

    /** Below the load limit some bucket is still unused. */
    lemma SomeVacant()
      requires Valid() && nBuckets > 0
      ensures Searchable(S(), keys[..], vals[..], contents, hash, lg)
    {
      assert Upper(nBuckets) < nBuckets by { assert Pow2(2) == 4; Pow2Monotone(2, lg); }
      VacantLeft(S());
    }

    /** `kh_resize`, for any request: the map stays the same, and after a rehash no bucket is
        marked deleted. */
    method Resize(newN0: nat)
      requires Valid()
      modifies this, flags, keys, vals
      ensures Valid() && fresh(Repr() - old(Repr())) && contents == old(contents) && size == old(size)
      ensures size < Upper(Rounded(newN0)) ==>
                nBuckets == Rounded(newN0) && nOccupied == size && forall j :: 0 <= j < nBuckets ==> S()[j] != Deleted
      ensures size >= Upper(Rounded(newN0)) ==>
                nBuckets == old(nBuckets) && nOccupied == old(nOccupied) && S() == old(S()) && keys == old(keys) && vals == old(vals)
    {
      hide Ok, Holds, Pow2, Used, RoundUp, CeilPow2, Slots;
      var newN := RoundUp(newN0);
      if newN < 4 { newN := 4; }
      if size >= Upper(newN) { return; }
      ghost var k := RoundedPower(newN0);
      UpperBelow(k);
      var newFlags, newKeys, newVals := Rebuild(flags, nBuckets, newN, keys, vals, hash, contents, k);
      Install(newFlags, newKeys, newVals, newN, k);
    }

    method Install(newFlags: array<bv32>, newKeys: array<K>, newVals: array<V>, newN: nat, ghost k: nat)
      requires newKeys as object != newVals as object && newFlags as object !in {newKeys as object, newVals as object}
      requires newN <= 16 * newFlags.Length && newKeys.Length == newVals.Length == newN
      requires Ok(Slots(newFlags[..], newN), newKeys[..], hash)
      requires Holds(Slots(newFlags[..], newN), newKeys[..], newVals[..], contents)
      requires |Used(Slots(newFlags[..], newN))| == |contents| == size <= Upper(newN)
      requires 2 <= k <= 31 && newN == Pow2(k)
      modifies this
      ensures Valid() && flags == newFlags && keys == newKeys && vals == newVals
      ensures contents == old(contents) && size == old(size) && nBuckets == newN && nOccupied == size
    {
      hide Ok, Holds, Pow2, Used, Slots, Upper;
      flags, keys, vals := newFlags, newKeys, newVals;
      nBuckets, nOccupied, upperBound, lg := newN, size, Upper(newN), k;
    }

    /** `kh_put`. The value of a new key is whatever the bucket holds; the caller stores one next.
        ret is 0 for a key already held, 1 when its bucket was never used, 2 when it was deleted. */
    method Put(key: K) returns (x: nat, ret: int)
      requires Valid()
      requires nOccupied < upperBound || nBuckets > 2 * size || nBuckets < 0x8000_0000
      modifies this, flags, keys, vals
      ensures Valid() && fresh(Repr() - old(Repr()))
      ensures x < nBuckets && S()[x] == Live && keys[x] == key
      ensures 0 <= ret <= 2 && (ret == 0 <==> key in old(contents))
      ensures contents == if ret == 0 then old(contents) else old(contents)[key := vals[x]]
      ensures old(nOccupied < upperBound) ==>
                && nBuckets == old(nBuckets) && BucketFor(old(S()), old(keys[..]), hash(key), key, x)
                && (ret != 0 ==> ret == if old(S())[x] == Deleted then 2 else 1)
      ensures old(nOccupied >= upperBound) ==> nBuckets == RoomFor(old(nBuckets), old(size)) && ret != 2
    {
      hide Ok, Holds, Used, Pow2, Slots, Upper;
      if nOccupied >= upperBound { MakeRoom(); }
      x, ret := Insert(key);
    }

    /** At the load limit: rehash at the same size if more than half of the buckets hold no
        element, and otherwise at twice the size. */
    method MakeRoom()
      requires Valid() && nOccupied >= upperBound && (nBuckets > 2 * size || nBuckets < 0x8000_0000)
      modifies this, flags, keys, vals
      ensures Valid() && fresh(Repr() - old(Repr())) && contents == old(contents)
      ensures nBuckets == RoomFor(old(nBuckets), old(size)) && size == old(size)
      ensures nOccupied == size < upperBound && forall j :: 0 <= j < nBuckets ==> S()[j] != Deleted
    {
      hide Ok, Holds, Used, Pow2, Slots, Rounded, Upper;
      if nBuckets > 0 { SizeBound(S(), keys[..], vals[..], contents); }
      if nBuckets > size * 2 {
        SameSize(nBuckets, lg, size);
        Resize(nBuckets - 1);
      } else {
        if nBuckets == 0 { FirstSize(); } else { DoubleSize(nBuckets, lg, size); }
        Resize(nBuckets + 1);
      }
    }

    method Insert(key: K) returns (x: nat, ret: int)
      requires Valid() && nOccupied < upperBound
      modifies this, flags, keys
      ensures Valid() && Repr() == old(Repr()) && nBuckets == old(nBuckets)
      ensures x < nBuckets && S()[x] == Live && keys[x] == key
      ensures 0 <= ret <= 2 && (ret == 0 <==> key in old(contents))
      ensures contents == if ret == 0 then old(contents) else old(contents)[key := vals[x]]
      ensures ret != 0 ==> ret == if old(S())[x] == Deleted then 2 else 1
      ensures BucketFor(old(S()), old(keys[..]), hash(key), key, x)
      ensures S() == old(S())[x := Live]
    {
      SomeVacant();
      x := Seek(flags, keys, vals[..], nBuckets, hash, key, contents, lg);
      ReadSlot(flags, x, nBuckets);
      if IsEmpty(flags, x) || IsDel(flags, x) {
        ret := if IsEmpty(flags, x) then 1 else 2;
        Fill(x, key);
      } else {
        ret := 0;
      }
    }

    method Fill(x: nat, key: K)
      requires Valid() && nOccupied < upperBound && x < nBuckets && key !in contents
      requires S()[x] == Vacant || S()[x] == Deleted
      requires OnChain(S()[x := Live], hash(key), x)
      modifies this, flags, keys
      ensures Valid() && Repr() == old(Repr()) && nBuckets == old(nBuckets)
      ensures S() == old(S())[x := Live] && keys[x] == key && contents == old(contents)[key := vals[x]]
    {
      hide Ok, Holds, Used, Pow2, Slots, OnChain, Upper;
      PutNew(S(), keys[..], vals[..], contents, hash, x, key);
      UsedUpdate(S(), x, Live);
      ReadSlot(flags, x, nBuckets);
      keys[x] := key;
      if IsEmpty(flags, x) { nOccupied := nOccupied + 1; }
      SetIsbothFalse(flags, x, nBuckets);
      size := size + 1;
      contents := contents[key := vals[x]];
    }

    /** `kh_value(h, x) = v`. */
    method SetValue(x: nat, v: V)
      requires Valid() && x < nBuckets && S()[x] == Live
      modifies this`contents, vals
      ensures Valid() && Repr() == old(Repr()) && keys[x] in old(contents) && contents == old(contents)[keys[x] := v]
      ensures S() == old(S()) && vals[x] == v
    {
      hide Used, Pow2, Slots, Upper, Ok;
      SetVal(S(), keys[..], vals[..], contents, hash, x, v);
      vals[x] := v;
      contents := contents[keys[x] := v];
    }

    /** `kh_del`, for any bucket number or nBuckets. */
    method Del(x: nat)
      requires Valid() && x <= nBuckets
      modifies this, flags
      ensures Valid() && Repr() == old(Repr()) && nBuckets == old(nBuckets)
      ensures contents == if x < nBuckets && old(S())[x] == Live then old(contents) - {keys[x]} else old(contents)
      ensures S() == if x < nBuckets && old(S())[x] == Live then old(S())[x := Deleted] else old(S())
    {
      hide Ok, Holds, Used, Pow2, Slots, Upper, IsEither;
      if x != nBuckets {
        ReadSlot(flags, x, nBuckets);
        if !IsEither(flags, x) {
          DelLive(S(), keys[..], vals[..], contents, hash, x);
          UsedUpdate(S(), x, Deleted);
          SetIsdelTrue(flags, x, nBuckets);
          size := size - 1;
          contents := contents - {keys[x]};
        }
      }
    }

    /** `kh_clear`. */
    method Clear()
      requires Valid()
      modifies this, flags
      ensures Valid() && Repr() == old(Repr()) && contents == map[] && nBuckets == old(nBuckets)
      ensures size == nOccupied == 0 && forall i :: 0 <= i < nBuckets ==> S()[i] == Vacant
    {
      hide Pow2, Slots, Upper, Used, Ok, Holds;
      SetAllVacant(flags, nBuckets);
      size, nOccupied := 0, 0;
      contents := map[];
      UsedNone(S());
      if nBuckets > 0 { OkNone(S(), keys[..], vals[..], hash); }
    }
  }

  lemma OkNone<K(!new), V(!new)>(slots: seq<Slot>, keys: seq<K>, vals: seq<V>, hash: K -> nat)
    requires 0 < |slots| == |keys| == |vals| && forall i :: 0 <= i < |slots| ==> slots[i] == Vacant
    ensures Ok(slots, keys, hash) && Holds(slots, keys, vals, map[])
  {
  }

  /** The load limit is 77 percent of the buckets, rounded to the nearest number. */
  lemma UpperIs(n: nat)
    ensures Upper(n) as real <= n as real * 0.77 + 0.5 < Upper(n) as real + 1.0
  {
    var u, r := (77 * n + 50) / 100, (77 * n + 50) % 100;
    assert 77 * n + 50 == 100 * u + r;
    assert 77.0 * n as real + 50.0 == 100.0 * u as real + r as real;
  }

  /** The table has at least four buckets and at least those asked for, but not twice as many; a request
      that does not fit wraps round to four. */
  lemma RoundedIs(newN: nat)
    ensures exists k: nat :: Rounded(newN) == Pow2(k)
    ensures newN > 0x8000_0000 ==> Rounded(newN) == 4
    ensures newN <= 0x8000_0000 ==> Rounded(newN) >= 4 && Rounded(newN) >= newN && (Rounded(newN) == 4 || Rounded(newN) < 2 * newN)
  {
    var k := RoundedPower(newN);
  }

  lemma UpperBelow(k: nat)
    ensures Upper(Pow2(k)) <= Pow2(k)
  {
  }

  lemma PowRange(k: nat)
    requires 4 <= Pow2(k) < 0x1_0000_0000
    ensures 2 <= k <= 31
  {
    assert Pow2(0) == 1 && Pow2(1) == 2;
    if k > 31 {
      Pow2Monotone(32, k);
      Pow2At32();
    }
  }

  lemma Pow2At32()
    ensures Pow2(32) == 0x1_0000_0000
  {
    assert Pow2(8) == 256;
    assert Pow2(16) == 0x1_0000;
    assert Pow2(24) == 0x100_0000;
  }

  lemma Pow2At31()
    ensures Pow2(31) == 0x8000_0000
  {
    Pow2At32();
    Pow2Step(31);
  }

  /** There is one power of two from x up to 2x. */
  lemma CeilUnique(x: nat, k: nat)
    requires x > 0 && x <= Pow2(k) < 2 * x
    ensures CeilPow2(x) == Pow2(k)
  {
    var k': nat :| CeilPow2(x) == Pow2(k');
    if k' < k { Pow2Monotone(k' + 1, k); }
    if k < k' { Pow2Monotone(k + 1, k'); }
  }

  /** A power of two number of buckets fills whole words, or fits one. */
  lemma FsizeEnough(k: nat)
    ensures Pow2(k) <= 16 * Fsize(Pow2(k))
  {
    if Pow2(k) >= 16 { PowMultiple(k); }
  }

  lemma PowMultiple(k: nat)
    requires Pow2(k) >= 16
    ensures Pow2(k) % 16 == 0
  {
    assert Pow2(0) == 1 && Pow2(1) == 2 && Pow2(2) == 4 && Pow2(3) == 8;
    assert Pow2(k) == 2 * Pow2(k - 1) && Pow2(k - 1) == 2 * Pow2(k - 2);
    assert Pow2(k - 2) == 2 * Pow2(k - 3) && Pow2(k - 3) == 2 * Pow2(k - 4);
  }
}
