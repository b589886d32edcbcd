/** What a bucket array of klib/khash.h means: the chains of probes and the finite map held. */
module KhashModel {
  import opened Arithmetic
  import opened KhashFlags
  import opened KhashProbe

  // ------------------------------------------------------------------
  // Chains of probes
  // ------------------------------------------------------------------

  /** The first s buckets probed from home have all been used. */
  ghost predicate Solid(slots: seq<Slot>, home: nat, s: nat)
    requires slots != []
  {
    forall r: nat :: r < s ==> slots[Probe(home, r, |slots|)] != Vacant
  }

  /** A search from home comes to bucket j before it comes to a bucket never used. */
  ghost predicate OnChain(slots: seq<Slot>, home: nat, j: nat)
    requires slots != []
  {
    exists s: nat :: s < |slots| && Probe(home, s, |slots|) == j && Solid(slots, home, s)
  }

  ghost predicate HasVacant(slots: seq<Slot>) { exists j :: 0 <= j < |slots| && slots[j] == Vacant }

  lemma SolidBefore(slots: seq<Slot>, home: nat, s: nat, r: nat)
    requires slots != [] && Solid(slots, home, s) && slots[Probe(home, r, |slots|)] == Vacant
    ensures s <= r
  {
  }

  /** As long as some bucket was never used, a search gets there in fewer than 2^m steps. */
  lemma StepBound(slots: seq<Slot>, home: nat, s: nat, m: nat)
    requires |slots| == Pow2(m) && HasVacant(slots) && Solid(slots, home, s)
    ensures s < |slots|
  {
    var j :| 0 <= j < |slots| && slots[j] == Vacant;
    var s' := ProbeCovers(home, j, m);
    SolidBefore(slots, home, s, s');
  }

  lemma SolidNext(slots: seq<Slot>, home: nat, s: nat)
    requires slots != [] && Solid(slots, home, s) && slots[Probe(home, s, |slots|)] != Vacant
    ensures Solid(slots, home, s + 1)
  {
  }

  /** Filling a bucket breaks no chain. */
  lemma ChainGrow(slots: seq<Slot>, home: nat, j: nat, i: nat, x: Slot)
    requires i < |slots| && x != Vacant && OnChain(slots, home, j)
    ensures OnChain(slots[i := x], home, j)
  {
    var s: nat :| s < |slots| && Probe(home, s, |slots|) == j && Solid(slots, home, s);
    assert Solid(slots[i := x], home, s);
  }

  /** A search that has not met the key when it meets a bucket never used need not go on. */
  lemma NotFound<K>(slots: seq<Slot>, keys: seq<K>, home: nat, s: nat, j: nat)
    requires slots != [] && |slots| <= |keys|
    requires slots[Probe(home, s, |slots|)] == Vacant
    requires j < |slots| && slots[j] == Live && OnChain(slots, home, j)
    ensures exists r: nat :: r < s && Probe(home, r, |slots|) == j
  {
    var s': nat :| s' < |slots| && Probe(home, s', |slots|) == j && Solid(slots, home, s');
    SolidBefore(slots, home, s', s);
  }

  // ------------------------------------------------------------------
  // The map held
  // ------------------------------------------------------------------

  ghost predicate LiveAt(slots: seq<Slot>, j: int) { 0 <= j < |slots| && slots[j] == Live }

  /** No bucket has both bits set, elements have different keys, and every element is where a
      search for its key comes to. */
  ghost predicate Ok<K(!new)>(slots: seq<Slot>, keys: seq<K>, hash: K -> nat) {
    && slots != [] && |slots| == |keys|
    && (forall j :: 0 <= j < |slots| ==> slots[j] != Both)
    && (forall j :: LiveAt(slots, j) ==> OnChain(slots, hash(keys[j]), j))
    && (forall j, k :: LiveAt(slots, j) && LiveAt(slots, k) && keys[j] == keys[k] ==> j == k)
  }

  /** The elements are exactly the pairs of the map m. */
  ghost predicate Holds<K(!new), V(!new)>(slots: seq<Slot>, keys: seq<K>, vals: seq<V>, m: map<K, V>) {
    && |slots| == |keys| == |vals|
    && (forall j :: LiveAt(slots, j) ==> keys[j] in m && m[keys[j]] == vals[j])
    && (forall k :: k in m ==> exists j :: LiveAt(slots, j) && keys[j] == k)
  }

  ghost function Used(slots: seq<Slot>): set<nat> {
    set j: nat | j < |slots| && slots[j] != Vacant
  }

  lemma UsedUpdate(slots: seq<Slot>, i: nat, x: Slot)
    requires i < |slots| && x != Vacant
    ensures |Used(slots[i := x])| == |Used(slots)| + (if slots[i] == Vacant then 1 else 0)
  {
    var u, u' := Used(slots), Used(slots[i := x]);
    assert u' == u + {i};
    hide Used;
    if slots[i] == Vacant { AddOne(u, i, u'); } else { assert u' == u; }
  }

  lemma AddOne(s: set<nat>, i: nat, t: set<nat>)
    requires i !in s && t == s + {i}
    ensures |t| == |s| + 1
  {
  }

  lemma UsedNone(slots: seq<Slot>)
    requires forall j :: 0 <= j < |slots| ==> slots[j] == Vacant
    ensures Used(slots) == {}
  {
  }

  lemma VacantLeft(slots: seq<Slot>)
    requires |Used(slots)| < |slots|
    ensures HasVacant(slots)
  {
    if !HasVacant(slots) {
      assert Used(slots) == Range(|slots|);
      RangeSize(|slots|);
    }
  }

  /** Different buckets with different keys: as many keys as buckets. */
  lemma {:induction false} ImageSize<K>(s: set<nat>, keys: seq<K>)
    requires forall j :: j in s ==> j < |keys|
    requires forall j, k :: j in s && k in s && keys[j] == keys[k] ==> j == k
    ensures |set j | j in s :: keys[j]| == |s|
  {
    if s != {} {
      var i :| i in s;
      ImageSize(s - {i}, keys);
      assert (set j | j in s :: keys[j]) == (set j | j in s - {i} :: keys[j]) + {keys[i]};
      assert keys[i] !in (set j | j in s - {i} :: keys[j]);
    }
  }

  // ------------------------------------------------------------------
  // Rehashing in place
  // ------------------------------------------------------------------

  /** The element that has been kicked out of its bucket and is looking for another one. */
  datatype Hand<K, V> = Empty | Full(k: K, v: V)

  /** Bucket i of the shared arrays holds an element, of the old table or of the new one. */
  ghost predicate HeldAt(oldT: seq<Slot>, newT: seq<Slot>, i: int) { LiveAt(oldT, i) || LiveAt(newT, i) }

  /** The state of a rehash: oldT says which elements of the old table have not been moved,
      newT which buckets of the new table have been filled. No bucket holds elements of both.
      The unmoved elements, the placed ones and the one in hand are exactly the map m. */
  ghost predicate Mid<K(!new), V(!new)>(oldT: seq<Slot>, newT: seq<Slot>, keys: seq<K>, vals: seq<V>,
                                        hand: Hand<K, V>, m: map<K, V>, hash: K -> nat)
  {
    && |keys| == |vals| && |oldT| <= |keys| && 0 < |newT| <= |keys|
    && (forall j :: 0 <= j < |newT| ==> newT[j] == Vacant || newT[j] == Live)
    && (forall i :: !(LiveAt(oldT, i) && LiveAt(newT, i)))
    && (forall i :: HeldAt(oldT, newT, i) ==> keys[i] in m && m[keys[i]] == vals[i])
    && (forall i, j :: HeldAt(oldT, newT, i) && HeldAt(oldT, newT, j) && keys[i] == keys[j] ==> i == j)
    && (hand.Full? ==> hand.k in m && m[hand.k] == hand.v)
    && (hand.Full? ==> forall i :: HeldAt(oldT, newT, i) ==> keys[i] != hand.k)
    && (forall k :: k in m && hand != Full(k, m[k]) ==> exists i :: HeldAt(oldT, newT, i) && keys[i] == k)
    && (forall j :: LiveAt(newT, j) ==> OnChain(newT, hash(keys[j]), j))
  }

  lemma MidStart<K(!new), V(!new)>(slots: seq<Slot>, keys: seq<K>, vals: seq<V>, m: map<K, V>, hash: K -> nat,
                                   newT: seq<Slot>, keys': seq<K>, vals': seq<V>)
    requires slots == [] ==> m == map[]
    requires slots != [] ==> Ok(slots, keys, hash) && Holds(slots, keys, vals, m)
    requires |keys| == |vals| == |slots| && keys <= keys' && vals <= vals'
    requires |keys'| == |vals'| && 0 < |newT| <= |keys'| && forall j :: 0 <= j < |newT| ==> newT[j] == Vacant
    ensures Mid(slots, newT, keys', vals', Empty, m, hash)
  {
    assert forall j :: LiveAt(slots, j) ==> HeldAt(slots, newT, j) && keys'[j] == keys[j] && vals'[j] == vals[j];
  }

  /** Taking an unmoved element out of bucket j. */
  lemma MidTake<K(!new), V(!new)>(oldT: seq<Slot>, newT: seq<Slot>, keys: seq<K>, vals: seq<V>,
                                  m: map<K, V>, hash: K -> nat, j: nat)
    requires Mid(oldT, newT, keys, vals, Empty, m, hash) && LiveAt(oldT, j)
    ensures Mid(oldT[j := Deleted], newT, keys, vals, Full(keys[j], vals[j]), m, hash)
  {
    var oldT' := oldT[j := Deleted];
    assert HeldAt(oldT, newT, j);
    assert forall i :: HeldAt(oldT', newT, i) <==> HeldAt(oldT, newT, i) && i != j;
    forall k | k in m && Full(keys[j], vals[j]) != Full(k, m[k])
      ensures exists i :: HeldAt(oldT', newT, i) && keys[i] == k
    {
      var i :| HeldAt(oldT, newT, i) && keys[i] == k;
      assert HeldAt(oldT', newT, i);
    }
  }

  /** With an element in hand the new table is not full, so the search for a bucket ends. */
  lemma MidVacant<K(!new), V(!new)>(oldT: seq<Slot>, newT: seq<Slot>, keys: seq<K>, vals: seq<V>,
                                    hand: Hand<K, V>, m: map<K, V>, hash: K -> nat)
    requires Mid(oldT, newT, keys, vals, hand, m, hash) && hand.Full? && |m| <= |newT|
    ensures HasVacant(newT)
  {
    var placed := set j | j in Used(newT) :: keys[j];
    forall j | j in Used(newT) ensures LiveAt(newT, j) && HeldAt(oldT, newT, j) { }
    ImageSize(Used(newT), keys);
    assert placed <= m.Keys - {hand.k};
    SetLess(placed, m.Keys - {hand.k});
    VacantLeft(newT);
  }

  lemma SetLess<T>(a: set<T>, b: set<T>)
    requires a <= b
    ensures |a| <= |b|
  {
    assert b == a + (b - a);
  }

  /** Putting the element in hand into a bucket i of the new table that its search comes to. If
      an unmoved element was there it is the next one in hand; otherwise the hand is empty. */
  ghost predicate Placed<K(!new), V(!new)>(oldT: seq<Slot>, newT: seq<Slot>, keys: seq<K>, vals: seq<V>, hand: Hand<K, V>, i: nat,
                                           oldT': seq<Slot>, newT': seq<Slot>, keys': seq<K>, vals': seq<V>, hand': Hand<K, V>)
  {
    && hand.Full? && i < |newT| && i < |keys| && i < |vals|
    && newT' == newT[i := Live] && keys' == keys[i := hand.k] && vals' == vals[i := hand.v]
    && if LiveAt(oldT, i) then oldT' == oldT[i := Deleted] && hand' == Full(keys[i], vals[i])
       else oldT' == oldT && hand' == Empty
  }

  lemma MidPlace<K(!new), V(!new)>(oldT: seq<Slot>, newT: seq<Slot>, keys: seq<K>, vals: seq<V>, hand: Hand<K, V>, i: nat,
                                   oldT': seq<Slot>, newT': seq<Slot>, keys': seq<K>, vals': seq<V>, hand': Hand<K, V>,
                                   m: map<K, V>, hash: K -> nat)
    requires Mid(oldT, newT, keys, vals, hand, m, hash)
    requires Placed(oldT, newT, keys, vals, hand, i, oldT', newT', keys', vals', hand')
    requires newT[i] == Vacant && OnChain(newT', hash(hand.k), i)
    ensures Mid(oldT', newT', keys', vals', hand', m, hash)
  {
    assert forall j :: LiveAt(newT', j) <==> LiveAt(newT, j) || j == i;
    assert forall j :: LiveAt(oldT', j) <==> LiveAt(oldT, j) && j != i;
    assert forall j :: HeldAt(oldT', newT', j) <==> HeldAt(oldT, newT, j) || j == i;
    assert forall j :: j != i && 0 <= j < |keys| ==> keys'[j] == keys[j] && vals'[j] == vals[j];
    forall j | LiveAt(newT', j) && j != i ensures OnChain(newT', hash(keys'[j]), j) {
      ChainGrow(newT, hash(keys[j]), j, i, Live);
    }
    forall k | k in m && hand' != Full(k, m[k]) ensures exists j :: HeldAt(oldT', newT', j) && keys'[j] == k {
      if k == hand.k {
        assert HeldAt(oldT', newT', i) && keys'[i] == k;
      } else {
        var j :| HeldAt(oldT, newT, j) && keys[j] == k;
        assert j != i;
        assert HeldAt(oldT', newT', j) && keys'[j] == k;
      }
    }
  }

  /** Nothing in hand and nothing unmoved: the new table is a table for the same map. */
  lemma MidEnd<K(!new), V(!new)>(oldT: seq<Slot>, newT: seq<Slot>, keys: seq<K>, vals: seq<V>, m: map<K, V>, hash: K -> nat)
    requires Mid(oldT, newT, keys, vals, Empty, m, hash)
    requires forall j :: 0 <= j < |oldT| ==> oldT[j] != Live
    ensures var n := |newT|;
            Ok(newT, keys[..n], hash) && Holds(newT, keys[..n], vals[..n], m) && |Used(newT)| == |m|
    ensures forall j :: 0 <= j < |newT| ==> newT[j] != Deleted
  {
    var n := |newT|;
    var ks, vs := keys[..n], vals[..n];
    forall j | LiveAt(newT, j)
      ensures ks[j] in m && m[ks[j]] == vs[j] && OnChain(newT, hash(ks[j]), j)
    {
      assert HeldAt(oldT, newT, j) && ks[j] == keys[j] && vs[j] == vals[j];
    }
    forall j, k | LiveAt(newT, j) && LiveAt(newT, k) && ks[j] == ks[k] ensures j == k {
      assert HeldAt(oldT, newT, j) && HeldAt(oldT, newT, k) && ks[j] == keys[j] && ks[k] == keys[k];
    }
    forall k | k in m ensures exists j :: LiveAt(newT, j) && ks[j] == k {
      var j :| HeldAt(oldT, newT, j) && keys[j] == k;
      assert LiveAt(newT, j) && ks[j] == k;
    }
    assert forall j :: 0 <= j < n ==> newT[j] != Both;
    hide Mid, OnChain;
    UsedCount(newT, ks, m);
  }

  /** In a table without deleted buckets as many buckets are used as there are keys. */
  lemma UsedCount<K(!new), V(!new)>(slots: seq<Slot>, keys: seq<K>, m: map<K, V>)
    requires |slots| == |keys|
    requires forall j :: 0 <= j < |slots| ==> slots[j] == Vacant || slots[j] == Live
    requires forall j :: LiveAt(slots, j) ==> keys[j] in m
    requires forall j, k :: LiveAt(slots, j) && LiveAt(slots, k) && keys[j] == keys[k] ==> j == k
    requires forall k :: k in m ==> exists j :: LiveAt(slots, j) && keys[j] == k
    ensures |Used(slots)| == |m|
  {
    assert forall j: nat :: j in Used(slots) <==> LiveAt(slots, j);
    ImageSize(Used(slots), keys);
    var image := set j | j in Used(slots) :: keys[j];
    forall k | k in m ensures k in image {
      var j :| LiveAt(slots, j) && keys[j] == k;
      assert j in Used(slots);
    }
    assert image == m.Keys;
  }

  // ------------------------------------------------------------------
  // Putting and deleting
  // ------------------------------------------------------------------

  lemma PutNew<K(!new), V(!new)>(slots: seq<Slot>, keys: seq<K>, vals: seq<V>, m: map<K, V>, hash: K -> nat, x: nat, key: K)
    requires Ok(slots, keys, hash) && Holds(slots, keys, vals, m)
    requires x < |slots| && slots[x] != Live && key !in m
    requires OnChain(slots[x := Live], hash(key), x)
    ensures Ok(slots[x := Live], keys[x := key], hash)
    ensures Holds(slots[x := Live], keys[x := key], vals, m[key := vals[x]])
  {
    var slots', keys' := slots[x := Live], keys[x := key];
    assert forall j :: LiveAt(slots', j) <==> LiveAt(slots, j) || j == x;
    assert forall j :: LiveAt(slots, j) ==> keys[j] != key && keys'[j] == keys[j];
    forall j | LiveAt(slots, j) ensures OnChain(slots', hash(keys[j]), j) {
      ChainGrow(slots, hash(keys[j]), j, x, Live);
    }
    var m' := m[key := vals[x]];
    forall k | k in m' ensures exists j :: LiveAt(slots', j) && keys'[j] == k {
      if k == key {
        assert LiveAt(slots', x) && keys'[x] == k;
      } else {
        var j :| LiveAt(slots, j) && keys[j] == k;
        assert LiveAt(slots', j) && keys'[j] == k;
      }
    }
  }

  lemma DelLive<K(!new), V(!new)>(slots: seq<Slot>, keys: seq<K>, vals: seq<V>, m: map<K, V>, hash: K -> nat, x: nat)
    requires Ok(slots, keys, hash) && Holds(slots, keys, vals, m) && LiveAt(slots, x)
    ensures Ok(slots[x := Deleted], keys, hash)
    ensures Holds(slots[x := Deleted], keys, vals, m - {keys[x]})
    ensures keys[x] in m && |m - {keys[x]}| == |m| - 1
  {
    var slots' := slots[x := Deleted];
    assert forall j :: LiveAt(slots', j) <==> LiveAt(slots, j) && j != x;
    forall j | LiveAt(slots', j) ensures OnChain(slots', hash(keys[j]), j) {
      ChainGrow(slots, hash(keys[j]), j, x, Deleted);
    }
    forall k | k in m - {keys[x]} ensures exists j :: LiveAt(slots', j) && keys[j] == k {
      var j :| LiveAt(slots, j) && keys[j] == k;
      assert LiveAt(slots', j) && keys[j] == k;
    }
    assert m.Keys == (m - {keys[x]}).Keys + {keys[x]};
  }

  lemma SetVal<K(!new), V(!new)>(slots: seq<Slot>, keys: seq<K>, vals: seq<V>, m: map<K, V>, hash: K -> nat, x: nat, v: V)
    requires Ok(slots, keys, hash) && Holds(slots, keys, vals, m) && LiveAt(slots, x)
    ensures keys[x] in m && Holds(slots, keys, vals[x := v], m[keys[x] := v])
  {
  }

  /** When a search for key has met only other keys and stops at a bucket never used, key is not held. */
  lemma Absent<K(!new), V(!new)>(slots: seq<Slot>, keys: seq<K>, vals: seq<V>, m: map<K, V>, hash: K -> nat, key: K, s: nat)
    requires Ok(slots, keys, hash) && Holds(slots, keys, vals, m)
    requires slots[Probe(hash(key), s, |slots|)] == Vacant && Missed(slots, keys, hash(key), key, s)
    ensures key !in m
  {
    if key in m {
      var j :| LiveAt(slots, j) && keys[j] == key;
      NotFound(slots, keys, hash(key), s, j);
    }
  }

  /** None of the first s buckets probed holds the key. */
  ghost predicate Missed<K(!new)>(slots: seq<Slot>, keys: seq<K>, home: nat, key: K, s: nat)
    requires slots != [] && |slots| <= |keys|
  {
    forall r: nat :: r < s && slots[Probe(home, r, |slots|)] == Live ==> keys[Probe(home, r, |slots|)] != key
  }

  lemma MissedNext<K(!new)>(slots: seq<Slot>, keys: seq<K>, home: nat, key: K, s: nat)
    requires slots != [] && |slots| <= |keys| && Missed(slots, keys, home, key, s)
    requires var j := Probe(home, s, |slots|); slots[j] == Live ==> keys[j] != key
    ensures Missed(slots, keys, home, key, s + 1)
  {
  }

  /** The bucket a search stands at is on the chain of its key. */
  lemma ChainHere(slots: seq<Slot>, home: nat, s: nat, x: Slot)
    requires slots != [] && s < |slots| && Solid(slots, home, s) && x != Vacant
    ensures OnChain(slots[Probe(home, s, |slots|) := x], home, Probe(home, s, |slots|))
  {
    var i := Probe(home, s, |slots|);
    assert Solid(slots[i := x], home, s);
  }

  lemma NotBack(slots: seq<Slot>, home: nat, s: nat, m: nat)
    requires |slots| == Pow2(m) && HasVacant(slots) && Solid(slots, home, s) && 0 < s
    ensures Probe(home, s, |slots|) != Probe(home, 0, |slots|)
  {
    StepBound(slots, home, s, m);
    ProbeInjective(home, 0, s, m);
  }

  /** One more step of a search: what it may assume afterwards. */
  lemma SearchNext<K(!new)>(slots: seq<Slot>, keys: seq<K>, home: nat, key: K, s: nat, m: nat)
    requires |slots| == Pow2(m) && HasVacant(slots) && |slots| <= |keys|
    requires Solid(slots, home, s) && Missed(slots, keys, home, key, s)
    requires var j := Probe(home, s, |slots|); slots[j] != Vacant && (slots[j] == Live ==> keys[j] != key)
    ensures Solid(slots, home, s + 1) && Missed(slots, keys, home, key, s + 1) && s + 1 < |slots|
    ensures (Probe(home, s, |slots|) + (s + 1)) % |slots| == Probe(home, s + 1, |slots|)
    ensures Probe(home, s + 1, |slots|) != Probe(home, 0, |slots|)
  {
    SolidNext(slots, home, s);
    MissedNext(slots, keys, home, key, s);
    StepBound(slots, home, s + 1, m);
    ProbeNext(home, s, |slots|);
    NotBack(slots, home, s + 1, m);
  }

  lemma SearchStart<K(!new)>(slots: seq<Slot>, keys: seq<K>, home: nat, key: K)
    requires slots != [] && |slots| <= |keys|
    ensures Probe(home, 0, |slots|) == home % |slots|
    ensures Solid(slots, home, 0) && Missed(slots, keys, home, key, 0)
  {
  }

  lemma {:induction false} ImageAtMost<K>(s: set<nat>, keys: seq<K>)
    requires forall j :: j in s ==> j < |keys|
    ensures |set j | j in s :: keys[j]| <= |s|
  {
    if s != {} {
      var i :| i in s;
      ImageAtMost(s - {i}, keys);
      assert (set j | j in s :: keys[j]) == (set j | j in s - {i} :: keys[j]) + {keys[i]};
    }
  }

  /** There are at least as many used buckets as keys. */
  lemma SizeBound<K(!new), V(!new)>(slots: seq<Slot>, keys: seq<K>, vals: seq<V>, m: map<K, V>)
    requires Holds(slots, keys, vals, m)
    ensures |m| <= |Used(slots)|
  {
    var image := set j | j in Used(slots) :: keys[j];
    forall k | k in m ensures k in image {
      var j :| LiveAt(slots, j) && keys[j] == k;
      assert j in Used(slots);
    }
    SetLess(m.Keys, image);
    ImageAtMost(Used(slots), keys);
  }
}
