/** The value of a B-tree: a multiway search tree read off the nodes of klib/kbtree.h,
    its in-order key sequence, and the four rearrangements every operation is made of.

    Only the order of keys is inspected by the C comparison macro, so a key here is a
    rank (what the comparison looks at) together with a tag (what it does not). */
module BTreeModel {
  import opened Arithmetic
  import opened Sequences

  datatype Key = Key(rank: int, tag: int)

  /** `__cmp` in the shape of `kb_generic_cmp`. */
  function Cmp(a: Key, b: Key): int {
    (if b.rank < a.rank then 1 else 0) - (if a.rank < b.rank then 1 else 0)
  }

  datatype Tree = Node(keys: seq<Key>, kids: seq<Tree>)

  // ------------------------------------------------------------------
  // The in-order key sequence
  // ------------------------------------------------------------------

  function Flat(t: Tree): seq<Key>
    decreases t, 0
  {
    if t.kids == [] then t.keys else Weave(t.keys, t.kids)
  }

  /** Child, key, child, key, ..., child. */
  function Weave(keys: seq<Key>, kids: seq<Tree>): seq<Key>
    decreases kids, 1
  {
    if kids == [] then []
    else if keys == [] then Flat(kids[0])
    else Flat(kids[0]) + [keys[0]] + Weave(keys[1..], kids[1..])
  }

  /** The part of a node's sequence before child `|kids|`: child, key, ..., child, key. */
  function Left(keys: seq<Key>, kids: seq<Tree>): seq<Key>
    requires |keys| == |kids|
  {
    if kids == [] then []
    else
      var n := |kids| - 1;
      Left(keys[..n], kids[..n]) + Flat(kids[n]) + [keys[n]]
  }

  /** The part of a node's sequence after a child: key, child, ..., key, child. */
  function Right(keys: seq<Key>, kids: seq<Tree>): seq<Key>
    requires |keys| == |kids|
  {
    if keys == [] then [] else [keys[0]] + Weave(keys[1..], kids)
  }

  function Before(t: Tree, i: nat): seq<Key>
    requires i <= |t.keys| && i <= |t.kids|
  {
    Left(t.keys[..i], t.kids[..i])
  }

  function After(t: Tree, i: nat): seq<Key>
    requires |t.kids| == |t.keys| + 1 && i <= |t.keys|
  {
    Right(t.keys[i..], t.kids[i + 1..])
  }

  lemma LeftStep(keys: seq<Key>, kids: seq<Tree>, i: nat)
    requires i < |keys| && i < |kids|
    ensures Left(keys[..i + 1], kids[..i + 1]) == Left(keys[..i], kids[..i]) + Flat(kids[i]) + [keys[i]]
  {
    assert keys[..i + 1][..i] == keys[..i] && kids[..i + 1][..i] == kids[..i];
  }

  lemma WeaveStep(keys: seq<Key>, kids: seq<Tree>, i: nat)
    requires |kids| == |keys| + 1 && i < |keys|
    ensures Weave(keys[i..], kids[i..]) == Flat(kids[i]) + [keys[i]] + Weave(keys[i + 1..], kids[i + 1..])
  {
    assert keys[i..][1..] == keys[i + 1..] && kids[i..][1..] == kids[i + 1..];
  }

  lemma {:induction false} WeaveSplit(keys: seq<Key>, kids: seq<Tree>, i: nat)
    requires |kids| == |keys| + 1 && i <= |keys|
    ensures Weave(keys, kids) == Left(keys[..i], kids[..i]) + Weave(keys[i..], kids[i..])
  {
    if i == 0 {
      assert keys[0..] == keys && kids[0..] == kids;
    } else {
      WeaveSplit(keys, kids, i - 1);
      LeftStep(keys, kids, i - 1);
      WeaveStep(keys, kids, i - 1);
      Regroup(Left(keys[..i - 1], kids[..i - 1]), Flat(kids[i - 1]), [keys[i - 1]], Weave(keys[i..], kids[i..]));
    }
  }

  lemma Regroup<T>(a: seq<T>, b: seq<T>, c: seq<T>, d: seq<T>)
    ensures a + (b + c + d) == (a + b + c) + d
  {
  }

  /** Any internal node reads: what is before child i, child i, what is after it. */
  lemma FlatAt(t: Tree, i: nat)
    requires |t.kids| == |t.keys| + 1 && i <= |t.keys|
    ensures Flat(t) == Before(t, i) + Flat(t.kids[i]) + After(t, i)
  {
    WeaveSplit(t.keys, t.kids, i);
    if i < |t.keys| {
      assert t.kids[i..][1..] == t.kids[i + 1..];
      assert t.keys[i..][1..] == t.keys[i + 1..];
      assert Weave(t.keys[i..], t.kids[i..]) == Flat(t.kids[i]) + After(t, i);
    } else {
      assert Weave(t.keys[i..], t.kids[i..]) == Flat(t.kids[i]);
      assert After(t, i) == [];
    }
  }

  lemma AfterStep(t: Tree, i: nat)
    requires |t.kids| == |t.keys| + 1 && i < |t.keys|
    ensures After(t, i) == [t.keys[i]] + Flat(t.kids[i + 1]) + After(t, i + 1)
  {
    var rest := Node(t.keys[i + 1..], t.kids[i + 1..]);
    assert t.keys[i..][1..] == rest.keys;
    assert rest.keys[0..] == rest.keys && rest.kids[1..] == t.kids[i + 2..];
    FlatAt(rest, 0);
    assert Before(rest, 0) == [];
    hide Flat, Left;
    assert After(t, i) == [t.keys[i]] + Weave(rest.keys, rest.kids);
    Assoc([t.keys[i]], Flat(t.kids[i + 1]), After(t, i + 1));
  }

  /** The same, around a separator and its two neighbours. */
  lemma FlatAtPair(t: Tree, i: nat)
    requires |t.kids| == |t.keys| + 1 && i < |t.keys|
    ensures Flat(t) == Before(t, i) + (Flat(t.kids[i]) + [t.keys[i]] + Flat(t.kids[i + 1])) + After(t, i + 1)
    ensures After(t, i) == [t.keys[i]] + Flat(t.kids[i + 1]) + After(t, i + 1)
    ensures Before(t, i + 1) == Before(t, i) + Flat(t.kids[i]) + [t.keys[i]]
  {
    FlatAt(t, i);
    AfterStep(t, i);
    LeftStep(t.keys, t.kids, i);
    hide Flat, After;
    Shuffle(Before(t, i), Flat(t.kids[i]), [t.keys[i]], Flat(t.kids[i + 1]), After(t, i + 1));
    Assoc([t.keys[i]], Flat(t.kids[i + 1]), After(t, i + 1));
    Assoc(Before(t, i) + Flat(t.kids[i]), [t.keys[i]], Flat(t.kids[i + 1]) + After(t, i + 1));
  }

  // ------------------------------------------------------------------
  // Joining and cutting nodes
  // ------------------------------------------------------------------

  function Join(a: Tree, k: Key, b: Tree): Tree {
    Node(a.keys + [k] + b.keys, a.kids + b.kids)
  }

  function CutLeft(t: Tree, p: nat): Tree
    requires p < |t.keys| && (t.kids == [] || |t.kids| == |t.keys| + 1)
  {
    Node(t.keys[..p], if t.kids == [] then [] else t.kids[..p + 1])
  }

  function CutRight(t: Tree, p: nat): Tree
    requires p < |t.keys| && (t.kids == [] || |t.kids| == |t.keys| + 1)
  {
    Node(t.keys[p + 1..], if t.kids == [] then [] else t.kids[p + 1..])
  }

  /** Two nodes are siblings when both are leaves or both internal, with one child more than keys. */
  ghost predicate Siblings(a: Tree, b: Tree) {
    (a.kids == [] && b.kids == []) || (|a.kids| == |a.keys| + 1 && |b.kids| == |b.keys| + 1)
  }

  lemma JoinFlat(a: Tree, k: Key, b: Tree)
    requires Siblings(a, b)
    ensures Flat(Join(a, k, b)) == Flat(a) + [k] + Flat(b)
  {
    if a.kids != [] {
      var j, n := Join(a, k, b), |a.keys|;
      FlatAtPair(j, n);
      JoinLeft(a, k, b);
      JoinRight(a, k, b);
      hide *;
      Shuffle(Before(j, n), Flat(j.kids[n]), [k], Flat(j.kids[n + 1]), After(j, n + 1));
    }
  }

  lemma JoinLeft(a: Tree, k: Key, b: Tree)
    requires Siblings(a, b) && a.kids != []
    ensures var j, n := Join(a, k, b), |a.keys|;
            |j.kids| == |j.keys| + 1 && n < |j.keys| && j.keys[n] == k && Flat(a) == Before(j, n) + Flat(j.kids[n])
  {
    var j, n := Join(a, k, b), |a.keys|;
    FlatAt(a, n);
    assert j.keys[..n] == a.keys[..n] && j.kids[..n] == a.kids[..n];
  }

  lemma JoinRight(a: Tree, k: Key, b: Tree)
    requires Siblings(a, b) && a.kids != []
    ensures var j, n := Join(a, k, b), |a.keys|;
            |j.kids| == |j.keys| + 1 && n < |j.keys| && Flat(b) == Flat(j.kids[n + 1]) + After(j, n + 1)
  {
    var j, n := Join(a, k, b), |a.keys|;
    FlatAt(b, 0);
    assert j.keys[n + 1..] == b.keys[0..] && j.kids[n + 2..] == b.kids[1..];
  }

  lemma Shuffle<T>(a: seq<T>, b: seq<T>, c: seq<T>, d: seq<T>, e: seq<T>)
    ensures a + (b + c + d) + e == (a + b) + c + (d + e)
  {
  }

  lemma CutJoin(t: Tree, p: nat)
    requires p < |t.keys| && (t.kids == [] || |t.kids| == |t.keys| + 1)
    ensures Join(CutLeft(t, p), t.keys[p], CutRight(t, p)) == t
    ensures Flat(t) == Flat(CutLeft(t, p)) + [t.keys[p]] + Flat(CutRight(t, p))
  {
    var a, b := CutLeft(t, p), CutRight(t, p);
    assert a.keys + [t.keys[p]] + b.keys == t.keys && a.kids + b.kids == t.kids;
    JoinFlat(a, t.keys[p], b);
  }

  // ------------------------------------------------------------------
  // The rearrangements of a node x around one of its separators
  // ------------------------------------------------------------------

  ghost predicate Internal(x: Tree) { |x.kids| == |x.keys| + 1 }

  /** Move the boundary between children i and i+1 so that child i keeps p keys. */
  function Rotate(x: Tree, i: nat, p: nat): Tree
    requires Internal(x) && i < |x.keys| && Siblings(x.kids[i], x.kids[i + 1])
    requires p < |x.kids[i].keys| + 1 + |x.kids[i + 1].keys|
  {
    var j := Join(x.kids[i], x.keys[i], x.kids[i + 1]);
    Node(x.keys[i := j.keys[p]], x.kids[i := CutLeft(j, p)][i + 1 := CutRight(j, p)])
  }

  /** Children i and i+1 become one child, with key k between them; the separator leaves x. */
  function Merge(x: Tree, i: nat, k: Key): Tree
    requires Internal(x) && i < |x.keys|
  {
    Node(x.keys[..i] + x.keys[i + 1..],
         x.kids[..i] + [Join(x.kids[i], k, x.kids[i + 1])] + x.kids[i + 2..])
  }

  /** Child i is cut at its key p, which moves up into x. */
  function Split(x: Tree, i: nat, p: nat): Tree
    requires Internal(x) && i <= |x.keys| && p < |x.kids[i].keys|
    requires x.kids[i].kids == [] || Internal(x.kids[i])
  {
    var y := x.kids[i];
    Node(x.keys[..i] + [y.keys[p]] + x.keys[i..],
         x.kids[..i] + [CutLeft(y, p), CutRight(y, p)] + x.kids[i + 1..])
  }

  lemma SplitParts(x: Tree, i: nat, p: nat)
    requires Internal(x) && i <= |x.keys| && p < |x.kids[i].keys|
    requires x.kids[i].kids == [] || Internal(x.kids[i])
    ensures var x' := Split(x, i, p);
            && Internal(x') && |x'.keys| == |x.keys| + 1
            && (0 < i ==> x'.keys[i - 1] == x.keys[i - 1]) && (i < |x.keys| ==> x'.keys[i + 1] == x.keys[i])
            && |x'.kids[i].keys| == p && |x'.kids[i + 1].keys| == |x.kids[i].keys| - 1 - p
  {
  }

  function SetKid(x: Tree, i: nat, c: Tree): Tree
    requires i < |x.kids|
  {
    x.(kids := x.kids[i := c])
  }

  function SetKey(x: Tree, i: nat, k: Key): Tree
    requires i < |x.keys|
  {
    x.(keys := x.keys[i := k])
  }

  /** Rotating by one key to the right moves a's last key up and its last child across. */
  lemma RotateRightByOne(a: Tree, k: Key, b: Tree)
    requires Siblings(a, b) && 0 < |a.keys|
    ensures var j, n := Join(a, k, b), |a.keys| - 1;
            && j.keys[n] == a.keys[n] && CutLeft(j, n) == CutLeft(a, n)
            && CutRight(j, n) == Node([k] + b.keys, (if a.kids == [] then [] else [a.kids[n + 1]]) + b.kids)
            && CutRight(j, n) == Join(CutRight(a, n), k, b)
  {
    var j, n := Join(a, k, b), |a.keys| - 1;
    assert j.keys[n + 1..] == [k] + b.keys && j.keys[..n] == a.keys[..n];
    if a.kids != [] {
      assert j.kids[n + 1..] == [a.kids[n + 1]] + b.kids && j.kids[..n + 1] == a.kids[..n + 1];
    }
  }

  /** Rotating by one key to the left moves b's first key up and its first child across. */
  lemma RotateLeftByOne(a: Tree, k: Key, b: Tree)
    requires Siblings(a, b) && 0 < |b.keys|
    ensures var j, n := Join(a, k, b), |a.keys| + 1;
            && j.keys[n] == b.keys[0] && CutRight(j, n) == CutRight(b, 0)
            && CutLeft(j, n) == Node(a.keys + [k], a.kids + if b.kids == [] then [] else [b.kids[0]])
            && CutLeft(j, n) == Join(a, k, CutLeft(b, 0))
  {
    var j, n := Join(a, k, b), |a.keys| + 1;
    assert j.keys[n + 1..] == b.keys[1..] && j.keys[..n] == a.keys + [k];
    if a.kids != [] {
      assert j.kids[n + 1..] == b.kids[1..] && j.kids[..n + 1] == a.kids + [b.kids[0]];
    }
  }

  lemma RotateRight(x: Tree, i: nat)
    requires Internal(x) && i < |x.keys| && Siblings(x.kids[i], x.kids[i + 1]) && 0 < |x.kids[i].keys|
    ensures var a, k, b, n := x.kids[i], x.keys[i], x.kids[i + 1], |x.kids[i].keys| - 1;
            Rotate(x, i, n) ==
            Node(x.keys[i := a.keys[n]],
                 x.kids[i := CutLeft(a, n)][i + 1 := Node([k] + b.keys, (if a.kids == [] then [] else [a.kids[n + 1]]) + b.kids)])
  {
    RotateRightByOne(x.kids[i], x.keys[i], x.kids[i + 1]);
  }

  lemma RotateLeft(x: Tree, i: nat)
    requires Internal(x) && i < |x.keys| && Siblings(x.kids[i], x.kids[i + 1]) && 0 < |x.kids[i + 1].keys|
    ensures var a, k, b, n := x.kids[i], x.keys[i], x.kids[i + 1], |x.kids[i].keys| + 1;
            Rotate(x, i, n) ==
            Node(x.keys[i := b.keys[0]],
                 x.kids[i := Node(a.keys + [k], a.kids + if b.kids == [] then [] else [b.kids[0]])][i + 1 := CutRight(b, 0)])
  {
    RotateLeftByOne(x.kids[i], x.keys[i], x.kids[i + 1]);
  }

  lemma RotateFlat(x: Tree, i: nat, p: nat)
    requires Internal(x) && i < |x.keys| && Siblings(x.kids[i], x.kids[i + 1])
    requires p < |x.kids[i].keys| + 1 + |x.kids[i + 1].keys|
    ensures Flat(Rotate(x, i, p)) == Flat(x)
    ensures var x' := Rotate(x, i, p); Before(x', i) == Before(x, i) && After(x', i + 1) == After(x, i + 1)
  {
    var j, x' := Join(x.kids[i], x.keys[i], x.kids[i + 1]), Rotate(x, i, p);
    FlatAtPair(x, i);
    FlatAtPair(x', i);
    JoinFlat(x.kids[i], x.keys[i], x.kids[i + 1]);
    CutJoin(j, p);
    assert x'.keys[..i] == x.keys[..i] && x'.kids[..i] == x.kids[..i];
    assert x'.keys[i + 1..] == x.keys[i + 1..] && x'.kids[i + 2..] == x.kids[i + 2..];
  }

  lemma MergeFlat(x: Tree, i: nat, k: Key)
    requires Internal(x) && i < |x.keys| && Siblings(x.kids[i], x.kids[i + 1])
    ensures var x' := Merge(x, i, k);
            Before(x', i) == Before(x, i) && After(x', i) == After(x, i + 1)
    ensures Flat(Merge(x, i, k)) ==
            Before(x, i) + (Flat(x.kids[i]) + [k] + Flat(x.kids[i + 1])) + After(x, i + 1)
  {
    var x' := Merge(x, i, k);
    FlatAt(x', i);
    JoinFlat(x.kids[i], k, x.kids[i + 1]);
    assert x'.keys[..i] == x.keys[..i] && x'.kids[..i] == x.kids[..i];
    assert x'.keys[i..] == x.keys[i + 1..] && x'.kids[i + 1..] == x.kids[i + 2..];
  }

  lemma SplitFlat(x: Tree, i: nat, p: nat)
    requires Internal(x) && i <= |x.keys| && p < |x.kids[i].keys|
    requires x.kids[i].kids == [] || Internal(x.kids[i])
    ensures Flat(Split(x, i, p)) == Flat(x)
  {
    var x' := Split(x, i, p);
    FlatAt(x, i);
    FlatAtPair(x', i);
    CutJoin(x.kids[i], p);
    assert x'.keys[..i] == x.keys[..i] && x'.kids[..i] == x.kids[..i];
    assert x'.keys[i + 1..] == x.keys[i..] && x'.kids[i + 2..] == x.kids[i + 1..];
  }

  lemma SetKidFlat(x: Tree, i: nat, c: Tree)
    requires Internal(x) && i <= |x.keys|
    ensures Flat(SetKid(x, i, c)) == Before(x, i) + Flat(c) + After(x, i)
  {
    var x' := SetKid(x, i, c);
    FlatAt(x', i);
    assert x'.kids[..i] == x.kids[..i] && x'.kids[i + 1..] == x.kids[i + 1..];
  }

  // ------------------------------------------------------------------
  // Order
  // ------------------------------------------------------------------

  ghost predicate Sorted(s: seq<Key>) {
    forall i, j :: 0 <= i < j < |s| ==> s[i].rank <= s[j].rank
  }

  ghost predicate Below(s: seq<Key>, k: Key) { forall i :: 0 <= i < |s| ==> s[i].rank < k.rank }
  ghost predicate Above(s: seq<Key>, k: Key) { forall i :: 0 <= i < |s| ==> k.rank < s[i].rank }
  ghost predicate AtMost(s: seq<Key>, k: Key) { forall i :: 0 <= i < |s| ==> s[i].rank <= k.rank }
  ghost predicate AtLeast(s: seq<Key>, k: Key) { forall i :: 0 <= i < |s| ==> k.rank <= s[i].rank }

  /** Some key compares equal to k. */
  ghost predicate Has(s: seq<Key>, k: Key) { exists i :: 0 <= i < |s| && s[i].rank == k.rank }

  lemma SortedParts(a: seq<Key>, b: seq<Key>, c: seq<Key>)
    requires Sorted(a + b + c)
    ensures Sorted(a) && Sorted(b) && Sorted(c)
  {
    var s := a + b + c;
    assert forall i :: 0 <= i < |a| ==> a[i] == s[i];
    assert forall i :: 0 <= i < |b| ==> b[i] == s[|a| + i];
    assert forall i :: 0 <= i < |c| ==> c[i] == s[|a| + |b| + i];
  }

  lemma SortedLast(a: seq<Key>, k: Key, b: seq<Key>)
    requires Sorted(a + [k] + b)
    ensures AtMost(a, k) && AtLeast(b, k)
  {
    var s := a + [k] + b;
    assert s[|a|] == k;
    assert forall i :: 0 <= i < |a| ==> a[i] == s[i];
    assert forall i :: 0 <= i < |b| ==> b[i] == s[|a| + 1 + i];
  }

  /** Every key of a sorted node bounds what lies on either side of it. */
  lemma KeyBounds(x: Tree, i: nat)
    requires Internal(x) && i < |x.keys| && Sorted(Flat(x))
    ensures AtMost(Before(x, i) + Flat(x.kids[i]), x.keys[i])
    ensures AtLeast(Flat(x.kids[i + 1]) + After(x, i + 1), x.keys[i])
    ensures AtMost(Before(x, i + 1), x.keys[i]) && AtLeast(After(x, i), x.keys[i])
  {
    FlatAtPair(x, i);
    var a, b := Before(x, i) + Flat(x.kids[i]), Flat(x.kids[i + 1]) + After(x, i + 1);
    Shuffle(Before(x, i), Flat(x.kids[i]), [x.keys[i]], Flat(x.kids[i + 1]), After(x, i + 1));
    SortedLast(a, x.keys[i], b);
    assert Before(x, i + 1) == a + [x.keys[i]];
    assert After(x, i) == [x.keys[i]] + b;
  }

  lemma KidSorted(x: Tree, i: nat)
    requires Internal(x) && i <= |x.keys| && Sorted(Flat(x))
    ensures Sorted(Flat(x.kids[i]))
  {
    FlatAt(x, i);
    SortedParts(Before(x, i), Flat(x.kids[i]), After(x, i));
  }

  lemma {:induction false} KeysOrdered(x: Tree, i: nat, j: nat)
    requires Internal(x) && i < j < |x.keys| && Sorted(Flat(x))
    ensures x.keys[i].rank <= x.keys[j].rank
  {
    if i + 1 < j {
      KeysOrdered(x, i, j - 1);
    }
    KeyBounds(x, j - 1);
    FlatAtPair(x, j);
    var a := After(x, j);
    var s := Flat(x.kids[j]) + a;
    assert a[0] == x.keys[j] && s[|Flat(x.kids[j])|] == a[0];
  }

  lemma KeysSorted(x: Tree)
    requires (x.kids == [] || Internal(x)) && Sorted(Flat(x))
    ensures Sorted(x.keys)
  {
    if x.kids != [] {
      forall i, j | 0 <= i < j < |x.keys| ensures x.keys[i].rank <= x.keys[j].rank {
        KeysOrdered(x, i, j);
      }
    }
  }

  /** Between two consecutive keys around k, only the child there can hold k. */
  lemma Locate(x: Tree, i: nat, k: Key)
    requires Internal(x) && i <= |x.keys| && Sorted(Flat(x))
    requires 0 < i ==> x.keys[i - 1].rank < k.rank
    requires i < |x.keys| ==> k.rank < x.keys[i].rank
    ensures Below(Before(x, i), k) && Above(After(x, i), k)
    ensures Has(Flat(x), k) ==> Has(Flat(x.kids[i]), k)
  {
    if 0 < i { KeyBounds(x, i - 1); }
    if i < |x.keys| { KeyBounds(x, i); }
    FlatAt(x, i);
    HasMiddle(Before(x, i), Flat(x.kids[i]), After(x, i), k);
  }

  lemma HasMiddle(a: seq<Key>, b: seq<Key>, c: seq<Key>, k: Key)
    requires Below(a, k) && Above(c, k)
    ensures Has(a + b + c, k) ==> Has(b, k)
  {
    var s := a + b + c;
    if Has(s, k) {
      var i :| 0 <= i < |s| && s[i].rank == k.rank;
      assert forall j :: 0 <= j < |a| ==> s[j] == a[j];
      assert forall j :: |a| + |b| <= j < |s| ==> s[j] == c[j - |a| - |b|];
      assert forall j :: |a| + |b| <= j < |s| ==> k.rank < s[j].rank;
      assert b[i - |a|] == s[i];
    }
  }

  // ------------------------------------------------------------------
  // Occupancy and uniform depth
  // ------------------------------------------------------------------

  /** x is a subtree of height h whose proper descendants all hold t-1..2t-1 keys. */
  ghost predicate Shape(x: Tree, h: nat, t: nat)
    decreases h
  {
    if h == 0 then x.kids == []
    else Internal(x) && forall i :: 0 <= i < |x.kids| ==> Half(x.kids[i], t) && Shape(x.kids[i], h - 1, t)
  }

  ghost predicate Half(x: Tree, t: nat) { t - 1 <= |x.keys| <= 2 * t - 1 }

  lemma JoinShape(a: Tree, k: Key, b: Tree, h: nat, t: nat)
    requires Shape(a, h, t) && Shape(b, h, t)
    ensures Shape(Join(a, k, b), h, t) && Siblings(a, b)
  {
  }

  lemma CutShape(x: Tree, p: nat, h: nat, t: nat)
    requires Shape(x, h, t) && p < |x.keys|
    ensures Shape(CutLeft(x, p), h, t) && Shape(CutRight(x, p), h, t)
  {
  }

  lemma RotateShape(x: Tree, i: nat, p: nat, h: nat, t: nat)
    requires Shape(x, h, t) && 0 < h && i < |x.keys|
    requires p < |x.kids[i].keys| + 1 + |x.kids[i + 1].keys|
    requires t - 1 <= p <= 2 * t - 1 && t - 1 <= |x.kids[i].keys| + |x.kids[i + 1].keys| - p <= 2 * t - 1
    ensures Siblings(x.kids[i], x.kids[i + 1]) && Shape(Rotate(x, i, p), h, t)
  {
    JoinShape(x.kids[i], x.keys[i], x.kids[i + 1], h - 1, t);
    var j := Join(x.kids[i], x.keys[i], x.kids[i + 1]);
    CutShape(j, p, h - 1, t);
    CutSizes(j, p);
    RotatedKids(x, i, CutLeft(j, p), CutRight(j, p), j.keys[p], h, t);
  }

  lemma RotatedKids(x: Tree, i: nat, a: Tree, b: Tree, k: Key, h: nat, t: nat)
    requires 0 < h && Shape(x, h, t) && i < |x.keys| && i + 1 < |x.kids|
    requires Half(a, t) && Half(b, t) && Shape(a, h - 1, t) && Shape(b, h - 1, t)
    ensures Shape(Node(x.keys[i := k], x.kids[i := a][i + 1 := b]), h, t)
  {
  }

  lemma MergeShape(x: Tree, i: nat, k: Key, h: nat, t: nat)
    requires Shape(x, h, t) && 0 < h && i < |x.keys|
    requires |x.kids[i].keys| + 1 + |x.kids[i + 1].keys| <= 2 * t - 1
    ensures Siblings(x.kids[i], x.kids[i + 1]) && Shape(Merge(x, i, k), h, t)
  {
    JoinShape(x.kids[i], k, x.kids[i + 1], h - 1, t);
  }

  lemma SplitShape(x: Tree, i: nat, h: nat, t: nat)
    requires 0 < h && 0 < t && Shape(x, h, t) && i < |x.kids|
    requires |x.kids[i].keys| == 2 * t - 1
    ensures Internal(x) && i <= |x.keys|
    ensures x.kids[i].kids == [] || Internal(x.kids[i])
    ensures Shape(Split(x, i, t - 1), h, t)
  {
    CutShape(x.kids[i], t - 1, h - 1, t);
    CutSizes(x.kids[i], t - 1);
    SplitKids(x, i, CutLeft(x.kids[i], t - 1), CutRight(x.kids[i], t - 1), x.kids[i].keys[t - 1], h, t);
  }

  lemma SplitKids(x: Tree, i: nat, a: Tree, b: Tree, k: Key, h: nat, t: nat)
    requires 0 < h && Shape(x, h, t) && i < |x.kids| && i <= |x.keys|
    requires Half(a, t) && Half(b, t) && Shape(a, h - 1, t) && Shape(b, h - 1, t)
    ensures Shape(Node(x.keys[..i] + [k] + x.keys[i..], x.kids[..i] + [a, b] + x.kids[i + 1..]), h, t)
  {
    var kids := x.kids[..i] + [a, b] + x.kids[i + 1..];
    forall j | 0 <= j < |kids| ensures Half(kids[j], t) && Shape(kids[j], h - 1, t) {
      if j < i { assert kids[j] == x.kids[j]; }
      if j > i + 1 { assert kids[j] == x.kids[j - 1]; }
    }
  }

  lemma CutSizes(x: Tree, p: nat)
    requires p < |x.keys| && (x.kids == [] || Internal(x))
    ensures |CutLeft(x, p).keys| == p && |CutRight(x, p).keys| == |x.keys| - 1 - p
  {
  }

  lemma SetKidShape(x: Tree, i: nat, c: Tree, h: nat, t: nat)
    requires Shape(x, h, t) && 0 < h && i <= |x.keys|
    requires Half(c, t) && Shape(c, h - 1, t)
    ensures Shape(SetKid(x, i, c), h, t)
  {
  }

  lemma SetKeyShape(x: Tree, i: nat, k: Key, h: nat, t: nat)
    requires Shape(x, h, t) && 0 < h && i < |x.keys|
    ensures Shape(SetKey(x, i, k), h, t)
  {
  }

  /** A full root y put under a new empty one, and split there. */
  lemma OnlyKidShape(y: Tree, h: nat, t: nat)
    requires 0 < t && Shape(y, h, t) && |y.keys| == 2 * t - 1
    ensures Shape(Node([], [y]), h + 1, t) && Flat(Node([], [y])) == Flat(y)
    ensures y.kids == [] || Internal(y)
  {
    assert Half(y, t);
  }

  lemma SplitOne(x: Tree, p: nat)
    requires Internal(x) && x.keys == [] && p < |x.kids[0].keys| && (x.kids[0].kids == [] || Internal(x.kids[0]))
    ensures |Split(x, 0, p).keys| == 1
  {
  }

  lemma GrowShape(y: Tree, h: nat, t: nat)
    requires 0 < t && Shape(y, h, t) && |y.keys| == 2 * t - 1
    ensures var x := Node([], [y]);
            && (y.kids == [] || Internal(y))
            && Shape(Split(x, 0, t - 1), h + 1, t)
            && |Split(x, 0, t - 1).keys| == 1
            && Flat(Split(x, 0, t - 1)) == Flat(y)
  {
    hide Shape, Flat, Split, CutLeft, CutRight;
    var x := Node([], [y]);
    OnlyKidShape(y, h, t);
    SplitShape(x, 0, h + 1, t);
    SplitOne(x, t - 1);
    SplitFlat(x, 0, t - 1);
  }

  /** A root left without keys stands for its only child. */
  lemma ShrinkShape(x: Tree, h: nat, t: nat)
    requires Shape(x, h, t) && 0 < h && x.keys == []
    ensures |x.kids| == 1 && Shape(x.kids[0], h - 1, t) && Half(x.kids[0], t)
    ensures Flat(x) == Flat(x.kids[0])
  {
  }

  // ------------------------------------------------------------------
  // What deletion and insertion do to the in-order sequence
  // ------------------------------------------------------------------

  /** g is s, except that some keys comparing equal to k have been replaced by k itself. */
  ghost predicate Overwrites(s: seq<Key>, g: seq<Key>, k: Key) {
    |g| == |s| && forall i :: 0 <= i < |s| ==> g[i] == s[i] || (g[i] == k && s[i].rank == k.rank)
  }

  function RemoveAt(s: seq<Key>, j: nat): seq<Key>
    requires j < |s|
  {
    s[..j] + s[j + 1..]
  }

  function InsertAt(s: seq<Key>, j: nat, k: Key): seq<Key>
    requires j <= |s|
  {
    s[..j] + [k] + s[j..]
  }

  lemma RemoveInside(a: seq<Key>, g: seq<Key>, c: seq<Key>, j: nat)
    requires j < |g|
    ensures a + RemoveAt(g, j) + c == RemoveAt(a + g + c, |a| + j)
    ensures (a + g + c)[|a| + j] == g[j]
  {
  }

  lemma InsertInside(a: seq<Key>, g: seq<Key>, c: seq<Key>, j: nat, k: Key)
    requires j <= |g|
    ensures a + InsertAt(g, j, k) + c == InsertAt(a + g + c, |a| + j, k)
  {
  }

  lemma OverwritesInside(a: seq<Key>, b: seq<Key>, g: seq<Key>, c: seq<Key>, k: Key)
    requires Overwrites(b, g, k)
    ensures Overwrites(a + b + c, a + g + c, k)
  {
  }

  lemma OverwritesTwice(s: seq<Key>, g: seq<Key>, g': seq<Key>, k: Key)
    requires Overwrites(s, g, k) && Overwrites(g, g', k)
    ensures Overwrites(s, g', k)
  {
  }

  lemma OverwritesSorted(s: seq<Key>, g: seq<Key>, k: Key)
    requires Overwrites(s, g, k) && Sorted(s)
    ensures Sorted(g)
  {
    assert forall i :: 0 <= i < |s| ==> g[i].rank == s[i].rank;
  }

  lemma RemoveSorted(s: seq<Key>, j: nat)
    requires Sorted(s) && j < |s|
    ensures Sorted(RemoveAt(s, j))
  {
    var r := RemoveAt(s, j);
    assert forall i :: 0 <= i < |r| ==> r[i] == s[if i < j then i else i + 1];
  }

  lemma InsertSorted(s: seq<Key>, j: nat, k: Key)
    requires Sorted(s) && j <= |s| && AtMost(s[..j], k) && AtLeast(s[j..], k)
    ensures Sorted(InsertAt(s, j, k))
  {
    assert forall i :: 0 <= i < j ==> s[i] == s[..j][i];
    assert forall i :: j <= i < |s| ==> s[i] == s[j..][i - j];
    var r := InsertAt(s, j, k);
    assert forall i :: 0 <= i < |r| ==> r[i] == if i < j then s[i] else if i == j then k else s[i - 1];
  }

  /** Erasing key j of child i's sequence g erases key |Before| + j of the node's. */
  lemma EraseInKid(x: Tree, i: nat, c: Tree, g: seq<Key>, j: nat, k: Key)
    requires Internal(x) && i <= |x.keys|
    requires Overwrites(Flat(x.kids[i]), g, k) && j < |g| && Flat(c) == RemoveAt(g, j)
    ensures var g', j' := Before(x, i) + g + After(x, i), |Before(x, i)| + j;
            && Overwrites(Flat(x), g', k) && g'[j'] == g[j]
            && Flat(SetKid(x, i, c)) == RemoveAt(g', j')
  {
    FlatAt(x, i);
    SetKidFlat(x, i, c);
    OverwritesInside(Before(x, i), Flat(x.kids[i]), g, After(x, i), k);
    RemoveInside(Before(x, i), g, After(x, i), j);
  }

  /** Pushing k down in place of a separator that compares equal to it. */
  lemma MergeOverwrites(x: Tree, i: nat, k: Key)
    requires Internal(x) && i < |x.keys| && Siblings(x.kids[i], x.kids[i + 1])
    requires x.keys[i].rank == k.rank
    ensures Overwrites(Flat(x), Flat(Merge(x, i, k)), k)
    ensures Has(Flat(Merge(x, i, k).kids[i]), k)
  {
    FlatAtPair(x, i);
    MergeFlat(x, i, k);
    JoinFlat(x.kids[i], k, x.kids[i + 1]);
    assert Merge(x, i, k).kids[i] == Join(x.kids[i], k, x.kids[i + 1]);
    var a, b := Flat(x.kids[i]), Flat(x.kids[i + 1]);
    hide Flat, Before, After, Merge;
    assert Overwrites([x.keys[i]], [k], k);
    OverwritesInside(a, [x.keys[i]], [k], b, k);
    OverwritesInside(Before(x, i), a + [x.keys[i]] + b, a + [k] + b, After(x, i + 1), k);
    assert (a + [k] + b)[|a|] == k;
  }

  /** Replacing a separator by the key just before it, taken out of the child on its left. */
  lemma PredecessorFlat(x: Tree, i: nat, c: Tree)
    requires Internal(x) && i < |x.keys| && 0 < |Flat(x.kids[i])|
    requires var f := Flat(x.kids[i]); Flat(c) == RemoveAt(f, |f| - 1)
    ensures var f, p := Flat(x), |Before(x, i)| + |Flat(x.kids[i])|;
            && p < |f| && f[p] == x.keys[i]
            && Flat(SetKey(SetKid(x, i, c), i, Flat(x.kids[i])[|Flat(x.kids[i])| - 1])) == RemoveAt(f, p)
  {
    var f := Flat(x.kids[i]);
    var m := f[|f| - 1];
    var x' := SetKey(SetKid(x, i, c), i, m);
    FlatAtPair(x, i);
    FlatAtPair(x', i);
    assert x'.keys[..i] == x.keys[..i] && x'.kids[..i] == x.kids[..i];
    assert x'.keys[i + 1..] == x.keys[i + 1..] && x'.kids[i + 2..] == x.kids[i + 2..];
    assert Flat(c) + [m] == f;
    Drop(Before(x, i), f, x.keys[i], Flat(x.kids[i + 1]), After(x, i + 1));
  }

  /** Replacing a separator by the key just after it, taken out of the child on its right. */
  lemma SuccessorFlat(x: Tree, i: nat, c: Tree)
    requires Internal(x) && i < |x.keys| && 0 < |Flat(x.kids[i + 1])|
    requires Flat(c) == RemoveAt(Flat(x.kids[i + 1]), 0)
    ensures var f, p := Flat(x), |Before(x, i)| + |Flat(x.kids[i])|;
            && p < |f| && f[p] == x.keys[i]
            && Flat(SetKey(SetKid(x, i + 1, c), i, Flat(x.kids[i + 1])[0])) == RemoveAt(f, p)
  {
    var f := Flat(x.kids[i + 1]);
    var x' := SetKey(SetKid(x, i + 1, c), i, f[0]);
    FlatAtPair(x, i);
    FlatAtPair(x', i);
    assert x'.keys[..i] == x.keys[..i] && x'.kids[..i] == x.kids[..i];
    assert x'.keys[i + 1..] == x.keys[i + 1..] && x'.kids[i + 2..] == x.kids[i + 2..];
    assert [f[0]] + Flat(c) == f;
    Drop(Before(x, i), Flat(x.kids[i]), x.keys[i], f, After(x, i + 1));
    Assoc(Flat(x.kids[i]), [f[0]], Flat(c));
  }

  lemma Drop(a: seq<Key>, b: seq<Key>, k: Key, c: seq<Key>, d: seq<Key>)
    ensures var s := a + (b + [k] + c) + d;
            s[|a| + |b|] == k && RemoveAt(s, |a| + |b|) == a + (b + c) + d
  {
  }

  // ------------------------------------------------------------------
  // Making a child thick enough to delete from
  // ------------------------------------------------------------------

  /** x', seen from its child i', holds the same keys as x seen from its child i, keeps its
      shape, and what child i covered is still covered by child i'. */
  ghost predicate Covers(x: Tree, i: nat, x': Tree, i': nat, h: nat, t: nat)
    requires Internal(x) && i <= |x.keys|
  {
    && Shape(x', h, t) && Internal(x') && i' <= |x'.keys|
    && Flat(x') == Flat(x)
    && |Before(x', i')| <= |Before(x, i)| && |After(x', i')| <= |After(x, i)|
    && (i == 0 ==> i' == 0) && (i == |x.keys| ==> i' == |x'.keys|)
  }

  lemma CoversIf(x: Tree, i: nat, x': Tree, i': nat, h: nat, t: nat)
    requires Internal(x) && i <= |x.keys| && Shape(x', h, t) && Internal(x') && i' <= |x'.keys|
    requires Flat(x') == Flat(x) && |Before(x', i')| <= |Before(x, i)| && |After(x', i')| <= |After(x, i)|
    requires (i == 0 ==> i' == 0) && (i == |x.keys| ==> i' == |x'.keys|)
    ensures Covers(x, i, x', i', h, t)
  {
  }

  lemma ShapeInternal(x: Tree, h: nat, t: nat)
    requires Shape(x, h, t) && 0 < h
    ensures Internal(x) && |x.kids| == |x.keys| + 1
  {
  }

  lemma MergeSizes(x: Tree, i: nat, k: Key)
    requires Internal(x) && i < |x.keys|
    ensures var x' := Merge(x, i, k);
            && Internal(x') && |x'.keys| == |x.keys| - 1 && |x'.kids| == |x.kids| - 1
            && |x'.kids[i].keys| == |x.kids[i].keys| + 1 + |x.kids[i + 1].keys|
  {
  }

  lemma RotateSizes(x: Tree, i: nat, p: nat)
    requires Internal(x) && i < |x.keys| && Siblings(x.kids[i], x.kids[i + 1])
    requires p < |x.kids[i].keys| + 1 + |x.kids[i + 1].keys|
    ensures var x' := Rotate(x, i, p);
            && Internal(x') && |x'.keys| == |x.keys| && |x'.kids| == |x.kids|
            && |x'.kids[i].keys| == p && |x'.kids[i + 1].keys| == |x.kids[i].keys| + |x.kids[i + 1].keys| - p
  {
  }

  lemma BorrowLeftCovers(x: Tree, i: nat, h: nat, t: nat)
    requires 0 < h && 0 < t && Shape(x, h, t) && 0 < i < |x.kids|
    requires |x.kids[i].keys| == t - 1 && t <= |x.kids[i - 1].keys| <= 2 * t - 1
    ensures Internal(x) && Siblings(x.kids[i - 1], x.kids[i])
    ensures var x' := Rotate(x, i - 1, |x.kids[i - 1].keys| - 1);
            Covers(x, i, x', i, h, t) && |x'.kids[i].keys| == t
  {
    hide *;
    ShapeInternal(x, h, t);
    var n := |x.kids[i - 1].keys| - 1;
    RotateShape(x, i - 1, n, h, t);
    RotateSizes(x, i - 1, n);
    var x' := Rotate(x, i - 1, n);
    RotateFlat(x, i - 1, n);
    RightGrows(x, i - 1);
    Lengths(x, i, x', i);
    CoversIf(x, i, x', i, h, t);
  }

  lemma RightGrows(x: Tree, i: nat)
    requires Internal(x) && i < |x.keys| && Siblings(x.kids[i], x.kids[i + 1]) && 0 < |x.kids[i].keys|
    ensures |Flat(x.kids[i + 1])| <= |Flat(Rotate(x, i, |x.kids[i].keys| - 1).kids[i + 1])|
  {
    var a, k, b, n := x.kids[i], x.keys[i], x.kids[i + 1], |x.kids[i].keys| - 1;
    hide Flat, CutLeft, CutRight, Join;
    assert Rotate(x, i, n).kids[i + 1] == Join(CutRight(a, n), k, b) by { RotateRightByOne(a, k, b); }
    RightSiblings(a, b, n);
    JoinFlat(CutRight(a, n), k, b);
  }

  lemma RightSiblings(a: Tree, b: Tree, p: nat)
    requires Siblings(a, b) && p < |a.keys|
    ensures Siblings(CutRight(a, p), b) && Siblings(b, CutLeft(a, p))
  {
  }

  lemma Lengths(x: Tree, i: nat, x': Tree, i': nat)
    requires Internal(x) && i <= |x.keys| && Internal(x') && i' <= |x'.keys| && Flat(x') == Flat(x)
    ensures |Before(x, i)| + |Flat(x.kids[i])| + |After(x, i)|
            == |Before(x', i')| + |Flat(x'.kids[i'])| + |After(x', i')|
  {
    FlatAt(x, i);
    FlatAt(x', i');
  }

  lemma BorrowRightCovers(x: Tree, i: nat, h: nat, t: nat)
    requires 0 < h && 0 < t && Shape(x, h, t) && i + 1 < |x.kids|
    requires |x.kids[i].keys| == t - 1 && t <= |x.kids[i + 1].keys| <= 2 * t - 1
    ensures Internal(x) && Siblings(x.kids[i], x.kids[i + 1])
    ensures var x' := Rotate(x, i, |x.kids[i].keys| + 1);
            Covers(x, i, x', i, h, t) && |x'.kids[i].keys| == t
  {
    hide *;
    ShapeInternal(x, h, t);
    var n := |x.kids[i].keys| + 1;
    RotateShape(x, i, n, h, t);
    RotateSizes(x, i, n);
    var x' := Rotate(x, i, n);
    RotateFlat(x, i, n);
    LeftGrows(x, i);
    Lengths(x, i, x', i);
    CoversIf(x, i, x', i, h, t);
  }

  lemma LeftGrows(x: Tree, i: nat)
    requires Internal(x) && i < |x.keys| && Siblings(x.kids[i], x.kids[i + 1]) && 0 < |x.kids[i + 1].keys|
    ensures |Flat(x.kids[i])| <= |Flat(Rotate(x, i, |x.kids[i].keys| + 1).kids[i])|
  {
    var a, k, b, n := x.kids[i], x.keys[i], x.kids[i + 1], |x.kids[i].keys| + 1;
    hide Flat, CutLeft, CutRight, Join;
    assert Rotate(x, i, n).kids[i] == Join(a, k, CutLeft(b, 0)) by { RotateLeftByOne(a, k, b); }
    RightSiblings(b, a, 0);
    JoinFlat(a, k, CutLeft(b, 0));
  }

  lemma MergeLeftCovers(x: Tree, i: nat, h: nat, t: nat)
    requires 0 < h && 0 < t && Shape(x, h, t) && 0 < i < |x.kids|
    requires |x.kids[i].keys| == t - 1 && |x.kids[i - 1].keys| == t - 1
    ensures Internal(x)
    ensures var x' := Merge(x, i - 1, x.keys[i - 1]);
            Covers(x, i, x', i - 1, h, t) && |x'.kids[i - 1].keys| == 2 * t - 1
  {
    hide *;
    ShapeInternal(x, h, t);
    MergeShape(x, i - 1, x.keys[i - 1], h, t);
    MergeSizes(x, i - 1, x.keys[i - 1]);
    MergeFlat(x, i - 1, x.keys[i - 1]);
    FlatAtPair(x, i - 1);
    CoversIf(x, i, Merge(x, i - 1, x.keys[i - 1]), i - 1, h, t);
  }

  lemma MergeRightCovers(x: Tree, i: nat, h: nat, t: nat)
    requires 0 < h && 0 < t && Shape(x, h, t) && i + 1 < |x.kids|
    requires |x.kids[i].keys| == t - 1 && |x.kids[i + 1].keys| == t - 1
    ensures Internal(x)
    ensures var x' := Merge(x, i, x.keys[i]);
            Covers(x, i, x', i, h, t) && |x'.kids[i].keys| == 2 * t - 1
  {
    hide *;
    ShapeInternal(x, h, t);
    MergeShape(x, i, x.keys[i], h, t);
    MergeSizes(x, i, x.keys[i]);
    MergeFlat(x, i, x.keys[i]);
    FlatAtPair(x, i);
    CoversIf(x, i, Merge(x, i, x.keys[i]), i, h, t);
  }

  /** A child that covers the place of k holds k if the node does. */
  lemma CoveredHas(x: Tree, i: nat, x': Tree, i': nat, h: nat, t: nat, k: Key)
    requires Internal(x) && i <= |x.keys| && Covers(x, i, x', i', h, t)
    requires Below(Before(x, i), k) && Above(After(x, i), k)
    ensures Has(Flat(x), k) ==> Has(Flat(x'.kids[i']), k)
  {
    FlatAt(x, i);
    FlatAt(x', i');
    Wider(Before(x, i), Flat(x.kids[i]), After(x, i), Before(x', i'), Flat(x'.kids[i']), After(x', i'), k);
    HasMiddle(Before(x', i'), Flat(x'.kids[i']), After(x', i'), k);
  }

  lemma Wider(a: seq<Key>, m: seq<Key>, c: seq<Key>, a': seq<Key>, m': seq<Key>, c': seq<Key>, k: Key)
    requires a + m + c == a' + m' + c' && |a'| <= |a| && |c'| <= |c|
    requires Below(a, k) && Above(c, k)
    ensures Below(a', k) && Above(c', k)
  {
    var s, s' := a + m + c, a' + m' + c';
    assert |s| == |s'|;
    forall j | 0 <= j < |a'| ensures a'[j].rank < k.rank {
      assert s'[j] == a'[j] && s[j] == a[j];
    }
    forall j | 0 <= j < |c'| ensures k.rank < c'[j].rank {
      var p := |s| - |c'| + j;
      assert s'[p] == c'[j] && s[p] == c[p - |a| - |m|];
    }
  }

  // ------------------------------------------------------------------
  // When deletion overwrites a key
  // ------------------------------------------------------------------

  /** How many keys at the front of a sorted node are smaller than k. */
  function Place(keys: seq<Key>, k: Key): (p: nat)
    ensures p <= |keys|
  {
    if keys == [] || keys[0].rank >= k.rank then 0 else 1 + Place(keys[1..], k)
  }

  lemma {:induction false} PlaceIs(keys: seq<Key>, k: Key, p: nat)
    requires p <= |keys| && Below(keys[..p], k) && (p < |keys| ==> k.rank <= keys[p].rank)
    ensures Place(keys, k) == p
  {
    if p > 0 {
      assert keys[0] == keys[..p][0];
      assert keys[1..][..p - 1] == keys[..p][1..];
      PlaceIs(keys[1..], k, p - 1);
    }
  }

  /** x made ready for taking a key out of child i, and the child to go into. */
  function Thicker(x: Tree, t: nat, i: nat, ghost h: nat): (r: (Tree, nat))
    requires 2 <= t && 0 < h && Shape(x, h, t) && i < |x.kids| && 0 < |x.keys|
    ensures Internal(x) && Covers(x, i, r.0, r.1, h, t) && t <= |r.0.kids[r.1].keys|
  {
    assert Internal(x) && forall j :: 0 <= j < |x.kids| ==> Half(x.kids[j], t) && Shape(x.kids[j], h - 1, t);
    if |x.kids[i].keys| != t - 1 then (x, i)
    else if i > 0 && |x.kids[i - 1].keys| >= t then
      BorrowLeftCovers(x, i, h, t);
      (Rotate(x, i - 1, |x.kids[i - 1].keys| - 1), i)
    else if i < |x.keys| && |x.kids[i + 1].keys| >= t then
      BorrowRightCovers(x, i, h, t);
      (Rotate(x, i, |x.kids[i].keys| + 1), i)
    else if i > 0 then
      MergeLeftCovers(x, i, h, t);
      (Merge(x, i - 1, x.keys[i - 1]), i - 1)
    else
      MergeRightCovers(x, i, h, t);
      (Merge(x, i, x.keys[i]), i)
  }

  /** Children a and a + 1 of x have exchanged keys, so that they have l and r of them; all others stay. */
  ghost predicate Exchanged(x: Tree, y: Tree, a: nat, l: int, r: int) {
    && a + 1 < |x.kids| == |y.kids| && |y.kids[a].keys| == l && |y.kids[a + 1].keys| == r
    && forall m :: 0 <= m < |x.kids| && m != a && m != a + 1 ==> y.kids[m] == x.kids[m]
  }

  /** Children a and a + 1 have become one with n keys; all others stay. */
  ghost predicate BecomeOne(x: Tree, y: Tree, a: nat, n: nat) {
    && a + 1 < |x.kids| && |y.kids| == |x.kids| - 1 && |y.kids[a].keys| == n
    && y.kids[..a] == x.kids[..a] && y.kids[a + 1..] == x.kids[a + 2..]
  }

  /** A child with t - 1 keys gets one from the left neighbour if that has one to give, or else from
      the right one; or else it is merged with the left one, or with the right one if it is the first. */
  lemma ThickerChooses(x: Tree, t: nat, i: nat, h: nat)
    requires 2 <= t && 0 < h && Shape(x, h, t) && i < |x.kids| && 0 < |x.keys|
    ensures var (y, j) := Thicker(x, t, i, h);
            if |x.kids[i].keys| != t - 1 then (y, j) == (x, i)
            else if i > 0 && |x.kids[i - 1].keys| >= t then j == i && Exchanged(x, y, i - 1, |x.kids[i - 1].keys| - 1, t)
            else if i + 1 < |x.kids| && |x.kids[i + 1].keys| >= t then j == i && Exchanged(x, y, i, t, |x.kids[i + 1].keys| - 1)
            else j == (if i > 0 then i - 1 else 0) && BecomeOne(x, y, j, 2 * t - 1)
  {
    hide *;
    ShapeInternal(x, h, t);
    InternalKids(x, i);
    if |x.kids[i].keys| != t - 1 {
      ThickerIs(x, t, i, h);
    } else if i > 0 && |x.kids[i - 1].keys| >= t {
      ThickerIs(x, t, i, h);
      KidsFit(x, h, t, i - 1);
      RotatedPair(x, i - 1, |x.kids[i - 1].keys| - 1);
    } else if i + 1 < |x.kids| && |x.kids[i + 1].keys| >= t {
      ThickerIs(x, t, i, h);
      KidsFit(x, h, t, i);
      RotatedPair(x, i, |x.kids[i].keys| + 1);
    } else if i > 0 {
      ThickerIs(x, t, i, h);
      KidsFit(x, h, t, i - 1);
      MergedOne(x, i - 1, x.keys[i - 1]);
    } else {
      ThickerIs(x, t, i, h);
      KidsFit(x, h, t, i);
      MergedOne(x, i, x.keys[i]);
    }
  }

  lemma InternalKids(x: Tree, i: nat)
    requires Internal(x) && i < |x.kids|
    ensures |x.kids| == |x.keys| + 1
  {
  }

  lemma KidsFit(x: Tree, h: nat, t: nat, i: nat)
    requires 0 < h && 0 < t && Shape(x, h, t) && i < |x.keys|
    ensures Internal(x) && Siblings(x.kids[i], x.kids[i + 1])
    ensures t - 1 <= |x.kids[i].keys| && t - 1 <= |x.kids[i + 1].keys|
  {
    assert Half(x.kids[i], t) && Half(x.kids[i + 1], t) && Shape(x.kids[i], h - 1, t) && Shape(x.kids[i + 1], h - 1, t);
  }

  /** Which of the four is done, by the branches. */
  lemma ThickerIs(x: Tree, t: nat, i: nat, h: nat)
    requires 2 <= t && 0 < h && Shape(x, h, t) && i < |x.kids| == |x.keys| + 1 && 0 < |x.keys|
    ensures var r, l := Thicker(x, t, i, h), |x.kids[i].keys|;
            && Internal(x)
            && (l != t - 1 ==> r == (x, i))
            && (l == t - 1 && i > 0 && |x.kids[i - 1].keys| >= t ==>
                  Siblings(x.kids[i - 1], x.kids[i]) && r == (Rotate(x, i - 1, |x.kids[i - 1].keys| - 1), i))
            && (l == t - 1 && !(i > 0 && |x.kids[i - 1].keys| >= t) && i + 1 < |x.kids| && |x.kids[i + 1].keys| >= t ==>
                  Siblings(x.kids[i], x.kids[i + 1]) && r == (Rotate(x, i, |x.kids[i].keys| + 1), i))
            && (l == t - 1 && !(i > 0 && |x.kids[i - 1].keys| >= t) && !(i + 1 < |x.kids| && |x.kids[i + 1].keys| >= t) ==>
                  r == if i > 0 then (Merge(x, i - 1, x.keys[i - 1]), i - 1) else (Merge(x, i, x.keys[i]), i))
  {
    hide Rotate, Merge, Covers, Shape, Siblings;
    if i > 0 { KidsFit(x, h, t, i - 1); }
    if i < |x.keys| { KidsFit(x, h, t, i); }
  }

  lemma RotatedPair(x: Tree, a: nat, p: nat)
    requires Internal(x) && a < |x.keys| && Siblings(x.kids[a], x.kids[a + 1])
    requires p < |x.kids[a].keys| + 1 + |x.kids[a + 1].keys|
    ensures Exchanged(x, Rotate(x, a, p), a, p, |x.kids[a].keys| + |x.kids[a + 1].keys| - p)
  {
    RotateSizes(x, a, p);
  }

  lemma MergedOne(x: Tree, i: nat, k: Key)
    requires Internal(x) && i < |x.keys|
    ensures BecomeOne(x, Merge(x, i, k), i, |x.kids[i].keys| + 1 + |x.kids[i + 1].keys|)
  {
  }

  /** How a separator goes from an internal node: the last key before it takes its place if the child
      on the left has one to give, or else the first key after it if the child on the right has; or
      else the two children become one. */
  ghost predicate SeparatorGone(x: Tree, y: Tree, t: nat, i: nat) {
    && i < |x.keys| && i + 1 < |x.kids|
    && var l, r := x.kids[i], x.kids[i + 1];
    if |l.keys| >= t then
      Flat(l) != [] && y.keys == x.keys[i := Flat(l)[|Flat(l)| - 1]] && |y.kids| == |x.kids| && y.kids[i + 1] == r
    else if |r.keys| >= t then
      Flat(r) != [] && y.keys == x.keys[i := Flat(r)[0]] && |y.kids| == |x.kids| && y.kids[i] == l
    else
      y.keys == x.keys[..i] + x.keys[i + 1..] && |y.kids| == |x.kids| - 1
  }

  /** The descent for k comes to a separator that compares equal to k, is not k, and has two
      children with t-1 keys each: the branch of deletion that writes k over it. */
  predicate Overwritten(x: Tree, t: nat, k: Key, h: nat)
    requires 2 <= t && Shape(x, h, t) && (0 < h ==> 0 < |x.keys|)
    decreases h
  {
    h > 0 &&
    var i := Place(x.keys, k);
    assert Internal(x);
    if i < |x.keys| && x.keys[i].rank == k.rank then
      && |x.kids[i].keys| == t - 1 && |x.kids[i + 1].keys| == t - 1
      && (x.keys[i] != k || Overwritten(MergedKid(x, t, i, k, h), t, k, h - 1))
    else
      Overwritten(ThickKid(x, t, i, h), t, k, h - 1)
  }

  /** The child that merging makes, and the one that is made ready. */
  function MergedKid(x: Tree, t: nat, i: nat, k: Key, ghost h: nat): (c: Tree)
    requires Shape(x, h, t) && 0 < h && i < |x.keys| && Internal(x)
    requires |x.kids[i].keys| + 1 + |x.kids[i + 1].keys| <= 2 * t - 1
    ensures Shape(c, h - 1, t) && 0 < |c.keys|
  {
    MergedShape(x, i, k, h, t);
    Merge(x, i, k).kids[i]
  }

  function ThickKid(x: Tree, t: nat, i: nat, ghost h: nat): (c: Tree)
    requires 2 <= t && 0 < h && Shape(x, h, t) && i < |x.kids| && 0 < |x.keys|
    ensures Shape(c, h - 1, t) && t <= |c.keys|
  {
    var (y, j) := Thicker(x, t, i, h);
    KidShape(y, j, h, t);
    y.kids[j]
  }

  lemma MergedShape(x: Tree, i: nat, k: Key, h: nat, t: nat)
    requires Shape(x, h, t) && 0 < h && i < |x.keys|
    requires |x.kids[i].keys| + 1 + |x.kids[i + 1].keys| <= 2 * t - 1
    ensures i < |Merge(x, i, k).kids| && Shape(Merge(x, i, k).kids[i], h - 1, t) && 0 < |Merge(x, i, k).kids[i].keys|
  {
    MergeShape(x, i, k, h, t);
  }

  lemma KidShape(x: Tree, i: nat, h: nat, t: nat)
    requires Shape(x, h, t) && 0 < h && i < |x.kids|
    ensures Shape(x.kids[i], h - 1, t)
  {
  }

  /** Overwriting a key by another one puts one more copy of that one into the sequence. */
  lemma {:induction false} OverwrittenMore(f: seq<Key>, g: seq<Key>, k: Key)
    requires Overwrites(f, g, k)
    ensures multiset(f)[k] <= multiset(g)[k]
    ensures multiset(f)[k] == multiset(g)[k] ==> f == g
  {
    if f != [] {
      var n := |f| - 1;
      OverwrittenMore(f[..n], g[..n], k);
      assert f == f[..n] + [f[n]] && g == g[..n] + [g[n]];
    }
  }

  // ------------------------------------------------------------------
  // Insertion
  // ------------------------------------------------------------------

  /** f' is f with k inserted at a place p where it keeps f in order. */
  ghost predicate Inserted(f: seq<Key>, f': seq<Key>, k: Key, p: nat) {
    p <= |f| && AtMost(f[..p], k) && AtLeast(f[p..], k) && f' == InsertAt(f, p, k)
  }

  lemma InsertedSorted(f: seq<Key>, f': seq<Key>, k: Key, p: nat)
    requires Inserted(f, f', k, p) && Sorted(f)
    ensures Sorted(f') && |f'| == |f| + 1
  {
    InsertSorted(f, p, k);
  }

  lemma InsertedCount(f: seq<Key>, f': seq<Key>, k: Key, p: nat)
    requires Inserted(f, f', k, p)
    ensures multiset(f') == multiset(f) + multiset{k} && f'[p] == k && f'[..p] == f[..p] && f'[p + 1..] == f[p..]
  {
    assert f == f[..p] + f[p..];
  }

  lemma InsertedMiddle(a: seq<Key>, b: seq<Key>, c: seq<Key>, b': seq<Key>, k: Key, p: nat)
    requires Inserted(b, b', k, p) && AtMost(a, k) && AtLeast(c, k)
    ensures Inserted(a + b + c, a + b' + c, k, |a| + p)
  {
    var f := a + b + c;
    assert f[..|a| + p] == a + b[..p];
    assert f[|a| + p..] == b[p..] + c;
    InsertInside(a, b, c, p, k);
  }

  lemma BeforeKid(x: Tree, i: nat, c: Tree)
    requires Internal(x) && i <= |x.keys|
    ensures Internal(SetKid(x, i, c)) && Before(SetKid(x, i, c), i) == Before(x, i)
  {
    assert SetKid(x, i, c).kids[..i] == x.kids[..i];
  }

  lemma EdgeKeys(x: Tree, i: nat, k: Key)
    requires Internal(x) && i <= |x.keys| && Sorted(Flat(x))
    requires 0 < i ==> x.keys[i - 1].rank <= k.rank
    requires i < |x.keys| ==> k.rank <= x.keys[i].rank
    ensures AtMost(Before(x, i), k) && AtLeast(After(x, i), k)
  {
    hide Flat, Sorted;
    if 0 < i { KeyBounds(x, i - 1); }
    if i < |x.keys| { KeyBounds(x, i); }
  }

  lemma InsertInKid(x: Tree, i: nat, c: Tree, k: Key, p: nat)
    requires Internal(x) && i <= |x.keys| && Sorted(Flat(x))
    requires 0 < i ==> x.keys[i - 1].rank <= k.rank
    requires i < |x.keys| ==> k.rank <= x.keys[i].rank
    requires Inserted(Flat(x.kids[i]), Flat(c), k, p)
    ensures Inserted(Flat(x), Flat(SetKid(x, i, c)), k, |Before(x, i)| + p)
  {
    hide Flat, Before, After, Sorted, Inserted, SetKid;
    FlatAt(x, i);
    SetKidFlat(x, i, c);
    EdgeKeys(x, i, k);
    InsertedMiddle(Before(x, i), Flat(x.kids[i]), After(x, i), Flat(c), k, p);
  }

  // ------------------------------------------------------------------
  // Height
  // ------------------------------------------------------------------

  lemma {:induction false} WeaveLength(keys: seq<Key>, kids: seq<Tree>, m: nat)
    requires |kids| == |keys| + 1 && forall i :: 0 <= i < |kids| ==> m <= |Flat(kids[i])| + 1
    ensures |kids| * m <= |Weave(keys, kids)| + 1
  {
    if keys != [] {
      WeaveLength(keys[1..], kids[1..], m);
      assert |kids| * m == (|kids| - 1) * m + m;
    }
  }

  /** A subtree of height h none of whose nodes is empty holds at least 2^(h+1) - 1 keys. */
  lemma {:induction false} HeightBound(x: Tree, h: nat, t: nat)
    requires Shape(x, h, t) && 2 <= t && 0 < |x.keys|
    ensures Pow2(h + 1) <= |Flat(x)| + 1
  {
    if h > 0 {
      forall i | 0 <= i < |x.kids| ensures Pow2(h) <= |Flat(x.kids[i])| + 1 {
        HeightBound(x.kids[i], h - 1, t);
      }
      WeaveLength(x.keys, x.kids, Pow2(h));
      assert 2 * Pow2(h) <= |x.kids| * Pow2(h);
    }
  }
}
