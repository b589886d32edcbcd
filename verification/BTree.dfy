/** The nodes of klib/kbtree.h as objects that are changed in place, and the operations on them. */
module BTree {
  import opened BTreeModel
  import opened Wrappers

  class Node {
    var keys: seq<Key>
    var kids: seq<Node>      // empty exactly when the node is a leaf
    ghost var tree: BTreeModel.Tree
    ghost var repr: set<Node>

    ghost predicate Valid()
      reads this, repr
      decreases repr
    {
      && this in repr
      && tree.keys == keys
      && |tree.kids| == |kids|
      && (forall i :: 0 <= i < |kids| ==>
           && kids[i] in repr && kids[i].repr <= repr && this !in kids[i].repr
           && kids[i].Valid() && kids[i].tree == tree.kids[i])
      && (forall i, j :: 0 <= i < j < |kids| ==> kids[i].repr !! kids[j].repr)
    }

    constructor ()
      ensures keys == [] && kids == []
    {
      keys, kids := [], [];
    }

    predicate IsLeaf() reads this { kids == [] }

    ghost function KidReprs(): (rs: seq<set<Node>>)
      reads this, kids
      ensures |rs| == |kids| && forall i :: 0 <= i < |kids| ==> rs[i] == kids[i].repr
    {
      seq(|kids|, i requires 0 <= i < |kids| reads this, kids => kids[i].repr)
    }

    /** Give up the last key and, in an internal node, the last child. */
    method DropLast() returns (k: Key, gs: seq<Node>)
      requires Valid() && 0 < |keys| && (tree.kids == [] || Internal(tree))
      modifies this
      ensures Valid() && repr <= old(repr)
      ensures tree == CutLeft(old(tree), old(|keys|) - 1)
      ensures k == old(keys[|keys| - 1])
      ensures gs == if old(kids) == [] then [] else [old(kids[|kids| - 1])]
      ensures gs != [] ==> gs[0].repr !! repr && this !in gs[0].repr && gs[0].repr <= old(repr)
    {
      var n := |keys| - 1;
      k, gs := keys[n], [];
      ghost var t := CutLeft(tree, n);
      keys := keys[..n];
      if kids != [] {
        gs := [kids[n + 1]];
        kids := kids[..n + 1];
        repr := repr - gs[0].repr;
      }
      tree := t;
    }

    /** Give up the first key and, in an internal node, the first child. */
    method DropFirst() returns (k: Key, gs: seq<Node>)
      requires Valid() && 0 < |keys| && (tree.kids == [] || Internal(tree))
      modifies this
      ensures Valid() && repr <= old(repr)
      ensures tree == CutRight(old(tree), 0)
      ensures k == old(keys[0])
      ensures gs == if old(kids) == [] then [] else [old(kids[0])]
      ensures gs != [] ==> gs[0].repr !! repr && this !in gs[0].repr && gs[0].repr <= old(repr)
    {
      k, gs := keys[0], [];
      ghost var t := CutRight(tree, 0);
      keys := keys[1..];
      if kids != [] {
        gs := [kids[0]];
        kids := kids[1..];
        repr := repr - gs[0].repr;
      }
      tree := t;
    }

    /** n, described by t, is fit to be a child of this node. */
    ghost predicate FitOne(n: Node, t: BTreeModel.Tree, r: set<Node>)
      reads n, n.repr
    {
      n in r && n.repr <= r && this !in n.repr && n.Valid() && n.tree == t
    }

    /** The nodes ns, described by the trees ts, are fit to be the children of this node. */
    ghost predicate Fit(ns: seq<Node>, ts: seq<BTreeModel.Tree>, r: set<Node>)
      reads r
    {
      && |ns| == |ts|
      && (forall i :: 0 <= i < |ns| ==> ns[i] in r && ns[i].repr <= r && FitOne(ns[i], ts[i], r))
      && (forall i, j :: 0 <= i < j < |ns| ==> ns[i].repr !! ns[j].repr)
    }

    /** Children i and i+1 have exchanged some of what they hold; rs is what each child owned before. */
    lemma FitPair(ns: seq<Node>, ts: seq<BTreeModel.Tree>, r: set<Node>, i: nat, rs: seq<set<Node>>)
      requires |ns| == |ts| == |rs| && i + 1 < |ns|
      requires forall j, k :: 0 <= j < k < |rs| ==> rs[j] !! rs[k]
      requires forall j :: 0 <= j < |ns| && j != i && j != i + 1 ==> FitOne(ns[j], ts[j], r) && ns[j].repr == rs[j]
      requires FitOne(ns[i], ns[i].tree, r) && FitOne(ns[i + 1], ns[i + 1].tree, r)
      requires ns[i].repr !! ns[i + 1].repr && ns[i].repr + ns[i + 1].repr <= rs[i] + rs[i + 1]
      ensures Fit(ns, ts[i := ns[i].tree][i + 1 := ns[i + 1].tree], r)
    {
    }

    /** Child i has changed within what it owned; rs is what each child owned before. */
    lemma FitKid(ns: seq<Node>, ts: seq<BTreeModel.Tree>, r: set<Node>, i: nat, rs: seq<set<Node>>)
      requires |ns| == |ts| == |rs| && i < |ns|
      requires forall j, k :: 0 <= j < k < |rs| ==> rs[j] !! rs[k]
      requires forall j :: 0 <= j < |ns| && j != i ==> FitOne(ns[j], ts[j], r) && ns[j].repr == rs[j]
      requires FitOne(ns[i], ns[i].tree, r) && forall j :: 0 <= j < |ns| && j != i ==> ns[i].repr !! rs[j]
      ensures Fit(ns, ts[i := ns[i].tree], r)
    {
    }

    /** Child i has given part of what it owned to the new node z; rs is what each child owned before. */
    lemma FitSplit(ns: seq<Node>, ts: seq<BTreeModel.Tree>, r: set<Node>, i: nat, z: Node, rs: seq<set<Node>>)
      requires |ns| == |ts| == |rs| && i < |ns|
      requires forall j, k :: 0 <= j < k < |rs| ==> rs[j] !! rs[k]
      requires forall j :: 0 <= j < |ns| && j != i ==> FitOne(ns[j], ts[j], r) && ns[j].repr == rs[j] && z !in rs[j]
      requires FitOne(ns[i], ns[i].tree, r) && FitOne(z, z.tree, r)
      requires ns[i].repr !! z.repr && ns[i].repr <= rs[i] && z.repr <= rs[i] + {z}
      ensures Fit(ns[..i] + [ns[i], z] + ns[i + 1..], ts[..i] + [ns[i].tree, z.tree] + ts[i + 1..], r)
    {
      hide FitOne;
      var ns', ts' := ns[..i] + [ns[i], z] + ns[i + 1..], ts[..i] + [ns[i].tree, z.tree] + ts[i + 1..];
      forall j | 0 <= j < |ns'| ensures FitOne(ns'[j], ts'[j], r) {
        if j > i + 1 { assert ns'[j] == ns[j - 1] && ts'[j] == ts[j - 1]; }
      }
      forall j | 0 <= j < |ns'| ensures ns'[j] in r && ns'[j].repr <= r { FitOneIs(ns'[j], ts'[j], r); }
      forall j, k | 0 <= j < k < |ns'| ensures ns'[j].repr !! ns'[k].repr {
        if j > i + 1 { assert ns'[j] == ns[j - 1]; }
        if k > i + 1 { assert ns'[k] == ns[k - 1]; }
      }
    }

    lemma FitOneIs(n: Node, t: BTreeModel.Tree, r: set<Node>)
      requires FitOne(n, t, r)
      ensures n in r && n.repr <= r
    {
    }

    lemma FitJoin(ns: seq<Node>, ts: seq<BTreeModel.Tree>, r: set<Node>,
                  ns': seq<Node>, ts': seq<BTreeModel.Tree>, r': set<Node>)
      requires Fit(ns, ts, r) && Fit(ns', ts', r') && r !! r'
      ensures Fit(ns + ns', ts + ts', r + r')
    {
      var m := |ns|;
      assert forall i :: 0 <= i < m ==> (ns + ns')[i] == ns[i] && (ts + ts')[i] == ts[i];
      assert forall i :: m <= i < m + |ns'| ==> (ns + ns')[i] == ns'[i - m] && (ts + ts')[i] == ts'[i - m];
    }

    /** Take a key and at most one child at the front. */
    method AddFirst(k: Key, gs: seq<Node>)
      requires Valid() && |gs| <= 1
      requires gs != [] ==> gs[0].Valid() && gs[0].repr !! repr && this !in gs[0].repr
      modifies this
      ensures Valid() && repr == old(repr) + (if gs == [] then {} else gs[0].repr)
      ensures tree == BTreeModel.Node([k] + old(keys), (if gs == [] then [] else [gs[0].tree]) + old(tree.kids))
    {
      ghost var r := if gs == [] then {} else gs[0].repr;
      ghost var ts := if gs == [] then [] else [gs[0].tree];
      FitJoin(gs, ts, r, kids, tree.kids, repr);
      Adopt([k] + keys, gs + kids, ts + tree.kids, r + repr);
    }

    /** Take a key and at most one child at the back. */
    method AddLast(k: Key, gs: seq<Node>)
      requires Valid() && |gs| <= 1
      requires gs != [] ==> gs[0].Valid() && gs[0].repr !! repr && this !in gs[0].repr
      modifies this
      ensures Valid() && repr == old(repr) + (if gs == [] then {} else gs[0].repr)
      ensures tree == BTreeModel.Node(old(keys) + [k], old(tree.kids) + (if gs == [] then [] else [gs[0].tree]))
    {
      ghost var r := if gs == [] then {} else gs[0].repr;
      ghost var ts := if gs == [] then [] else [gs[0].tree];
      FitJoin(kids, tree.kids, repr, gs, ts, r);
      Adopt(keys + [k], kids + gs, tree.kids + ts, repr + r);
    }

    /** Take a key and everything z holds; z is not used afterwards. */
    method Absorb(k: Key, z: Node)
      requires Valid() && z.Valid() && repr !! z.repr
      modifies this
      ensures Valid() && repr == old(repr) + z.repr
      ensures tree == Join(old(tree), k, z.tree)
    {
      FitJoin(kids, tree.kids, repr, z.kids, z.tree.kids, z.repr);
      Adopt(keys + [k] + z.keys, kids + z.kids, tree.kids + z.tree.kids, repr + z.repr);
    }

    /** Record that child i has changed. */
    ghost method Refit(i: nat, ts: seq<BTreeModel.Tree>, r: set<Node>, rs: seq<set<Node>>)
      requires this in r && |kids| == |ts| == |rs| && i < |kids|
      requires forall j, k :: 0 <= j < k < |rs| ==> rs[j] !! rs[k]
      requires forall j :: 0 <= j < |kids| && j != i ==> FitOne(kids[j], ts[j], r) && kids[j].repr == rs[j]
      requires FitOne(kids[i], kids[i].tree, r) && forall j :: 0 <= j < |kids| && j != i ==> kids[i].repr !! rs[j]
      modifies this`tree, this`repr
      ensures Valid() && repr == r && tree == BTreeModel.Node(keys, ts[i := kids[i].tree])
    {
      FitKid(kids, ts, r, i, rs);
      repr, tree := r, BTreeModel.Node(keys, ts[i := kids[i].tree]);
    }

    /** Overwrite the node's two blocks. */
    method Adopt(ks: seq<Key>, ns: seq<Node>, ghost ts: seq<BTreeModel.Tree>, ghost r: set<Node>)
      requires this in r && Fit(ns, ts, r)
      modifies this
      ensures Valid() && keys == ks && kids == ns && repr == r && tree == BTreeModel.Node(ks, ts)
    {
      keys, kids := ks, ns;
      repr, tree := r, BTreeModel.Node(ks, ts);
    }

    ghost function Reprs(ns: seq<Node>): set<Node>
      reads ns
    {
      set i, m | 0 <= i < |ns| && m in ns[i].repr :: m
    }

    lemma FitFront(ns: seq<Node>, ts: seq<BTreeModel.Tree>, r: set<Node>, p: nat)
      requires Fit(ns, ts, r) && p <= |ns| && this in r
      ensures Fit(ns[..p], ts[..p], r - Reprs(ns[p..])) && this in r - Reprs(ns[p..])
      ensures Reprs(ns[p..]) <= r
    {
      forall i | 0 <= i < p ensures ns[i].repr !! Reprs(ns[p..]) {
        forall j | 0 <= j < |ns[p..]| ensures ns[i].repr !! ns[p..][j].repr {
          assert ns[p..][j] == ns[p + j];
        }
      }
    }

    lemma FitBack(o: Node, ns: seq<Node>, ts: seq<BTreeModel.Tree>, r: set<Node>, p: nat)
      requires Fit(ns, ts, r) && p <= |ns| && o !in r
      ensures o.Fit(ns[p..], ts[p..], {o} + Reprs(ns[p..]))
    {
      assert forall i :: 0 <= i < |ns[p..]| ==> ns[p..][i] == ns[p + i] && ts[p..][i] == ts[p + i];
    }

    /** Keep the keys before key p and give the ones after it to a new node. */
    method CutAt(p: nat) returns (z: Node)
      requires Valid() && p < |keys| && (tree.kids == [] || Internal(tree))
      modifies this
      ensures Valid() && z.Valid() && repr !! z.repr && repr <= old(repr) && z.repr <= old(repr) + {z} && fresh(z)
      ensures tree == CutLeft(old(tree), p) && z.tree == CutRight(old(tree), p)
    {
      var ks, ns := keys, kids;
      ghost var ts, r := tree.kids, repr;
      z := new Node();
      var q := if ns == [] then 0 else p + 1;
      FitBack(z, ns, ts, r, q);
      FitFront(ns, ts, r, q);
      z.Adopt(ks[p + 1..], ns[q..], ts[q..], {z} + Reprs(ns[q..]));
      Adopt(ks[..p], ns[..q], ts[..q], r - Reprs(ns[q..]));
    }
  }

  // ------------------------------------------------------------------
  // Rearrangements of three nodes
  // ------------------------------------------------------------------

  /** The last key of child i-1 moves up into x, x's separator moves down into child i. */
  method BorrowLeft(x: Node, i: nat)
    requires x.Valid() && Internal(x.tree) && 0 < i < |x.kids|
    requires Siblings(x.tree.kids[i - 1], x.tree.kids[i]) && 0 < |x.tree.kids[i - 1].keys|
    modifies x, x.kids[i - 1], x.kids[i]
    ensures x.Valid() && x.repr == old(x.repr) && x.kids == old(x.kids) && |x.keys| == old(|x.keys|)
    ensures x.tree == Rotate(old(x.tree), i - 1, |old(x.tree).kids[i - 1].keys| - 1)
  {
    hide Rotate, CutLeft, CutRight, Join;
    var y, xp := x.kids[i - 1], x.kids[i];
    ghost var ts := x.tree.kids;
    ghost var rs := x.KidReprs();
    ghost var t' := Rotate(x.tree, i - 1, |ts[i - 1].keys| - 1);
    RotateRight(x.tree, i - 1);
    var k, gs := y.DropLast();
    xp.AddFirst(x.keys[i - 1], gs);
    assert y.tree == t'.kids[i - 1] && xp.tree == t'.kids[i];
    x.FitPair(x.kids, ts, x.repr, i - 1, rs);
    x.Adopt(x.keys[i - 1 := k], x.kids, ts[i - 1 := y.tree][i := xp.tree], x.repr);
  }

  /** The first key of child i+1 moves up into x, x's separator moves down into child i. */
  method BorrowRight(x: Node, i: nat)
    requires x.Valid() && Internal(x.tree) && i + 1 < |x.kids|
    requires Siblings(x.tree.kids[i], x.tree.kids[i + 1]) && 0 < |x.tree.kids[i + 1].keys|
    modifies x, x.kids[i], x.kids[i + 1]
    ensures x.Valid() && x.repr == old(x.repr) && x.kids == old(x.kids) && |x.keys| == old(|x.keys|)
    ensures x.tree == Rotate(old(x.tree), i, |old(x.tree).kids[i].keys| + 1)
  {
    hide Rotate, CutLeft, CutRight, Join;
    var xp, y := x.kids[i], x.kids[i + 1];
    ghost var ts := x.tree.kids;
    ghost var rs := x.KidReprs();
    ghost var t' := Rotate(x.tree, i, |ts[i].keys| + 1);
    RotateLeft(x.tree, i);
    var k, gs := y.DropFirst();
    xp.AddLast(x.keys[i], gs);
    assert xp.tree == t'.kids[i] && y.tree == t'.kids[i + 1];
    x.FitPair(x.kids, ts, x.repr, i, rs);
    x.Adopt(x.keys[i := k], x.kids, ts[i := xp.tree][i + 1 := y.tree], x.repr);
  }

  /** Child i takes key k and everything in child i+1; the separator and child i+1 leave x. */
  method MergeKids(x: Node, i: nat, k: Key)
    requires x.Valid() && Internal(x.tree) && i + 1 < |x.kids|
    modifies x, x.kids[i]
    ensures x.Valid() && x.repr == old(x.repr) && |x.keys| == old(|x.keys|) - 1
    ensures x.tree == Merge(old(x.tree), i, k)
    ensures x.kids == old(x.kids)[..i + 1] + old(x.kids)[i + 2..]
  {
    var y, z := x.kids[i], x.kids[i + 1];
    ghost var ts := x.tree.kids;
    y.Absorb(k, z);
    ghost var ts' := ts[..i] + [y.tree] + ts[i + 2..];
    var ns := x.kids[..i + 1] + x.kids[i + 2..];
    assert x.Fit(ns, ts', x.repr);
    x.Adopt(x.keys[..i] + x.keys[i + 1..], ns, ts', x.repr);
  }

  method NodeOver(r: Node) returns (s: Node)
    requires r.Valid()
    ensures s.Valid() && fresh(s) && s.repr == {s} + r.repr && s.kids == [r]
    ensures s.tree == BTreeModel.Node([], [r.tree])
  {
    s := new Node();
    assert s.Fit([r], [r.tree], {s} + r.repr);
    s.Adopt([], [r], [r.tree], {s} + r.repr);
  }

  /** Child i is cut in two; its key p moves up into x (klib's split has p = t - 1). */
  method SplitKid(x: Node, i: nat, p: nat)
    requires x.Valid() && Internal(x.tree) && i < |x.kids|
    requires p < |x.tree.kids[i].keys| && (x.tree.kids[i].kids == [] || Internal(x.tree.kids[i]))
    modifies x, x.kids[i]
    ensures x.Valid() && fresh(x.repr - old(x.repr))
    ensures x.tree == Split(old(x.tree), i, p)
  {
    var y := x.kids[i];
    ghost var ts := x.tree.kids;
    ghost var rs := x.KidReprs();
    var k := y.keys[p];
    var z := y.CutAt(p);
    var ns := x.kids[..i] + [y, z] + x.kids[i + 1..];
    ghost var ts' := ts[..i] + [y.tree, z.tree] + ts[i + 1..];
    x.FitSplit(x.kids, ts, x.repr + {z}, i, z, rs);
    x.Adopt(x.keys[..i] + [k] + x.keys[i..], ns, ts', x.repr + {z});
  }

  // ------------------------------------------------------------------
  // Search
  // ------------------------------------------------------------------

  /** Where k belongs among a node's keys: the index of the first key comparing equal to k
      and r = 0, or else the index of the last smaller key and r != 0. */
  ghost predicate FoundAt(keys: seq<Key>, k: Key, i: int, r: int) {
    && -1 <= i < |keys|
    && if keys != [] && r == 0 then 0 <= i && keys[i].rank == k.rank && Below(keys[..i], k)
       else Below(keys[..i + 1], k) && Above(keys[i + 1..], k)
  }

  lemma FoundParts(keys: seq<Key>, k: Key, i: int, r: int)
    requires FoundAt(keys, k, i, r)
    ensures -1 <= i < |keys|
    ensures if keys != [] && r == 0 then 0 <= i && keys[i].rank == k.rank && Below(keys[..i], k)
            else Below(keys[..i + 1], k) && Above(keys[i + 1..], k)
  {
    hide Below, Above;
  }

  lemma FoundHas(keys: seq<Key>, k: Key, i: int, r: int)
    requires FoundAt(keys, k, i, r)
    ensures Has(keys, k) ==> r == 0
  {
    if r != 0 {
      forall j | 0 <= j < |keys| ensures keys[j].rank != k.rank {
        if j <= i { assert keys[..i + 1][j] == keys[j]; } else { assert keys[i + 1..][j - i - 1] == keys[j]; }
      }
    }
  }

  /** The keys before begin are smaller than k, those from end on are not. */
  ghost predicate Narrowed(keys: seq<Key>, k: Key, begin: nat, end: nat) {
    begin <= end <= |keys| && Below(keys[..begin], k) && AtLeast(keys[end..], k)
  }

  lemma NarrowedStart(keys: seq<Key>, k: Key)
    ensures Narrowed(keys, k, 0, |keys|) && (forall r :: keys == [] ==> FoundAt(keys, k, -1, r))
  {
  }

  lemma Narrow(keys: seq<Key>, k: Key, begin: nat, end: nat, mid: nat)
    requires Sorted(keys) && Narrowed(keys, k, begin, end) && begin <= mid < end
    ensures if Cmp(keys[mid], k) < 0 then Narrowed(keys, k, mid + 1, end) else Narrowed(keys, k, begin, mid)
  {
    assert forall j :: 0 <= j <= mid ==> keys[j].rank <= keys[mid].rank;
    assert forall j :: mid <= j < |keys| ==> keys[mid].rank <= keys[j].rank;
  }

  lemma NarrowedEnd(keys: seq<Key>, k: Key, i: nat)
    requires Sorted(keys) && Narrowed(keys, k, i, i) && keys != []
    ensures if i == |keys| then FoundAt(keys, k, i - 1, 1)
            else Cmp(k, keys[i]) <= 0 && FoundAt(keys, k, if Cmp(k, keys[i]) < 0 then i - 1 else i, Cmp(k, keys[i]))
  {
    if i < |keys| {
      assert keys[i..][0] == keys[i];
      assert forall j :: i <= j < |keys| ==> keys[i..][j - i] == keys[j] && keys[i].rank <= keys[j].rank;
    }
  }

  /** In an empty node the caller's r is left as it was. */
  method GetAux(keys: seq<Key>, k: Key, r0: int) returns (i: int, r: int)
    requires Sorted(keys)
    ensures FoundAt(keys, k, i, r)
    ensures (keys == [] ==> r == r0) && (r == r0 || -1 <= r <= 1)
  {
    hide Sorted, Below, Above, AtLeast, FoundAt, Narrowed;
    NarrowedStart(keys, k);
    if |keys| == 0 { return -1, r0; }
    var begin, end := 0, |keys|;
    while begin < end
      invariant 0 <= begin <= end <= |keys| && Narrowed(keys, k, begin, end)
    {
      var mid := (begin + end) / 2;
      Narrow(keys, k, begin, end, mid);
      if Cmp(keys[mid], k) < 0 { begin := mid + 1; } else { end := mid; }
    }
    NarrowedEnd(keys, k, begin);
    if begin == |keys| { return |keys| - 1, 1; }
    i, r := begin, Cmp(k, keys[begin]);
    if r < 0 { i := i - 1; }
  }

  // ------------------------------------------------------------------
  // Deletion
  // ------------------------------------------------------------------

  /** Make child i of x hold at least t keys, by borrowing from or merging with a neighbour;
      i' is the index of the child that now covers what child i covered. */
  method Thicken(x: Node, t: nat, i: nat, ghost h: nat) returns (i': nat)
    requires x.Valid() && 2 <= t && 0 < h && Shape(x.tree, h, t)
    requires i < |x.kids| && 0 < |x.keys|
    modifies x.repr
    ensures x.Valid() && x.repr <= old(x.repr)
    ensures Covers(old(x.tree), i, x.tree, i', h, t)
    ensures (x.tree, i') == Thicker(old(x.tree), t, i, h)
    ensures old(|x.keys|) - 1 <= |x.keys| <= old(|x.keys|)
    ensures t <= |x.tree.kids[i'].keys|
  {
    i' := i;
    ghost var x0 := x.tree;
    assert Internal(x0);
    assert forall j :: 0 <= j < |x.kids| ==> x0.kids[j].keys == x.kids[j].keys && Half(x0.kids[j], t);
    assert Covers(x0, i, x0, i, h, t);
    hide Shape, Covers;
    if |x.kids[i].keys| == t - 1 {
      if i > 0 && |x.kids[i - 1].keys| >= t {
        TakeFromLeft(x, t, i, h);
      } else if i < |x.keys| && |x.kids[i + 1].keys| >= t {
        TakeFromRight(x, t, i, h);
      } else if i > 0 && |x.kids[i - 1].keys| == t - 1 {
        MergeWithLeft(x, t, i, h);
        i' := i - 1;
      } else if i < |x.keys| && |x.kids[i + 1].keys| == t - 1 {
        MergeWithRight(x, t, i, h);
      }
    }
  }

  method TakeFromLeft(x: Node, t: nat, i: nat, ghost h: nat)
    requires x.Valid() && 0 < t && 0 < h && Shape(x.tree, h, t) && 0 < i < |x.kids|
    requires |x.tree.kids[i].keys| == t - 1 && t <= |x.tree.kids[i - 1].keys| <= 2 * t - 1
    modifies x, x.kids[i - 1], x.kids[i]
    ensures x.Valid() && x.repr == old(x.repr) && |x.keys| == old(|x.keys|)
    ensures Covers(old(x.tree), i, x.tree, i, h, t) && |x.tree.kids[i].keys| == t
    ensures Internal(old(x.tree)) && Siblings(old(x.tree).kids[i - 1], old(x.tree).kids[i])
    ensures x.tree == Rotate(old(x.tree), i - 1, |old(x.tree).kids[i - 1].keys| - 1)
  {
    hide Shape, Covers, Flat, Before, After, Rotate, Merge;
    BorrowLeftCovers(x.tree, i, h, t);
    BorrowLeft(x, i);
  }

  method TakeFromRight(x: Node, t: nat, i: nat, ghost h: nat)
    requires x.Valid() && 0 < t && 0 < h && Shape(x.tree, h, t) && i + 1 < |x.kids|
    requires |x.tree.kids[i].keys| == t - 1 && t <= |x.tree.kids[i + 1].keys| <= 2 * t - 1
    modifies x, x.kids[i], x.kids[i + 1]
    ensures x.Valid() && x.repr == old(x.repr) && |x.keys| == old(|x.keys|)
    ensures Covers(old(x.tree), i, x.tree, i, h, t) && |x.tree.kids[i].keys| == t
    ensures Internal(old(x.tree)) && Siblings(old(x.tree).kids[i], old(x.tree).kids[i + 1])
    ensures x.tree == Rotate(old(x.tree), i, |old(x.tree).kids[i].keys| + 1)
  {
    hide Shape, Covers, Flat, Before, After, Rotate, Merge;
    BorrowRightCovers(x.tree, i, h, t);
    BorrowRight(x, i);
  }

  method MergeWithLeft(x: Node, t: nat, i: nat, ghost h: nat)
    requires x.Valid() && 0 < t && 0 < h && Shape(x.tree, h, t) && 0 < i < |x.kids|
    requires |x.tree.kids[i].keys| == t - 1 && |x.tree.kids[i - 1].keys| == t - 1
    modifies x, x.kids[i - 1]
    ensures x.Valid() && x.repr == old(x.repr) && |x.keys| == old(|x.keys|) - 1
    ensures Covers(old(x.tree), i, x.tree, i - 1, h, t) && |x.tree.kids[i - 1].keys| == 2 * t - 1
    ensures Internal(old(x.tree)) && x.tree == Merge(old(x.tree), i - 1, old(x.tree).keys[i - 1])
  {
    hide Shape, Covers, Flat, Before, After, Rotate, Merge;
    MergeLeftCovers(x.tree, i, h, t);
    MergeKids(x, i - 1, x.keys[i - 1]);
  }

  method MergeWithRight(x: Node, t: nat, i: nat, ghost h: nat)
    requires x.Valid() && 0 < t && 0 < h && Shape(x.tree, h, t) && i + 1 < |x.kids|
    requires |x.tree.kids[i].keys| == t - 1 && |x.tree.kids[i + 1].keys| == t - 1
    modifies x, x.kids[i]
    ensures x.Valid() && x.repr == old(x.repr) && |x.keys| == old(|x.keys|) - 1
    ensures Covers(old(x.tree), i, x.tree, i, h, t) && |x.tree.kids[i].keys| == 2 * t - 1
    ensures Internal(old(x.tree)) && x.tree == Merge(old(x.tree), i, old(x.tree).keys[i])
  {
    hide Shape, Covers, Flat, Before, After, Rotate, Merge;
    MergeRightCovers(x.tree, i, h, t);
    MergeKids(x, i, x.keys[i]);
  }

  /** What taking one key out of a subtree does: f, f' are its sequences before and after,
      g is f with some keys comparing equal to k overwritten by k, and kp == g[j] has gone. */
  ghost predicate Erased(f: seq<Key>, f': seq<Key>, k: Key, s: int, kp: Key, g: seq<Key>, j: nat) {
    && Overwrites(f, g, k) && j < |g| && kp == g[j] && f' == RemoveAt(g, j)
    && (s == 0 ==> kp.rank == k.rank)
    && (s != 0 ==> g == f)
    && (s == 1 ==> j == |f| - 1)
    && (s == 2 ==> j == 0)
  }

  /** With s == 0, a key is overwritten just when the descent comes to the branch that does so. */
  ghost predicate Exact(x: BTreeModel.Tree, t: nat, k: Key, s: int, h: nat, g: seq<Key>)
    requires 2 <= t && Shape(x, h, t) && 0 < |x.keys|
  {
    s == 0 ==> (g == Flat(x) <==> !Overwritten(x, t, k, h))
  }

  /** With s == 1 the last key has gone, with s == 2 the first. */
  lemma ErasedLast(f: seq<Key>, f': seq<Key>, k: Key, s: int, kp: Key, g: seq<Key>, j: nat)
    requires Erased(f, f', k, s, kp, g, j) && (s == 1 || s == 2)
    ensures 0 < |f| && (s == 1 ==> kp == f[|f| - 1] && f' == RemoveAt(f, |f| - 1))
    ensures s == 2 ==> kp == f[0] && f' == RemoveAt(f, 0)
  {
  }

  lemma ExactSeparator(x: BTreeModel.Tree, t: nat, k: Key, i: nat, h: nat)
    requires 2 <= t && 0 < h && Shape(x, h, t) && i < |x.keys| && Below(x.keys[..i], k) && x.keys[i].rank == k.rank
    requires Internal(x) && (|x.kids[i].keys| != t - 1 || |x.kids[i + 1].keys| != t - 1)
    ensures Exact(x, t, k, 0, h, Flat(x))
  {
    PlaceIs(x.keys, k, i);
  }

  /** Merging around separator i, with k over it, and taking a key out of the merged child. */
  lemma ErasedMerged(x: BTreeModel.Tree, t: nat, k: Key, i: nat, h: nat, c: BTreeModel.Tree, kp: Key, g': seq<Key>, j': nat)
    returns (g: seq<Key>, j: nat)
    requires 2 <= t && 0 < h && Shape(x, h, t) && i < |x.keys| && Below(x.keys[..i], k) && x.keys[i].rank == k.rank
    requires Internal(x) && |x.kids[i].keys| == t - 1 && |x.kids[i + 1].keys| == t - 1
    requires var x1 := Merge(x, i, k);
             && Shape(x1, h, t) && Shape(x1.kids[i], h - 1, t) && 0 < |x1.kids[i].keys|
             && Erased(Flat(x1.kids[i]), Flat(c), k, 0, kp, g', j') && Exact(x1.kids[i], t, k, 0, h - 1, g')
    ensures Erased(Flat(x), Flat(SetKid(Merge(x, i, k), i, c)), k, 0, kp, g, j)
    ensures Exact(x, t, k, 0, h, g)
  {
    var x1 := Merge(x, i, k);
    MergeShape(x, i, k, h, t);
    MergeOverwrites(x, i, k);
    EraseInKid(x1, i, c, g', j', k);
    g, j := Before(x1, i) + g' + After(x1, i), |Before(x1, i)| + j';
    OverwritesTwice(Flat(x), Flat(x1), g, k);
    ExactMerged(x, t, k, i, h, g');
  }

  lemma ExactMerged(x: BTreeModel.Tree, t: nat, k: Key, i: nat, h: nat, g': seq<Key>)
    requires 2 <= t && 0 < h && Shape(x, h, t) && i < |x.keys| && Below(x.keys[..i], k) && x.keys[i].rank == k.rank
    requires Internal(x) && |x.kids[i].keys| == t - 1 && |x.kids[i + 1].keys| == t - 1
    requires var x1 := Merge(x, i, k);
             && Internal(x1) && Shape(x1.kids[i], h - 1, t) && 0 < |x1.kids[i].keys|
             && Overwrites(Flat(x1.kids[i]), g', k) && Exact(x1.kids[i], t, k, 0, h - 1, g')
    ensures var x1 := Merge(x, i, k); Exact(x, t, k, 0, h, Before(x1, i) + g' + After(x1, i))
  {
    var x1 := Merge(x, i, k);
    PlaceIs(x.keys, k, i);
    MergeShape(x, i, k, h, t);
    MergeFlat(x, i, k);
    JoinFlat(x.kids[i], k, x.kids[i + 1]);
    FlatAtPair(x, i);
    assert x1.kids[i] == Join(x.kids[i], k, x.kids[i + 1]);
    var a, b, l, r := Flat(x.kids[i]), Flat(x.kids[i + 1]), Before(x, i), After(x, i + 1);
    assert Overwritten(x, t, k, h) <==> x.keys[i] != k || Overwritten(x1.kids[i], t, k, h - 1);
    hide Flat, Before, After, Merge, Overwritten, Shape;
    SameAround(l, a, x.keys[i], k, b, g', r);
  }

  lemma SameAround(l: seq<Key>, a: seq<Key>, e: Key, k: Key, b: seq<Key>, g: seq<Key>, r: seq<Key>)
    requires Overwrites(a + [k] + b, g, k)
    ensures l + g + r == l + (a + [e] + b) + r <==> e == k && g == a + [k] + b
  {
    assert (a + [k] + b)[|a|] == k && g[|a|] == k;
    assert (l + g + r)[|l|..|l| + |g|] == g;
    assert (l + (a + [e] + b) + r)[|l|..|l| + |g|] == a + [e] + b;
    assert (a + [e] + b)[|a|] == e;
  }

  /** Taking a key out of child i of x1, which is x made ready for that. */
  lemma ErasedBelow(x: BTreeModel.Tree, t: nat, k: Key, s: int, i0: nat, h: nat, x1: BTreeModel.Tree, i: nat,
                    c: BTreeModel.Tree, kp: Key, g': seq<Key>, j': nat)
    returns (g: seq<Key>, j: nat)
    requires 2 <= t && 0 < h && Shape(x, h, t) && i0 < |x.kids| && 0 < |x.keys|
    requires (x1, i) == Thicker(x, t, i0, h)
    requires s == 0 ==> Place(x.keys, k) == i0 && (i0 < |x.keys| ==> k.rank < x.keys[i0].rank)
    requires s == 1 ==> i0 == |x.keys|
    requires s == 2 ==> i0 == 0
    requires Shape(x1.kids[i], h - 1, t) && Erased(Flat(x1.kids[i]), Flat(c), k, s, kp, g', j') && Exact(x1.kids[i], t, k, s, h - 1, g')
    ensures Erased(Flat(x), Flat(SetKid(x1, i, c)), k, s, kp, g, j)
    ensures Exact(x, t, k, s, h, g)
  {
    assert Internal(x1) && i <= |x1.keys| && Flat(x1) == Flat(x);
    assert (s == 1 ==> i == |x1.keys|) && (s == 2 ==> i == 0);
    ExactBelow(x, t, k, s, i0, h, x1, i, g');
    hide Shape, Covers, Thicker, Overwritten, Place, Exact;
    EraseInKid(x1, i, c, g', j', k);
    FlatAt(x1, i);
    g, j := Before(x1, i) + g' + After(x1, i), |Before(x1, i)| + j';
    if s == 1 { assert After(x1, i) == []; }
    if s == 2 { assert Before(x1, i) == []; }
  }

  lemma ExactBelow(x: BTreeModel.Tree, t: nat, k: Key, s: int, i0: nat, h: nat, x1: BTreeModel.Tree, i: nat, g': seq<Key>)
    requires 2 <= t && 0 < h && Shape(x, h, t) && i0 < |x.kids| && 0 < |x.keys|
    requires (x1, i) == Thicker(x, t, i0, h)
    requires s == 0 ==> Place(x.keys, k) == i0 && (i0 < |x.keys| ==> k.rank < x.keys[i0].rank)
    requires Shape(x1.kids[i], h - 1, t) && Exact(x1.kids[i], t, k, s, h - 1, g')
    ensures Internal(x1) && i <= |x1.keys| && Exact(x, t, k, s, h, Before(x1, i) + g' + After(x1, i))
  {
    assert Internal(x1) && i <= |x1.keys| && Flat(x1) == Flat(x);
    assert s == 0 ==> (Overwritten(x, t, k, h) <==> Overwritten(x1.kids[i], t, k, h - 1));
    hide Shape, Covers, Thicker, Overwritten, Place;
    FlatAt(x1, i);
    SameBetween(Before(x1, i), Flat(x1.kids[i]), g', After(x1, i));
  }

  lemma SameBetween(l: seq<Key>, f: seq<Key>, g: seq<Key>, r: seq<Key>)
    ensures l + g + r == l + f + r <==> g == f
  {
    if l + g + r == l + f + r {
      assert |g| == |f|;
      assert (l + g + r)[|l|..|l| + |g|] == g && (l + f + r)[|l|..|l| + |f|] == f;
    }
  }

  /** `__kb_delp_aux`: with s == 0 take out a key comparing equal to k, with s == 1 the greatest
      key, with s == 2 the least one. */
  method Delp(x: Node, t: nat, k: Key, s: int, ghost h: nat) returns (kp: Key, ghost g: seq<Key>, ghost j: nat)
    requires x.Valid() && 2 <= t && Shape(x.tree, h, t) && Sorted(Flat(x.tree)) && 0 <= s <= 2
    requires 0 < |x.keys| && (s == 0 ==> Has(Flat(x.tree), k))
    modifies x.repr
    ensures x.Valid() && x.repr <= old(x.repr)
    ensures Shape(x.tree, h, t) && old(|x.keys|) - 1 <= |x.keys| <= old(|x.keys|)
    ensures Erased(old(Flat(x.tree)), Flat(x.tree), k, s, kp, g, j)
    ensures Exact(old(x.tree), t, k, s, h, g)
    decreases h, 3
  {
    hide Exact, Erased, Sorted, Has, Place, Shape, Flat, FoundAt;
    var i, r := 0, 0;
    NodeParts(x, h, t);
    KeysSorted(x.tree);
    if s != 0 {
      r := if x.IsLeaf() then 0 else if s == 1 then 1 else -1;
      i := if s == 1 then |x.keys| - 1 else -1;
    } else {
      i, r := GetAux(x.keys, k, r);
      FoundParts(x.keys, k, i, r);
      if x.IsLeaf() { FoundHas(x.keys, k, i, r); }
    }
    if x.IsLeaf() {
      kp, g, j := DelLeaf(x, t, k, s, i, h);
    } else if r == 0 {
      kp, g, j := DelSeparator(x, t, k, i, h);
    } else {
      kp, g, j := DelBelow(x, t, k, s, i + 1, h);
    }
  }

  method DelLeaf(x: Node, t: nat, k: Key, s: int, i0: int, ghost h: nat) returns (kp: Key, ghost g: seq<Key>, ghost j: nat)
    requires x.Valid() && x.IsLeaf() && Shape(x.tree, h, t) && 0 <= s <= 2 && 0 < |x.keys|
    requires s == 0 ==> 0 <= i0 < |x.keys| && x.keys[i0].rank == k.rank
    requires s == 1 ==> i0 == |x.keys| - 1
    requires s == 2 ==> i0 == -1
    modifies x
    ensures x.Valid() && x.repr == old(x.repr)
    ensures Shape(x.tree, h, t) && |x.keys| == old(|x.keys|) - 1
    ensures Erased(old(Flat(x.tree)), Flat(x.tree), k, s, kp, g, j)
    ensures 2 <= t ==> Exact(old(x.tree), t, k, s, h, g)
  {
    var i := if s == 2 then i0 + 1 else i0;
    kp, g, j := x.keys[i], x.keys, i;
    x.Adopt(RemoveAt(x.keys, i), [], [], x.repr);
  }

  /** One recursive call: take a key out of child i, which is thick enough to lose one. */
  method DelKid(x: Node, t: nat, k: Key, s: int, i: nat, ghost h: nat) returns (kp: Key, ghost g: seq<Key>, ghost j: nat)
    requires x.Valid() && 2 <= t && 0 < h && Shape(x.tree, h, t) && Sorted(Flat(x.tree)) && 0 <= s <= 2
    requires i < |x.kids| && t <= |x.tree.kids[i].keys| && Shape(x.tree.kids[i], h - 1, t)
    requires s == 0 ==> Has(Flat(x.tree.kids[i]), k)
    modifies x.repr
    ensures x.Valid() && x.repr == old(x.repr) && x.keys == old(x.keys) && x.kids == old(x.kids)
    ensures Shape(x.tree, h, t) && Internal(x.tree)
    ensures x.tree == SetKid(old(x.tree), i, x.tree.kids[i])
    ensures Erased(old(Flat(x.tree.kids[i])), Flat(x.tree.kids[i]), k, s, kp, g, j)
    ensures Exact(old(x.tree.kids[i]), t, k, s, h - 1, g)
    decreases h, 0
  {
    var c := x.kids[i];
    ghost var x0 := x.tree;
    KidSorted(x0, i);
    ghost var rs := x.KidReprs();
    assert forall m :: 0 <= m < |x.kids| && m != i ==> x.FitOne(x.kids[m], x0.kids[m], x.repr);
    hide Erased, Exact;
    kp, g, j := Delp(c, t, k, s, h - 1);
    x.Refit(i, x0.kids, x.repr, rs);
    SetKidShape(x0, i, x.tree.kids[i], h, t);
  }

  /** k is the separator i of x, or compares equal to it. */
  method DelSeparator(x: Node, t: nat, k: Key, i: nat, ghost h: nat) returns (kp: Key, ghost g: seq<Key>, ghost j: nat)
    requires x.Valid() && 2 <= t && 0 < h && Shape(x.tree, h, t) && Sorted(Flat(x.tree))
    requires i < |x.keys| && Below(x.keys[..i], k) && x.keys[i].rank == k.rank
    modifies x.repr
    ensures x.Valid() && x.repr <= old(x.repr)
    ensures Shape(x.tree, h, t) && old(|x.keys|) - 1 <= |x.keys| <= old(|x.keys|)
    ensures Erased(old(Flat(x.tree)), Flat(x.tree), k, 0, kp, g, j)
    ensures Exact(old(x.tree), t, k, 0, h, g)
    ensures SeparatorGone(old(x.tree), x.tree, t, i)
    decreases h, 2
  {
    hide *;
    ghost var x0 := x.tree;
    KidSizes(x, i, h, t);
    if |x.kids[i].keys| >= t {
      ExactSeparator(x0, t, k, i, h);
      kp := x.keys[i];
      g, j := Flat(x0), |Before(x0, i)| + |Flat(x0.kids[i])|;
      DelPredecessor(x, t, k, i, h);
      ErasedAt(g, k, j);
    } else if |x.kids[i + 1].keys| >= t {
      ExactSeparator(x0, t, k, i, h);
      kp := x.keys[i];
      g, j := Flat(x0), |Before(x0, i)| + |Flat(x0.kids[i])|;
      DelSuccessor(x, t, k, i, h);
      ErasedAt(g, k, j);
    } else {
      kp, g, j := DelMerged(x, t, k, i, h);
    }
  }

  lemma KidSizes(x: Node, i: nat, h: nat, t: nat)
    requires x.Valid() && 0 < h && Shape(x.tree, h, t) && i < |x.keys|
    ensures Internal(x.tree) && x.keys == x.tree.keys && |x.kids| == |x.tree.kids| == |x.keys| + 1
    ensures t - 1 <= |x.kids[i].keys| == |x.tree.kids[i].keys|
    ensures t - 1 <= |x.kids[i + 1].keys| == |x.tree.kids[i + 1].keys|
  {
    assert Half(x.tree.kids[i], t) && Half(x.tree.kids[i + 1], t);
  }

  lemma ErasedAt(f: seq<Key>, k: Key, j: nat)
    requires j < |f| && f[j].rank == k.rank
    ensures Erased(f, RemoveAt(f, j), k, 0, f[j], f, j)
  {
  }

  /** Overwrite separator i by the greatest key below it on the left, taken out from there. */
  method DelPredecessor(x: Node, t: nat, k: Key, i: nat, ghost h: nat)
    requires x.Valid() && 2 <= t && 0 < h && Shape(x.tree, h, t) && Sorted(Flat(x.tree))
    requires i < |x.keys| && t <= |x.tree.kids[i].keys|
    modifies x.repr
    ensures x.Valid() && x.repr <= old(x.repr)
    ensures Shape(x.tree, h, t) && |x.keys| == old(|x.keys|)
    ensures var f, p := old(Flat(x.tree)), old(|Before(x.tree, i)| + |Flat(x.tree.kids[i])|);
            p < |f| && f[p] == old(x.keys[i]) && Flat(x.tree) == RemoveAt(f, p)
    ensures SeparatorGone(old(x.tree), x.tree, t, i)
    decreases h, 1
  {
    hide Erased, Exact, Overwrites, Overwritten, Shape, Sorted, Flat, Before, Has, RemoveAt;
    ghost var x0 := x.tree;
    LeafOrInternal(x0, h, t);
    var kp, g, j := DelKid(x, t, k, 1, i, h);
    ErasedLast(Flat(x0.kids[i]), Flat(x.tree.kids[i]), k, 1, kp, g, j);
    ghost var x1 := x.tree;
    PredecessorFlat(x0, i, x1.kids[i]);
    SetKeyShape(x1, i, kp, h, t);
    x.Adopt(x.keys[i := kp], x.kids, x1.kids, x.repr);
  }

  /** Overwrite separator i by the least key above it on the right, taken out from there. */
  method DelSuccessor(x: Node, t: nat, k: Key, i: nat, ghost h: nat)
    requires x.Valid() && 2 <= t && 0 < h && Shape(x.tree, h, t) && Sorted(Flat(x.tree))
    requires i < |x.keys| && |x.tree.kids[i].keys| < t <= |x.tree.kids[i + 1].keys|
    modifies x.repr
    ensures x.Valid() && x.repr <= old(x.repr)
    ensures Shape(x.tree, h, t) && |x.keys| == old(|x.keys|)
    ensures var f, p := old(Flat(x.tree)), old(|Before(x.tree, i)| + |Flat(x.tree.kids[i])|);
            p < |f| && f[p] == old(x.keys[i]) && Flat(x.tree) == RemoveAt(f, p)
    ensures SeparatorGone(old(x.tree), x.tree, t, i)
    decreases h, 1
  {
    hide Erased, Exact, Overwrites, Overwritten, Shape, Sorted, Flat, Before, Has, RemoveAt;
    ghost var x0 := x.tree;
    LeafOrInternal(x0, h, t);
    var kp, g, j := DelKid(x, t, k, 2, i + 1, h);
    ErasedLast(Flat(x0.kids[i + 1]), Flat(x.tree.kids[i + 1]), k, 2, kp, g, j);
    ghost var x1 := x.tree;
    SuccessorFlat(x0, i, x1.kids[i + 1]);
    SetKeyShape(x1, i, kp, h, t);
    x.Adopt(x.keys[i := kp], x.kids, x1.kids, x.repr);
  }

  /** Merge the children around separator i, with k itself in its place, and go on below. */
  method DelMerged(x: Node, t: nat, k: Key, i: nat, ghost h: nat) returns (kp: Key, ghost g: seq<Key>, ghost j: nat)
    requires x.Valid() && 2 <= t && 0 < h && Shape(x.tree, h, t) && Sorted(Flat(x.tree))
    requires i < |x.keys| && Below(x.keys[..i], k) && x.keys[i].rank == k.rank
    requires |x.tree.kids[i].keys| == t - 1 && |x.tree.kids[i + 1].keys| == t - 1
    modifies x.repr
    ensures x.Valid() && x.repr <= old(x.repr)
    ensures Shape(x.tree, h, t) && |x.keys| == old(|x.keys|) - 1
    ensures Erased(old(Flat(x.tree)), Flat(x.tree), k, 0, kp, g, j)
    ensures Exact(old(x.tree), t, k, 0, h, g)
    ensures SeparatorGone(old(x.tree), x.tree, t, i)
    decreases h, 1
  {
    ghost var x0 := x.tree;
    MergedReady(x0, i, k, h, t);
    hide Exact, Erased, Shape, Flat, Sorted, Below, Merge, Has;
    MergeKids(x, i, k);
    ghost var g', j';
    kp, g', j' := DelKid(x, t, k, 0, i, h);
    g, j := ErasedMerged(x0, t, k, i, h, x.tree.kids[i], kp, g', j');
  }

  lemma MergedReady(x: BTreeModel.Tree, i: nat, k: Key, h: nat, t: nat)
    requires 2 <= t && 0 < h && Shape(x, h, t) && Sorted(Flat(x)) && i < |x.keys| && x.keys[i].rank == k.rank
    requires Internal(x) && |x.kids[i].keys| == t - 1 && |x.kids[i + 1].keys| == t - 1
    ensures var x1 := Merge(x, i, k);
            && Shape(x1, h, t) && Sorted(Flat(x1)) && i < |x1.kids| && |x1.kids[i].keys| == 2 * t - 1
            && Shape(x1.kids[i], h - 1, t) && Has(Flat(x1.kids[i]), k)
  {
    MergeShape(x, i, k, h, t);
    MergedShape(x, i, k, h, t);
    MergeOverwrites(x, i, k);
    OverwritesSorted(Flat(x), Flat(Merge(x, i, k)), k);
  }

  /** k, if it matters, is in child i0 of x. */
  method DelBelow(x: Node, t: nat, k: Key, s: int, i0: nat, ghost h: nat) returns (kp: Key, ghost g: seq<Key>, ghost j: nat)
    requires x.Valid() && 2 <= t && 0 < h && Shape(x.tree, h, t) && Sorted(Flat(x.tree))
    requires i0 < |x.kids| && 0 < |x.keys| && 0 <= s <= 2
    requires s == 0 ==> Has(Flat(x.tree), k) && Below(x.keys[..i0], k) && Above(x.keys[i0..], k)
    requires s == 1 ==> i0 == |x.keys|
    requires s == 2 ==> i0 == 0
    modifies x.repr
    ensures x.Valid() && x.repr <= old(x.repr)
    ensures Shape(x.tree, h, t) && old(|x.keys|) - 1 <= |x.keys| <= old(|x.keys|)
    ensures Erased(old(Flat(x.tree)), Flat(x.tree), k, s, kp, g, j)
    ensures Exact(old(x.tree), t, k, s, h, g)
    decreases h, 1
  {
    ghost var x0 := x.tree;
    if s == 0 { LocateBelow(x0, i0, k); }
    var i := Thicken(x, t, i0, h);
    ghost var x1 := x.tree;
    BelowReady(x0, i0, x1, i, h, t, k, s);
    hide Exact, Erased, Shape, Flat, Sorted, Below, Above, Has, Covers, Thicker, Place, Before;
    ghost var g', j';
    kp, g', j' := DelKid(x, t, k, s, i, h);
    g, j := ErasedBelow(x0, t, k, s, i0, h, x1, i, x.tree.kids[i], kp, g', j');
  }

  lemma LocateBelow(x: BTreeModel.Tree, i: nat, k: Key)
    requires Internal(x) && i <= |x.keys| && Sorted(Flat(x)) && Below(x.keys[..i], k) && Above(x.keys[i..], k)
    ensures Below(Before(x, i), k) && Above(After(x, i), k)
    ensures Place(x.keys, k) == i && (i < |x.keys| ==> k.rank < x.keys[i].rank)
  {
    LastBelow(x.keys, i, k);
    Locate(x, i, k);
    PlaceIs(x.keys, k, i);
  }

  lemma BelowReady(x: BTreeModel.Tree, i: nat, x': BTreeModel.Tree, i': nat, h: nat, t: nat, k: Key, s: int)
    requires Internal(x) && i <= |x.keys| && 0 < h && Covers(x, i, x', i', h, t) && Sorted(Flat(x))
    requires s == 0 ==> Has(Flat(x), k) && Below(Before(x, i), k) && Above(After(x, i), k)
    ensures Sorted(Flat(x')) && Shape(x', h, t) && i' < |x'.kids| && Shape(x'.kids[i'], h - 1, t)
    ensures s == 0 ==> Has(Flat(x'.kids[i']), k)
  {
    KidShape(x', i', h, t);
    if s == 0 { CoveredHas(x, i, x', i', h, t, k); }
  }

  // ------------------------------------------------------------------
  // Insertion
  // ------------------------------------------------------------------

  lemma LeafOrInternal(x: BTreeModel.Tree, h: nat, t: nat)
    requires Shape(x, h, t)
    ensures x.kids == [] <==> h == 0
    ensures h > 0 ==> Internal(x) && forall i :: 0 <= i < |x.kids| ==> Half(x.kids[i], t) && Shape(x.kids[i], h - 1, t)
    ensures h == 0 ==> Flat(x) == x.keys
  {
  }

  /** The place GetAux finds keeps the keys in order, whether or not k is there already. */
  lemma PlaceOf(keys: seq<Key>, i: int, r: int, k: Key)
    requires Sorted(keys) && FoundAt(keys, k, i, r)
    ensures 0 <= i + 1 <= |keys| && Between(keys, i + 1, k) && Inserted(keys, InsertAt(keys, i + 1, k), k, i + 1)
  {
    hide Sorted, Below, Above, Inserted, InsertAt;
    if keys == [] || r != 0 {
      LastBelow(keys, i + 1, k);
    } else if i + 1 < |keys| {
      SortedPair(keys, i, i + 1);
    }
    SortedAround(keys, i + 1, k);
  }

  /** k fits in before place p. */
  ghost predicate Between(keys: seq<Key>, p: int, k: Key) {
    && 0 <= p <= |keys|
    && (0 < p ==> keys[p - 1].rank <= k.rank)
    && (p < |keys| ==> k.rank <= keys[p].rank)
  }

  lemma SortedPair(keys: seq<Key>, i: nat, j: nat)
    requires Sorted(keys) && i < j < |keys|
    ensures keys[i].rank <= keys[j].rank
  {
  }

  lemma LastBelow(keys: seq<Key>, p: nat, k: Key)
    requires p <= |keys| && Below(keys[..p], k) && Above(keys[p..], k)
    ensures 0 < p ==> keys[p - 1].rank < k.rank
    ensures p < |keys| ==> k.rank < keys[p].rank
  {
    if 0 < p { assert keys[..p][p - 1] == keys[p - 1]; }
    if p < |keys| { assert keys[p..][0] == keys[p]; }
  }

  lemma SortedAround(keys: seq<Key>, p: nat, k: Key)
    requires Sorted(keys) && Between(keys, p, k)
    ensures Inserted(keys, InsertAt(keys, p, k), k, p)
  {
    assert forall j :: 0 <= j < p ==> keys[j].rank <= keys[p - 1].rank;
    assert forall j :: p <= j < |keys| ==> keys[p].rank <= keys[j].rank;
  }

  /** Slot `slot` of the leaf at, below x, is place p of the sequence of x. */
  ghost predicate Stands(x: Node, h: nat, at: Node, slot: nat, p: int)
    reads x, x.repr
    decreases h
  {
    if h == 0 then at == x && slot == p && slot < |x.keys|
    else
      exists i :: 0 <= i < |x.kids| && StandsBelow(x, h, i, at, slot, p)
  }

  ghost predicate StandsBelow(x: Node, h: nat, i: nat, at: Node, slot: nat, p: int)
    requires 0 < h && i < |x.kids|
    reads x, x.repr
    decreases h, 0
  {
    && Internal(x.tree) && |x.kids| == |x.tree.kids| && x.kids[i] in x.repr && x.kids[i].repr <= x.repr
    && Stands(x.kids[i], h - 1, at, slot, p - |Before(x.tree, i)|)
  }

  lemma StandsInKid(x: Node, h: nat, i: nat, at: Node, slot: nat, p: int)
    requires x.Valid() && 0 < h && Internal(x.tree) && i < |x.kids| && Stands(x.kids[i], h - 1, at, slot, p)
    ensures Stands(x, h, at, slot, |Before(x.tree, i)| + p)
  {
    hide Before;
    assert StandsBelow(x, h, i, at, slot, |Before(x.tree, i)| + p);
  }

  /** What stands at a place of the sequence is the key there. */
  lemma {:induction false} StandsKey(x: Node, h: nat, t: nat, at: Node, slot: nat, p: int)
    requires x.Valid() && Shape(x.tree, h, t) && Stands(x, h, at, slot, p)
    ensures at in x.repr && at.kids == [] && slot < |at.keys|
    ensures 0 <= p < |Flat(x.tree)| && Flat(x.tree)[p] == at.keys[slot]
    decreases h
  {
    LeafOrInternal(x.tree, h, t);
    hide Flat, Shape, Before, After;
    if h > 0 {
      var i :| 0 <= i < |x.kids| && StandsBelow(x, h, i, at, slot, p);
      StandsKey(x.kids[i], h - 1, t, at, slot, p - |Before(x.tree, i)|);
      FlatAt(x.tree, i);
    }
  }

  /** `__kb_putp_aux`: put k into the subtree x, which has room; at and slot say where it went. */
  method PutAux(x: Node, t: nat, k: Key, ghost h: nat) returns (at: Node, slot: nat, ghost p: nat)
    requires x.Valid() && 2 <= t && Shape(x.tree, h, t) && Sorted(Flat(x.tree)) && |x.keys| < 2 * t - 1
    modifies x.repr
    ensures x.Valid() && fresh(x.repr - old(x.repr))
    ensures Shape(x.tree, h, t) && old(|x.keys|) <= |x.keys| <= old(|x.keys|) + 1
    ensures Inserted(old(Flat(x.tree)), Flat(x.tree), k, p)
    ensures Stands(x, h, at, slot, p) && slot < |at.keys| && at.keys[slot] == k
    decreases h, 2
  {
    hide Shape, Sorted, Below, Above, Flat, Inserted, InsertAt, FoundAt, Between, Stands;
    LeafOrInternal(x.tree, h, t);
    KeysSorted(x.tree);
    var i, r := GetAux(x.keys, k, 0);
    PlaceOf(x.keys, i, r, k);
    if x.kids == [] {
      at, slot, p := x, i + 1, i + 1;
      PutLeaf(x, i + 1, k, t);
    } else {
      i := i + 1;
      if |x.kids[i].keys| == 2 * t - 1 {
        i := SplitFull(x, t, k, i, h);
      }
      at, slot, p := PutKid(x, t, k, i, h);
    }
  }

  method PutLeaf(x: Node, p: nat, k: Key, ghost t: nat)
    requires x.Valid() && x.kids == [] && p <= |x.keys|
    modifies x
    ensures x.Valid() && x.kids == [] && x.repr == old(x.repr)
    ensures x.keys == InsertAt(old(x.keys), p, k) && x.keys[p] == k && |x.keys| == old(|x.keys|) + 1
    ensures Shape(x.tree, 0, t) && Flat(x.tree) == x.keys && Stands(x, 0, x, p, p)
  {
    x.Adopt(InsertAt(x.keys, p, k), [], [], x.repr);
  }

  /** Split the full child i of x, and choose the half where k belongs. */
  method SplitFull(x: Node, t: nat, k: Key, i: nat, ghost h: nat) returns (i': nat)
    requires x.Valid() && 2 <= t && 0 < h && Shape(x.tree, h, t) && i < |x.kids|
    requires |x.tree.kids[i].keys| == 2 * t - 1
    requires Between(x.keys, i, k)
    modifies x, x.kids[i]
    ensures x.Valid() && fresh(x.repr - old(x.repr)) && |x.keys| == old(|x.keys|) + 1
    ensures Shape(x.tree, h, t) && Flat(x.tree) == old(Flat(x.tree))
    ensures i' < |x.kids| && |x.tree.kids[i'].keys| == t - 1 && Between(x.keys, i', k)
    ensures i < |x.keys| && i' == if x.keys[i].rank < k.rank then i + 1 else i
  {
    hide Shape, Flat, Split, CutLeft, CutRight, Internal;
    ghost var x0 := x.tree;
    SplitShape(x0, i, h, t);
    SplitFlat(x0, i, t - 1);
    SplitParts(x0, i, t - 1);
    SplitKid(x, i, t - 1);
    i' := if Cmp(k, x.keys[i]) > 0 then i + 1 else i;
  }

  method PutKid(x: Node, t: nat, k: Key, i: nat, ghost h: nat) returns (at: Node, slot: nat, ghost p: nat)
    requires x.Valid() && 2 <= t && 0 < h && Shape(x.tree, h, t) && Sorted(Flat(x.tree))
    requires i < |x.kids| && |x.tree.kids[i].keys| < 2 * t - 1 && Between(x.keys, i, k)
    modifies x.repr
    ensures x.Valid() && fresh(x.repr - old(x.repr)) && x.keys == old(x.keys)
    ensures Shape(x.tree, h, t)
    ensures Inserted(old(Flat(x.tree)), Flat(x.tree), k, p)
    ensures Stands(x, h, at, slot, p) && slot < |at.keys| && at.keys[slot] == k
    decreases h, 1
  {
    ghost var x0 := x.tree;
    LeafOrInternal(x0, h, t);
    KidSorted(x0, i);
    hide Shape, Flat, Sorted, Inserted, Before, Half, SetKid, Stands, Between, Internal;
    at, slot, p := PutBelow(x, t, k, i, h);
    p := PutInKid(x, x0, t, k, i, h, at, slot, p);
  }

  lemma PutInKid(x: Node, x0: BTreeModel.Tree, t: nat, k: Key, i: nat, h: nat, at: Node, slot: nat, p': nat) returns (p: nat)
    requires x.Valid() && Internal(x0) && 0 < h && Shape(x0, h, t) && Sorted(Flat(x0)) && i < |x.kids| == |x0.kids|
    requires x.keys == x0.keys && Between(x.keys, i, k) && x.tree == SetKid(x0, i, x.tree.kids[i])
    requires Shape(x.tree.kids[i], h - 1, t) && Half(x.tree.kids[i], t)
    requires Inserted(Flat(x0.kids[i]), Flat(x.tree.kids[i]), k, p') && Stands(x.kids[i], h - 1, at, slot, p')
    ensures Shape(x.tree, h, t) && Inserted(Flat(x0), Flat(x.tree), k, p) && Stands(x, h, at, slot, p)
  {
    hide Shape, Flat, Sorted, Inserted, Before, Half, SetKid, Stands;
    var c := x.tree.kids[i];
    SetKidShape(x0, i, c, h, t);
    InsertInKid(x0, i, c, k, p');
    p := |Before(x0, i)| + p';
    BeforeKid(x0, i, c);
    StandsInKid(x, h, i, at, slot, p');
  }

  /** One recursive call: put k into child i. */
  method PutBelow(x: Node, t: nat, k: Key, i: nat, ghost h: nat) returns (at: Node, slot: nat, ghost p: nat)
    requires x.Valid() && 2 <= t && 0 < h && i < |x.kids|
    requires Shape(x.tree.kids[i], h - 1, t) && Sorted(Flat(x.tree.kids[i]))
    requires Half(x.tree.kids[i], t) && |x.tree.kids[i].keys| < 2 * t - 1
    modifies x.repr
    ensures x.Valid() && fresh(x.repr - old(x.repr)) && x.keys == old(x.keys) && x.kids == old(x.kids)
    ensures x.tree == SetKid(old(x.tree), i, x.tree.kids[i])
    ensures Shape(x.tree.kids[i], h - 1, t) && Half(x.tree.kids[i], t)
    ensures Inserted(old(Flat(x.tree.kids[i])), Flat(x.tree.kids[i]), k, p)
    ensures Stands(x.kids[i], h - 1, at, slot, p) && slot < |at.keys| && at.keys[slot] == k
    decreases h, 0
  {
    hide Shape, Flat, Sorted, Inserted, Before;
    var c := x.kids[i];
    ghost var ts, rs := x.tree.kids, x.KidReprs();
    assert forall m :: 0 <= m < |x.kids| && m != i ==> x.FitOne(x.kids[m], ts[m], x.repr);
    at, slot, p := PutAux(c, t, k, h - 1);
    x.Refit(i, ts, x.repr + c.repr, rs);
  }

  /** A new root over the full root r, which is split. */
  method Grow(r: Node, t: nat, ghost h: nat) returns (s: Node)
    requires 2 <= t && r.Valid() && Shape(r.tree, h, t) && |r.keys| == 2 * t - 1
    modifies r
    ensures s.Valid() && fresh(s.repr - old(r.repr))
    ensures Shape(s.tree, h + 1, t) && |s.keys| == 1 && Flat(s.tree) == old(Flat(r.tree))
  {
    hide *;
    NodeParts(r, h, t);
    GrowShape(r.tree, h, t);
    s := NodeOver(r);
    OnlyKid(r.tree);
    SplitKid(s, 0, t - 1);
    NodeParts(s, h + 1, t);
  }

  lemma OnlyKid(y: BTreeModel.Tree)
    ensures Internal(BTreeModel.Node([], [y]))
  {
  }

  // ------------------------------------------------------------------
  // The tree
  // ------------------------------------------------------------------

  class KBTree {
    const t: nat
    var root: Node
    var nKeys: nat
    ghost var height: nat

    /** The order, occupancy and depth invariant of the whole tree. */
    ghost predicate Valid()
      reads this, root, root.repr
    {
      && 2 <= t && root.Valid()
      && Shape(root.tree, height, t) && |root.keys| <= 2 * t - 1 && (0 < height ==> 0 < |root.keys|)
      && Sorted(Contents()) && nKeys == |Contents()|
    }

    /** All keys in order. */
    ghost function Contents(): seq<Key>
      reads this, root
    {
      Flat(root.tree)
    }

    /** What a caller may take for granted about the objects the tree owns. */
    ghost function Repr(): set<object>
      reads this, root
    {
      {this} + root.repr
    }

    constructor (t: nat)
      requires 2 <= t
      ensures Valid() && fresh(Repr()) && Contents() == [] && this.t == t
    {
      var r := new Node();
      this.t, root, nKeys, height := t, r, 0, 0;
      new;
      r.repr := {r};
      r.Adopt([], [], [], {r});
    }

    /** `kb_putp`. */
    method Put(k: Key) returns (at: Node, slot: nat, ghost p: nat)
      requires Valid()
      modifies this, root.repr
      ensures Valid() && fresh(Repr() - old(Repr()))
      ensures Inserted(old(Contents()), Contents(), k, p) && multiset(Contents()) == multiset(old(Contents())) + multiset{k}
      ensures Stands(root, height, at, slot, p) && at in root.repr && slot < |at.keys| && at.keys[slot] == k
    {
      hide Stands, Sorted, Inserted, Flat, Shape;
      nKeys := nKeys + 1;
      if |root.keys| == 2 * t - 1 {
        var s := Grow(root, t, height);
        root, height := s, height + 1;
      }
      ghost var f := Contents();
      at, slot, p := PutAux(root, t, k, height);
      InsertedCount(f, Contents(), k, p);
      InsertedSorted(f, Contents(), k, p);
      StandsKey(root, height, t, at, slot, p);
    }

    /** `kb_delp`: k is required to be present. */
    method Del(k: Key) returns (kp: Key, ghost g: seq<Key>, ghost j: nat)
      requires Valid() && Has(Contents(), k)
      modifies this, root.repr
      ensures Valid() && fresh(Repr() - old(Repr()))
      ensures Erased(old(Contents()), Contents(), k, 0, kp, g, j)
      ensures kp in old(Contents()) && multiset(Contents()) == multiset(old(Contents())) - multiset{kp}
              <==> !Overwritten(old(root.tree), t, k, old(height))
    {
      ghost var f := Contents();
      assert height == 0 ==> 0 < |root.keys|;
      hide Overwritten, Erased, Sorted, Has, Flat, Shape;
      kp, g, j := Delp(root, t, k, 0, height);
      ErasedWhen(f, Contents(), k, kp, g, j);
      ErasedSorted(f, Contents(), k, kp, g, j);
      nKeys := nKeys - 1;
      DropRoot();
    }

    /** A root left without keys gives way to its only child. */
    method DropRoot()
      requires 2 <= t && root.Valid() && Shape(root.tree, height, t) && |root.keys| <= 2 * t - 1
      requires Sorted(Contents()) && nKeys == |Contents()|
      modifies this
      ensures Valid() && Repr() <= old(Repr()) && Contents() == old(Contents())
    {
      if |root.keys| == 0 && !root.IsLeaf() {
        ShrinkShape(root.tree, height, t);
        root, height := root.kids[0], height - 1;
      }
    }

    /** `kb_getp`: null exactly when no key compares equal to k. */
    method Getp(k: Key) returns (at: Node?, slot: nat)
      requires Valid()
      ensures at == null <==> !Has(Contents(), k)
      ensures at != null ==> slot < |at.keys| && at.keys[slot].rank == k.rank && at.keys[slot] in Contents()
    {
      at, slot := Search(root, k, height, t);
    }

    /** `kb_intervalp`: the key itself for both bounds when one compares equal to k, and
        otherwise the greatest smaller and the least larger key, where there is one. */
    method Intervalp(k: Key) returns (lower: Option<Key>, upper: Option<Key>, ghost p: nat)
      requires Valid()
      ensures Bounds(Contents(), k, lower, upper, p)
    {
      lower, upper, p := Surround(root, k, height, t);
    }
  }

  /** lower and upper are what the sorted sequence f has around k; p is where. */
  ghost predicate Bounds(f: seq<Key>, k: Key, lower: Option<Key>, upper: Option<Key>, p: nat) {
    if Has(f, k) then
      p < |f| && f[p].rank == k.rank && lower == upper == Some(f[p])
    else
      && p <= |f| && Below(f[..p], k) && Above(f[p..], k)
      && lower == (if 0 < p then Some(f[p - 1]) else None)
      && upper == (if p < |f| then Some(f[p]) else None)
  }

  method Search(root: Node, k: Key, ghost height: nat, ghost t: nat) returns (at: Node?, slot: nat)
    requires root.Valid() && Shape(root.tree, height, t) && Sorted(Flat(root.tree))
    ensures at == null <==> !Has(Flat(root.tree), k)
    ensures at != null ==> slot < |at.keys| && at.keys[slot].rank == k.rank && at.keys[slot] in Flat(root.tree)
  {
    hide *;
    var x, i, r := root, 0, 0;
    ghost var f, h, a, c := Flat(root.tree), height, [], [];
    SearchStart(f, k);
    while true
      invariant x.Valid() && Shape(x.tree, h, t)
      invariant f == a + Flat(x.tree) + c && Below(a, k) && Above(c, k)
      decreases h
    {
      i, r, a, c := Probe(x, k, r, h, t, a, c);
      if i >= 0 && r == 0 {
        Found(f, x.keys[i], k);
        return x, i;
      }
      if x.kids == [] {
        NotBetween(a, c, k);
        return null, 0;
      }
      KidAt(x, i + 1);
      x, h := x.kids[i + 1], h - 1;
    }
  }

  lemma SearchStart(f: seq<Key>, k: Key)
    ensures f == [] + f + [] && Below([], k) && Above([], k)
  {
  }

  lemma KidAt(x: Node, i: nat)
    requires x.Valid() && i < |x.kids|
    ensures i < |x.tree.kids| && x.kids[i].Valid() && x.kids[i].tree == x.tree.kids[i]
  {
  }

  method Surround(root: Node, k: Key, ghost height: nat, ghost t: nat)
    returns (lower: Option<Key>, upper: Option<Key>, ghost p: nat)
    requires root.Valid() && Shape(root.tree, height, t) && Sorted(Flat(root.tree))
    ensures Bounds(Flat(root.tree), k, lower, upper, p)
  {
    hide *;
    lower, upper := None, None;
    var x, i, r := root, 0, 0;
    ghost var f, h, a, c := Flat(root.tree), height, [], [];
    SearchStart(f, k);
    while true
      invariant x.Valid() && Shape(x.tree, h, t)
      invariant f == a + Flat(x.tree) + c && Below(a, k) && Above(c, k)
      invariant lower == if a == [] then None else Some(a[|a| - 1])
      invariant upper == if c == [] then None else Some(c[0])
      decreases h
    {
      i, r, a, c := Probe(x, k, r, h, t, a, c);
      if i >= 0 && r == 0 {
        lower, upper := Some(x.keys[i]), Some(x.keys[i]);
        p := BoundsFound(f, k, x.keys[i]);
        return;
      }
      if i >= 0 { lower := Some(x.keys[i]); }
      if i < |x.keys| - 1 { upper := Some(x.keys[i + 1]); }
      if x.kids == [] {
        p := |a|;
        BoundsBetween(a, c, k);
        return;
      }
      KidAt(x, i + 1);
      x, h := x.kids[i + 1], h - 1;
    }
  }

  lemma BoundsFound(f: seq<Key>, k: Key, e: Key) returns (p: nat)
    requires e in f && e.rank == k.rank
    ensures Bounds(f, k, Some(e), Some(e), p)
  {
    p :| p < |f| && f[p] == e;
  }

  lemma BoundsBetween(a: seq<Key>, c: seq<Key>, k: Key)
    requires Below(a, k) && Above(c, k)
    ensures Bounds(a + c, k, if a == [] then None else Some(a[|a| - 1]), if c == [] then None else Some(c[0]), |a|)
  {
    NotBetween(a, c, k);
  }

  lemma Found(f: seq<Key>, e: Key, k: Key)
    requires e in f && e.rank == k.rank
    ensures Has(f, k)
  {
  }

  lemma NotBetween(a: seq<Key>, c: seq<Key>, k: Key)
    requires Below(a, k) && Above(c, k)
    ensures !Has(a + c, k) && (a + c)[..|a|] == a && (a + c)[|a|..] == c
  {
    var f := a + c;
    assert forall i :: 0 <= i < |f| ==> f[i] == if i < |a| then a[i] else c[i - |a|];
  }

  /** One step of a descent: the search among the keys of x, a subtree whose keys lie between
      the sequence a of smaller ones and the sequence c of larger ones. */
  method Probe(x: Node, k: Key, r0: int, ghost h: nat, ghost t: nat, ghost a: seq<Key>, ghost c: seq<Key>)
    returns (i: int, r: int, ghost a': seq<Key>, ghost c': seq<Key>)
    requires x.Valid() && Shape(x.tree, h, t) && Sorted(a + Flat(x.tree) + c) && Below(a, k) && Above(c, k)
    ensures -1 <= i < |x.keys|
    ensures i >= 0 && r == 0 ==> x.keys[i].rank == k.rank && x.keys[i] in a + Flat(x.tree) + c
    ensures !(i >= 0 && r == 0) ==>
              && Below(a', k) && Above(c', k)
              && (if i >= 0 then a' != [] && a'[|a'| - 1] == x.keys[i] else a' == a)
              && (if i < |x.keys| - 1 then c' != [] && c'[0] == x.keys[i + 1] else c' == c)
              && (x.kids == [] ==> a' + c' == a + Flat(x.tree) + c)
              && (x.kids != [] ==> 0 < h && i + 1 < |x.kids| && a' + Flat(x.tree.kids[i + 1]) + c' == a + Flat(x.tree) + c
                                   && Shape(x.tree.kids[i + 1], h - 1, t))
  {
    hide *;
    SortedParts(a, Flat(x.tree), c);
    NodeParts(x, h, t);
    KeysSorted(x.tree);
    i, r := GetAux(x.keys, k, r0);
    FoundParts(x.keys, k, i, r);
    if i >= 0 && r == 0 {
      KeyAt(x.tree, i, a, c);
      a', c' := a, c;
    } else {
      a', c' := PassKeys(x.tree, k, i, h, t, a, c);
    }
  }

  /** Not found at x: what lies below k and above k, and the child between, if there is one. */
  lemma PassKeys(x: BTreeModel.Tree, k: Key, i: int, h: nat, t: nat, a: seq<Key>, c: seq<Key>) returns (a': seq<Key>, c': seq<Key>)
    requires Shape(x, h, t) && Sorted(Flat(x)) && Below(a, k) && Above(c, k)
    requires -1 <= i < |x.keys| && Below(x.keys[..i + 1], k) && Above(x.keys[i + 1..], k)
    ensures Below(a', k) && Above(c', k)
    ensures if i >= 0 then a' != [] && a'[|a'| - 1] == x.keys[i] else a' == a
    ensures if i < |x.keys| - 1 then c' != [] && c'[0] == x.keys[i + 1] else c' == c
    ensures x.kids == [] ==> a' + c' == a + Flat(x) + c
    ensures x.kids != [] ==> 0 < h && i + 1 < |x.kids| && a' + Flat(x.kids[i + 1]) + c' == a + Flat(x) + c
                             && Shape(x.kids[i + 1], h - 1, t)
  {
    hide *;
    LeafOrInternal(x, h, t);
    if x.kids == [] {
      a', c' := LeafBounds(x, i + 1, k, a, c);
    } else {
      KidIndex(x, i + 1);
      LastBelow(x.keys, i + 1, k);
      a', c' := DescendBounds(x, i + 1, k, a, c);
    }
  }

  lemma KidIndex(x: BTreeModel.Tree, i: nat)
    requires Internal(x) && i <= |x.keys|
    ensures i < |x.kids|
  {
  }

  lemma NodeParts(x: Node, h: nat, t: nat)
    requires x.Valid() && Shape(x.tree, h, t)
    ensures x.tree.keys == x.keys && |x.tree.kids| == |x.kids|
    ensures x.tree.kids == [] ==> Flat(x.tree) == x.keys
    ensures x.tree.kids != [] ==> Internal(x.tree) && |x.kids| == |x.keys| + 1 && 0 < h && forall j :: 0 <= j < |x.tree.kids| ==> Shape(x.tree.kids[j], h - 1, t)
  {
  }

  lemma LeafBounds(x: BTreeModel.Tree, i: nat, k: Key, a: seq<Key>, c: seq<Key>) returns (a': seq<Key>, c': seq<Key>)
    requires x.kids == [] && i <= |x.keys| && Below(a, k) && Above(c, k)
    requires Below(x.keys[..i], k) && Above(x.keys[i..], k)
    ensures a' + c' == a + Flat(x) + c && Below(a', k) && Above(c', k)
    ensures if 0 < i then a' != [] && a'[|a'| - 1] == x.keys[i - 1] else a' == a
    ensures if i < |x.keys| then c' != [] && c'[0] == x.keys[i] else c' == c
  {
    a', c' := a + x.keys[..i], x.keys[i..] + c;
    Shuffle(a, x.keys[..i], [], x.keys[i..], c);
    assert x.keys[..i] + [] + x.keys[i..] == x.keys;
  }

  /** A key of x stands in the sequence of any tree that x is a subtree of. */
  lemma KeyAt(x: BTreeModel.Tree, i: nat, a: seq<Key>, c: seq<Key>)
    requires (x.kids == [] || Internal(x)) && i < |x.keys|
    ensures x.keys[i] in a + Flat(x) + c
  {
    if x.kids != [] {
      FlatAtPair(x, i);
      assert Before(x, i + 1)[|Before(x, i + 1)| - 1] == x.keys[i];
      FlatAt(x, i + 1);
      hide *;
      assert x.keys[i] in Before(x, i + 1);
      assert x.keys[i] in Flat(x);
    }
  }

  lemma Ends(x: BTreeModel.Tree, i: nat)
    requires Internal(x) && i <= |x.keys|
    ensures if 0 < i then Before(x, i) != [] && Before(x, i)[|Before(x, i)| - 1] == x.keys[i - 1] else Before(x, i) == []
    ensures if i < |x.keys| then After(x, i) != [] && After(x, i)[0] == x.keys[i] else After(x, i) == []
  {
    if 0 < i { FlatAtPair(x, i - 1); }
    if i < |x.keys| { FlatAtPair(x, i); }
  }

  /** Going down into the child around k, what is left behind lies below or above k. */
  lemma DescendBounds(x: BTreeModel.Tree, i: nat, k: Key, a: seq<Key>, c: seq<Key>) returns (a': seq<Key>, c': seq<Key>)
    requires Internal(x) && i <= |x.keys| && Sorted(Flat(x)) && Below(a, k) && Above(c, k)
    requires 0 < i ==> x.keys[i - 1].rank < k.rank
    requires i < |x.keys| ==> k.rank < x.keys[i].rank
    ensures a' == a + Before(x, i) && c' == After(x, i) + c
    ensures a + Flat(x) + c == a' + Flat(x.kids[i]) + c' && Below(a', k) && Above(c', k)
    ensures if 0 < i then a' != [] && a'[|a'| - 1] == x.keys[i - 1] else a' == a
    ensures if i < |x.keys| then c' != [] && c'[0] == x.keys[i] else c' == c
  {
    a', c' := a + Before(x, i), After(x, i) + c;
    Locate(x, i, k);
    FlatAt(x, i);
    Shuffle(a, Before(x, i), Flat(x.kids[i]), After(x, i), c);
    Ends(x, i);
  }

  // ------------------------------------------------------------------
  // What deletion means for the keys held
  // ------------------------------------------------------------------

  function Ranks(f: seq<Key>): seq<int> {
    seq(|f|, i requires 0 <= i < |f| => f[i].rank)
  }

  /** Whatever the tags, exactly one key of k's rank goes, and keys of other ranks stay as they are. */
  lemma ErasedRanks(f: seq<Key>, f': seq<Key>, k: Key, kp: Key, g: seq<Key>, j: nat)
    requires Erased(f, f', k, 0, kp, g, j)
    ensures multiset(Ranks(f')) == multiset(Ranks(f)) - multiset{k.rank}
    ensures Ranks(f') == Ranks(f)[..j] + Ranks(f)[j + 1..]
    ensures forall e: Key :: e.rank != k.rank ==> multiset(f')[e] == multiset(f)[e]
  {
    var r, r' := Ranks(f), Ranks(f');
    assert r' == r[..j] + r[j + 1..];
    assert r == r[..j] + [r[j]] + r[j + 1..];
    forall e: Key | e.rank != k.rank ensures multiset(f')[e] == multiset(f)[e] {
      OverwrittenCount(f, g, k, e);
      assert g == g[..j] + [g[j]] + g[j + 1..];
      assert multiset(g) == multiset(f') + multiset{g[j]};
    }
  }

  lemma {:induction false} OverwrittenCount(f: seq<Key>, g: seq<Key>, k: Key, e: Key)
    requires Overwrites(f, g, k) && e.rank != k.rank
    ensures multiset(g)[e] == multiset(f)[e]
  {
    if f != [] {
      var n := |f| - 1;
      OverwrittenCount(f[..n], g[..n], k, e);
      assert f == f[..n] + [f[n]] && g == g[..n] + [g[n]];
    }
  }

  /** If every key comparing equal to k is k, deletion takes out exactly one k and nothing else. */
  lemma ErasedExactly(f: seq<Key>, f': seq<Key>, k: Key, kp: Key, g: seq<Key>, j: nat)
    requires Erased(f, f', k, 0, kp, g, j)
    requires forall i :: 0 <= i < |f| && f[i].rank == k.rank ==> f[i] == k
    ensures kp == k && f[j] == k && f' == RemoveAt(f, j) && multiset(f') == multiset(f) - multiset{k}
  {
    assert g == f;
    assert f == f[..j] + [f[j]] + f[j + 1..];
  }

  /** If only one key compares equal to k, deletion takes out that key and nothing else. */
  lemma ErasedUnique(f: seq<Key>, f': seq<Key>, k: Key, kp: Key, g: seq<Key>, j: nat)
    requires Erased(f, f', k, 0, kp, g, j)
    requires forall i, m :: 0 <= i < m < |f| ==> !(f[i].rank == k.rank && f[m].rank == k.rank)
    ensures f[j].rank == k.rank && f' == RemoveAt(f, j)
  {
    assert f[j].rank == k.rank;
  }

  lemma ErasedSorted(f: seq<Key>, f': seq<Key>, k: Key, kp: Key, g: seq<Key>, j: nat)
    requires Erased(f, f', k, 0, kp, g, j) && Sorted(f)
    ensures Sorted(f') && |f'| == |f| - 1
  {
    OverwritesSorted(f, g, k);
    RemoveSorted(g, j);
  }

  /** The key given back is the one key gone just when no other key has been overwritten. */
  lemma ErasedWhen(f: seq<Key>, f': seq<Key>, k: Key, kp: Key, g: seq<Key>, j: nat)
    requires Erased(f, f', k, 0, kp, g, j)
    ensures kp in f && multiset(f') == multiset(f) - multiset{kp} <==> g == f
  {
    assert g == g[..j] + [g[j]] + g[j + 1..];
    assert multiset(g) == multiset(f') + multiset{kp};
    OverwrittenMore(f, g, k);
    if kp in f && multiset(f') == multiset(f) - multiset{kp} {
      assert multiset(g) == multiset(f);
    }
  }

  lemma NotInRemoved(f: seq<Key>, j: nat, k: Key)
    requires j < |f| && k !in f
    ensures k !in RemoveAt(f, j)
  {
  }

  /** Otherwise it can go wrong: merging writes the caller's k over the separator, and the
      recursion may then find another equal key first. Here the descent of Del comes to that
      branch: key 5#0 is lost and the probe 5#9 stays behind. */
  lemma SeparatorLost()
    ensures
      var k, x := Key(5, 9), TwoLeaves();
      var y := Merge(x, 0, k).kids[0];
      && Shape(x, 1, 2) && Sorted(Flat(x)) && Has(Flat(x), k) && Overwritten(x, 2, k, 1)
      && y == BTreeModel.Node([Key(5, 1), k, Key(5, 2)], [])
      && RemoveAt(Flat(y), 0) == [k, Key(5, 2)]
      && k !in Flat(x)
      && forall j :: 0 <= j < |Flat(x)| ==> RemoveAt(Flat(x), j) != RemoveAt(Flat(y), 0)
  {
    var k, x := Key(5, 9), TwoLeaves();
    TwoLeavesFlat();
    assert Flat(x)[0].rank == k.rank;
    PlaceIs(x.keys, k, 0);
    assert Overwritten(x, 2, k, 1);
    var y := Merge(x, 0, k).kids[0];
    assert y == BTreeModel.Node([Key(5, 1), k, Key(5, 2)], []);
    assert RemoveAt(Flat(y), 0) == [k, Key(5, 2)];
    hide *;
    forall j | 0 <= j < |Flat(x)| ensures RemoveAt(Flat(x), j) != RemoveAt(Flat(y), 0) {
      NotInRemoved(Flat(x), j, k);
      assert RemoveAt(Flat(y), 0)[0] == k;
    }
  }

  function TwoLeaves(): BTreeModel.Tree {
    BTreeModel.Node([Key(5, 0)], [BTreeModel.Node([Key(5, 1)], []), BTreeModel.Node([Key(5, 2)], [])])
  }

  lemma TwoLeavesFlat()
    ensures Flat(TwoLeaves()) == [Key(5, 1), Key(5, 0), Key(5, 2)]
  {
    var x := TwoLeaves();
    FlatAtPair(x, 0);
    assert Before(x, 0) == [] && After(x, 1) == [];
    assert Flat(x.kids[0]) == [Key(5, 1)] && Flat(x.kids[1]) == [Key(5, 2)];
  }
}
