/** The in-order iterator of klib/kbtree.h: an explicit stack of (node, index) frames. */
module BTreeIterator {
  import opened Arithmetic
  import opened Sequences
  import opened BTreeModel
  import BTree

  const KB_MAX_DEPTH := 64

  /** x is null for the frame that the source pushes below a leaf. */
  datatype Frame = Frame(x: BTree.Node?, i: int)

  /** What a frame has still to give, in the frame's own subtree, once child i is done. */
  ghost function FrameRest(x: Tree, i: int): seq<Key> {
    if x.kids == [] && 0 <= i <= |x.keys| then x.keys[i..]
    else if Internal(x) && 0 <= i <= |x.keys| then After(x, i)
    else []
  }

  /** The frames are a path of nodes of the tree r, which has height h: each one is the child
      its predecessor points at. */
  ghost predicate Path(st: seq<Frame>, r: BTree.Node, h: nat, t: nat)
    reads r, r.repr
  {
    && |st| <= h + 1 && r.Valid()
    && (forall j :: 0 <= j < |st| ==> Step(st[j], r, h - j, t))
    && (st != [] ==> st[0].x == r)
    && (forall j, k :: 0 <= j && k == j + 1 && k < |st| ==> Linked(st[j], st[k], r))
  }

  ghost predicate Step(f: Frame, r: BTree.Node, h: int, t: nat)
    reads r, r.repr
  {
    && f.x != null && f.x in r.repr && f.x.repr <= r.repr && f.x.Valid()
    && 0 <= h && Shape(f.x.tree, h, t) && 0 <= f.i
  }

  ghost predicate Linked(f: Frame, g: Frame, r: BTree.Node)
    reads r, r.repr
  {
    f.x != null && f.x in r.repr && 0 <= f.i < |f.x.kids| && g.x == f.x.kids[f.i]
  }

  ghost function TopRest(f: Frame, r: BTree.Node): seq<Key>
    reads r, r.repr
  {
    if f.x != null && f.x in r.repr then FrameRest(f.x.tree, f.i) else []
  }

  /** The keys still to come: those of the top frame, then those of the frames below it. */
  ghost function Rest(st: seq<Frame>, r: BTree.Node): seq<Key>
    reads r, r.repr
  {
    if st == [] then [] else TopRest(st[|st| - 1], r) + Rest(st[..|st| - 1], r)
  }

  lemma RestPush(st: seq<Frame>, f: Frame, r: BTree.Node)
    ensures Rest(st + [f], r) == TopRest(f, r) + Rest(st, r)
  {
    assert (st + [f])[..|st|] == st;
  }

  /** Extending a path by the child its last frame points at. */
  lemma PathPush(st: seq<Frame>, r: BTree.Node, h: nat, t: nat)
    requires Path(st, r, h, t) && st != []
    requires var f := st[|st| - 1]; f.i < |f.x.kids|
    ensures var f := st[|st| - 1]; var g := Frame(f.x.kids[f.i], 0);
            Path(st + [g], r, h, t) && g.x.Valid() && f.x.tree.kids[f.i] == g.x.tree && Internal(f.x.tree)
            && Half(g.x.tree, t)
  {
    var m := |st|;
    var f := st[m - 1];
    var g := Frame(f.x.kids[f.i], 0);
    assert Step(f, r, h - (m - 1), t);
    assert Step(g, r, h - m, t);
    assert Linked(f, g, r);
  }

  /** Moving the index of the last frame. */
  lemma PathBump(st: seq<Frame>, r: BTree.Node, h: nat, t: nat, i: nat)
    requires Path(st, r, h, t) && st != []
    ensures Path(st[..|st| - 1] + [st[|st| - 1].(i := i)], r, h, t)
  {
    var m := |st|;
    var st' := st[..m - 1] + [st[m - 1].(i := i)];
    assert Step(st[m - 1], r, h - (m - 1), t);
    if m > 1 { assert Linked(st[m - 2], st[m - 1], r); }
    forall j, k | 0 <= j && k == j + 1 && k < |st'| ensures Linked(st'[j], st'[k], r) {
      assert Linked(st[j], st[k], r);
    }
  }

  lemma PathPop(st: seq<Frame>, r: BTree.Node, h: nat, t: nat)
    requires Path(st, r, h, t) && st != []
    ensures Path(st[..|st| - 1], r, h, t)
    ensures |st| > 1 ==> Linked(st[|st| - 2], st[|st| - 1], r)
  {
    var st' := st[..|st| - 1];
    forall j, k | 0 <= j && k == j + 1 && k < |st'| ensures Linked(st'[j], st'[k], r) {
      assert Linked(st[j], st[k], r);
    }
    if |st| > 1 {
      var j, k := |st| - 2, |st| - 1;
      assert Linked(st[j], st[k], r);
    }
  }

  lemma FirstKid(x: Tree)
    requires Internal(x)
    ensures Flat(x) == Flat(x.kids[0]) + FrameRest(x, 0)
  {
    FlatAt(x, 0);
    assert Before(x, 0) == [];
  }

  lemma TopStep(st: seq<Frame>, r: BTree.Node, h: nat, t: nat)
    requires Path(st, r, h, t) && st != []
    ensures Step(st[|st| - 1], r, h - (|st| - 1), t)
  {
  }

  /** At the left edge of a subtree everything in it is still to come. */
  lemma LeftEdge(st: seq<Frame>, r: BTree.Node, h: int, t: nat)
    requires st != [] && Step(st[|st| - 1], r, h, t)
    requires var f := st[|st| - 1]; f.i == 0 && f.x.kids != []
    ensures var f := st[|st| - 1];
            Internal(f.x.tree) && Flat(f.x.tree) + Rest(st[..|st| - 1], r) == Flat(f.x.tree.kids[0]) + Rest(st, r)
  {
    var x := st[|st| - 1].x.tree;
    assert Internal(x);
    hide Flat, FrameRest, Shape;
    FirstKid(x);
    assert Rest(st, r) == FrameRest(x, 0) + Rest(st[..|st| - 1], r);
    hide *;
    Assoc(Flat(x.kids[0]), FrameRest(x, 0), Rest(st[..|st| - 1], r));
  }

  lemma LeafEdge(st: seq<Frame>, r: BTree.Node, h: int, t: nat)
    requires st != [] && Step(st[|st| - 1], r, h, t)
    requires var f := st[|st| - 1]; f.i == 0 && f.x.kids == []
    ensures Flat(st[|st| - 1].x.tree) + Rest(st[..|st| - 1], r) == Rest(st, r)
  {
    var f := st[|st| - 1];
    assert FrameRest(f.x.tree, 0) == Flat(f.x.tree);
  }

  /** One step down the left edge. */
  lemma GoLeft(st: seq<Frame>, r: BTree.Node, h: nat, t: nat) returns (st': seq<Frame>)
    requires Path(st, r, h, t) && st != [] && 2 <= t
    requires var f := st[|st| - 1]; f.i == 0 && f.x.kids != []
    ensures var f := st[|st| - 1];
            && st' == st + [Frame(f.x.kids[0], 0)]
            && Path(st', r, h, t) && 0 < |f.x.kids[0].keys|
            && Flat(f.x.kids[0].tree) + Rest(st, r) == Flat(f.x.tree) + Rest(st[..|st| - 1], r)
  {
    TopStep(st, r, h, t);
    PathPush(st, r, h, t);
    hide Flat, Shape, Path;
    LeftEdge(st, r, h - (|st| - 1), t);
    st' := st + [Frame(st[|st| - 1].x.kids[0], 0)];
  }

  /** The current key is key i of the top frame's node (`kb_itr_key`). */
  ghost predicate AtKey(st: seq<Frame>)
    requires st != []
    reads st[|st| - 1].x
  {
    var f := st[|st| - 1];
    f.x != null && 0 <= f.i < |f.x.keys|
  }

  class Iterator {
    var stack: seq<Frame>

    constructor () { stack := []; }

    /** Where the source writes the next frame of its array, there must be room. */
    method Push(f: Frame)
      requires |stack| < KB_MAX_DEPTH
      modifies this
      ensures stack == old(stack) + [f]
    {
      stack := stack + [f];
    }

    /** `kb_itr_first`. */
    method First(b: BTree.KBTree)
      requires b.Valid() && b.height + 2 <= KB_MAX_DEPTH
      modifies this
      ensures Path(stack, b.root, b.height, b.t)
      ensures Rest(stack, b.root) == b.Contents()
      ensures stack == [] <==> b.Contents() == []
      ensures stack != [] ==> AtKey(stack)
    {
      stack := [];
      if b.nKeys == 0 { return; }
      Push(Frame(b.root, 0));
      StartPath(stack, b.root, b.height, b.t);
      ToLeftmost(b.root, b.height, b.t);
    }

    /** The loop of `kb_itr_first`. */
    method ToLeftmost(ghost r: BTree.Node, ghost h: nat, ghost t: nat)
      requires AtLeftEdge(stack, r, h, t, Flat(r.tree)) && 2 <= t && h + 2 <= KB_MAX_DEPTH
      modifies this
      ensures stack != [] && Path(stack, r, h, t) && Rest(stack, r) == Flat(r.tree)
      ensures var f := stack[|stack| - 1]; f.i < |f.x.keys|
    {
      hide Flat, Rest, Shape, Path;
      while !stack[|stack| - 1].x.IsLeaf()
        invariant AtLeftEdge(stack, r, h, t, Flat(r.tree))
        decreases h + 1 - |stack|
      {
        LeftEdgeSize(stack, r, h, t, Flat(r.tree));
        LeftEdgeDown(stack, r, h, t, Flat(r.tree));
        Push(Frame(stack[|stack| - 1].x.kids[0], 0));
        LeftEdgeSize(stack, r, h, t, Flat(r.tree));
      }
      LeftEdgeDone(stack, r, h, t, Flat(r.tree));
    }

    /** The inner loop of `kb_itr_next`: from a frame at index i, go down the left edge of
        child i if there is one, and push a null frame below the leaf that is reached. */
    method PushDown(ghost r: BTree.Node, ghost h: nat, ghost t: nat)
      requires Path(stack, r, h, t) && stack != [] && 2 <= t && h + 2 <= KB_MAX_DEPTH
      modifies this
      ensures Pushed(old(stack), stack, r, h, t)
    {
      hide *;
      ghost var st0 := stack;
      GoingStart(st0, r, h, t);
      var top := stack[|stack| - 1];
      while top.x != null && top.i <= |top.x.keys|
        invariant stack != [] && top == stack[|stack| - 1] && Going(st0, stack, r, h, t)
        decreases h + 2 - |stack|
      {
        GoingStep(st0, stack, r, h, t);
        top := Frame(if top.x.kids == [] then null else top.x.kids[top.i], 0);
        Push(top);
      }
      GoingEnd(st0, stack, r, h, t);
    }

    /** `kb_itr_next`: step to the next key; false, with no frame left, when there is none. */
    method Next(b: BTree.KBTree) returns (more: bool)
      requires b.Valid() && b.height + 2 <= KB_MAX_DEPTH && Path(stack, b.root, b.height, b.t)
      requires stack != [] ==> AtKey(stack)
      modifies this
      ensures Path(stack, b.root, b.height, b.t)
      ensures old(stack) == [] ==> stack == []
      ensures old(stack) != [] ==>
                old(Rest(stack, b.root)) != [] && Rest(stack, b.root) == old(Rest(stack, b.root))[1..]
      ensures more <==> stack != []
      ensures more <==> Rest(stack, b.root) != []
      ensures stack != [] ==> AtKey(stack)
    {
      if stack == [] { return false; }
      NextStart(stack, b.root, b.height, b.t);
      more := Resume(b.root, b.height, b.t, Rest(stack, b.root)[1..]);
    }

    /** The outer loop of `kb_itr_next`, where f is what comes after the current key. */
    method Resume(ghost r: BTree.Node, ghost h: nat, ghost t: nat, ghost f: seq<Key>) returns (more: bool)
      requires Pending(stack, r, h, t, f) && 2 <= t && h + 2 <= KB_MAX_DEPTH
      modifies this
      ensures Settled(stack, r, h, t, f) && (more <==> stack != [])
    {
      hide Pending, Settled, Path, Pushed, Rest, Bumped, Flat, Shape;
      while true
        invariant Pending(stack, r, h, t, f)
        decreases |stack|, Room(stack)
      {
        BumpTop(stack, r, h, t, f);
        ghost var st, room := stack, Room(stack);
        stack := Bumped(stack);
        PushDown(r, h, t);
        assert Room(st) == room;
        NextRound(st, stack, r, h, t, f);
        stack := stack[..|stack| - 1];
        if stack == [] { return false; }
        if stack[|stack| - 1].x != null && stack[|stack| - 1].i < |stack[|stack| - 1].x.keys| { return true; }
      }
    }
  }

  /** How far the top frame is from the end of its node. */
  ghost function Room(st: seq<Frame>): nat
    reads if st == [] then {} else {st[|st| - 1].x}
  {
    if st == [] || st[|st| - 1].x == null || st[|st| - 1].i > |st[|st| - 1].x.keys| then 0
    else |st[|st| - 1].x.keys| + 1 - st[|st| - 1].i
  }

  /** The states of the inner loop of `kb_itr_next`, started with st0. */
  ghost predicate Going(st0: seq<Frame>, st: seq<Frame>, r: BTree.Node, h: nat, t: nat)
    requires st0 != [] && st != []
    reads r, r.repr
  {
    if st[|st| - 1].x == null then Pushed(st0, st, r, h, t)
    else if st == st0 then Path(st, r, h, t)
    else |st0| < |st| && KidsAbove(st0, r) && AtLeftEdge(st, r, h, t, KidRest(st0, r))
  }

  ghost predicate KidsAbove(st0: seq<Frame>, r: BTree.Node)
    requires st0 != []
    reads r, r.repr
  {
    var f := st0[|st0| - 1];
    f.x != null && f.x in r.repr && f.x.kids != [] && f.i <= |f.x.keys|
  }

  lemma GoingStart(st0: seq<Frame>, r: BTree.Node, h: nat, t: nat)
    requires Path(st0, r, h, t) && st0 != []
    ensures Going(st0, st0, r, h, t)
  {
    TopStep(st0, r, h, t);
  }

  lemma GoingStep(st0: seq<Frame>, st: seq<Frame>, r: BTree.Node, h: nat, t: nat)
    requires st0 != [] && st != [] && 2 <= t && Going(st0, st, r, h, t)
    requires var top := st[|st| - 1]; top.x != null && top.i <= |top.x.keys|
    ensures |st| <= h + 1
    ensures var top := st[|st| - 1];
            && (top.x.kids != [] ==> 0 <= top.i < |top.x.kids|)
            && Going(st0, st + [Frame(if top.x.kids == [] then null else top.x.kids[top.i], 0)], r, h, t)
  {
    var top := st[|st| - 1];
    var st' := st + [Frame(if top.x.kids == [] then null else if 0 <= top.i < |top.x.kids| then top.x.kids[top.i] else null, 0)];
    assert st'[..|st|] == st;
    if st == st0 {
      FirstPush(st, r, h, t);
      hide AtLeftEdge, Path, KidRest, Rest;
      assert top.x in r.repr by { TopStep(st, r, h, t); }
    } else {
      LeftEdgeSize(st, r, h, t, KidRest(st0, r));
      if top.x.kids == [] {
        LeftEdgeDone(st, r, h, t, KidRest(st0, r));
      } else {
        LeftEdgeDown(st, r, h, t, KidRest(st0, r));
      }
    }
  }

  lemma GoingEnd(st0: seq<Frame>, st: seq<Frame>, r: BTree.Node, h: nat, t: nat)
    requires st0 != [] && st != [] && Going(st0, st, r, h, t)
    requires var top := st[|st| - 1]; top.x == null || top.i > |top.x.keys|
    ensures Pushed(st0, st, r, h, t)
  {
    if st[|st| - 1].x != null && st == st0 {
      TopStep(st, r, h, t);
    }
  }

  /** What comes after the current key of an internal frame whose index has just been moved on. */
  ghost function KidRest(st: seq<Frame>, r: BTree.Node): seq<Key>
    requires st != []
    reads r, r.repr
  {
    var f := st[|st| - 1];
    if f.x != null && f.x in r.repr && 0 <= f.i < |f.x.tree.kids| then Flat(f.x.tree.kids[f.i]) + Rest(st, r) else []
  }

  lemma FirstPush(st: seq<Frame>, r: BTree.Node, h: nat, t: nat)
    requires Path(st, r, h, t) && st != [] && 2 <= t
    requires var f := st[|st| - 1]; f.i <= |f.x.keys|
    ensures 0 < |st| <= h + 1
    ensures var f := st[|st| - 1];
            f.x.kids != [] ==>
              f.i < |f.x.kids| && AtLeftEdge(st + [Frame(f.x.kids[f.i], 0)], r, h, t, KidRest(st, r))
  {
    var f := st[|st| - 1];
    TopStep(st, r, h, t);
    if f.x.kids != [] {
      PathPush(st, r, h, t);
      var st' := st + [Frame(f.x.kids[f.i], 0)];
      assert st'[..|st|] == st;
      TopStep(st', r, h, t);
    }
  }

  /** The frame on top before the inner loop decides what is on top after it. */
  ghost predicate Pushed(st0: seq<Frame>, st: seq<Frame>, r: BTree.Node, h: nat, t: nat)
    requires st0 != []
    reads r, r.repr
  {
    var f := st0[|st0| - 1];
    && f.x != null && f.x in r.repr
    && if f.i > |f.x.keys| then st == st0
       else if f.x.kids == [] then st == st0 + [Frame(null, 0)]
       else
         && |st0| + 1 < |st| && st[|st| - 1].x == null && Path(st[..|st| - 1], r, h, t)
         && st[|st| - 2].i == 0 && st[|st| - 2].x in r.repr && 0 < |st[|st| - 2].x.keys|
         && Rest(st[..|st| - 1], r) == KidRest(st0, r)
  }

  /** The frames lead to the left edge of a subtree, and f is what that subtree and the frames
      above it have still to give. */
  ghost predicate AtLeftEdge(st: seq<Frame>, r: BTree.Node, h: nat, t: nat, f: seq<Key>)
    reads r, r.repr
  {
    && Path(st, r, h, t) && st != []
    && var g := st[|st| - 1];
    && Step(g, r, h - (|st| - 1), t) && g.i == 0 && 0 < |g.x.keys|
    && Flat(g.x.tree) + Rest(st[..|st| - 1], r) == f
  }

  lemma StartPath(st: seq<Frame>, r: BTree.Node, h: nat, t: nat)
    requires st == [Frame(r, 0)] && r.Valid() && Shape(r.tree, h, t) && 0 < |r.keys|
    ensures AtLeftEdge(st, r, h, t, Flat(r.tree))
  {
    assert Step(st[0], r, h, t);
    assert st[..0] == [] && Rest(st[..0], r) == [];
  }

  lemma LeftEdgeSize(st: seq<Frame>, r: BTree.Node, h: nat, t: nat, f: seq<Key>)
    requires AtLeftEdge(st, r, h, t, f)
    ensures 0 < |st| <= h + 1 && st[|st| - 1].x != null
    ensures var g := st[|st| - 1]; g.i == 0 && (g.x.kids == [] || |g.x.kids| == |g.x.keys| + 1)
  {
  }

  lemma LeftEdgeDown(st: seq<Frame>, r: BTree.Node, h: nat, t: nat, f: seq<Key>)
    requires AtLeftEdge(st, r, h, t, f) && 2 <= t && st[|st| - 1].x.kids != []
    ensures AtLeftEdge(st + [Frame(st[|st| - 1].x.kids[0], 0)], r, h, t, f)
  {
    hide Flat, Rest, Shape;
    var st' := GoLeft(st, r, h, t);
    TopStep(st', r, h, t);
    assert st'[..|st|] == st;
  }

  lemma LeftEdgeDone(st: seq<Frame>, r: BTree.Node, h: nat, t: nat, f: seq<Key>)
    requires AtLeftEdge(st, r, h, t, f) && st[|st| - 1].x.kids == []
    ensures Path(st, r, h, t) && Rest(st, r) == f && 0 < |st[|st| - 1].x.keys|
  {
    LeafEdge(st, r, h - (|st| - 1), t);
  }

  /** What a node still has to give after its key i (if there is one). */
  ghost function AfterKey(x: Tree, i: int): seq<Key> {
    if 0 <= i < |x.keys| && FrameRest(x, i) != [] then FrameRest(x, i)[1..] else []
  }

  /** f is to come once the current key of the top frame, if it has one, is done with. */
  ghost predicate Pending(st: seq<Frame>, r: BTree.Node, h: nat, t: nat, f: seq<Key>)
    reads r, r.repr
  {
    && Path(st, r, h, t) && st != []
    && var g := st[|st| - 1];
    && Step(g, r, h - (|st| - 1), t) && g.i <= |g.x.keys|
    && AfterKey(g.x.tree, g.i) + Rest(st[..|st| - 1], r) == f
  }

  ghost predicate Settled(st: seq<Frame>, r: BTree.Node, h: nat, t: nat, f: seq<Key>)
    reads r, r.repr
  {
    && Path(st, r, h, t) && Rest(st, r) == f
    && (st == [] <==> f == [])
    && (st != [] ==> st[|st| - 1].x != null && st[|st| - 1].x in r.repr && st[|st| - 1].i < |st[|st| - 1].x.keys|)
  }

  lemma FrameRestHead(x: Tree, i: nat)
    requires (x.kids == [] || Internal(x)) && i < |x.keys|
    ensures FrameRest(x, i) == [x.keys[i]] + AfterKey(x, i)
    ensures AfterKey(x, i) == (if x.kids == [] then [] else Flat(x.kids[i + 1])) + FrameRest(x, i + 1)
  {
    if x.kids != [] {
      FlatAtPair(x, i);
    }
  }

  lemma NextStart(st: seq<Frame>, r: BTree.Node, h: nat, t: nat)
    requires Path(st, r, h, t) && st != [] && st[|st| - 1].i < |st[|st| - 1].x.keys|
    ensures Rest(st, r) != [] && Pending(st, r, h, t, Rest(st, r)[1..])
  {
    TopStep(st, r, h, t);
    var g := st[|st| - 1];
    FrameRestHead(g.x.tree, g.i);
    hide FrameRest, AfterKey, Path, Flat, Shape;
    assert TopRest(g, r) == FrameRest(g.x.tree, g.i);
    Assoc([g.x.keys[g.i]], AfterKey(g.x.tree, g.i), Rest(st[..|st| - 1], r));
  }

  function Bumped(st: seq<Frame>): seq<Frame>
    requires st != []
  {
    st[..|st| - 1] + [st[|st| - 1].(i := st[|st| - 1].i + 1)]
  }

  lemma BumpTop(st: seq<Frame>, r: BTree.Node, h: nat, t: nat, f: seq<Key>)
    requires Pending(st, r, h, t, f)
    ensures st != [] && Bumped(st) != [] && Path(Bumped(st), r, h, t)
  {
    PathBump(st, r, h, t, st[|st| - 1].i + 1);
  }

  /** A path whose top frame stands at a key, the first of f, is settled; at the end of a node it is pending. */
  lemma Lands(st: seq<Frame>, r: BTree.Node, h: nat, t: nat, f: seq<Key>)
    requires Path(st, r, h, t) && Rest(st, r) == f
    requires st != [] ==> st[|st| - 1].i <= |st[|st| - 1].x.keys|
    ensures if st == [] || st[|st| - 1].i < |st[|st| - 1].x.keys| then Settled(st, r, h, t, f) else Pending(st, r, h, t, f)
  {
    if st != [] {
      TopStep(st, r, h, t);
      var g := st[|st| - 1];
      hide Path, Flat;
      if g.i < |g.x.keys| {
        FrameRestHead(g.x.tree, g.i);
      } else {
        LastRest(g.x.tree);
      }
    }
  }

  lemma LastRest(x: Tree)
    requires x.kids == [] || Internal(x)
    ensures FrameRest(x, |x.keys|) == [] && AfterKey(x, |x.keys|) == []
  {
  }

  /** One round of the outer loop: from a pending path st, bumped and pushed down to st2. */
  lemma NextRound(st: seq<Frame>, st2: seq<Frame>, r: BTree.Node, h: nat, t: nat, f: seq<Key>)
    requires Pending(st, r, h, t, f) && Bumped(st) != [] && Pushed(Bumped(st), st2, r, h, t)
    ensures st != [] && st2 != []
    ensures var st3 := st2[..|st2| - 1];
            if st3 == [] || (st3[|st3| - 1].x != null && st3[|st3| - 1].i < |st3[|st3| - 1].x.keys|) then
              Settled(st3, r, h, t, f)
            else
              Pending(st3, r, h, t, f) && (|st3| < |st| || (|st3| == |st| && Room(st3) < Room(st)))
  {
    hide *;
    RoundLands(st, st2, r, h, t, f);
    Lands(st2[..|st2| - 1], r, h, t, f);
  }

  lemma RoundLands(st: seq<Frame>, st2: seq<Frame>, r: BTree.Node, h: nat, t: nat, f: seq<Key>)
    requires Pending(st, r, h, t, f) && Bumped(st) != [] && Pushed(Bumped(st), st2, r, h, t)
    ensures st != [] && st2 != []
    ensures var st3 := st2[..|st2| - 1];
            && Path(st3, r, h, t) && Rest(st3, r) == f
            && (st3 != [] ==> st3[|st3| - 1].x != null && st3[|st3| - 1].i <= |st3[|st3| - 1].x.keys|)
            && (st3 != [] && st3[|st3| - 1].i == |st3[|st3| - 1].x.keys| ==>
                  |st3| < |st| || (|st3| == |st| && Room(st3) < Room(st)))
  {
    hide *;
    RoundShape(st, st2, r, h, t, f);
    var g := st[|st| - 1];
    if g.i == |g.x.keys| {
      RoundUp(st, r, h, t, f);
    } else if g.x.kids == [] {
      RoundLeaf(st, r, h, t, f);
    } else {
      RoundDown(st, r, h, t, f);
    }
  }

  lemma RoundShape(st: seq<Frame>, st2: seq<Frame>, r: BTree.Node, h: nat, t: nat, f: seq<Key>)
    requires Pending(st, r, h, t, f) && Bumped(st) != [] && Pushed(Bumped(st), st2, r, h, t)
    ensures st != [] && st2 != []
    ensures var g, st3 := st[|st| - 1], st2[..|st2| - 1];
            && g.x != null && g.i <= |g.x.keys|
            && (g.i == |g.x.keys| ==> st3 == st[..|st| - 1])
            && (g.i < |g.x.keys| && g.x.kids == [] ==>
                  && st3 == Bumped(st) && |st3| == |st| && Room(st3) < Room(st)
                  && st3[|st3| - 1].x == g.x && st3[|st3| - 1].i == g.i + 1)
            && (g.i < |g.x.keys| && g.x.kids != [] ==>
                  && Path(st3, r, h, t) && Rest(st3, r) == KidRest(Bumped(st), r)
                  && st3 != [] && st3[|st3| - 1].x != null && st3[|st3| - 1].i < |st3[|st3| - 1].x.keys|)
  {
    hide Path, Flat, Rest, Shape, FrameRest, AfterKey, KidRest, Linked;
    assert Bumped(st)[|st| - 1] == Frame(st[|st| - 1].x, st[|st| - 1].i + 1);
  }

  lemma RoundUp(st: seq<Frame>, r: BTree.Node, h: nat, t: nat, f: seq<Key>)
    requires Pending(st, r, h, t, f) && st[|st| - 1].i == |st[|st| - 1].x.keys|
    ensures var st3 := st[..|st| - 1];
            && Path(st3, r, h, t) && Rest(st3, r) == f
            && (st3 != [] ==> st3[|st3| - 1].x != null && st3[|st3| - 1].i <= |st3[|st3| - 1].x.keys|)
  {
    PathPop(st, r, h, t);
    var st3 := st[..|st| - 1];
    LastRest(st[|st| - 1].x.tree);
    if st3 != [] { TopStep(st3, r, h, t); }
  }

  lemma RoundLeaf(st: seq<Frame>, r: BTree.Node, h: nat, t: nat, f: seq<Key>)
    requires Pending(st, r, h, t, f)
    requires var g := st[|st| - 1]; g.i < |g.x.keys| && g.x.kids == []
    ensures Path(Bumped(st), r, h, t) && Rest(Bumped(st), r) == f
  {
    BumpTop(st, r, h, t, f);
    var g, st1 := st[|st| - 1], Bumped(st);
    FrameRestHead(g.x.tree, g.i);
    hide FrameRest, AfterKey, Path, Flat, Shape;
    RestPush(st[..|st| - 1], st1[|st| - 1], r);
    Assoc([], FrameRest(g.x.tree, g.i + 1), Rest(st[..|st| - 1], r));
  }

  lemma RoundDown(st: seq<Frame>, r: BTree.Node, h: nat, t: nat, f: seq<Key>)
    requires Pending(st, r, h, t, f)
    requires var g := st[|st| - 1]; g.i < |g.x.keys| && g.x.kids != []
    ensures KidRest(Bumped(st), r) == f
  {
    BumpTop(st, r, h, t, f);
    var g, st1 := st[|st| - 1], Bumped(st);
    FrameRestHead(g.x.tree, g.i);
    hide FrameRest, AfterKey, Path, Flat, Shape;
    RestPush(st[..|st| - 1], st1[|st| - 1], r);
    Assoc(Flat(g.x.tree.kids[g.i + 1]), FrameRest(g.x.tree, g.i + 1), Rest(st[..|st| - 1], r));
  }

  lemma CurrentKey(st: seq<Frame>, r: BTree.Node, h: nat, t: nat)
    requires Path(st, r, h, t) && st != [] && AtKey(st)
    ensures st[|st| - 1].x != null && 0 <= st[|st| - 1].i < |st[|st| - 1].x.keys|
    ensures Rest(st, r) != [] && Rest(st, r)[0] == st[|st| - 1].x.keys[st[|st| - 1].i]
  {
    TopStep(st, r, h, t);
    var g := st[|st| - 1];
    FrameRestHead(g.x.tree, g.i);
  }

  /** As long as the number of keys fits an int, 32 of the 64 frames are enough. */
  lemma DepthBound(b: BTree.KBTree)
    requires b.Valid() && b.nKeys < 0x8000_0000
    ensures b.height + 2 <= 32 < KB_MAX_DEPTH
  {
    assert Pow2(4) == 16;
    Pow2Sum(4, 4);
    Pow2Sum(8, 8);
    Pow2Sum(16, 16);
    if b.height > 30 {
      Pow2Monotone(32, b.height + 1);
      HeightBound(b.root.tree, b.height, b.t);
    }
  }

  lemma {:induction false} Pow2Sum(a: nat, b: nat)
    ensures Pow2(a + b) == Pow2(a) * Pow2(b)
  {
    if b > 0 { Pow2Sum(a, b - 1); }
  }

  /** First, then Next until it fails: the keys seen are exactly the keys held, in order. */
  method Traverse(b: BTree.KBTree) returns (seen: seq<Key>)
    requires b.Valid() && b.nKeys < 0x8000_0000
    ensures seen == b.Contents()
  {
    hide *;
    ghost var r, h, t, f := b.root, b.height, b.t, b.Contents();
    DepthBound(b);
    var it := new Iterator();
    it.First(b);
    seen := [];
    assert seen + f == f;
    while it.stack != []
      invariant Path(it.stack, r, h, t) && seen + Rest(it.stack, r) == f
      invariant it.stack != [] ==> AtKey(it.stack)
      invariant it.stack == [] <==> Rest(it.stack, r) == []
      decreases |Rest(it.stack, r)|
    {
      CurrentKey(it.stack, r, h, t);
      ghost var rest := Rest(it.stack, r);
      var top := it.stack[|it.stack| - 1];
      seen := seen + [top.x.keys[top.i]];
      assert seen + rest[1..] == f;
      var more := it.Next(b);
    }
  }
}
