/** The bidirected graph of klib/kgraph.h, over the finite maps that its hash tables hold. */
module Kgraph {
  /** A vertex number, and the key of an arc: the vertex at the other end and two bits for the direction. */
  type Id = int

  type Table<A> = map<Id, A>
  type Graph<A> = map<Id, Table<A>>

  const WORD: Id := 0x1_0000_0000

  /** The number moves up by two bits to make room for the direction, and loses its own two upper ones. */
  function ArcKey(v: Id, dir: nat): Id
    requires dir < 4
  {
    v * 4 % WORD + dir
  }

  function Other(key: Id): Id { key / 4 }
  function Dir(key: Id): (d: nat)
    ensures d < 4
  {
    key % 4
  }

  /** The direction seen from the other end. */
  function Flip(dir: nat): nat
    requires dir < 4
  {
    3 - dir
  }

  const LIMIT: Id := 0x4000_0000

  lemma KeyParts(v: Id, dir: nat)
    requires dir < 4
    ensures Dir(ArcKey(v, dir)) == dir && Flip(Flip(dir)) == dir
    ensures 0 <= v < LIMIT ==> Other(ArcKey(v, dir)) == v
  {
  }

  lemma KeyWhole(key: Id)
    requires 0 <= Other(key) < LIMIT
    ensures ArcKey(Other(key), Dir(key)) == key
  {
  }

  /** The arc at the other end of arc key of vertex u. */
  function Mirror(u: Id, key: Id): Id { ArcKey(u, Flip(Dir(key))) }

  /** Every arc is there from both of its ends. */
  ghost predicate Mirrored<A>(g: Graph<A>, u: Id, key: Id) {
    Other(key) in g && Mirror(u, key) in g[Other(key)]
  }

  ghost predicate Symmetric<A>(g: Graph<A>) {
    && (forall u :: u in g ==> 0 <= u < LIMIT)
    && forall u, key :: u in g && key in g[u] ==> Mirrored(g, u, key)
  }

  /** The opposite direction has both bits the other way round. */
  lemma FlipBits(d: bv2)
    ensures Flip(d as nat) == !d as nat
    ensures Flip(d as nat) == 3 - d as nat
  {
  }

  /** Below 2^30 a key is the number with the two bits of the direction under it. */
  lemma KeyIs(v: Id, d: nat)
    requires 0 <= v < LIMIT && d < 4
    ensures ArcKey(v, d) == 4 * v + d && ArcKey(v, Flip(d)) == 4 * v + (3 - d)
  {
  }

  /** u has an arc to v in direction d exactly when v has one to u in the opposite direction. */
  lemma BothEnds<A>(g: Graph<A>, u: Id, v: Id, d: nat)
    requires Symmetric(g) && u in g && 0 <= v < LIMIT && d < 4
    ensures 4 * v + d in g[u] <==> v in g && 4 * u + (3 - d) in g[v]
  {
    KeyIs(v, d);
    KeyIs(u, d);
    KeyParts(v, d);
    KeyParts(u, Flip(d));
    if ArcKey(v, d) in g[u] { assert Mirrored(g, u, ArcKey(v, d)); }
    if v in g && ArcKey(u, Flip(d)) in g[v] { assert Mirrored(g, v, ArcKey(u, Flip(d))); }
  }

  /** No table mentions v. */
  ghost predicate Unmentioned<A>(g: Graph<A>, v: Id) {
    v !in g && forall u, key :: u in g && key in g[u] ==> Other(key) != v
  }

  lemma PutVertexSymmetric<A>(g: Graph<A>, v: Id)
    requires Symmetric(g) && 0 <= v < LIMIT && v !in g
    ensures Symmetric(g[v := map[]])
  {
    var g' := g[v := map[]];
    forall u, key | u in g' && key in g'[u] ensures Mirrored(g', u, key) {
      assert Mirrored(g, u, key);
    }
  }

  function WithVertex<A>(g: Graph<A>, v: Id): Graph<A> { if v in g then g else g[v := map[]] }

  /** The graph with both ends of an arc put in, one after the other. */
  function WithArc<A>(g: Graph<A>, u: Id, v: Id, d: nat, x: A, y: A): Graph<A>
    requires u in g && v in g && d < 4
  {
    var g1 := g[u := g[u][ArcKey(v, d) := x]];
    g1[v := g1[v][ArcKey(u, Flip(d)) := y]]
  }

  lemma WithArcHas<A>(g: Graph<A>, u: Id, v: Id, d: nat, x: A, y: A, t: Id, key: Id)
    requires u in g && v in g && d < 4
    ensures var g' := WithArc(g, u, v, d, x, y);
            && g'.Keys == g.Keys
            && g'[v][ArcKey(u, Flip(d))] == y
            && (u != v || ArcKey(v, d) != ArcKey(u, Flip(d)) ==> g'[u][ArcKey(v, d)] == x)
            && (t in g && key in g[t] && !(t == u && key == ArcKey(v, d)) && !(t == v && key == ArcKey(u, Flip(d))) ==> g'[t][key] == g[t][key])
            && (t in g ==> (key in g'[t] <==> key in g[t] || (t == u && key == ArcKey(v, d)) || (t == v && key == ArcKey(u, Flip(d)))))
  {
  }

  lemma WithArcSymmetric<A>(g: Graph<A>, u: Id, v: Id, d: nat, x: A, y: A)
    requires Symmetric(g) && u in g && v in g && d < 4
    ensures Symmetric(WithArc(g, u, v, d, x, y))
  {
    var g' := WithArc(g, u, v, d, x, y);
    KeyParts(v, d);
    KeyParts(u, Flip(d));
    KeyParts(u, d);
    forall t, key | t in g' && key in g'[t] ensures Mirrored(g', t, key) {
      WithArcHas(g, u, v, d, x, y, t, key);
      var o := Other(key);
      if key in g[t] { assert Mirrored(g, t, key); }
      WithArcHas(g, u, v, d, x, y, o, Mirror(t, key));
    }
  }

  /** What is left of a table when all arcs to v have gone. */
  function Without<A>(t: Table<A>, v: Id): Table<A> {
    map key | key in t && Other(key) != v :: t[key]
  }

  /** What is left of the graph when v has gone. */
  function Removed<A>(g: Graph<A>, v: Id): Graph<A> {
    map u | u in g && u != v :: Without(g[u], v)
  }

  lemma RemovedSymmetric<A>(g: Graph<A>, v: Id)
    requires Symmetric(g) && v in g
    ensures Symmetric(Removed(g, v)) && Unmentioned(Removed(g, v), v)
  {
    var g' := Removed(g, v);
    forall u, key | u in g' && key in g'[u] ensures Mirrored(g', u, key) {
      assert Mirrored(g, u, key);
      KeyParts(u, Flip(Dir(key)));
    }
  }

  /** No arc has been added or changed. */
  ghost predicate Part<A>(g0: Graph<A>, g: Graph<A>) {
    g.Keys == g0.Keys && forall u, key :: u in g && key in g[u] ==> key in g0[u] && g[u][key] == g0[u][key]
  }

  /** The arcs of v itself are still there, but for loops. */
  ghost predicate OwnArcs<A>(g0: Graph<A>, g: Graph<A>, v: Id) {
    v in g0 && v in g && forall key :: key in g0[v] && Other(key) != v ==> key in g[v]
  }

  /** The other vertices have lost just the arcs to v that have been looked at from v. */
  ghost predicate OthersArcs<A>(g0: Graph<A>, g: Graph<A>, v: Id, todo: set<Id>) {
    forall u, key :: u in g0 && u in g && u != v ==>
      (key in g[u] <==> key in g0[u] && (Other(key) == v ==> Mirror(u, key) in todo))
  }

  /** Half way through the removal of v. */
  ghost predicate Removing<A>(g0: Graph<A>, g: Graph<A>, v: Id, todo: set<Id>) {
    && Part(g0, g) && OwnArcs(g0, g, v) && OthersArcs(g0, g, v, todo)
    && forall key :: key in todo ==> key in g0[v]
  }

  lemma RemovingStart<A>(g: Graph<A>, v: Id, todo: set<Id>)
    requires Symmetric(g) && v in g && todo == g[v].Keys
    ensures Removing(g, g, v, todo)
  {
    forall u, key | u in g && u != v && key in g[u] && Other(key) == v ensures Mirror(u, key) in g[v] {
      assert Mirrored(g, u, key);
    }
  }

  lemma KeysNonNegative<A>(g: Graph<A>, v: Id)
    requires Symmetric(g) && v in g
    ensures forall key :: key in g[v] ==> 0 <= key
  {
    forall key | key in g[v] ensures 0 <= key { assert Mirrored(g, v, key); }
  }

  /** The neighbour and its arc are there: the two tests that the source leaves out. */
  lemma NeighbourThere<A>(g0: Graph<A>, g: Graph<A>, v: Id, todo: set<Id>, key: Id)
    requires Symmetric(g0) && Removing(g0, g, v, todo) && key in todo
    ensures v in g && 0 <= v < LIMIT && 0 <= Other(key) < LIMIT && Other(key) in g
    ensures Other(key) != v ==> Mirror(v, key) in g[Other(key)]
    ensures key !in g[v] ==> Other(key) == v
  {
    assert Mirrored(g0, v, key);
    var u := Other(key);
    MirrorBack(v, key);
    if u != v { assert u in g0 && u in g; }
  }

  lemma MirrorBack(u: Id, key: Id)
    requires 0 <= u < LIMIT && 0 <= Other(key) < LIMIT
    ensures Mirror(Other(key), Mirror(u, key)) == key && Other(Mirror(u, key)) == u
  {
    KeyParts(u, Flip(Dir(key)));
    KeyWhole(key);
  }

  /** Of the arcs to v, the one that key mirrors and no other. */
  lemma SameArc<A>(g: Graph<A>, v: Id, t: Id, k: Id, key: Id)
    requires Symmetric(g) && v in g && t in g && k in g[t] && Other(k) == v && 0 <= Other(key) < LIMIT
    ensures Mirror(t, k) == key <==> t == Other(key) && k == Mirror(v, key)
  {
    assert Mirrored(g, t, k);
    MirrorBack(t, k);
    MirrorBack(v, key);
  }

  /** Taking the mirror of key out of its table. */
  lemma OthersNext<A>(g0: Graph<A>, g: Graph<A>, v: Id, todo: set<Id>, key: Id, g': Graph<A>)
    requires Symmetric(g0) && v in g0 && OthersArcs(g0, g, v, todo) && 0 <= Other(key) < LIMIT && Other(key) in g
    requires g' == g[Other(key) := g[Other(key)] - {Mirror(v, key)}]
    ensures OthersArcs(g0, g', v, todo - {key})
  {
    hide Symmetric, Mirror, Other;
    forall t, k | t in g0 && t in g' && t != v
      ensures k in g'[t] <==> k in g0[t] && (Other(k) == v ==> Mirror(t, k) in todo - {key})
    {
      if k in g0[t] && Other(k) == v { SameArc(g0, v, t, k, key); }
      if t == Other(key) && k == Mirror(v, key) { MirrorEnd(g0, v, key); }
    }
  }

  lemma MirrorEnd<A>(g: Graph<A>, v: Id, key: Id)
    requires Symmetric(g) && v in g
    ensures Other(Mirror(v, key)) == v
  {
    KeyParts(v, Flip(Dir(key)));
  }

  /** The other end of a loop: nothing to take out. */
  lemma OthersSame<A>(g0: Graph<A>, g: Graph<A>, v: Id, todo: set<Id>, key: Id)
    requires Symmetric(g0) && v in g0 && OthersArcs(g0, g, v, todo) && Other(key) == v
    ensures OthersArcs(g0, g, v, todo - {key})
  {
    hide Symmetric, Mirror, Other;
    forall t, k | t in g0 && t in g && t != v && k in g0[t] && Other(k) == v ensures Mirror(t, k) != key {
      InRange(g0, v);
      SameArc(g0, v, t, k, key);
    }
  }

  lemma InRange<A>(g: Graph<A>, v: Id)
    requires Symmetric(g) && v in g
    ensures 0 <= v < LIMIT
  {
  }

  lemma OwnNext<A>(g0: Graph<A>, g: Graph<A>, v: Id, key: Id, g': Graph<A>)
    requires Symmetric(g0) && OwnArcs(g0, g, v) && Part(g0, g) && Other(key) in g
    requires g' == g[Other(key) := g[Other(key)] - {Mirror(v, key)}]
    ensures OwnArcs(g0, g', v) && Part(g0, g')
  {
    MirrorEnd(g0, v, key);
    hide Symmetric, Mirror, Other;
    PartNext(g0, g, Other(key), Mirror(v, key), g');
  }

  lemma PartNext<A>(g0: Graph<A>, g: Graph<A>, u: Id, m: Id, g': Graph<A>)
    requires Part(g0, g) && u in g && g' == g[u := g[u] - {m}]
    ensures Part(g0, g')
  {
  }

  lemma RemovingNext<A>(g0: Graph<A>, g: Graph<A>, v: Id, todo: set<Id>, key: Id, g': Graph<A>)
    requires Symmetric(g0) && Removing(g0, g, v, todo) && key in todo
    requires v in g && Other(key) in g && 0 <= Other(key) < LIMIT && (key !in g[v] ==> Other(key) == v)
    requires g' == if key in g[v] then g[Other(key) := g[Other(key)] - {Mirror(v, key)}] else g
    ensures Removing(g0, g', v, todo - {key})
  {
    hide Symmetric, Part, OthersArcs, Mirror;
    if key in g[v] {
      OthersNext(g0, g, v, todo, key, g');
      OwnNext(g0, g, v, key, g');
    } else {
      OthersSame(g0, g, v, todo, key);
    }
  }

  lemma RemovingEnd<A>(g0: Graph<A>, g: Graph<A>, v: Id)
    requires Removing(g0, g, v, {})
    ensures g - {v} == Removed(g0, v)
  {
    var g', r := g - {v}, Removed(g0, v);
    assert g'.Keys == r.Keys;
    forall u | u in g' ensures g'[u] == r[u] {
      assert forall key :: key in g[u] <==> key in r[u];
    }
  }

  lemma VertexThere<A>(g: Graph<A>, u: Id, v: Id)
    ensures var g' := WithVertex(WithVertex(g, u), v); u in g' && v in g'
  {
  }

  lemma WithArcIs<A>(g: Graph<A>, u: Id, v: Id, d: nat, x: A, y: A)
    requires u in g && v in g && d < 4
    ensures var g1 := g[u := g[u][ArcKey(v, d) := x]];
            v in g1 && WithArc(g, u, v, d, x, y) == g1[v := g1[v][ArcKey(u, Flip(d)) := y]]
  {
  }

  /** What an arc put into g0 gives: its two ends, the second written last, and nothing else. */
  ghost predicate ArcStored<A>(g0: Graph<A>, g: Graph<A>, u: Id, v: Id, d: nat, x: A, y: A) {
    && g.Keys == g0.Keys + {u, v}
    && 4 * v + d in g[u] && 4 * u + (3 - d) in g[v]
    && g[v][4 * u + (3 - d)] == y && g[u][4 * v + d] == x
    && forall t, key :: t in g && !(t == u && key == 4 * v + d) && !(t == v && key == 4 * u + (3 - d)) ==>
         (key in g[t] <==> t in g0 && key in g0[t]) && (key in g[t] ==> g[t][key] == g0[t][key])
  }

  lemma Stored<A>(g0: Graph<A>, u: Id, v: Id, d: nat, x: A, y: A)
    requires 0 <= u < LIMIT && 0 <= v < LIMIT && d < 4
    ensures var g2 := WithVertex(WithVertex(g0, u), v);
            u in g2 && v in g2 && ArcStored(g0, WithArc(g2, u, v, d, x, y), u, v, d, x, y)
  {
    var g2 := WithVertex(WithVertex(g0, u), v);
    KeyIs(v, d);
    KeyIs(u, d);
    hide ArcKey, Flip;
    var g := WithArc(g2, u, v, d, x, y);
    forall t, key | t in g && !(t == u && key == 4 * v + d) && !(t == v && key == 4 * u + (3 - d))
      ensures (key in g[t] <==> t in g0 && key in g0[t]) && (key in g[t] ==> g[t][key] == g0[t][key])
    {
      WithArcHas(g2, u, v, d, x, y, t, key);
    }
    WithArcHas(g2, u, v, d, x, y, u, 4 * v + d);
  }

  class KGraph<A(0)> {
    var g: Graph<A>

    /** `kg_init` */
    constructor ()
      ensures g == map[] && Symmetric(g)
    {
      g := map[];
    }

    /** `kg_put_v`: a new vertex has no arcs. */
    method PutV(v: Id) returns (absent: bool)
      requires 0 <= v < WORD
      modifies this
      ensures absent == (v !in old(g)) && g == WithVertex(old(g), v)
      ensures Symmetric(old(g)) && v < LIMIT ==> Symmetric(g)
    {
      absent := v !in g;
      if absent {
        if Symmetric(g) && v < LIMIT { PutVertexSymmetric(g, v); }
        g := g[v := map[]];
      }
    }

    /** `kg_put_a`: both ends exist afterwards, and each has the arc; x and y are what the caller
        stores in the two places that the source gives back. */
    method PutA(vbeg: Id, vend: Id, dir: nat, x: A, y: A)
      requires 0 <= vbeg < WORD && 0 <= vend < WORD && dir < 4
      modifies this
      ensures g == WithArc(WithVertex(WithVertex(old(g), vbeg), vend), vbeg, vend, dir, x, y)
      ensures Symmetric(old(g)) && vbeg < LIMIT && vend < LIMIT ==> Symmetric(g)
      ensures vbeg < LIMIT && vend < LIMIT ==> ArcStored(old(g), g, vbeg, vend, dir, x, y)
    {
      hide Symmetric, WithArc, WithVertex, ArcStored;
      ghost var g0 := g;
      var absent := PutV(vbeg);
      absent := PutV(vend);
      ghost var g2 := g;
      VertexThere(g0, vbeg, vend);
      if Symmetric(g) { WithArcSymmetric(g, vbeg, vend, dir, x, y); }
      g := g[vbeg := g[vbeg][ArcKey(vend, dir) := x]];
      g := g[vend := g[vend][ArcKey(vbeg, Flip(dir)) := y]];
      WithArcIs(g2, vbeg, vend, dir, x, y);
      if vbeg < LIMIT && vend < LIMIT { Stored(g0, vbeg, vend, dir, x, y); }
    }

    /** `kg_del_v`. The arcs of v are looked at in any order; those that are gone by then, the other
        ends of loops, are passed over. */
    method DelV(v: Id) returns (found: bool)
      requires Symmetric(g)
      modifies this
      ensures found == (v in old(g)) && (found ==> Unmentioned(g, v)) && Symmetric(g)
      ensures g == if found then Removed(old(g), v) else old(g)
    {
      hide Symmetric, Removing, Removed, Mirror, Mirrored, Unmentioned;
      if v !in g { return false; }
      ghost var g0 := g;
      RemovedSymmetric(g, v);
      KeysNonNegative(g, v);
      var todo: set<nat> := set key: nat | key in g[v];
      RemovingStart(g, v, todo);
      while todo != {}
        invariant Removing(g0, g, v, todo)
        decreases |todo|
      {
        var key: nat :| key in todo;
        NeighbourThere(g0, g, v, todo, key);
        ghost var before := g;
        if key in g[v] {
          var u := Other(key);
          g := g[u := g[u] - {Mirror(v, key)}];
        }
        RemovingNext(g0, before, v, todo, key, g);
        todo := todo - {key};
      }
      RemovingEnd(g0, g, v);
      g := g - {v};
      found := true;
    }
  }

  /** 2^30 is the exact bound: the arc from a vertex to itself, put in where there is nothing else, is
      there from its other end if and only if the number of the vertex is below it. */
  lemma IdLimit<A>(u: Id, d: nat, x: A, y: A)
    requires 0 <= u < WORD && d < 4
    ensures var g := WithArc(map[u := map[]], u, u, d, x, y);
            ArcKey(u, d) in g[u] && (Mirrored(g, u, ArcKey(u, d)) <==> u < LIMIT)
  {
  }
}
