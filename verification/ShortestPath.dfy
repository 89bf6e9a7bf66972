/** r_anal_block_shortest_path (libr/anal/block.c:699-832): breadth-first search level by level over
    block successors and over the code, call and data references made inside each block. */
module ShortestPath {
  import opened Lists
  import opened Cfg

  /** For each block, the targets of its references, in the order add_refs meets them. */
  type Refs = map<nat, seq<nat>>

  function RefsOf(refs: Refs, u: nat): seq<nat> { if u in refs then refs[u] else [] }

  /** a is named by block u, as a successor or as a reference target. */
  ghost predicate Names(g: Graph, refs: Refs, u: nat, a: nat) {
    u in g && (a in Succs(g[u]) || a in RefsOf(refs, u))
  }

  ghost predicate Route(g: Graph, refs: Refs, p: seq<nat>, a: nat, b: nat) {
    && p != [] && p[0] == a && p[|p| - 1] == b
    && (forall i :: 0 <= i < |p| ==> p[i] in g)
    && (forall i :: 0 < i < |p| ==> Names(g, refs, p[i - 1], p[i]))
  }

  /** ctx.visited: every address met so far with the block it was first met from. */
  type Visited = map<nat, Option<nat>>

  /** What expanding one block did: the addresses it met for the first time point back to it,
      and those with a block were queued for the next level. */
  ghost predicate Expanded(g: Graph, u: nat, addrs: seq<nat>, prev: Visited, prev': Visited, next: seq<nat>,
                           next': seq<nat>) {
    && (forall a :: a in prev ==> a in prev' && prev'[a] == prev[a])
    && (forall a :: a in prev' && a !in prev ==> prev'[a] == Some(u) && a in addrs)
    && next <= next'
    && (forall a :: a in next' <==> a in next || (a in prev' && a !in prev && a in g))
  }

  /** shortest_path_successor_cb over the successors of u: the list is left early when it
      names the destination for the first time. */
  method VisitSuccessors(g: Graph, u: nat, dst: nat, prev: Visited, next: seq<nat>)
    returns (prev': Visited, next': seq<nat>)
    requires u in g
    ensures Expanded(g, u, Succs(g[u]), prev, prev', next, next')
    ensures dst !in prev' ==> forall a :: a in Succs(g[u]) ==> a in prev'
  {
    var addrs := Succs(g[u]);
    prev', next' := prev, next;
    var i := 0;
    while i < |addrs|
      invariant 0 <= i <= |addrs| && Expanded(g, u, addrs, prev, prev', next, next')
      invariant forall a :: a in addrs[..i] ==> a in prev'
    {
      var a := addrs[i];
      if a !in prev' {
        prev' := prev'[a := Some(u)];
        if a in g { next' := next' + [a]; }
        if a == dst { return; }
      }
      assert addrs[..i + 1] == addrs[..i] + [a];
      i := i + 1;
    }
    assert addrs[..|addrs|] == addrs;
  }

  /** add_refs: false as soon as a reference names the destination for the first time. */
  method VisitRefs(g: Graph, refs: Refs, u: nat, dst: nat, prev: Visited, next: seq<nat>)
    returns (go: bool, prev': Visited, next': seq<nat>)
    ensures Expanded(g, u, RefsOf(refs, u), prev, prev', next, next')
    ensures !go ==> dst in prev'
    ensures dst !in prev' ==> forall a :: a in RefsOf(refs, u) ==> a in prev'
  {
    var addrs := RefsOf(refs, u);
    go, prev', next' := true, prev, next;
    var i := 0;
    while i < |addrs|
      invariant 0 <= i <= |addrs| && Expanded(g, u, addrs, prev, prev', next, next')
      invariant forall a :: a in addrs[..i] ==> a in prev'
    {
      var a := addrs[i];
      if a !in prev' {
        prev' := prev'[a := Some(u)];
        if a in g { next' := next' + [a]; }
        if a == dst { return false, prev', next'; }
      }
      assert addrs[..i + 1] == addrs[..i] + [a];
      i := i + 1;
    }
    assert addrs[..|addrs|] == addrs;
  }

  /** The back pointers form a tree rooted at the start, whose edges are named by the graph. */
  ghost predicate BackTree(g: Graph, refs: Refs, start: nat, prev: Visited, depth: map<nat, nat>) {
    && prev.Keys == depth.Keys && start in prev && start in g && prev[start] == None && depth[start] == 0
    && forall a :: a in prev && a != start ==>
         && prev[a].Some? && prev[a].value in prev && prev[a].value in g
         && Names(g, refs, prev[a].value, a) && depth[a] == depth[prev[a].value] + 1
  }

  /** No route to b has fewer than n blocks. */
  ghost predicate NoShorter(g: Graph, refs: Refs, start: nat, b: nat, n: nat) {
    forall p :: Route(g, refs, p, start, b) ==> n <= |p|
  }

  /** Every block on a route of at most n blocks has been met. */
  ghost predicate MetWithin(g: Graph, refs: Refs, start: nat, met: set<nat>, n: nat) {
    forall p, b :: Route(g, refs, p, start, b) && |p| <= n ==> b in met
  }

  /** Everything named by the blocks of s has been met. */
  ghost predicate Done(g: Graph, refs: Refs, s: set<nat>, met: set<nat>) {
    forall u, a :: u in s && Names(g, refs, u, a) ==> a in met
  }

  lemma NextLevel(g: Graph, refs: Refs, start: nat, met: set<nat>, met': set<nat>, n: nat)
    requires MetWithin(g, refs, start, met, n) && n > 0 && met <= met'
    requires Done(g, refs, met * g.Keys, met')
    ensures MetWithin(g, refs, start, met', n + 1)
  {
    forall p, b | Route(g, refs, p, start, b) && |p| <= n + 1 ensures b in met' {
      if |p| == n + 1 {
        var q := p[..n];
        assert Route(g, refs, q, start, q[n - 1]);
        assert Names(g, refs, p[n - 1], p[n]);
      }
    }
  }

  lemma {:induction false} DoneMeetsAll(g: Graph, refs: Refs, met: set<nat>, p: seq<nat>, start: nat, b: nat)
    requires Done(g, refs, met * g.Keys, met) && start in met && Route(g, refs, p, start, b)
    ensures b in met
  {
    if |p| > 1 {
      var q := p[..|p| - 1];
      assert Route(g, refs, q, start, q[|q| - 1]);
      DoneMeetsAll(g, refs, met, q, start, q[|q| - 1]);
      assert Names(g, refs, p[|p| - 2], p[|p| - 1]);
    }
  }

  /** Walk the back pointers from the destination to the start. */
  method Reconstruct(g: Graph, refs: Refs, start: nat, dst: nat, prev: Visited, ghost depth: map<nat, nat>)
    returns (path: seq<nat>)
    requires BackTree(g, refs, start, prev, depth) && dst in prev && dst in g
    ensures Route(g, refs, path, start, dst) && |path| == depth[dst] + 1
  {
    path := [dst];
    var p := prev[dst];
    ghost var a := dst;
    while p.Some?
      invariant a in prev && p == prev[a] && Route(g, refs, path, a, dst)
      invariant |path| == depth[dst] - depth[a] + 1
      decreases depth[a]
    {
      a := p.value;
      path := [p.value] + path;
      p := prev[p.value];
    }
    assert a == start;
  }

  ghost function Deepen(depth: map<nat, nat>, prev: Visited, d: nat): map<nat, nat> {
    map a | a in prev :: if a in depth then depth[a] else d
  }

  /** Blocks of the level being expanded lie at depth d, those queued for the next at d + 1; the
      destination, once met, is at its least depth. */
  ghost predicate Level(g: Graph, refs: Refs, start: nat, dst: nat, prev: Visited, depth: map<nat, nat>,
                        cur: seq<nat>, next: seq<nat>, d: nat) {
    && prev.Keys == depth.Keys
    && (forall a :: a in cur ==> a in g && a in prev && depth[a] == d)
    && (forall a :: a in next ==> a in g && a in prev && depth[a] == d + 1)
    && (dst in prev ==> NoShorter(g, refs, start, dst, depth[dst] + 1))
  }

  lemma TreeGrows(g: Graph, refs: Refs, start: nat, u: nat, addrs: seq<nat>, prev: Visited, prev': Visited,
                  depth: map<nat, nat>, next: seq<nat>, next': seq<nat>)
    requires BackTree(g, refs, start, prev, depth) && u in g && u in prev
    requires Expanded(g, u, addrs, prev, prev', next, next') && forall a :: a in addrs ==> Names(g, refs, u, a)
    ensures BackTree(g, refs, start, prev', Deepen(depth, prev', depth[u] + 1))
  {
    var depth' := Deepen(depth, prev', depth[u] + 1);
    assert start in prev';
    forall a | a in prev' && a != start
      ensures prev'[a].Some? && prev'[a].value in prev' && prev'[a].value in g
           && Names(g, refs, prev'[a].value, a) && depth'[a] == depth'[prev'[a].value] + 1
    {
      if a in prev { assert prev'[a] == prev[a] && prev[a].value in prev'; }
    }
  }

  lemma FirstMet(g: Graph, refs: Refs, start: nat, dst: nat, met: set<nat>, n: nat)
    requires MetWithin(g, refs, start, met, n) && dst !in met
    ensures NoShorter(g, refs, start, dst, n + 1)
  {
    forall p | Route(g, refs, p, start, dst) ensures n < |p| {}
  }

  lemma ExpandLevel(g: Graph, refs: Refs, start: nat, dst: nat, u: nat, addrs: seq<nat>, prev: Visited, prev': Visited,
                    depth: map<nat, nat>, cur: seq<nat>, next: seq<nat>, next': seq<nat>, d: nat, met: set<nat>)
    requires Level(g, refs, start, dst, prev, depth, cur, next, d) && u in cur
    requires Expanded(g, u, addrs, prev, prev', next, next') && forall a :: a in addrs ==> Names(g, refs, u, a)
    requires met <= prev.Keys && (dst !in prev ==> MetWithin(g, refs, start, met, d + 1))
    ensures Level(g, refs, start, dst, prev', Deepen(depth, prev', d + 1), cur, next', d)
  {
    var depth' := Deepen(depth, prev', d + 1);
    assert forall a :: a in prev ==> depth'[a] == depth[a];
    if dst !in prev { FirstMet(g, refs, start, dst, met, d + 1); }
  }

  /** All blocks met are expanded, being expanded from cur, or queued in next; and whatever the
      expanded ones name has been met. */
  ghost predicate Frontier(g: Graph, refs: Refs, prev: Visited, done: set<nat>, cur: seq<nat>, next: seq<nat>) {
    && (forall a :: a in prev && a in g ==> a in done || a in cur || a in next)
    && Done(g, refs, done, prev.Keys)
  }

  lemma Grow(g: Graph, refs: Refs, start: nat, dst: nat, u: nat, addrs: seq<nat>, prev: Visited, prev': Visited,
             depth: map<nat, nat>, cur: seq<nat>, next: seq<nat>, next': seq<nat>, d: nat, met: set<nat>)
    requires BackTree(g, refs, start, prev, depth) && Level(g, refs, start, dst, prev, depth, cur, next, d) && u in cur
    requires Expanded(g, u, addrs, prev, prev', next, next') && forall a :: a in addrs ==> Names(g, refs, u, a)
    requires met <= prev.Keys && (dst !in prev ==> MetWithin(g, refs, start, met, d + 1))
    ensures BackTree(g, refs, start, prev', Deepen(depth, prev', d + 1))
    ensures Level(g, refs, start, dst, prev', Deepen(depth, prev', d + 1), cur, next', d)
    ensures met <= prev'.Keys
  {
    TreeGrows(g, refs, start, u, addrs, prev, prev', depth, next, next');
    ExpandLevel(g, refs, start, dst, u, addrs, prev, prev', depth, cur, next, next', d, met);
  }

  lemma ExpandedTwice(g: Graph, u: nat, s: seq<nat>, t: seq<nat>, prev: Visited, prev1: Visited, prev2: Visited,
                      next: seq<nat>, next1: seq<nat>, next2: seq<nat>)
    requires Expanded(g, u, s, prev, prev1, next, next1) && Expanded(g, u, t, prev1, prev2, next1, next2)
    ensures Expanded(g, u, s + t, prev, prev2, next, next2)
  {
  }

  /** The body of the loop over one level. */
  method Expand(g: Graph, refs: Refs, ghost start: nat, dst: nat, u: nat, prev: Visited, ghost depth: map<nat, nat>,
                ghost cur: seq<nat>, next: seq<nat>, ghost d: nat, ghost met: set<nat>)
    returns (prev': Visited, next': seq<nat>, go: bool, ghost depth': map<nat, nat>)
    requires BackTree(g, refs, start, prev, depth) && Level(g, refs, start, dst, prev, depth, cur, next, d) && u in cur
    requires met <= prev.Keys && (dst !in prev ==> MetWithin(g, refs, start, met, d + 1))
    ensures BackTree(g, refs, start, prev', depth') && Level(g, refs, start, dst, prev', depth', cur, next', d)
    ensures prev.Keys <= prev'.Keys && next <= next' && (!go ==> dst in prev')
    ensures dst !in prev' ==> forall a :: Names(g, refs, u, a) ==> a in prev'
    ensures forall a :: a in next' <==> a in next || (a in prev' && a !in prev && a in g)
  {
    var prev1, next1 := VisitSuccessors(g, u, dst, prev, next);
    go, prev', next' := VisitRefs(g, refs, u, dst, prev1, next1);
    ghost var named := Succs(g[u]) + RefsOf(refs, u);
    ExpandedTwice(g, u, Succs(g[u]), RefsOf(refs, u), prev, prev1, prev', next, next1, next');
    Grow(g, refs, start, dst, u, named, prev, prev', depth, cur, next, next', d, met);
    depth' := Deepen(depth, prev', d + 1);
  }

  /** One level: expand the blocks of cur in turn, until a reference names the destination. */
  method ExpandAll(g: Graph, refs: Refs, ghost start: nat, dst: nat, prev: Visited, ghost depth: map<nat, nat>,
                   cur: seq<nat>, ghost d: nat, ghost done: set<nat>)
    returns (prev': Visited, next: seq<nat>, go: bool, ghost depth': map<nat, nat>, ghost done': set<nat>)
    requires BackTree(g, refs, start, prev, depth) && Level(g, refs, start, dst, prev, depth, cur, [], d)
    requires dst !in prev ==> Frontier(g, refs, prev, done, cur, []) && MetWithin(g, refs, start, prev.Keys, d + 1)
    ensures BackTree(g, refs, start, prev', depth') && Level(g, refs, start, dst, prev', depth', cur, next, d)
    ensures prev.Keys <= prev'.Keys && (!go ==> dst in prev')
    ensures dst !in prev' ==> Frontier(g, refs, prev', done', [], next) && Done(g, refs, prev.Keys * g.Keys, prev'.Keys)
    ensures next != [] ==> exists a :: a in g && a in prev' && a !in prev
  {
    prev', next, go, depth', done' := prev, [], true, depth, done;
    var i := 0;
    while i < |cur| && go
      invariant 0 <= i <= |cur| && prev.Keys <= prev'.Keys
      invariant BackTree(g, refs, start, prev', depth') && Level(g, refs, start, dst, prev', depth', cur, next, d)
      invariant dst !in prev' ==> Frontier(g, refs, prev', done', cur[i..], next)
      invariant dst !in prev' ==> forall a :: a in prev && a in g ==> a in done' || a in cur[i..]
      invariant !go ==> dst in prev'
      invariant forall a :: a in next ==> a !in prev
    {
      var u := cur[i];
      assert cur[i..] == [u] + cur[i + 1..];
      prev', next, go, depth' := Expand(g, refs, start, dst, u, prev', depth', cur, next, d, prev.Keys);
      done' := done' + {u};
      i := i + 1;
    }
    if next != [] { assert next[0] in next; }
  }

  /** The path answered runs from the start to the destination over successors and references,
      no route is shorter, and there is no answer exactly when there is no route. */
  method FindShortest(g: Graph, refs: Refs, start: nat, dst: nat) returns (path: Option<seq<nat>>)
    requires start in g
    ensures path.Some? ==> Route(g, refs, path.value, start, dst)
    ensures path.Some? ==> NoShorter(g, refs, start, dst, |path.value|)
    ensures path.None? ==> forall p :: !Route(g, refs, p, start, dst)
  {
    var prev: Visited := map[start := None];
    ghost var depth: map<nat, nat> := map[start := 0];
    var cur := [start];
    ghost var d: nat, done: set<nat> := 0, {};
    var go := true;
    while cur != [] && go
      invariant BackTree(g, refs, start, prev, depth) && Level(g, refs, start, dst, prev, depth, cur, [], d)
      invariant dst !in prev ==> Frontier(g, refs, prev, done, cur, []) && MetWithin(g, refs, start, prev.Keys, d + 1)
      invariant !go ==> dst in prev
      decreases g.Keys - prev.Keys, |cur|
    {
      ghost var met := prev.Keys;
      prev, cur, go, depth, done := ExpandAll(g, refs, start, dst, prev, depth, cur, d, done);
      if dst !in prev { NextLevel(g, refs, start, met, prev.Keys, d + 1); }
      d := d + 1;
    }
    if dst in prev && dst in g {
      var p := Reconstruct(g, refs, start, dst, prev, depth);
      return Some(p);
    }
    path := None;
    forall p | Route(g, refs, p, start, dst) ensures false {
      DoneMeetsAll(g, refs, prev.Keys, p, start, dst);
    }
  }
}
