/** Basic blocks as a control-flow graph, and the worklist walk over it (libr/anal/block.c). */
module Cfg {
  import opened Lists

  /** UT64_MAX stands for "no address"; no block lives there. */
  const NONE: nat := 0xFFFF_FFFF_FFFF_FFFF

  /** The out-edges of a block: jump, fail, and the cases of its switch, if it has one. */
  datatype Block = Block(jump: nat, fail: nat, cases: Option<seq<nat>>)

  type Graph = g: map<nat, Block> | NONE !in g witness map[]

  function Present(a: nat): seq<nat> { if a == NONE then [] else [a] }

  function AllPresent(s: seq<nat>): seq<nat> {
    if s == [] then [] else Present(s[0]) + AllPresent(s[1..])
  }

  /** The addresses r_anal_block_successor_addrs_foreach visits, in its order. */
  function Succs(b: Block): seq<nat> {
    Present(b.jump) + Present(b.fail) + (if b.cases.Some? then AllPresent(b.cases.value) else [])
  }

  lemma {:induction false} AllPresentMembers(s: seq<nat>, a: nat)
    ensures a in AllPresent(s) <==> a in s && a != NONE
  {
    if s != [] { AllPresentMembers(s[1..], a); }
  }

  /** An edge leads from a block to a block; an address without a block is no node. */
  ghost predicate Edge(g: Graph, u: nat, v: nat) {
    u in g && v in g && v in Succs(g[u])
  }

  ghost predicate Path(g: Graph, p: seq<nat>) {
    p != [] && p[0] in g && forall i :: 0 < i < |p| ==> Edge(g, p[i - 1], p[i])
  }

  ghost predicate PathFromTo(g: Graph, p: seq<nat>, a: nat, b: nat) {
    Path(g, p) && p[0] == a && p[|p| - 1] == b
  }

  ghost predicate Reach(g: Graph, a: nat, b: nat) {
    exists p :: PathFromTo(g, p, a, b)
  }

  lemma ReachSelf(g: Graph, a: nat)
    requires a in g
    ensures Reach(g, a, a)
  {
    assert PathFromTo(g, [a], a, a);
  }

  lemma ReachStep(g: Graph, a: nat, u: nat, v: nat)
    requires Reach(g, a, u) && Edge(g, u, v)
    ensures Reach(g, a, v)
  {
    var p :| PathFromTo(g, p, a, u);
    assert PathFromTo(g, p + [v], a, v);
  }

  ghost predicate Closed(g: Graph, s: set<nat>) {
    forall u, v :: u in s && Edge(g, u, v) ==> v in s
  }

  /** A closed set that holds the start of a path holds all of it. */
  lemma {:induction false} ClosedPath(g: Graph, s: set<nat>, p: seq<nat>, i: nat)
    requires Closed(g, s) && Path(g, p) && p[0] in s && i < |p|
    ensures p[i] in s
  {
    if i > 0 {
      ClosedPath(g, s, p, i - 1);
      assert Edge(g, p[i - 1], p[i]);
    }
  }

  lemma ClosedReach(g: Graph, s: set<nat>, a: nat)
    requires Closed(g, s) && a in s
    ensures forall b :: Reach(g, a, b) ==> b in s
  {
    forall b | Reach(g, a, b) ensures b in s {
      var p :| PathFromTo(g, p, a, b);
      ClosedPath(g, s, p, |p| - 1);
    }
  }

  // ---------------------------------------------------------------- r_anal_block_recurse

  /** What one block pushes on the worklist: block_recurse_successor_cb over its successors.  An
      address is marked visited whether or not it has a block. */
  method NewSuccessors(g: Graph, cur: nat, visited: set<nat>) returns (added: seq<nat>, visited': set<nat>)
    requires cur in g
    ensures forall v :: v in visited' <==> v in visited || v in Succs(g[cur])
    ensures Distinct(added) && forall v :: v in added <==> v !in visited && v in g && v in Succs(g[cur])
  {
    var addrs := Succs(g[cur]);
    added, visited' := [], visited;
    var i := 0;
    while i < |addrs|
      invariant 0 <= i <= |addrs|
      invariant forall v :: v in visited' <==> v in visited || v in addrs[..i]
      invariant Distinct(added) && forall v :: v in added <==> v !in visited && v in g && v in addrs[..i]
    {
      var a := addrs[i];
      assert addrs[..i + 1] == addrs[..i] + [a];
      if a !in visited' {
        visited' := visited' + {a};
        if a in g { added := added + [a]; }
      }
      i := i + 1;
    }
    assert addrs[..|addrs|] == addrs;
  }

  /** r_anal_block_recurse with a callback that never stops it: every block reachable from the
      start is handed to the callback exactly once, and no other. */
  method Recurse(g: Graph, start: nat) returns (order: seq<nat>)
    requires start in g
    ensures Distinct(order) && order != [] && order[0] == start
    ensures forall b :: b in order <==> Reach(g, start, b)
  {
    var todo, visited := [start], {start};
    order := [];
    ReachSelf(g, start);
    while todo != []
      invariant Distinct(order) && Distinct(todo) && forall b :: b in todo ==> b !in order
      invariant if order == [] then todo == [start] else order[0] == start
      invariant start in visited
      invariant forall b :: b in order || b in todo ==> Reach(g, start, b)
      invariant forall b :: b in g && b in visited <==> b in order || b in todo
      invariant forall u, v :: u in order && Edge(g, u, v) ==> v in visited
      decreases g.Keys - Members(order)
    {
      var cur := todo[|todo| - 1];
      ghost var had := order;
      assert cur in todo;
      todo := todo[..|todo| - 1];
      order := order + [cur];
      forall v | Edge(g, cur, v) ensures Reach(g, start, v) { ReachStep(g, start, cur, v); }
      var added;
      added, visited := NewSuccessors(g, cur, visited);
      DistinctConcat(todo, added);
      todo := todo + added;
      MembersIn(had);
      MembersIn(order);
      assert cur in g.Keys - Members(had);
    }
    MembersIn(order);
    ClosedReach(g, Members(order), start);
  }
}
