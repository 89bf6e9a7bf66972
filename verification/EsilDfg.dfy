/** The ESIL data-flow graph under construction (libr/anal/esil_dfg.c): the interval tree
    dfg->vars with its work queue dfg->todo and pending half dfg->insert, the graph dfg->flow,
    and the nodes remembered in edf->cur and edf->old for the flag operators.  Every operation is
    tied to the functions of Clearing, Lookups and TagTree, in any tree; what they promise in a
    tree that is in order follows from there. */
module EsilDfg {
  import opened Lists
  import opened IntervalTree
  import opened RedBlack
  import opened Clearing
  import opened Lookups
  import opened ConstTags
  import opened Tagging
  import opened TagTree

  /** Where an uncovered stretch gets its node from: the cached origin node of the register, or
      a fresh node for uninitialised memory, tagged constant when the map is read-only. */
  datatype Gap = OriginOf(reg: string) | FreshMem(readOnly: bool)

  /** An entry of the stack while the graph is built: results of operators are graph nodes. */
  datatype Item = RegName(name: string) | Num(n: nat) | Var(node: nat)

  /** The part of the graph the tags depend on. */
  datatype Graph = Graph(vars: Tree, nodes: Nodes, stack: seq<Item>, cur: Option<nat>)

  function EntryOf(nodes: Nodes, it: Item): Entry {
    match it
    case RegName(r) => Loc(r)
    case Num(n) => Lit(n)
    case Var(k) => Res(ConstNode(nodes, k))
  }

  function Entries(nodes: Nodes, s: seq<Item>): seq<Entry> {
    seq(|s|, i requires 0 <= i < |s| => EntryOf(nodes, s[i]))
  }

  /** What the analysis knows: the graph with every node replaced by its constant tag. */
  function Abs(g: Graph): State { State(Marks(g.nodes, g.vars), Entries(g.nodes, g.stack), g.cur.Some?) }

  /** Bit b of the register arena is defined by a constant node. */
  ghost predicate ConstBit(vars: Tree, nodes: Nodes, b: int) {
    At(vars, Reg, b).Some? && ConstNode(nodes, At(vars, Reg, b).value)
  }

  /** The graph dfg->flow with the cached origin nodes. */
  datatype Flow = Flow(nodes: Nodes, edges: seq<(nat, nat)>, origins: map<string, nat>)

  ghost predicate FlowOk(regs: Profile, f: Flow) {
    && (forall e :: e in f.edges ==> e.0 < |f.nodes| && e.1 < |f.nodes|)
    && forall r :: r in f.origins ==>
         r in regs && f.origins[r] < |f.nodes| && f.nodes[f.origins[r]] == {VAR, REG}
  }

  /** The node a gap gets: the cached origin, or the second of two new nodes. */
  function GapId(gap: Gap, f: Flow): nat {
    if gap.OriginOf? && gap.reg in f.origins then f.origins[gap.reg] else |f.nodes| + 1
  }

  function FreshTags(readOnly: bool): set<Tag> { {VAR, MEM} + (if readOnly then {CONST} else {}) }

  /** What filling gaps did to the graph: nothing, or the node n was found or made, with one
      plain node in front of it.  An origin is made once; a node for memory is always new. */
  ghost predicate FilledBy(gap: Gap, f: Flow, f': Flow, filled: bool, n: nat) {
    if !filled then f' == f
    else
      && f.nodes <= f'.nodes && f.edges <= f'.edges && n < |f'.nodes|
      && (forall e :: e in f'.edges && e !in f.edges ==> e.1 == n)
      && match gap
         case OriginOf(r) =>
           && f'.origins == f.origins[r := n] && f'.nodes[n] == {VAR, REG}
           && (r in f.origins ==> f' == f)
         case FreshMem(readOnly) =>
           f'.origins == f.origins && n >= |f.nodes| && f'.nodes[n] == FreshTags(readOnly)
  }

  /** One part stands for itself, several are joined by a new merge node fed by exactly them. */
  ghost predicate MergedBy(parts: seq<nat>, tag: Tag, f: Flow, f': Flow, n: nat) {
    && n < |f'.nodes|
    && if |parts| == 1 then n == parts[0] && f' == f
       else f' == Flow(f.nodes + [{MERGE, tag}], f.edges + EdgesTo(parts, n), f.origins) && n == |f.nodes|
  }

  /** n is a merge node whose in-edges come from exactly the nodes that define bits of rng. */
  ghost predicate Merged(t: Tree, f: Flow, rng: Interval, n: nat, tag: Tag) {
    n < |f.nodes| && f.nodes[n] == {MERGE, tag} && forall m: nat :: (m, n) in f.edges <==> Defines(t, rng, m)
  }

  /** What a read does in any tree: the tree of Collect, and its part or a new merge node. */
  ghost predicate ReadBy(rng: Interval, gap: Gap, tag: Tag, t: Tree, f: Flow, t': Tree, f': Flow, n: nat)
    requires rng.from <= rng.to
  {
    var id := GapId(gap, f);
    var g := Collect(t, [rng], id, false);
    && t' == g.tree && g.parts != []
    && exists f1 :: FilledBy(gap, f, f1, g.filled, id) && MergedBy(g.parts, tag, f1, f', n)
  }

  /** What a read of an ordered tree promises.  One interval over the whole range answers its
      own node and changes no node; a blank range answers the node that now fills it; anything
      else answers a new merge node whose in-edges come from exactly the nodes that now define
      some bit of the range. */
  ghost predicate ReadExact(rng: Interval, gap: Gap, tag: Tag, t: Tree, f: Flow, t': Tree, f': Flow, n: nat) {
    var blank := exists b :: In(rng, rng.kind, b) && At(t, rng.kind, b).None?;
    var fill := Fill(blank, GapId(gap, f));
    && Ordered(t') && Grown(t, t', fill)
    && (forall k, b :: At(t', k, b) == if In(rng, k, b) && At(t, k, b).None? then fill else At(t, k, b))
    && (OneCovers(t, rng) || Blank(t, rng) ==> Single(t', rng, n))
    && (OneCovers(t, rng) ==> f' == f)
    && (!OneCovers(t, rng) && !Blank(t, rng) ==> n >= |f.nodes| && Merged(t', f', rng, n, tag))
  }

  lemma ReadDone(w: Bases, rng: Interval, gap: Gap, tag: Tag, t: Tree, f: Flow, f1: Flow, f': Flow, n: nat)
    requires Ordered(t) && AllFit(w, t) && Fits(w, rng)
    requires forall e :: e in f1.edges ==> e.1 < |f1.nodes|
    requires var g := Collect(t, [rng], GapId(gap, f), false);
      FilledBy(gap, f, f1, g.filled, GapId(gap, f)) && MergedBy(g.parts, tag, f1, f', n)
    ensures ReadExact(rng, gap, tag, t, f, Collect(t, [rng], GapId(gap, f), false).tree, f', n)
  {
    var g := Collect(t, [rng], GapId(gap, f), false);
    CollectExact(w, t, rng, GapId(gap, f));
    PartsLabels(g.tree, rng, g.parts);
    if OneCovers(t, rng) { OneCoversLabels(t, rng); }
    if |g.parts| > 1 { MergedParts(g.tree, rng, g.parts, tag, f1, f', n); }
  }

  lemma MergedParts(t: Tree, rng: Interval, parts: seq<nat>, tag: Tag, f: Flow, f': Flow, n: nat)
    requires |parts| > 1 && MergedBy(parts, tag, f, f', n) && forall e :: e in f.edges ==> e.1 < |f.nodes|
    requires forall m :: m in parts <==> Defines(t, rng, m)
    ensures Merged(t, f', rng, n, tag)
  {
    forall m: nat ensures (m, n) in f'.edges <==> m in parts { EdgesToMembers(parts, n, m); }
  }

  lemma PartsLabels(t: Tree, rng: Interval, parts: seq<nat>)
    requires forall n :: n in parts <==> Defines(t, rng, n)
    requires forall b :: In(rng, rng.kind, b) ==> At(t, rng.kind, b).Some?
    ensures |parts| == 1 ==> Single(t, rng, parts[0])
  {
    forall b | In(rng, rng.kind, b) && |parts| == 1 ensures At(t, rng.kind, b) == Some(parts[0]) {
      assert Defines(t, rng, At(t, rng.kind, b).value);
    }
  }

  /** Every bit of rng is defined by n. */
  ghost predicate Single(t: Tree, rng: Interval, n: nat) {
    forall b :: In(rng, rng.kind, b) ==> At(t, rng.kind, b) == Some(n)
  }

  function EdgesTo(parts: seq<nat>, n: nat): seq<(nat, nat)> {
    seq(|parts|, i requires 0 <= i < |parts| => (parts[i], n))
  }

  lemma EdgesToMembers(parts: seq<nat>, n: nat, k: nat)
    ensures (k, n) in EdgesTo(parts, n) <==> k in parts
  {
    if k in parts {
      var i :| 0 <= i < |parts| && parts[i] == k;
      assert EdgesTo(parts, n)[i] == (k, n);
    }
  }

  lemma OneCoversLabels(t: Tree, rng: Interval)
    requires Ordered(t) && OneCovers(t, rng)
    ensures forall b :: In(rng, rng.kind, b) ==> At(t, rng.kind, b).Some?
  {
    forall b | In(rng, rng.kind, b) ensures At(t, rng.kind, b).Some? {
      AtElem(t, rng.kind, b);
    }
  }

  /** What an ordered tree stores after a write that swallows at most one interval. */
  ghost predicate Relabelled(was: Tree, now: Tree, rng: Interval, node: nat) {
    && Ordered(now) && Elems(now) == Trimmed(Elems(was), rng) + {rng.(node := node)}
    && forall k, b :: At(now, k, b) == if In(rng, k, b) then Some(node) else At(was, k, b)
  }

  class Dfg {
    const regs: Profile
    const bases: Bases
    var vars: Tree
    var todo: seq<Interval>
    var insert: Option<Interval>
    var nodes: Nodes
    var edges: seq<(nat, nat)>
    var origins: map<string, nat>
    var stack: seq<Item>
    var cur: Option<nat>
    var last: Option<nat>

    /** Nothing is said about the order of the tree, which a write can lose. */
    ghost predicate Valid()
      reads this
    {
      && Sound(bases, |nodes|, vars) && todo == [] && insert == None
      && Proper(regs) && ProfileFits(bases, regs) && FlowOk(regs, FlowOf())
    }

    ghost function FlowOf(): Flow
      reads this
    {
      Flow(nodes, edges, origins)
    }

    constructor (regs: Profile, bases: Bases)
      requires Proper(regs) && ProfileFits(bases, regs)
      ensures Valid() && vars == Leaf && nodes == [] && edges == [] && origins == map[]
      ensures stack == [] && cur == None && last == None
      ensures this.regs == regs && this.bases == bases
    {
      this.regs, this.bases := regs, bases;
      vars, todo, insert := Leaf, [], None;
      nodes, edges, origins := [], [], map[];
      stack, cur, last := [], None, None;
    }

    // ------------------------------------------------------------ writes

    /** One round of the write loop: the first piece is deleted, and a half that was split off
        is inserted again. */
    method ClearPiece()
      requires Solid(todo) && todo != [] && insert == None && Sound(bases, |nodes|, vars)
      modifies this`vars, this`todo, this`insert
      ensures vars == Round(old(vars), old(todo)[0]) && todo == old(todo)[1..] + RbTake(old(vars), old(todo)[0]).todo
      ensures insert == None && Sound(bases, |nodes|, vars)
    {
      var rv := todo[0];
      RoundSound(bases, |nodes|, vars, rv);
      var c := RbTake(vars, rv);
      vars, todo, insert := c.tree, todo[1..] + c.todo, c.insert;
      if insert.Some? {
        vars, insert := RbInsert(vars, insert.value), None;
      }
    }

    /** The loop shared by _edf_reg_set and _edf_mem_set. */
    method Clear(rng: Interval)
      requires Valid() && Fits(bases, rng)
      modifies this`vars, this`todo, this`insert
      ensures Valid() && vars == Drain(old(vars), [rng])
      ensures Ordered(old(vars)) && AtMostOne(Elems(old(vars)), rng) ==>
                Ordered(vars) && Elems(vars) == Trimmed(Elems(old(vars)), rng)
    {
      todo := [rng];
      while todo != []
        invariant Solid(todo) && insert == None && Sound(bases, |nodes|, vars)
        invariant Drain(vars, todo) == Drain(old(vars), [rng])
        decreases Longest(todo), Count(todo, Longest(todo)), First(todo, Longest(todo))
      {
        RoundQueue(vars, todo[0]);
        QueueShrinks(todo, RbTake(vars, todo[0]).todo);
        ClearPiece();
      }
      if Ordered(old(vars)) && AtMostOne(Elems(old(vars)), rng) { DrainExact(bases, old(vars), rng); }
    }

    /** Common half of _edf_reg_set and _edf_mem_set.  When the range holds at most one stored
        interval entirely, exactly its bits are relabelled. */
    method Set(rng: Interval, node: nat)
      requires Valid() && Fits(bases, rng) && node < |nodes|
      modifies this`vars, this`todo, this`insert
      ensures Valid() && vars == SetTree(old(vars), rng, node)
      ensures Ordered(old(vars)) && AtMostOne(Elems(old(vars)), rng) ==> Relabelled(old(vars), vars, rng, node)
    {
      Clear(rng);
      InsertSound(bases, |nodes|, vars, rng.(node := node));
      vars := RbInsert(vars, rng.(node := node));
      if Ordered(old(vars)) && AtMostOne(Elems(old(vars)), rng) {
        SetExact(bases, old(vars), rng, node);
        forall k, b { SetBits(bases, old(vars), rng, node, k, b); }
      }
    }

    method RegSet(reg: string, node: nat) returns (ok: bool)
      requires Valid() && node < |nodes|
      modifies this`vars, this`todo, this`insert
      ensures Valid() && ok == (reg in regs)
      ensures !ok ==> vars == old(vars)
      ensures ok ==> vars == SetTree(old(vars), Range(regs, reg), node)
      ensures ok && Ordered(old(vars)) && AtMostOne(Elems(old(vars)), Range(regs, reg)) ==>
                Relabelled(old(vars), vars, Range(regs, reg), node)
    {
      ok := reg in regs;
      if ok { Set(Range(regs, reg), node); }
    }

    method MemSet(addr: int, size: nat, node: nat) returns (ok: bool)
      requires Valid() && node < |nodes|
      requires size > 0 ==> Fits(bases, Interval(Mem, addr, addr + size - 1, 0))
      modifies this`vars, this`todo, this`insert
      ensures Valid() && ok == (size > 0)
      ensures !ok ==> vars == old(vars)
      ensures ok ==> vars == SetTree(old(vars), Interval(Mem, addr, addr + size - 1, 0), node)
      ensures ok && Ordered(old(vars)) && AtMostOne(Elems(old(vars)), Interval(Mem, addr, addr + size - 1, 0)) ==>
                Relabelled(old(vars), vars, Interval(Mem, addr, addr + size - 1, 0), node)
    {
      ok := size > 0;
      if ok { Set(Interval(Mem, addr, addr + size - 1, 0), node); }
    }

    /** Any sequence of writes.  As long as each of them swallows at most one interval, every bit
        ends with the node of the last write over it. */
    method SetAll(writes: seq<Interval>)
      requires Valid() && Solid(writes)
      requires forall i :: 0 <= i < |writes| ==> Fits(bases, writes[i]) && writes[i].node < |nodes|
      modifies this`vars, this`todo, this`insert
      ensures Valid() && vars == SetTrees(old(vars), writes)
      ensures Ordered(old(vars)) && TidyWrites(Elems(old(vars)), writes) ==>
                Ordered(vars) && forall k, b :: At(vars, k, b) == Or(LastWriter(writes, k, b), old(At(vars, k, b)))
    {
      var i := 0;
      while i < |writes|
        invariant 0 <= i <= |writes| && Valid() && Solid(writes[i..])
        invariant SetTrees(vars, writes[i..]) == SetTrees(old(vars), writes)
      {
        Set(writes[i], writes[i].node);
        assert writes[i..][1..] == writes[i + 1..];
        i := i + 1;
      }
      if Ordered(old(vars)) && TidyWrites(Elems(old(vars)), writes) {
        TidyWritesExact(bases, old(vars), writes);
      }
    }

    // ------------------------------------------------------------ reads

    method AddNode(tags: set<Tag>) returns (n: nat)
      modifies this`nodes
      ensures n == |old(nodes)| && nodes == old(nodes) + [tags]
    {
      n := |nodes|;
      nodes := nodes + [tags];
    }

    /** _edf_origin_reg_get and _edf_uninitialized_mem_get. */
    method GapNode(gap: Gap) returns (n: nat)
      requires (gap.OriginOf? ==> gap.reg in regs) && FlowOk(regs, FlowOf())
      modifies this`nodes, this`edges, this`origins
      ensures FlowOk(regs, FlowOf()) && n == old(GapId(gap, FlowOf()))
      ensures FilledBy(gap, old(FlowOf()), FlowOf(), true, n)
    {
      match gap
      case OriginOf(reg) =>
        if reg in origins {
          n := origins[reg];
          assert origins[reg := n] == origins;
          return;
        }
        var plain := AddNode({});
        n := AddNode({VAR, REG});
        edges := edges + [(plain, n)];
        origins := origins[reg := n];
      case FreshMem(readOnly) =>
        var plain := AddNode({});
        n := AddNode(FreshTags(readOnly));
        edges := edges + [(plain, n)];
    }

    /** A piece that nothing covers is inserted with the node for gaps. */
    method FillPiece(rv: Interval, gap: Gap, fill: Option<nat>, ghost f: Flow) returns (n: nat)
      requires (gap.OriginOf? ==> gap.reg in regs) && FlowOk(regs, FlowOf())
      requires FilledBy(gap, f, FlowOf(), fill.Some?, GapId(gap, f)) && (fill.Some? ==> fill == Some(GapId(gap, f)))
      modifies this`vars, this`nodes, this`edges, this`origins
      ensures FlowOk(regs, FlowOf()) && n == GapId(gap, f)
      ensures FilledBy(gap, f, FlowOf(), true, n) && vars == RbInsert(old(vars), rv.(node := n))
    {
      if fill.None? { n := GapNode(gap); } else { n := fill.value; }
      vars := RbInsert(vars, rv.(node := n));
    }

    /** The loop shared by _edf_reg_get and _edf_mem_get: look the range up piece by piece,
        collect the nodes that define it, and fill every gap with one node. */
    method Gather(rng: Interval, gap: Gap) returns (parts: seq<nat>)
      requires Valid() && Fits(bases, rng) && (gap.OriginOf? ==> gap.reg in regs)
      modifies this`vars, this`todo, this`nodes, this`edges, this`origins
      ensures Valid() && parts != [] && forall m :: m in parts ==> m < |nodes|
      ensures var n := old(GapId(gap, FlowOf()));
        var g := Collect(old(vars), [rng], n, false);
        vars == g.tree && parts == g.parts && FilledBy(gap, old(FlowOf()), FlowOf(), g.filled, n)
      ensures Ordered(old(vars)) ==>
                Collected(old(vars), vars, rng, parts, FillOf(old(vars), rng, old(GapId(gap, FlowOf()))))
    {
      ghost var f, before := FlowOf(), vars;
      ghost var n0 := GapId(gap, f);
      ghost var g0 := Collect(vars, [rng], n0, false);
      var fill: Option<nat>;
      todo, parts, fill := [rng], [], None;
      assert [] + g0.parts == g0.parts;
      while todo != []
        invariant Solid(todo) && insert == None && (fill.Some? ==> fill == Some(n0))
        invariant FlowOk(regs, FlowOf()) && FilledBy(gap, f, FlowOf(), fill.Some?, n0)
        invariant var g := Collect(vars, todo, n0, fill.Some?);
          g0 == Gathered(g.tree, parts + g.parts, g.filled)
        decreases Longest(todo), Count(todo, Longest(todo)), First(todo, Longest(todo))
      {
        var rv := todo[0];
        var h := Search(vars, rv);
        SearchQueue(vars, rv);
        QueueShrinks(todo, h.todo);
        if h.part.Some? {
          HitStep(vars, todo, n0, fill.Some?, parts);
          parts := parts + [h.part.value.node];
        } else {
          MissStep(vars, todo, n0, fill.Some?, parts);
          var n := FillPiece(rv, gap, fill, f);
          if fill.None? { fill, parts := Some(n), parts + [n]; }
        }
        todo := todo[1..] + h.todo;
      }
      assert parts + [] == parts;
      GatherEnd(bases, before, rng, n0, |f.nodes|, |nodes|);
    }

    /** The tail shared by _edf_reg_get and _edf_mem_get. */
    method MergeParts(parts: seq<nat>, tag: Tag) returns (n: nat)
      requires parts != [] && FlowOk(regs, FlowOf()) && forall p :: p in parts ==> p < |nodes|
      modifies this`nodes, this`edges
      ensures FlowOk(regs, FlowOf()) && MergedBy(parts, tag, old(FlowOf()), FlowOf(), n)
      ensures |parts| > 1 ==> forall k: nat :: (k, n) in edges <==> k in parts
    {
      assert parts[0] in parts;
      if |parts| == 1 { return parts[0]; }
      n := AddNode({MERGE, tag});
      var i := 0;
      while i < |parts|
        invariant 0 <= i <= |parts|
        invariant nodes == old(nodes) + [{MERGE, tag}]
        invariant edges == old(edges) + EdgesTo(parts[..i], n)
      {
        edges := edges + [(parts[i], n)];
        i := i + 1;
      }
      assert parts[..|parts|] == parts;
      forall k: nat ensures (k, n) in edges <==> k in parts {
        EdgesToMembers(parts, n, k);
      }
    }

    /** The body shared by _edf_reg_get and _edf_mem_get. */
    method ReadRange(rng: Interval, gap: Gap, tag: Tag) returns (n: nat)
      requires Valid() && Fits(bases, rng) && (gap.OriginOf? ==> gap.reg in regs)
      modifies this`vars, this`todo, this`nodes, this`edges, this`origins
      ensures Valid() && old(nodes) <= nodes && n < |nodes|
      ensures ReadBy(rng, gap, tag, old(vars), old(FlowOf()), vars, FlowOf(), n)
      ensures Ordered(old(vars)) ==> ReadExact(rng, gap, tag, old(vars), old(FlowOf()), vars, FlowOf(), n)
    {
      ghost var t, f := vars, FlowOf();
      var parts := Gather(rng, gap);
      ghost var f1 := FlowOf();
      n := MergeParts(parts, tag);
      assert FilledBy(gap, f, f1, Collect(t, [rng], GapId(gap, f), false).filled, GapId(gap, f));
      if Ordered(t) { ReadDone(bases, rng, gap, tag, t, f, f1, FlowOf(), n); }
    }

    /** The register read. */
    method RegGet(reg: string) returns (n: Option<nat>)
      requires Valid()
      modifies this`vars, this`todo, this`nodes, this`edges, this`origins
      ensures Valid() && old(nodes) <= nodes
      ensures n.Some? <==> reg in regs
      ensures n.None? ==> vars == old(vars) && FlowOf() == old(FlowOf())
      ensures n.Some? ==> n.value < |nodes|
      ensures n.Some? ==>
                ReadBy(Range(regs, reg), OriginOf(reg), REG, old(vars), old(FlowOf()), vars, FlowOf(), n.value)
      ensures n.Some? && Ordered(old(vars)) ==>
                ReadExact(Range(regs, reg), OriginOf(reg), REG, old(vars), old(FlowOf()), vars, FlowOf(), n.value)
    {
      if reg !in regs { return None; }
      var m := ReadRange(Range(regs, reg), OriginOf(reg), REG);
      n := Some(m);
    }

    /** A register read right after it was set answers the node it was set to, if the write
        swallowed at most one interval. */
    method SetThenGet(reg: string, node: nat) returns (n: Option<nat>)
      requires Valid() && reg in regs && node < |nodes|
      modifies this`vars, this`todo, this`insert, this`nodes, this`edges, this`origins
      ensures Valid() && n.Some?
      ensures Ordered(old(vars)) && AtMostOne(Elems(old(vars)), Range(regs, reg)) ==>
                n == Some(node) && FlowOf() == old(FlowOf())
    {
      var ok := RegSet(reg, node);
      assert In(Range(regs, reg), Reg, regs[reg].0);
      n := RegGet(reg);
    }

    /** The memory read, with one fresh node for every uninitialised byte of the range. */
    method MemGet(addr: int, size: nat, readOnly: bool) returns (n: Option<nat>)
      requires Valid()
      requires size > 0 ==> Fits(bases, Interval(Mem, addr, addr + size - 1, 0))
      modifies this`vars, this`todo, this`nodes, this`edges, this`origins
      ensures Valid() && old(nodes) <= nodes && (n.Some? <==> size > 0)
      ensures n.None? ==> vars == old(vars) && FlowOf() == old(FlowOf())
      ensures n.Some? ==> n.value < |nodes|
      ensures n.Some? ==>
                ReadBy(Interval(Mem, addr, addr + size - 1, 0), FreshMem(readOnly), MEM,
                          old(vars), old(FlowOf()), vars, FlowOf(), n.value)
      ensures n.Some? && Ordered(old(vars)) ==>
                ReadExact(Interval(Mem, addr, addr + size - 1, 0), FreshMem(readOnly), MEM,
                          old(vars), old(FlowOf()), vars, FlowOf(), n.value)
    {
      if size == 0 { return None; }
      var m := ReadRange(Interval(Mem, addr, addr + size - 1, 0), FreshMem(readOnly), MEM);
      n := Some(m);
    }

    // ------------------------------------------------------------ operators of the builder

    function Snap(): Graph
      reads this
    {
      Graph(vars, nodes, stack, cur)
    }

    ghost predicate Ready()
      reads this
    {
      && Valid()
      && (cur.Some? ==> cur.value < |nodes|) && (last.Some? ==> last.value < |nodes|)
      && forall i :: 0 <= i < |stack| ==> ItemOk(stack[i])
    }

    ghost predicate ItemOk(it: Item)
      reads this
    {
      (it.Var? ==> it.node < |nodes|) && (it.RegName? ==> it.name in regs)
    }

    /** The node of an operand: a register is read, a number becomes a constant node, a result
        is looked up.  It is tagged constant exactly when the operand is. */
    method OperandNode(it: Item) returns (n: nat)
      requires Valid() && ItemOk(it)
      modifies this`vars, this`todo, this`nodes, this`edges, this`origins
      ensures Valid() && n < |nodes|
      ensures ReadStep(regs, old(Snap()), it, Snap(), n)
    {
      match it
      case RegName(r) =>
        ghost var t, f := vars, FlowOf();
        var m := RegGet(r);
        n := m.value;
        RegMarks(regs, r, t, f, vars, FlowOf(), n);
      case Num(_) =>
        var plain := AddNode({});
        n := AddNode({CONST});
        edges := edges + [(plain, n)];
        MarksMore(old(nodes), nodes, vars);
      case Var(k) => n := k;
    }

    /** An operand looked up while the other entries stay on the stack. */
    method ReadItem(it: Item) returns (n: nat)
      requires Ready() && ItemOk(it)
      modifies this`vars, this`todo, this`nodes, this`edges, this`origins
      ensures Ready() && n < |nodes|
      ensures Abs(Snap()) == old(Abs(Snap())).(tree := ReadTree(regs, old(Abs(Snap()).tree), old(EntryOf(nodes, it))))
    {
      ghost var g := Snap();
      n := OperandNode(it);
      SameEntries(g, Snap());
    }

    /** A node that only consumes s. */
    method ConsumeNode(s: nat)
      requires Ready() && s < |nodes|
      modifies this`nodes, this`edges
      ensures Ready() && Abs(Snap()) == old(Abs(Snap()))
    {
      ghost var g := Snap();
      var op := AddNode({GENERATIVE});
      edges := edges + [(s, op)];
      SameEntries(g, Snap());
      MarksMore(g.nodes, nodes, vars);
    }

    method LinkResult(d: nat, s: nat, tags: set<Tag>) returns (k: nat)
      requires Valid() && d < |nodes| && s < |nodes|
      modifies this`nodes, this`edges
      ensures Valid() && k == |old(nodes)| + 1 && nodes == old(nodes) + [{GENERATIVE}, tags]
      ensures edges == old(edges) + [(d, k - 1), (s, k - 1), (k - 1, k)]
    {
      var op := AddNode({GENERATIVE});
      edges := edges + [(d, op), (s, op)];
      k := AddNode(tags);
      edges := edges + [(op, k)];
    }

    /** A new operation node fed by d and s, and a new result node that reg is set to.  The weak
        form leaves what the flag operators look at alone. */
    method WriteResult(reg: string, d: nat, s: nat, tags: set<Tag>, weak: bool) returns (k: nat)
      requires Valid() && reg in regs && d < |nodes| && s < |nodes|
      modifies this`vars, this`todo, this`insert, this`nodes, this`edges, this`cur, this`last
      ensures Valid() && k == |old(nodes)| + 1 && nodes == old(nodes) + [{GENERATIVE}, tags]
      ensures old(nodes) <= nodes
      ensures edges == old(edges) + [(d, k - 1), (s, k - 1), (k - 1, k)]
      ensures vars == SetTree(old(vars), Range(regs, reg), k)
      ensures Ordered(old(vars)) && AtMostOne(Elems(old(vars)), Range(regs, reg)) ==>
                Relabelled(old(vars), vars, Range(regs, reg), k)
      ensures cur == (if weak then old(cur) else Some(k)) && last == (if weak then old(last) else Some(d))
    {
      var oldCur, oldLast := cur, last;
      k := LinkResult(d, s, tags);
      last := Some(d);
      var done := RegSet(reg, k);
      cur := Some(k);
      if weak { last, cur := oldLast, oldCur; }
    }

    /** The operands of an assignment: the source is read, then the destination for "op=".  A
        destination that is overwritten outright is looked up as its origin node. */
    method ReadOperands(src: Item, dst: Item, how: How) returns (s: nat, d: nat)
      requires Valid() && ItemOk(src) && ItemOk(dst) && dst.RegName?
      modifies this`vars, this`todo, this`nodes, this`edges, this`origins
      ensures Valid() && old(nodes) <= nodes && s < |nodes| && d < |nodes|
      ensures ReadSet(regs, old(Snap()), src, dst, how, Snap(), s, d)
    {
      ghost var g := Snap();
      s := OperandNode(src);
      ghost var g1 := Snap();
      if how.Update? {
        d := OperandNode(dst);
      } else {
        d := GapNode(OriginOf(dst.name));
        MarksMore(g1.nodes, nodes, vars);
      }
      assert ReadStep(regs, g, src, g1, s);
    }

    /** An assignment to a register. */
    method SetReg(src: Item, dst: Item, how: How)
      requires Ready() && ItemOk(src) && ItemOk(dst) && dst.RegName?
      modifies this`vars, this`todo, this`insert, this`nodes, this`edges, this`origins, this`cur, this`last
      ensures Ready()
      ensures (Abs(Snap()), true)
           == AssignTree(regs, old(Abs(Snap())), old(EntryOf(nodes, src)), old(EntryOf(nodes, dst)), how)
    {
      ghost var g := Snap();
      var s, d := ReadOperands(src, dst, how);
      ghost var g2 := Snap();
      var fixed := CONST in nodes[s] && (how.Update? ==> CONST in nodes[d]);
      var k := WriteResult(dst.name, d, s, Tags({RESULT, VAR, REG}, fixed), how.Weak?);
      AssignDone(regs, g, g2, Snap(), src, dst, how, s, d, k);
    }

    /** Only a register can be assigned to; for a number the source is read before that is noticed. */
    method AssignTo(src: Item, dst: Item, how: How) returns (ok: bool)
      requires Ready() && ItemOk(src) && ItemOk(dst)
      modifies this`vars, this`todo, this`insert, this`nodes, this`edges, this`origins, this`cur, this`last
      ensures Ready()
      ensures (Abs(Snap()), ok)
           == AssignTree(regs, old(Abs(Snap())), old(EntryOf(nodes, src)), old(EntryOf(nodes, dst)), how)
    {
      if dst.Var? { return false; }
      ok := dst.RegName?;
      if ok {
        SetReg(src, dst, how);
      } else {
        var unused := ReadItem(src);
      }
    }

    /** "=", ":=" and the "op=" family: _edf_consume_2_set_reg behind edf_consume_2_set_reg,
        edf_eq_weak and edf_consume_2_use_set_reg. */
    method ConsumeSetReg(how: How) returns (ok: bool)
      requires Ready()
      modifies this
      ensures Ready()
      ensures (Abs(Snap()), ok) == Apply(regs, old(Abs(Snap())), ConstTags.Set(how))
    {
      ghost var g := Snap();
      if |stack| < 2 {
        PopAbs(g, 0);
        stack := stack[..0];
        return false;
      }
      PopAbs(g, |stack| - 2);
      var dst, src := stack[|stack| - 1], stack[|stack| - 2];
      stack := stack[..|stack| - 2];
      ok := AssignTo(src, dst, how);
    }

    method PushResult(op: nat, tags: set<Tag>) returns (k: nat)
      requires Ready() && op < |nodes|
      modifies this`nodes, this`edges, this`stack
      ensures Ready() && k == |old(nodes)| && nodes == old(nodes) + [tags]
      ensures stack == old(stack) + [Var(k)] && edges == old(edges) + [(op, k)]
    {
      k := AddNode(tags);
      edges := edges + [(op, k)];
      stack := stack + [Var(k)];
    }

    /** An operation node, fed by an operand. */
    method OpNode1(a: Item, tags: set<Tag>) returns (op: nat, s: nat)
      requires Valid() && ItemOk(a)
      modifies this`vars, this`todo, this`nodes, this`edges, this`origins
      ensures Valid() && op < |nodes| && s < |nodes|
      ensures ReadStep(regs, old(Snap()), a, Snap(), s)
    {
      ghost var g := Snap();
      op := AddNode(tags);
      ghost var more := nodes;
      s := OperandNode(a);
      NodeFirst(regs, g, more, a, Snap(), s);
      edges := edges + [(s, op)];
    }

    /** The operation node of a binary operator, fed by both operands. */
    method OpNode(a: Item, b: Item) returns (op: nat, s: nat, d: nat)
      requires Valid() && ItemOk(a) && ItemOk(b)
      modifies this`vars, this`todo, this`nodes, this`edges, this`origins
      ensures Valid() && op < |nodes| && s < |nodes| && d < |nodes|
      ensures ReadTwo(regs, old(Snap()), a, b, Snap(), s, d)
    {
      ghost var g := Snap();
      op, s := OpNode1(a, {RESULT, GENERATIVE});
      ghost var g1 := Snap();
      d := OperandNode(b);
      edges := edges + [(d, op)];
      assert ReadStep(regs, g, a, g1, s) && ReadStep(regs, g1, b, Snap(), d);
    }

    /** edf_consume_2_push_1: the result is constant when both operands are. */
    method Consume2Push1(name: string) returns (ok: bool)
      requires Ready()
      modifies this
      ensures Ready()
      ensures (Abs(Snap()), ok) == Apply(regs, old(Abs(Snap())), Bin(name))
    {
      ghost var g := Snap();
      if |stack| < 2 {
        PopAbs(g, 0);
        stack := stack[..0];
        return false;
      }
      PopAbs(g, |stack| - 2);
      var a, b := stack[|stack| - 1], stack[|stack| - 2];
      stack := stack[..|stack| - 2];
      PushBin(a, b);
      ok := true;
    }

    method PushBin(a: Item, b: Item)
      requires Ready() && ItemOk(a) && ItemOk(b)
      modifies this`vars, this`todo, this`nodes, this`edges, this`origins, this`stack
      ensures Ready()
      ensures var s, x, y := old(Abs(Snap())), old(EntryOf(nodes, a)), old(EntryOf(nodes, b));
        var t := ReadTree(regs, s.tree, x);
        Abs(Snap()) == s.(tree := ReadTree(regs, t, y),
                          stack := s.stack + [Res(FixedIn(regs, s.tree, x) && FixedIn(regs, t, y))])
    {
      ghost var g := Snap();
      var op, s, d := OpNode(a, b);
      ghost var g2 := Snap();
      var k := PushResult(op, Tags({RESULT}, CONST in nodes[s] && CONST in nodes[d]));
      BinDone(regs, g, g2, Snap(), a, b, s, d);
    }

    /** edf_consume_1_push_1 for the arithmetic operators "!", "++" and "--". */
    method Consume1Push1(name: string) returns (ok: bool)
      requires Ready()
      modifies this
      ensures Ready()
      ensures (Abs(Snap()), ok) == Apply(regs, old(Abs(Snap())), Un(name))
    {
      if |stack| < 1 { return false; }
      PopAbs(Snap(), |stack| - 1);
      var a := stack[|stack| - 1];
      stack := stack[..|stack| - 1];
      ghost var popped := Snap();
      var op, s := OpNode1(a, {RESULT, GENERATIVE});
      ghost var g2 := Snap();
      var k := PushResult(op, Tags({RESULT}, CONST in nodes[s]));
      ResultDone(popped, g2, Snap(), CONST in g2.nodes[s]);
      ok := true;
    }

    /** edf_dup. */
    method DupTop() returns (ok: bool)
      requires Ready()
      modifies this
      ensures Ready()
      ensures (Abs(Snap()), ok) == Apply(regs, old(Abs(Snap())), Dup)
    {
      ghost var g := Snap();
      if |stack| < 1 { return false; }
      PopAbs(g, |stack| - 1);
      var top := stack[|stack| - 1];
      ok := true;
      if top.Var? {
        stack := stack[..|stack| - 1];
        SplitResult(top.node);
      } else {
        stack := stack[..|stack| - 1] + [top] + [top];
      }
      DupDone(g, Snap());
    }

    /** DUP of a result: one operation node with two sibling results. */
    method SplitResult(n: nat)
      requires Ready() && n < |nodes|
      modifies this`nodes, this`edges, this`stack
      ensures Ready() && |nodes| == |old(nodes)| + 3 && old(nodes) <= nodes
      ensures stack == old(stack) + [Var(|nodes| - 2), Var(|nodes| - 1)]
      ensures nodes[|nodes| - 2] == nodes[|nodes| - 1] == Tags({RESULT, SIBLING}, ConstNode(old(nodes), n))
    {
      var tags := Tags({RESULT, SIBLING}, CONST in nodes[n]);
      var op := AddNode({GENERATIVE});
      var k := AddNode(tags);
      var l := AddNode(tags);
      edges := edges + [(n, op), (op, k), (op, l)];
      stack := stack + [Var(k), Var(l)];
    }

    /** edf_pop. */
    method PopTop() returns (ok: bool)
      requires Ready()
      modifies this
      ensures Ready()
      ensures (Abs(Snap()), ok) == Apply(regs, old(Abs(Snap())), Pop)
    {
      if |stack| < 1 { return false; }
      PopAbs(Snap(), |stack| - 1);
      var top := stack[|stack| - 1];
      stack := stack[..|stack| - 1];
      var s := ReadItem(top);
      ConsumeNode(s);
      ok := true;
    }

    /** The flag operators: they refuse to work before any comparison was recorded, and their
        result is never constant. */
    method FlagOp(name: string, arity: nat) returns (ok: bool)
      requires Ready() && arity <= 1
      modifies this
      ensures Ready()
      ensures (Abs(Snap()), ok) == Apply(regs, old(Abs(Snap())), Flag(name, arity))
    {
      if |stack| < arity { return false; }
      PopAbs(Snap(), |stack| - arity);
      var op := FlagNode(arity);
      ok := cur.Some?;
      if ok {
        edges := edges + [(cur.value, op)] + (if arity == 1 && last.Some? then [(last.value, op)] else []);
        PushFlag(op);
      }
    }

    method PushFlag(op: nat)
      requires Ready() && op < |nodes|
      modifies this`nodes, this`edges, this`stack
      ensures Ready()
      ensures Abs(Snap()) == old(Abs(Snap())).(stack := old(Abs(Snap()).stack) + [Res(false)])
    {
      ghost var g := Snap();
      var k := PushResult(op, Tags({RESULT}, false));
      ResultDone(g, g, Snap(), false);
    }

    method FlagNode(arity: nat) returns (op: nat)
      requires Ready() && arity <= 1 && arity <= |stack|
      modifies this`vars, this`todo, this`nodes, this`edges, this`origins, this`stack
      ensures Ready() && op < |nodes|
      ensures stack == old(stack[..|stack| - arity])
      ensures var s, t := old(Abs(Snap())), old(Abs(Snap())).tree;
        Abs(Snap()) == State(if arity == 0 then t else ReadTree(regs, t, s.stack[|s.stack| - 1]),
                             s.stack[..|s.stack| - arity], s.compared)
    {
      ghost var g := Snap();
      PopAbs(g, |stack| - arity);
      if arity == 1 {
        var top := stack[|stack| - 1];
        stack := stack[..|stack| - 1];
        ghost var popped := Snap();
        var s;
        op, s := OpNode1(top, {});
        SameEntries(popped, Snap());
      } else {
        op := AddNode({});
        assert stack[..|stack|] == stack;
        SameEntries(g, Snap());
        MarksMore(g.nodes, nodes, vars);
      }
    }

    /** One word of the expression. */
    method Exec(w: Word) returns (ok: bool)
      requires Ready() && WordOk(regs, w)
      modifies this
      ensures Ready()
      ensures (Abs(Snap()), ok) == Apply(regs, old(Abs(Snap())), w)
    {
      match w
      case PushReg(r) => ok := PushItem(RegName(r));
      case PushNum(n) => ok := PushItem(Num(n));
      case Set(how) => ok := ConsumeSetReg(how);
      case Bin(op) => ok := Consume2Push1(op);
      case Un(op) => ok := Consume1Push1(op);
      case Dup => ok := DupTop();
      case Pop => ok := PopTop();
      case Flag(op, arity) => ok := FlagOp(op, arity);
    }

    method PushItem(it: Item) returns (ok: bool)
      requires Ready() && ItemOk(it)
      modifies this`stack
      ensures Ready() && ok
      ensures Abs(Snap()) == old(Abs(Snap())).(stack := old(Abs(Snap()).stack) + [old(EntryOf(nodes, it))])
    {
      ok := true;
      assert Entries(nodes, stack + [it]) == Entries(nodes, stack) + [EntryOf(nodes, it)];
      stack := stack + [it];
    }

    /** The parse stops at the first operator that returns false. */
    method Parse(prog: seq<Word>) returns (ok: bool)
      requires Ready() && WellFormed(regs, prog)
      modifies this
      ensures Ready()
      ensures (Abs(Snap()), ok) == ApplyAll(regs, old(Abs(Snap())), prog)
    {
      ghost var goal, now := ApplyAll(regs, Abs(Snap()), prog), Abs(Snap());
      ok := true;
      var i := 0;
      assert prog[0..] == prog;
      while ok && i < |prog|
        invariant 0 <= i <= |prog| && Ready() && now == Abs(Snap())
        invariant goal == if ok then ApplyAll(regs, now, prog[i..]) else (now, false)
        decreases |prog| - i
      {
        RestOf(regs, now, prog, i);
        ok := Exec(prog[i]);
        now := Abs(Snap());
        i := i + 1;
      }
    }

    /** r_anal_esil_dfg_expr: a parse that starts with an empty stack. */
    method Build(prog: seq<Word>) returns (ok: bool)
      requires Ready() && WellFormed(regs, prog)
      modifies this
      ensures Ready()
      ensures (Abs(Snap()), ok) == ApplyAll(regs, old(Abs(Snap())).(stack := []), prog)
      ensures ok <==> Accepts([], old(cur).Some?, prog)
    {
      StartAbs(regs, Snap(), prog);
      stack := [];
      ok := Parse(prog);
    }

    /** r_anal_esil_dfg_reg_is_const.  In an ordered tree it is true exactly when every bit of the
        register is defined by a constant node.  Nothing is read into the graph on the way. */
    method RegIsConst(reg: string) returns (c: bool)
      requires Valid()
      modifies this`todo
      ensures Valid()
      ensures c <==> reg in regs && AllConst(Marks(nodes, vars), [Range(regs, reg)])
      ensures Ordered(vars) ==>
                (c <==> reg in regs && forall b :: In(Range(regs, reg), Reg, b) ==> ConstBit(vars, nodes, b))
    {
      if reg !in regs { return false; }
      var rng := Range(regs, reg);
      todo := [rng];
      c := true;
      while todo != []
        invariant Solid(todo) && c
        invariant AllConst(Marks(nodes, vars), todo) <==> AllConst(Marks(nodes, vars), [rng])
        decreases Longest(todo), Count(todo, Longest(todo)), First(todo, Longest(todo))
      {
        var rv := todo[0];
        var h := Search(vars, rv);
        SearchQueue(vars, rv);
        QueueShrinks(todo, h.todo);
        MarksSearch(nodes, vars, rv);
        if h.part.None? || CONST !in nodes[h.part.value.node] {
          c, todo := false, [];
          break;
        }
        todo := todo[1..] + h.todo;
      }
      if Ordered(vars) { ConstBits(nodes, vars, rng); }
    }
  }

  lemma GatherEnd(w: Bases, t: Tree, rng: Interval, n: nat, k: nat, k': nat)
    requires Sound(w, k, t) && Fits(w, rng) && k <= k'
    requires Collect(t, [rng], n, false).filled ==> n < k'
    ensures var g := Collect(t, [rng], n, false);
      && Sound(w, k', g.tree) && g.parts != [] && (forall m :: m in g.parts ==> m < k')
      && (Ordered(t) ==> Collected(t, g.tree, rng, g.parts, Fill(g.filled, n)))
  {
    CollectSound(w, k', t, [rng], n, false);
    CollectSome(t, rng, n);
    if Ordered(t) { CollectExact(w, t, rng, n); }
  }

  // ---------------------------------------------------------------- operators, by value

  ghost predicate Below(t: Tree, n: nat) { forall x :: x in Elems(t) ==> x.node < n }

  ghost predicate ItemBelow(it: Item, n: nat) { it.Var? ==> it.node < n }

  /** Nodes were added and stretches of the registers looked up, nothing else. */
  ghost predicate Extends(g: Graph, g': Graph) {
    g.nodes <= g'.nodes && g'.stack == g.stack && g'.cur == g.cur && Below(g.vars, |g.nodes|)
  }

  /** One operand was looked up: the marks are those of ReadTree, and the node found is tagged
      constant exactly when the operand is. */
  ghost predicate ReadStep(regs: Profile, g: Graph, it: Item, g': Graph, n: nat)
    requires Proper(regs)
  {
    && Extends(g, g') && n < |g'.nodes|
    && Marks(g'.nodes, g'.vars) == ReadTree(regs, Marks(g.nodes, g.vars), EntryOf(g.nodes, it))
    && (ConstNode(g'.nodes, n) <==> FixedIn(regs, Marks(g.nodes, g.vars), EntryOf(g.nodes, it)))
  }

  /** Two operands, one after the other. */
  ghost predicate ReadTwo(regs: Profile, g: Graph, fst: Item, snd: Item, g': Graph, s: nat, d: nat)
    requires Proper(regs)
  {
    exists g1 :: ReadStep(regs, g, fst, g1, s) && ReadStep(regs, g1, snd, g', d)
  }

  lemma RegMarks(regs: Profile, r: string, t: Tree, f: Flow, t': Tree, f': Flow, n: nat)
    requires Proper(regs) && r in regs && FlowOk(regs, f) && f.nodes <= f'.nodes && Below(t, |f.nodes|)
    requires ReadBy(Range(regs, r), OriginOf(r), REG, t, f, t', f', n)
    ensures Marks(f'.nodes, t') == ReadTree(regs, Marks(f.nodes, t), Loc(r))
    ensures ConstNode(f'.nodes, n) <==> FixedIn(regs, Marks(f.nodes, t), Loc(r))
  {
    var rng, id := Range(regs, r), GapId(OriginOf(r), f);
    var g := Collect(t, [rng], id, false);
    var f1 :| FilledBy(OriginOf(r), f, f1, g.filled, id) && MergedBy(g.parts, REG, f1, f', n);
    ReadMarks(f.nodes, f'.nodes, t, rng, id, n);
  }

  ghost predicate ItemsBelow(s: seq<Item>, n: nat) { forall i :: 0 <= i < |s| ==> ItemBelow(s[i], n) }

  /** Nodes added later change no entry of the stack. */
  lemma SameEntries(g: Graph, g': Graph)
    requires Extends(g, g') && ItemsBelow(g.stack, |g.nodes|)
    ensures Entries(g'.nodes, g'.stack) == Entries(g.nodes, g.stack)
  {
    forall i | 0 <= i < |g.stack| ensures EntryOf(g'.nodes, g.stack[i]) == EntryOf(g.nodes, g.stack[i]) {
      assert ItemBelow(g.stack[i], |g.nodes|);
    }
  }

  /** Entries taken off the stack. */
  lemma PopAbs(g: Graph, k: nat)
    requires k <= |g.stack|
    ensures Abs(g.(stack := g.stack[..k])) == Abs(g).(stack := Abs(g).stack[..k])
    ensures |Abs(g).stack| == |g.stack|
    ensures forall i :: 0 <= i < |g.stack| ==> Abs(g).stack[i] == EntryOf(g.nodes, g.stack[i])
  {
  }

  /** The operands of an assignment were looked up. */
  ghost predicate ReadSet(regs: Profile, g: Graph, src: Item, dst: Item, how: How, g2: Graph, s: nat, d: nat)
    requires Proper(regs)
  {
    exists g1 :: ReadStep(regs, g, src, g1, s) && Below(g1.vars, |g1.nodes|)
      && if how.Update? then ReadStep(regs, g1, dst, g2, d)
         else g2 == g1.(nodes := g2.nodes) && g1.nodes <= g2.nodes
  }

  lemma AssignDone(regs: Profile, g: Graph, g2: Graph, g3: Graph, src: Item, dst: Item, how: How,
                   s: nat, d: nat, k: nat)
    requires Proper(regs) && dst.RegName? && dst.name in regs && ItemsBelow(g.stack, |g.nodes|)
    requires ReadSet(regs, g, src, dst, how, g2, s, d)
    requires s < |g2.nodes| && d < |g2.nodes| && Below(g2.vars, |g2.nodes|)
    requires k == |g2.nodes| + 1 && g3.stack == g2.stack && g3.cur == (if how.Weak? then g2.cur else Some(k))
    requires g3.nodes == g2.nodes + [{GENERATIVE},
               Tags({RESULT, VAR, REG}, CONST in g2.nodes[s] && (how.Update? ==> CONST in g2.nodes[d]))]
    requires g3.vars == SetTree(g2.vars, Range(regs, dst.name), k)
    ensures (Abs(g3), true) == AssignTree(regs, Abs(g), EntryOf(g.nodes, src), EntryOf(g.nodes, dst), how)
  {
    var rng := Range(regs, dst.name);
    var g1 :| ReadStep(regs, g, src, g1, s) && Below(g1.vars, |g1.nodes|)
      && if how.Update? then ReadStep(regs, g1, dst, g2, d) else g2 == g1.(nodes := g2.nodes) && g1.nodes <= g2.nodes;
    MarksMore(g2.nodes, g3.nodes, g2.vars);
    MarksSet(g3.nodes, g2.vars, rng, k);
    if !how.Update? { MarksMore(g1.nodes, g2.nodes, g1.vars); }
    SameEntries(g, g3.(vars := g.vars, cur := g.cur));
    assert EntryOf(g1.nodes, dst) == EntryOf(g.nodes, dst) == Loc(dst.name);
    var fixed := FixedIn(regs, Abs(g).tree, EntryOf(g.nodes, src))
                 && (how.Update? ==> FixedIn(regs, Marks(g1.nodes, g1.vars), Loc(dst.name)));
    assert g3.nodes[k] == Tags({RESULT, VAR, REG}, fixed);
    assert Mark(g3.nodes, k) == Label(fixed);
  }

  /** A node added before an operand is looked up makes no difference. */
  lemma NodeFirst(regs: Profile, g: Graph, more: Nodes, it: Item, g': Graph, n: nat)
    requires Proper(regs) && g.nodes <= more && Below(g.vars, |g.nodes|) && ItemBelow(it, |g.nodes|)
    requires ReadStep(regs, g.(nodes := more), it, g', n)
    ensures ReadStep(regs, g, it, g', n)
  {
    MarksMore(g.nodes, more, g.vars);
  }

  /** A result was pushed after the operands were looked up. */
  lemma ResultDone(g: Graph, g2: Graph, g3: Graph, fixed: bool)
    requires Extends(g, g2) && ItemsBelow(g.stack, |g.nodes|) && Below(g2.vars, |g2.nodes|)
    requires g3 == g2.(nodes := g2.nodes + [Tags({RESULT}, fixed)], stack := g2.stack + [Var(|g2.nodes|)])
    ensures Abs(g3) == Abs(g).(tree := Marks(g2.nodes, g2.vars), stack := Abs(g).stack + [Res(fixed)])
  {
    MarksMore(g2.nodes, g3.nodes, g2.vars);
    SameEntries(g, g3.(vars := g.vars, stack := g.stack));
    assert Entries(g3.nodes, g3.stack) == Entries(g3.nodes, g.stack) + [EntryOf(g3.nodes, Var(|g2.nodes|))];
  }

  lemma BinDone(regs: Profile, g: Graph, g2: Graph, g3: Graph, a: Item, b: Item, s: nat, d: nat)
    requires Proper(regs) && ReadTwo(regs, g, a, b, g2, s, d) && s < |g2.nodes| && d < |g2.nodes|
    requires ItemsBelow(g.stack, |g.nodes|) && Below(g2.vars, |g2.nodes|) && ItemBelow(b, |g.nodes|)
    requires g3 == g2.(nodes := g2.nodes + [Tags({RESULT}, CONST in g2.nodes[s] && CONST in g2.nodes[d])],
                       stack := g2.stack + [Var(|g2.nodes|)])
    ensures var t := ReadTree(regs, Abs(g).tree, EntryOf(g.nodes, a));
      var fixed := FixedIn(regs, Abs(g).tree, EntryOf(g.nodes, a)) && FixedIn(regs, t, EntryOf(g.nodes, b));
      Abs(g3) == Abs(g).(tree := ReadTree(regs, t, EntryOf(g.nodes, b)), stack := Abs(g).stack + [Res(fixed)])
  {
    var g1 :| ReadStep(regs, g, a, g1, s) && ReadStep(regs, g1, b, g2, d);
    assert EntryOf(g1.nodes, b) == EntryOf(g.nodes, b);
    ResultDone(g, g2, g3, CONST in g2.nodes[s] && CONST in g2.nodes[d]);
  }

  lemma DupDone(g: Graph, g': Graph)
    requires g.stack != [] && ItemsBelow(g.stack, |g.nodes|) && Below(g.vars, |g.nodes|)
    requires g.nodes <= g'.nodes && g'.vars == g.vars && g'.cur == g.cur
    requires var n, top := |g.stack|, g.stack[|g.stack| - 1];
      if top.Var? then
        var k := |g'.nodes|;
        && k >= |g.nodes| + 3 && g'.stack == g.stack[..n - 1] + [Var(k - 2), Var(k - 1)]
        && g'.nodes[k - 2] == g'.nodes[k - 1] == Tags({RESULT, SIBLING}, ConstNode(g.nodes, top.node))
      else g'.stack == g.stack[..n - 1] + [top] + [top]
    ensures Abs(g') == Abs(g).(stack := Abs(g).stack + [Abs(g).stack[|g.stack| - 1]])
  {
    var n, it := |g.stack|, EntryOf(g.nodes, g.stack[|g.stack| - 1]);
    MarksMore(g.nodes, g'.nodes, g.vars);
    SameEntries(g, g'.(stack := g.stack));
    assert g.stack == g.stack[..n - 1] + [g.stack[n - 1]];
    assert ItemBelow(g.stack[n - 1], |g.nodes|);
    forall i | 0 <= i <= n ensures Abs(g').stack[i] == (Abs(g).stack + [it])[i] {
      if i < n - 1 { assert Entries(g'.nodes, g.stack)[i] == Entries(g.nodes, g.stack)[i]; }
    }
  }

  lemma MarksElems(nodes: Nodes, t: Tree)
    ensures Elems(Marks(nodes, t)) == set x | x in Elems(t) :: Marked(nodes, x)
  {
    if t.Node? {
      MarksElems(nodes, t.left);
      MarksElems(nodes, t.right);
    }
  }

  lemma MarksOrdered(nodes: Nodes, t: Tree)
    ensures Ordered(t) ==> Ordered(Marks(nodes, t))
  {
    if t.Node? && Ordered(t) {
      MarksOrdered(nodes, t.left);
      MarksOrdered(nodes, t.right);
      MarksElems(nodes, t.left);
      MarksElems(nodes, t.right);
    }
  }

  lemma MarksAt(nodes: Nodes, t: Tree, k: Kind, b: int)
    ensures At(Marks(nodes, t), k, b)
         == if At(t, k, b).Some? then Some(Mark(nodes, At(t, k, b).value)) else None
  {
  }

  /** In an ordered tree the scan of the marks is about the nodes that define the bits. */
  lemma ConstBits(nodes: Nodes, t: Tree, rng: Interval)
    requires Ordered(t) && rng.from <= rng.to && rng.kind == Reg
    ensures AllConst(Marks(nodes, t), [rng]) <==> forall b :: In(rng, Reg, b) ==> ConstBit(t, nodes, b)
  {
    var m := Marks(nodes, t);
    MarksOrdered(nodes, t);
    AllConstExact(m, [rng]);
    forall b ensures FixedBit(Elems(m), Reg, b) <==> ConstBit(t, nodes, b) {
      FixedAt(m, Reg, b);
      MarksAt(nodes, t, Reg, b);
    }
    assert QueueFixed(m, [rng]) <==> AllFixed(Elems(m), rng) by { assert [rng][0] == rng; }
    if AllFixed(Elems(m), rng) {
      forall b | In(rng, Reg, b) ensures ConstBit(t, nodes, b) { assert FixedBit(Elems(m), Reg, b); }
    }
    if forall b :: In(rng, Reg, b) ==> ConstBit(t, nodes, b) {
      forall b | rng.from <= b <= rng.to ensures FixedBit(Elems(m), rng.kind, b) { assert In(rng, Reg, b); }
    }
  }

  /** A new expression starts with an empty stack. */
  lemma StartAbs(regs: Profile, g: Graph, prog: seq<Word>)
    requires Proper(regs) && WellFormed(regs, prog)
    ensures Abs(g.(stack := [])) == Abs(g).(stack := []) && prog[0..] == prog
    ensures ApplyAll(regs, Abs(g).(stack := []), prog).1 <==> Accepts([], g.cur.Some?, prog)
  {
    assert Entries(g.nodes, []) == [] && Shapes([]) == [];
    AppliesIff(regs, Abs(g).(stack := []), prog);
  }

  lemma RestOf(regs: Profile, s: State, prog: seq<Word>, i: nat)
    requires Proper(regs) && i < |prog|
    ensures var (s', ok) := Apply(regs, s, prog[i]);
      ApplyAll(regs, s, prog[i..]) == if ok then ApplyAll(regs, s', prog[i + 1..]) else (s', false)
  {
    assert prog[i..][1..] == prog[i + 1..];
  }

  /** The whole analysis: build the graph of an expression and ask about one register.  The
      answer is that of TagTree.Answer for every expression, and right for accepted, tidy ones. */
  method ConstAnswer(regs: Profile, bases: Bases, prog: seq<Word>, reg: string) returns (complete: bool, c: bool)
    requires Proper(regs) && ProfileFits(bases, regs) && WellFormed(regs, prog)
    ensures complete <==> Accepts([], false, prog)
    ensures c <==> Answer(regs, prog, reg)
    ensures Accepts([], false, prog) && Tidy(regs, NOTHING, prog) && c ==> SameFromAll(regs, prog, reg)
  {
    var d := new Dfg(regs, bases);
    assert Abs(d.Snap()) == START;
    complete := d.Build(prog);
    c := d.RegIsConst(reg);
    if Accepts([], false, prog) && Tidy(regs, NOTHING, prog) && c { AnswerSound(bases, regs, prog, reg); }
  }
}
