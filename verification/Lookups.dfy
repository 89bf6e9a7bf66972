/** The loop shared by _edf_reg_get and _edf_mem_get (libr/anal/esil_dfg.c:403-633): a range is
    looked up piece by piece, the nodes that define it are collected, and what no interval covers
    is filled with one node. */
module Lookups {
  import opened Lists
  import opened IntervalTree
  import opened RedBlack
  import opened Clearing

  // ---------------------------------------------------------------- the loop

  /** In any tree a lookup queues less than it was asked for. */
  lemma {:induction false} SearchQueue(t: Tree, inc: Interval)
    requires inc.from <= inc.to
    ensures var h := Search(t, inc);
      && Solid(h.todo)
      && (forall i :: 0 <= i < |h.todo| ==> Within(h.todo[i], inc) && Len(h.todo[i]) < Len(inc))
      && (h.part.None? ==> h.todo == []) && (h.part.Some? ==> h.part.value in Elems(t))
  {
    if t.Node? && FindCmp(inc, t.v).dir != 0 {
      SearchQueue(if FindCmp(inc, t.v).dir < 0 then t.left else t.right, inc);
    }
  }

  /** The tree after a read, the nodes found, and whether a gap was filled. */
  datatype Gathered = Gathered(tree: Tree, parts: seq<nat>, filled: bool)

  /** The whole loop, with n as the node for gaps; filled says whether it is among the parts. */
  function Collect(t: Tree, q: seq<Interval>, n: nat, filled: bool): Gathered
    requires Solid(q)
    decreases Longest(q), Count(q, Longest(q)), First(q, Longest(q))
  {
    if q == [] then Gathered(t, [], filled)
    else
      var h := Search(t, q[0]);
      SearchQueue(t, q[0]);
      QueueShrinks(q, h.todo);
      if h.part.Some? then
        var g := Collect(t, q[1..] + h.todo, n, filled);
        g.(parts := [h.part.value.node] + g.parts)
      else
        var g := Collect(RbInsert(t, q[0].(node := n)), q[1..] + h.todo, n, true);
        g.(parts := (if filled then [] else [n]) + g.parts)
  }

  lemma StillCovered(q: seq<Interval>, rv: Interval, more: seq<Interval>, k: Kind, b: int)
    requires q != [] && rv == q[0] && Covered(q, k, b)
    requires In(rv, k, b) ==> Covered(more, k, b)
    ensures Covered(q[1..] + more, k, b)
  {
    var next := q[1..] + more;
    if In(rv, k, b) {
      var i :| 0 <= i < |more| && In(more[i], k, b);
      assert next[|q| - 1 + i] == more[i];
    } else {
      var i :| 0 <= i < |q| && In(q[i], k, b);
      assert next[i - 1] == q[i];
    }
  }

  lemma HeadCovered(q: seq<Interval>, k: Kind)
    requires q != [] && q[0].from <= q[0].to && q[0].kind == k
    ensures Covered(q, k, q[0].from)
  {
    assert In(q[0], k, q[0].from);
  }

  ghost predicate OneCovers(t: Tree, rng: Interval) {
    exists x :: x in Elems(t) && x.kind == rng.kind && x.from <= rng.from && rng.to <= x.to
  }

  ghost predicate Blank(t: Tree, rng: Interval) {
    forall b :: In(rng, rng.kind, b) ==> At(t, rng.kind, b).None?
  }

  /** n defines some bit of rng. */
  ghost predicate Defines(t: Tree, rng: Interval, n: nat) {
    exists b :: In(rng, rng.kind, b) && At(t, rng.kind, b) == Some(n)
  }

  /** Stored intervals stay, and new ones belong to the filling node. */
  ghost predicate Grown(before: Tree, vars: Tree, fill: Option<nat>) {
    && Elems(before) <= Elems(vars)
    && forall x :: x in Elems(vars) && x !in Elems(before) ==> fill == Some(x.node)
  }

  /** vars is before with some blank bits of rng filled in. */
  ghost predicate Filled(before: Tree, vars: Tree, rng: Interval, fill: Option<nat>) {
    forall k, b :: At(vars, k, b) == At(before, k, b)
      || (In(rng, k, b) && At(before, k, b).None? && fill.Some? && At(vars, k, b) == fill)
  }

  /** One stored interval has been met, and the queue holds exactly the rest of rng. */
  ghost predicate OneSeen(before: Tree, rng: Interval, todo: seq<Interval>) {
    exists x :: x in Elems(before) && Meets(x, rng) && RestQueued(rng, x, todo)
  }

  ghost predicate RestQueued(rng: Interval, x: Interval, todo: seq<Interval>) {
    forall b :: In(rng, rng.kind, b) ==> (Covered(todo, rng.kind, b) <==> !In(x, rng.kind, b))
  }

  /** How far the count of parts can have got while the queue still holds pieces. */
  ghost predicate Counted(before: Tree, rng: Interval, n: nat, fill: Option<nat>, todo: seq<Interval>) {
    && (n == 0 ==> todo == [rng] && fill.None?)
    && (n == 1 && fill.None? ==> OneSeen(before, rng, todo))
    && (n == 1 && fill.Some? ==> todo == [] && Blank(before, rng))
    && (OneCovers(before, rng) || Blank(before, rng) ==> n <= 1 && (n == 1 ==> todo == []))
  }

  /** Every bit of rng that is no longer queued has its defining node among the parts. */
  ghost predicate Seen(vars: Tree, rng: Interval, todo: seq<Interval>, parts: seq<nat>) {
    forall b :: In(rng, rng.kind, b) && !Covered(todo, rng.kind, b) ==>
      At(vars, rng.kind, b).Some? && At(vars, rng.kind, b).value in parts
  }

  /** Loop invariant of Gather: before is the tree it started from, vars the tree now. */
  ghost predicate Gathering(w: Bases, before: Tree, vars: Tree, rng: Interval,
                            todo: seq<Interval>, parts: seq<nat>, fill: Option<nat>) {
    && Ordered(before) && Ordered(vars) && AllFit(w, vars) && Fits(w, rng)
    && (forall i :: 0 <= i < |todo| ==> Within(todo[i], rng))
    && Filled(before, vars, rng, fill)
    && (fill.Some? ==> fill.value in parts && exists b :: In(rng, rng.kind, b) && At(before, rng.kind, b).None?)
    && (forall n :: n in parts ==> Defines(vars, rng, n))
    && Seen(vars, rng, todo, parts)
    && Counted(before, rng, |parts|, fill, todo)
    && (fill.None? ==> vars == before)
    && Grown(before, vars, fill)
  }

  lemma GatherStart(w: Bases, t: Tree, rng: Interval)
    requires Ordered(t) && AllFit(w, t) && Fits(w, rng)
    ensures Gathering(w, t, t, rng, [rng], [], None)
  {
    forall b | In(rng, rng.kind, b) ensures Covered([rng], rng.kind, b) {
      assert In([rng][0], rng.kind, b);
    }
  }

  lemma HitDefines(t: Tree, rng: Interval, rv: Interval, x: Interval)
    requires Ordered(t) && Within(rv, rng) && x in Elems(t) && Meets(x, rv)
    ensures Defines(t, rng, x.node)
  {
    var b := if x.from < rv.from then rv.from else x.from;
    ElemsNonEmpty(t);
    AtUnique(t, x, b);
    assert In(rng, rng.kind, b);
  }

  lemma InsertGap(w: Bases, t: Tree, x: Interval)
    requires Ordered(t) && AllFit(w, t) && Fits(w, x)
    requires forall b :: In(x, x.kind, b) ==> At(t, x.kind, b).None?
    ensures Ordered(RbInsert(t, x)) && AllFit(w, RbInsert(t, x))
    ensures forall k, b :: At(RbInsert(t, x), k, b) == if In(x, k, b) then Some(x.node) else At(t, k, b)
  {
    forall y | y in Elems(t) ensures !Meets(x, y) {
      if Meets(x, y) { AtUnique(t, y, if x.from < y.from then y.from else x.from); }
    }
    RbInsertOrdered(w, t, x);
    forall k, b { SameBits(t, RbInsert(t, x), x, k, b); }
  }

  lemma CountStep(before: Tree, was: Tree, rng: Interval, n: nat, fill: Option<nat>, queue: seq<Interval>, h: Hit)
    requires Ordered(before) && queue != [] && Counted(before, rng, n, fill, queue)
    requires fill.None? ==> was == before
    requires rng.from <= rng.to && queue[0].from <= queue[0].to && Ordered(was)
    requires h == Search(was, queue[0])
    ensures h.part.Some? ==> Counted(before, rng, n + 1, fill, queue[1..] + h.todo)
    ensures h.part.None? && fill.None? ==>
              forall f :: Counted(before, rng, n + 1, Some(f), queue[1..] + h.todo)
    ensures h.part.None? && fill.Some? ==> Counted(before, rng, n, fill, queue[1..] + h.todo)
  {
    SearchExact(was, queue[0]);
    if n == 0 {
      assert queue[1..] + h.todo == h.todo;
      if h.part.Some? {
        var x := h.part.value;
        assert Meets(x, rng) && RestQueued(rng, x, h.todo);
        if h.todo != [] { HeadCovered(h.todo, rng.kind); }
        if OneCovers(before, rng) {
          var y :| y in Elems(before) && y.kind == rng.kind && y.from <= rng.from && rng.to <= y.to;
          if x != y { ElemsDisjoint(before, x, y); }
        }
        if Blank(before, rng) {
          var b := if x.from < rng.from then rng.from else x.from;
          ElemsNonEmpty(before);
          AtUnique(before, x, b);
        }
      }
    }
  }

  lemma CountDone(before: Tree, rng: Interval, n: nat, fill: Option<nat>)
    requires Ordered(before) && Counted(before, rng, n, fill, []) && rng.from <= rng.to
    ensures n > 0
    ensures n == 1 <==> OneCovers(before, rng) || Blank(before, rng)
  {
    if n == 1 && fill.None? {
      var x :| x in Elems(before) && Meets(x, rng)
        && RestQueued(rng, x, []);
      assert !Covered([], rng.kind, rng.from) && !Covered([], rng.kind, rng.to);
      assert In(rng, rng.kind, rng.from) && In(rng, rng.kind, rng.to);
    }
  }

  lemma StepHit(w: Bases, before: Tree, vars: Tree, rng: Interval,
                todo: seq<Interval>, parts: seq<nat>, fill: Option<nat>)
    requires Gathering(w, before, vars, rng, todo, parts, fill)
    requires todo != [] && Search(vars, todo[0]).part.Some?
    ensures var h := Search(vars, todo[0]);
      Gathering(w, before, vars, rng, todo[1..] + h.todo, parts + [h.part.value.node], fill)
  {
    var rv, h := todo[0], Search(vars, todo[0]);
    SearchExact(vars, rv);
    HitDefines(vars, rng, rv, h.part.value);
    CountStep(before, vars, rng, |parts|, fill, todo, h);
    forall b | In(rng, rng.kind, b) && !Covered(todo[1..] + h.todo, rng.kind, b)
      ensures At(vars, rng.kind, b).Some? && At(vars, rng.kind, b).value in parts + [h.part.value.node]
    {
      if Covered(todo, rng.kind, b) {
        if !In(rv, rng.kind, b) || Covered(h.todo, rng.kind, b) {
          StillCovered(todo, rv, h.todo, rng.kind, b);
        }
        AtUnique(vars, h.part.value, b);
      }
    }
  }

  lemma GapShape(w: Bases, before: Tree, vars: Tree, rng: Interval, piece: Interval, fill: Option<nat>)
    requires Ordered(vars) && AllFit(w, vars) && Fits(w, rng)
    requires piece.kind == rng.kind && rng.from <= piece.from <= piece.to <= rng.to
    requires forall b :: In(piece, piece.kind, b) ==> At(vars, piece.kind, b).None?
    requires Filled(before, vars, rng, fill) && Grown(before, vars, fill)
    requires fill.Some? ==> fill == Some(piece.node)
    ensures Ordered(RbInsert(vars, piece)) && AllFit(w, RbInsert(vars, piece))
    ensures Filled(before, RbInsert(vars, piece), rng, Some(piece.node))
    ensures Grown(before, RbInsert(vars, piece), Some(piece.node))
    ensures forall k, b ::
              At(RbInsert(vars, piece), k, b) == if In(piece, k, b) then Some(piece.node) else At(vars, k, b)
  {
    InsertGap(w, vars, piece);
    RbInsertElems(vars, piece);
  }

  lemma DefinesGap(vars: Tree, vars': Tree, rng: Interval, rv: Interval, parts: seq<nat>, f: nat)
    requires Within(rv, rng) && forall n :: n in parts ==> Defines(vars, rng, n)
    requires forall b :: In(rv, rng.kind, b) ==> At(vars, rng.kind, b).None?
    requires forall b :: At(vars', rng.kind, b) == if In(rv, rng.kind, b) then Some(f) else At(vars, rng.kind, b)
    ensures Defines(vars', rng, f) && forall n :: n in parts ==> Defines(vars', rng, n)
  {
    forall n | n in parts ensures Defines(vars', rng, n) {
      var b :| In(rng, rng.kind, b) && At(vars, rng.kind, b) == Some(n);
      assert At(vars', rng.kind, b) == Some(n);
    }
    assert In(rng, rng.kind, rv.from) && At(vars', rng.kind, rv.from) == Some(f);
  }

  lemma SeenGap(vars: Tree, vars': Tree, rng: Interval, todo: seq<Interval>, more: seq<Interval>,
                parts: seq<nat>, parts': seq<nat>, f: nat)
    requires todo != [] && todo[0].kind == rng.kind && Seen(vars, rng, todo, parts)
    requires f in parts' && forall n :: n in parts ==> n in parts'
    requires forall b :: At(vars', rng.kind, b) == if In(todo[0], rng.kind, b) then Some(f) else At(vars, rng.kind, b)
    ensures Seen(vars', rng, todo[1..] + more, parts')
  {
    forall b | In(rng, rng.kind, b) && !Covered(todo[1..] + more, rng.kind, b)
      ensures At(vars', rng.kind, b).Some? && At(vars', rng.kind, b).value in parts'
    {
      if Covered(todo, rng.kind, b) && !In(todo[0], rng.kind, b) {
        StillCovered(todo, todo[0], more, rng.kind, b);
      }
    }
  }

  lemma SearchNone(t: Tree, inc: Interval)
    requires Ordered(t) && inc.from <= inc.to && Search(t, inc).part.None?
    ensures Search(t, inc).todo == [] && forall b :: In(inc, inc.kind, b) ==> At(t, inc.kind, b).None?
  {
    SearchExact(t, inc);
  }

  lemma BlankHead(before: Tree, vars: Tree, rng: Interval, rv: Interval, fill: Option<nat>)
    requires Within(rv, rng) && Filled(before, vars, rng, fill) && At(vars, rng.kind, rv.from).None?
    ensures exists b :: In(rng, rng.kind, b) && At(before, rng.kind, b).None?
  {
    assert In(rng, rng.kind, rv.from) && At(before, rng.kind, rv.from).None?;
  }

  lemma StepGap(w: Bases, before: Tree, vars: Tree, rng: Interval,
                todo: seq<Interval>, parts: seq<nat>, fill: Option<nat>, f: nat)
    requires Gathering(w, before, vars, rng, todo, parts, fill)
    requires todo != [] && Search(vars, todo[0]).part.None?
    requires fill.Some? ==> fill == Some(f)
    ensures Gathering(w, before, RbInsert(vars, todo[0].(node := f)), rng, todo[1..] + Search(vars, todo[0]).todo,
                      if fill.Some? then parts else parts + [f], Some(f))
  {
    var rv, h := todo[0], Search(vars, todo[0]);
    var parts' := if fill.Some? then parts else parts + [f];
    SearchNone(vars, rv);
    var vars' := RbInsert(vars, rv.(node := f));
    assert todo[1..] + h.todo == todo[1..];
    GapShape(w, before, vars, rng, rv.(node := f), fill);
    assert Counted(before, rng, |parts'|, Some(f), todo[1..]) by {
      CountStep(before, vars, rng, |parts|, fill, todo, h);
    }
    BlankHead(before, vars, rng, rv, fill);
    DefinesGap(vars, vars', rng, rv, parts, f);
    SeenGap(vars, vars', rng, todo, h.todo, parts, parts', f);
  }

  lemma GatherDone(w: Bases, before: Tree, vars: Tree, rng: Interval, parts: seq<nat>, fill: Option<nat>)
    requires Gathering(w, before, vars, rng, [], parts, fill)
    ensures forall k, b :: At(vars, k, b) ==
              if In(rng, k, b) && At(before, k, b).None? then fill else At(before, k, b)
    ensures fill.Some? <==> exists b :: In(rng, rng.kind, b) && At(before, rng.kind, b).None?
    ensures forall n :: n in parts <==> Defines(vars, rng, n)
    ensures parts != [] && (|parts| == 1 <==> OneCovers(before, rng) || Blank(before, rng))
    ensures Ordered(vars) && AllFit(w, vars) && Grown(before, vars, fill)
  {
    assert forall b :: !Covered([], rng.kind, b);
    CountDone(before, rng, |parts|, fill);
  }

  lemma Append(a: seq<nat>, b: seq<nat>, c: seq<nat>)
    ensures a + b + c == a + (b + c)
  {
  }

  /** One round that finds a part, with the parts found before. */
  lemma HitStep(t: Tree, q: seq<Interval>, n: nat, filled: bool, before: seq<nat>)
    requires Solid(q) && q != [] && Search(t, q[0]).part.Some?
    ensures var g, h := Collect(t, q, n, filled), Search(t, q[0]);
      Solid(q[1..] + h.todo) &&
      var r := Collect(t, q[1..] + h.todo, n, filled);
      Gathered(g.tree, before + g.parts, g.filled)
      == Gathered(r.tree, before + [h.part.value.node] + r.parts, r.filled)
  {
    SearchQueue(t, q[0]);
    QueueShrinks(q, Search(t, q[0]).todo);
    Append(before, [Search(t, q[0]).part.value.node],
           Collect(t, q[1..] + Search(t, q[0]).todo, n, filled).parts);
  }

  /** One round that fills a gap. */
  lemma MissStep(t: Tree, q: seq<Interval>, n: nat, filled: bool, before: seq<nat>)
    requires Solid(q) && q != [] && Search(t, q[0]).part.None?
    ensures var g, h, t' := Collect(t, q, n, filled), Search(t, q[0]), RbInsert(t, q[0].(node := n));
      Solid(q[1..] + h.todo) &&
      var r := Collect(t', q[1..] + h.todo, n, true);
      Gathered(g.tree, before + g.parts, g.filled)
      == Gathered(r.tree, (if filled then before else before + [n]) + r.parts, r.filled)
  {
    var t' := RbInsert(t, q[0].(node := n));
    SearchQueue(t, q[0]);
    QueueShrinks(q, Search(t, q[0]).todo);
    var r := Collect(t', q[1..] + Search(t, q[0]).todo, n, true);
    if filled { assert [] + r.parts == r.parts; } else { Append(before, [n], r.parts); }
  }

  /** The first lookup finds a part or fills a gap. */
  lemma CollectSome(t: Tree, rng: Interval, n: nat)
    requires rng.from <= rng.to
    ensures Collect(t, [rng], n, false).parts != []
  {
  }

  /** Once a gap was filled, that stays so. */
  lemma {:induction false} FilledStays(t: Tree, q: seq<Interval>, n: nat)
    requires Solid(q)
    ensures Collect(t, q, n, true).filled
    decreases Longest(q), Count(q, Longest(q)), First(q, Longest(q))
  {
    if q != [] {
      var h := Search(t, q[0]);
      SearchQueue(t, q[0]);
      QueueShrinks(q, h.todo);
      if h.part.Some? {
        FilledStays(t, q[1..] + h.todo, n);
      } else {
        FilledStays(RbInsert(t, q[0].(node := n)), q[1..] + h.todo, n);
      }
    }
  }

  function Fill(filled: bool, n: nat): Option<nat> { if filled then Some(n) else None }

  /** The node that fills gaps, if there were any. */
  function FillOf(t: Tree, rng: Interval, n: nat): Option<nat>
    requires rng.from <= rng.to
  {
    Fill(Collect(t, [rng], n, false).filled, n)
  }

  /** From any point of the loop to its end. */
  lemma {:induction false} CollectKeeps(w: Bases, before: Tree, t: Tree, rng: Interval,
                                        q: seq<Interval>, parts: seq<nat>, n: nat, filled: bool)
    requires Solid(q) && Gathering(w, before, t, rng, q, parts, Fill(filled, n))
    decreases Longest(q), Count(q, Longest(q)), First(q, Longest(q))
    ensures var g := Collect(t, q, n, filled);
      Gathering(w, before, g.tree, rng, [], parts + g.parts, Fill(g.filled, n))
  {
    if q == [] {
      assert parts + [] == parts;
    } else {
      var h := Search(t, q[0]);
      SearchQueue(t, q[0]);
      QueueShrinks(q, h.todo);
      if h.part.Some? {
        var m := h.part.value.node;
        StepHit(w, before, t, rng, q, parts, Fill(filled, n));
        CollectKeeps(w, before, t, rng, q[1..] + h.todo, parts + [m], n, filled);
        Append(parts, [m], Collect(t, q[1..] + h.todo, n, filled).parts);
      } else {
        var t' := RbInsert(t, q[0].(node := n));
        var more := if filled then [] else [n];
        StepGap(w, before, t, rng, q, parts, Fill(filled, n), n);
        assert filled ==> parts == parts + more;
        CollectKeeps(w, before, t', rng, q[1..] + h.todo, parts + more, n, true);
        Append(parts, more, Collect(t', q[1..] + h.todo, n, true).parts);
      }
    }
  }

  /** What a read of an ordered tree does: the parts are exactly the nodes that define the range
      in the end, the gaps are filled with one node, and there is one part exactly if one
      interval covers the range or none meets it. */
  ghost predicate Collected(was: Tree, now: Tree, rng: Interval, parts: seq<nat>, fill: Option<nat>) {
    && Ordered(now) && Grown(was, now, fill)
    && (forall k, b :: At(now, k, b) == if In(rng, k, b) && At(was, k, b).None? then fill else At(was, k, b))
    && (fill.Some? <==> exists b :: In(rng, rng.kind, b) && At(was, rng.kind, b).None?)
    && (forall m :: m in parts <==> Defines(now, rng, m))
    && parts != [] && (|parts| == 1 <==> OneCovers(was, rng) || Blank(was, rng))
  }

  lemma CollectExact(w: Bases, t: Tree, rng: Interval, n: nat)
    requires Ordered(t) && AllFit(w, t) && Fits(w, rng)
    ensures var g := Collect(t, [rng], n, false);
      AllFit(w, g.tree) && Collected(t, g.tree, rng, g.parts, Fill(g.filled, n))
  {
    GatherStart(w, t, rng);
    CollectKeeps(w, t, t, rng, [rng], [], n, false);
    var g := Collect(t, [rng], n, false);
    assert [] + g.parts == g.parts;
    GatherDone(w, t, g.tree, rng, g.parts, Fill(g.filled, n));
  }

  // ---------------------------------------------------------------- the gaps

  /** A longest stretch of rng that nothing covers. */
  ghost predicate IsGap(t: Tree, rng: Interval, from: int, to: int) {
    && rng.from <= from <= to <= rng.to
    && (forall b :: from <= b <= to ==> At(t, rng.kind, b).None?)
    && (from == rng.from || At(t, rng.kind, from - 1).Some?)
    && (to == rng.to || At(t, rng.kind, to + 1).Some?)
  }

  /** Queued pieces are disjoint, still labelled as before, and end at a label or with rng. */
  ghost predicate Pieces(before: Tree, t: Tree, rng: Interval, q: seq<Interval>) {
    && (forall i, j :: 0 <= i < j < |q| ==> !Meets(q[i], q[j]))
    && (forall i :: 0 <= i < |q| ==> Edge(before, t, rng, q[i]))
  }

  ghost predicate Edge(before: Tree, t: Tree, rng: Interval, p: Interval) {
    && Within(p, rng)
    && (forall b :: p.from <= b <= p.to ==> At(t, rng.kind, b) == At(before, rng.kind, b))
    && (p.from == rng.from || At(before, rng.kind, p.from - 1).Some?)
    && (p.to == rng.to || At(before, rng.kind, p.to + 1).Some?)
  }

  /** What the read adds are gaps. */
  ghost predicate OnlyGaps(before: Tree, t: Tree, rng: Interval) {
    forall x :: x in Elems(t) && x !in Elems(before) ==> x.kind == rng.kind && IsGap(before, rng, x.from, x.to)
  }

  lemma EdgesHit(before: Tree, t: Tree, rng: Interval, q: seq<Interval>)
    requires Ordered(t) && q != [] && Pieces(before, t, rng, q) && Search(t, q[0]).part.Some?
    ensures var r := q[1..] + Search(t, q[0]).todo; forall i :: 0 <= i < |r| ==> Edge(before, t, rng, r[i])
  {
    var h, r := Search(t, q[0]), q[1..] + Search(t, q[0]).todo;
    SearchQueue(t, q[0]);
    SearchEdges(t, q[0]);
    forall i | 0 <= i < |r| ensures Edge(before, t, rng, r[i]) {
      if i < |q| - 1 {
        assert r[i] == q[i + 1];
      } else {
        assert r[i] == h.todo[i - (|q| - 1)];
        EdgePart(before, t, rng, q[0], r[i]);
      }
    }
  }

  /** A part of a piece that ends with it or next to a label. */
  lemma EdgePart(before: Tree, t: Tree, rng: Interval, p: Interval, y: Interval)
    requires Edge(before, t, rng, p) && Within(y, p)
    requires y.from == p.from || At(t, rng.kind, y.from - 1).Some?
    requires y.to == p.to || At(t, rng.kind, y.to + 1).Some?
    ensures Edge(before, t, rng, y)
  {
    if y.from != p.from { assert p.from <= y.from - 1 <= p.to; }
    if y.to != p.to { assert p.from <= y.to + 1 <= p.to; }
  }

  lemma PiecesHit(before: Tree, t: Tree, rng: Interval, q: seq<Interval>)
    requires Ordered(t) && q != [] && Pieces(before, t, rng, q) && Search(t, q[0]).part.Some?
    ensures Pieces(before, t, rng, q[1..] + Search(t, q[0]).todo)
  {
    EdgesHit(before, t, rng, q);
    assert Edge(before, t, rng, q[0]);
    SearchQueue(t, q[0]);
    SearchEdges(t, q[0]);
    Disjoint(q, Search(t, q[0]).todo);
  }

  lemma Disjoint(q: seq<Interval>, more: seq<Interval>)
    requires q != [] && forall i :: 0 <= i < |more| ==> Within(more[i], q[0])
    requires forall i, j :: 0 <= i < j < |q| ==> !Meets(q[i], q[j])
    requires forall i, j :: 0 <= i < j < |more| ==> !Meets(more[i], more[j])
    ensures var r := q[1..] + more; forall i, j :: 0 <= i < j < |r| ==> !Meets(r[i], r[j])
  {
    var r := q[1..] + more;
    forall i, j | 0 <= i < j < |r| ensures !Meets(r[i], r[j]) {
      if i < |q| - 1 {
        assert r[i] == q[i + 1];
        if j < |q| - 1 {
          assert r[j] == q[j + 1] && !Meets(q[i + 1], q[j + 1]);
        } else {
          assert Within(more[j - (|q| - 1)], q[0]) && !Meets(q[0], q[i + 1]);
        }
      }
    }
  }

  /** What a lookup queues: disjoint pieces, each ending with the range or next to the interval found. */
  lemma {:induction false} SearchEdges(t: Tree, inc: Interval)
    requires Ordered(t) && inc.from <= inc.to
    ensures var h := Search(t, inc);
      && (forall i, j :: 0 <= i < j < |h.todo| ==> !Meets(h.todo[i], h.todo[j]))
      && forall i :: 0 <= i < |h.todo| ==>
           && (h.todo[i].from == inc.from || At(t, inc.kind, h.todo[i].from - 1).Some?)
           && (h.todo[i].to == inc.to || At(t, inc.kind, h.todo[i].to + 1).Some?)
  {
    SearchQueue(t, inc);
    SearchExact(t, inc);
    var h := Search(t, inc);
    if h.part.Some? {
      var x := h.part.value;
      ElemsNonEmpty(t);
      ElemBits(t, x);
      SearchShape(t, inc);
    }
  }

  lemma {:induction false} SearchShape(t: Tree, inc: Interval)
    requires Search(t, inc).part.Some?
    ensures var h := Search(t, inc); h.todo == FindCmp(inc, h.part.value).todo
    ensures FindCmp(inc, Search(t, inc).part.value).dir == 0
  {
    if FindCmp(inc, t.v).dir != 0 { SearchShape(if FindCmp(inc, t.v).dir < 0 then t.left else t.right, inc); }
  }

  lemma PiecesGap(before: Tree, t: Tree, t': Tree, rng: Interval, q: seq<Interval>, n: nat)
    requires Ordered(t) && q != [] && Pieces(before, t, rng, q) && Search(t, q[0]).part.None?
    requires Elems(t') == Elems(t) + {q[0].(node := n)} && OnlyGaps(before, t, rng)
    requires forall b :: At(t', rng.kind, b) == if In(q[0], rng.kind, b) then Some(n) else At(t, rng.kind, b)
    ensures Pieces(before, t', rng, q[1..]) && OnlyGaps(before, t', rng)
  {
    assert Edge(before, t, rng, q[0]);
    BlankEdge(before, t, rng, q[0]);
    forall i | 0 <= i < |q[1..]| ensures Edge(before, t', rng, q[1..][i]) {
      assert q[1..][i] == q[i + 1] && !Meets(q[0], q[i + 1]);
      EdgeKept(before, t, t', rng, q[0], q[i + 1], n);
    }
    forall i, j | 0 <= i < j < |q[1..]| ensures !Meets(q[1..][i], q[1..][j]) {
      assert !Meets(q[i + 1], q[j + 1]);
    }
  }

  /** A piece that nothing covers is a gap. */
  lemma BlankEdge(before: Tree, t: Tree, rng: Interval, p: Interval)
    requires Ordered(t) && Edge(before, t, rng, p) && Search(t, p).part.None?
    ensures IsGap(before, rng, p.from, p.to)
  {
    SearchNone(t, p);
    forall b | p.from <= b <= p.to ensures At(before, rng.kind, b).None? {
      assert In(p, p.kind, b) && At(t, rng.kind, b) == At(before, rng.kind, b);
    }
  }

  lemma EdgeKept(before: Tree, t: Tree, t': Tree, rng: Interval, p: Interval, y: Interval, n: nat)
    requires Edge(before, t, rng, y) && Within(p, rng) && !Meets(p, y)
    requires forall b :: At(t', rng.kind, b) == if In(p, rng.kind, b) then Some(n) else At(t, rng.kind, b)
    ensures Edge(before, t', rng, y)
  {
  }

  /** Everything a read adds is a gap. */
  lemma {:induction false} CollectGaps(w: Bases, before: Tree, t: Tree, rng: Interval,
                                       q: seq<Interval>, parts: seq<nat>, n: nat, filled: bool)
    requires Solid(q) && Gathering(w, before, t, rng, q, parts, Fill(filled, n))
    requires Pieces(before, t, rng, q) && OnlyGaps(before, t, rng)
    decreases Longest(q), Count(q, Longest(q)), First(q, Longest(q))
    ensures OnlyGaps(before, Collect(t, q, n, filled).tree, rng)
  {
    if q != [] {
      var h := Search(t, q[0]);
      SearchQueue(t, q[0]);
      QueueShrinks(q, h.todo);
      if h.part.Some? {
        StepHit(w, before, t, rng, q, parts, Fill(filled, n));
        PiecesHit(before, t, rng, q);
        CollectGaps(w, before, t, rng, q[1..] + h.todo, parts + [h.part.value.node], n, filled);
      } else {
        StepGap(w, before, t, rng, q, parts, Fill(filled, n), n);
        GapStep(w, t, rng, q[0], n);
        PiecesGap(before, t, RbInsert(t, q[0].(node := n)), rng, q, n);
        assert q[1..] + h.todo == q[1..];
        CollectGaps(w, before, RbInsert(t, q[0].(node := n)), rng, q[1..] + h.todo,
                    if filled then parts else parts + [n], n, true);
      }
    }
  }

  lemma GapStep(w: Bases, t: Tree, rng: Interval, p: Interval, n: nat)
    requires Ordered(t) && AllFit(w, t) && Fits(w, rng) && Within(p, rng) && Search(t, p).part.None?
    ensures var t' := RbInsert(t, p.(node := n));
      && Elems(t') == Elems(t) + {p.(node := n)}
      && forall b :: At(t', rng.kind, b) == if In(p, rng.kind, b) then Some(n) else At(t, rng.kind, b)
  {
    SearchExact(t, p);
    InsertGap(w, t, p.(node := n));
    RbInsertElems(t, p.(node := n));
  }

  /** What an ordered tree stores after a read: what it stored, and every gap with the node n. */
  lemma CollectElems(w: Bases, t: Tree, rng: Interval, n: nat)
    requires Ordered(t) && AllFit(w, t) && Fits(w, rng)
    ensures forall x: Interval :: x in Elems(Collect(t, [rng], n, false).tree) <==>
              (x in Elems(t) || (x.kind == rng.kind && x.node == n && IsGap(t, rng, x.from, x.to)))
  {
    var t' := Collect(t, [rng], n, false).tree;
    CollectExact(w, t, rng, n);
    GatherStart(w, t, rng);
    CollectGaps(w, t, t, rng, [rng], [], n, false);
    forall x: Interval | x.kind == rng.kind && x.node == n && IsGap(t, rng, x.from, x.to) ensures x in Elems(t') {
      GapStored(t, t', rng, n, x);
    }
  }

  lemma GapStored(t: Tree, t': Tree, rng: Interval, n: nat, x: Interval)
    requires Ordered(t) && Ordered(t') && OnlyGaps(t, t', rng)
    requires forall y :: y in Elems(t') && y !in Elems(t) ==> y.node == n
    requires forall b :: In(rng, rng.kind, b) ==> At(t', rng.kind, b).Some?
    requires x.kind == rng.kind && x.node == n && IsGap(t, rng, x.from, x.to)
    ensures x in Elems(t')
  {
    assert In(rng, rng.kind, x.from);
    AtElem(t', rng.kind, x.from);
    AtElem(t, rng.kind, x.from);
    var y :| y in Elems(t') && In(y, rng.kind, x.from);
    assert y !in Elems(t) && IsGap(t, rng, y.from, y.to);
    assert y.from == x.from && y.to == x.to;
  }
}
