/** The loop shared by _edf_reg_set and _edf_mem_set (libr/anal/esil_dfg.c:206-283): a range is
    queued, and as long as pieces are queued, the stored intervals they meet are cut back, split
    or unlinked.  The loop always ends.  When the range holds at most one stored interval
    entirely, exactly the range is cleared; with two of them the loop can leave one behind. */
module Clearing {
  import opened Lists
  import opened IntervalTree
  import opened RedBlack

  // ---------------------------------------------------------------- the loop

  predicate Solid(q: seq<Interval>) { forall i :: 0 <= i < |q| ==> q[i].from <= q[i].to }

  /** What a deletion queues are strictly shorter parts of the incoming range, in any tree. */
  lemma {:induction false} TakeTodo(t: Tree, inc: Interval, found: bool)
    requires t.Node?
    ensures forall p :: p in Take(t, inc, found).todo ==> Within(p, inc) && Len(p) < Len(inc)
  {
    var q := DelCmp(inc, t.v);
    var next := if q.dir > 0 then t.right else t.left;
    if next.Node? { TakeTodo(next, inc, found || q.dir == 0); }
  }

  /** One round of the loop: a deletion, then the re-insertion of a half that was split off. */
  function Round(t: Tree, inc: Interval): Tree {
    var c := RbTake(t, inc);
    if c.insert.Some? then RbInsert(c.tree, c.insert.value) else c.tree
  }

  function Longest(q: seq<Interval>): nat
    requires Solid(q)
  {
    if q == [] then 0 else if Len(q[0]) > Longest(q[1..]) then Len(q[0]) else Longest(q[1..])
  }

  function Count(q: seq<Interval>, n: nat): nat {
    if q == [] then 0 else (if Len(q[0]) == n then 1 else 0) + Count(q[1..], n)
  }

  function First(q: seq<Interval>, n: nat): nat {
    if q == [] || Len(q[0]) == n then 0 else 1 + First(q[1..], n)
  }

  lemma {:induction false} LongestJoin(q: seq<Interval>, more: seq<Interval>)
    requires Solid(q) && Solid(more)
    ensures Solid(q + more)
    ensures Longest(q + more) == if Longest(q) > Longest(more) then Longest(q) else Longest(more)
  {
    if q == [] {
      assert q + more == more;
    } else {
      assert (q + more)[1..] == q[1..] + more;
      LongestJoin(q[1..], more);
    }
  }

  lemma {:induction false} LongestBelow(q: seq<Interval>, n: nat)
    requires Solid(q) && n > 0 && forall i :: 0 <= i < |q| ==> Len(q[i]) < n
    ensures Longest(q) < n
  {
    if q != [] { LongestBelow(q[1..], n); }
  }

  lemma {:induction false} LongestCounts(q: seq<Interval>)
    requires Solid(q) && q != []
    ensures Count(q, Longest(q)) > 0
  {
    assert Len(q[0]) > 0 && (q[1..] == [] ==> Longest(q[1..]) == 0);
    if Longest(q) != Len(q[0]) { LongestCounts(q[1..]); }
  }

  lemma {:induction false} ShorterBehind(q: seq<Interval>, more: seq<Interval>, n: nat)
    requires forall i :: 0 <= i < |more| ==> Len(more[i]) != n
    ensures Count(q + more, n) == Count(q, n)
    ensures Count(q, n) > 0 ==> First(q + more, n) == First(q, n)
  {
    if q == [] {
      assert q + more == more;
      if more != [] { ShorterBehind(q, more[1..], n); assert q + more[1..] == more[1..]; }
    } else {
      assert (q + more)[1..] == q[1..] + more;
      ShorterBehind(q[1..], more, n);
    }
  }

  /** Why the loop ends: the longest piece gets shorter, or fewer pieces are that long, or the
      first of them moves up in the queue. */
  lemma QueueShrinks(q: seq<Interval>, more: seq<Interval>)
    requires Solid(q) && q != [] && Solid(more) && forall i :: 0 <= i < |more| ==> Len(more[i]) < Len(q[0])
    ensures var r, n, m := q[1..] + more, Longest(q), Longest(q[1..] + more);
      Solid(r) && (m < n || (m == n && (Count(r, m) < Count(q, n)
                                        || (Count(r, m) == Count(q, n) && First(r, m) < First(q, n)))))
  {
    var r, n := q[1..] + more, Longest(q);
    LongestJoin(q[1..], more);
    LongestBelow(more, Len(q[0]));
    ShorterBehind(q[1..], more, n);
    if Longest(r) == n { LongestCounts(r); }
  }

  /** The whole loop. */
  function Drain(t: Tree, q: seq<Interval>): Tree
    requires Solid(q)
    decreases Longest(q), Count(q, Longest(q)), First(q, Longest(q))
  {
    if q == [] then t
    else
      var more := RbTake(t, q[0]).todo;
      RoundQueue(t, q[0]);
      QueueShrinks(q, more);
      Drain(Round(t, q[0]), q[1..] + more)
  }

  lemma RoundQueue(t: Tree, inc: Interval)
    ensures var more := RbTake(t, inc).todo;
      Solid(more) && forall i :: 0 <= i < |more| ==> Within(more[i], inc) && Len(more[i]) < Len(inc)
  {
    if t.Node? {
      RbTakeInorder(t, inc);
      TakeTodo(t, inc, false);
    }
    var more := RbTake(t, inc).todo;
    forall i | 0 <= i < |more| ensures Within(more[i], inc) && Len(more[i]) < Len(inc) { assert more[i] in more; }
  }

  /** A write: the range is cleared, then inserted with its new node. */
  function SetTree(t: Tree, rng: Interval, node: nat): Tree
    requires rng.from <= rng.to
  {
    RbInsert(Drain(t, [rng]), rng.(node := node))
  }

  // ---------------------------------------------------------------- what it should leave

  predicate Swallowed(x: Interval, rng: Interval) {
    x.kind == rng.kind && rng.from <= x.from && x.to <= rng.to
  }

  /** What is left of x outside rng. */
  function Cut(x: Interval, rng: Interval): set<Interval> {
    if !Meets(x, rng) then {x}
    else (if x.from < rng.from then {x.(to := rng.from - 1)} else {})
         + (if rng.to < x.to then {x.(from := rng.to + 1)} else {})
  }

  ghost function Trimmed(e: set<Interval>, rng: Interval): set<Interval> {
    set x, y | x in e && y in Cut(x, rng) :: y
  }

  ghost predicate NonEmpty(e: set<Interval>) { forall x :: x in e ==> x.from <= x.to }

  lemma TrimmedUnion(a: set<Interval>, b: set<Interval>, rng: Interval)
    ensures Trimmed(a + b, rng) == Trimmed(a, rng) + Trimmed(b, rng)
  {
  }

  lemma TrimmedMiss(e: set<Interval>, rng: Interval)
    requires forall x :: x in e ==> !Meets(x, rng)
    ensures Trimmed(e, rng) == e
  {
    forall y ensures y in Trimmed(e, rng) <==> y in e {
      if y in e { assert y in Cut(y, rng); }
    }
  }

  ghost predicate PartsOf(a: set<Interval>, b: set<Interval>) {
    forall y :: y in a ==> exists x :: x in b && Within(y, x)
  }

  /** Every piece is part of a stored interval, with its node, outside the range. */
  lemma TrimmedParts(e: set<Interval>, rng: Interval)
    requires NonEmpty(e) && rng.from <= rng.to
    ensures PartsOf(Trimmed(e, rng), e) && forall y :: y in Trimmed(e, rng) ==> !Meets(y, rng)
  {
    forall y | y in Trimmed(e, rng) ensures !Meets(y, rng) && exists x :: x in e && Within(y, x) {
      var x :| x in e && y in Cut(x, rng);
      assert Within(y, x);
    }
  }

  lemma CutTwice(x: Interval, p: Interval, rng: Interval, y: Interval)
    requires x.from <= x.to && p.from <= p.to && Swallowed(p, rng)
    ensures y in Cut(x, rng) <==> exists z :: z in Cut(x, p) && y in Cut(z, rng)
  {
    if y in Cut(x, rng) {
      var z := if !Meets(x, p) then x else if y.from < rng.from then x.(to := p.from - 1) else x.(from := p.to + 1);
      assert z in Cut(x, p) && y in Cut(z, rng);
    }
  }

  /** Cutting back by a part of the range first makes no difference. */
  lemma TrimmedTwice(e: set<Interval>, p: Interval, rng: Interval)
    requires NonEmpty(e) && p.from <= p.to && Swallowed(p, rng)
    ensures Trimmed(Trimmed(e, p), rng) == Trimmed(e, rng)
  {
    forall y ensures y in Trimmed(Trimmed(e, p), rng) <==> y in Trimmed(e, rng) {
      if y in Trimmed(Trimmed(e, p), rng) {
        var z :| z in Trimmed(e, p) && y in Cut(z, rng);
        var x :| x in e && z in Cut(x, p);
        CutTwice(x, p, rng, y);
      }
      if y in Trimmed(e, rng) {
        var x :| x in e && y in Cut(x, rng);
        CutTwice(x, p, rng, y);
        var z :| z in Cut(x, p) && y in Cut(z, rng);
        assert z in Trimmed(e, p);
      }
    }
  }

  function Pending(o: Option<Interval>): set<Interval> { if o.Some? then {o.value} else {} }

  /** Cutting back a node's interval and one of its subtrees keeps the order. */
  lemma RightPartOrdered(t: Tree, v: Interval, sub: Tree)
    requires t.Node? && Ordered(t) && Ordered(sub) && Within(v, t.v) && PartsOf(Elems(sub), Elems(t.right))
    ensures Ordered(Node(t.left, v, sub, t.red))
  {
    forall y | y in Elems(sub) ensures Before(v, y) {
      var x :| x in Elems(t.right) && Within(y, x);
      assert Before(t.v, x);
    }
    forall x | x in Elems(t.left) ensures Before(x, v) { assert Before(x, t.v); }
  }

  lemma LeftPartOrdered(t: Tree, v: Interval, sub: Tree)
    requires t.Node? && Ordered(t) && Ordered(sub) && Within(v, t.v) && PartsOf(Elems(sub), Elems(t.left))
    ensures Ordered(Node(sub, v, t.right, t.red))
  {
    forall y | y in Elems(sub) ensures Before(y, v) {
      var x :| x in Elems(t.left) && Within(y, x);
      assert Before(x, t.v);
    }
    forall x | x in Elems(t.right) ensures Before(v, x) { assert Before(t.v, x); }
  }

  /** What the comparator leaves of an interval that is not swallowed. */
  lemma KeptIsCut(v: Interval, inc: Interval)
    requires v.from <= v.to && inc.from <= inc.to && !Swallowed(v, inc)
    ensures var q := DelCmp(inc, v);
      && q.dir != 0 && q.todo == [] && Within(q.kept, v)
      && Cut(v, inc) == {q.kept} + Pending(q.insert)
      && (q.insert.Some? ==> q.dir > 0)
  {
  }

  /** The subtree a deletion does not enter does not meet the range. */
  lemma OtherSideMisses(t: Tree, inc: Interval)
    requires t.Node? && Ordered(t) && inc.from <= inc.to && !Swallowed(t.v, inc)
    ensures forall x :: x in Elems(if DelCmp(inc, t.v).dir > 0 then t.left else t.right) ==> !Meets(x, inc)
    ensures DelCmp(inc, t.v).dir != 0 && DelCmp(inc, t.v).todo == []
    ensures DelCmp(inc, t.v).insert.Some? ==> forall x :: x in Elems(t.right) ==> !Meets(x, inc)
  {
    ElemsNonEmpty(t);
    forall x | x in Elems(t.left) ensures Before(x, t.v) {}
    forall x | x in Elems(t.right) ensures Before(t.v, x) {}
  }

  /** A range that meets nothing leaves no trace. */
  lemma {:induction false} TakeMiss(t: Tree, inc: Interval)
    requires t.Node? && Ordered(t) && inc.from <= inc.to
    requires forall x :: x in Elems(t) ==> !Meets(x, inc)
    ensures var c := Take(t, inc, false); c.tree == t && !c.found && c.insert == None && c.todo == []
  {
    assert t.v in Elems(t);
    var next := if DelCmp(inc, t.v).dir > 0 then t.right else t.left;
    if next.Node? { TakeMiss(next, inc); }
  }

  lemma TrimmedNode(t: Tree, inc: Interval)
    requires t.Node?
    ensures Trimmed(Elems(t), inc) == Trimmed(Elems(t.left), inc) + Cut(t.v, inc) + Trimmed(Elems(t.right), inc)
  {
    TrimmedUnion(Elems(t.left) + {t.v}, Elems(t.right), inc);
    TrimmedUnion(Elems(t.left), {t.v}, inc);
    assert Trimmed({t.v}, inc) == Cut(t.v, inc);
  }

  lemma Shuffle(a: set<Interval>, k: set<Interval>, b: set<Interval>, p: set<Interval>, all: set<Interval>)
    ensures all == (a + p) + k + b ==> a + k + b + p == all
    ensures all == a + k + (b + p) ==> a + k + b + p == all
    ensures all == a + (k + p) + b ==> a + k + b + p == all
  {
  }

  /** One node of such a deletion: sub and ins are what it leaves of the subtree it enters. */
  ghost predicate LeavesOf(e: set<Interval>, inc: Interval, sub: Tree, ins: Option<Interval>) {
    Ordered(sub) && Apart(sub, ins) && Elems(sub) + Pending(ins) == Trimmed(e, inc)
  }

  ghost predicate Apart(t: Tree, ins: Option<Interval>) {
    ins.Some? ==> forall y :: y in Elems(t) ==> !Meets(ins.value, y)
  }

  /** A half split off below a node lies apart from the rest of the tree. */
  lemma HalfApart(t: Tree, inc: Interval, half: Interval, right: bool, k: Interval)
    requires t.Node? && Ordered(t) && inc.from <= inc.to && Within(k, t.v)
    requires half in Trimmed(Elems(if right then t.right else t.left), inc)
    ensures !Meets(half, k) && forall y :: y in Elems(if right then t.left else t.right) ==> !Meets(half, y)
  {
    ElemsNonEmpty(t);
    var side := if right then t.right else t.left;
    var x :| x in Elems(side) && half in Cut(x, inc);
    assert Within(half, x) && (if right then Before(t.v, x) else Before(x, t.v));
    forall y | y in Elems(if right then t.left else t.right) ensures !Meets(half, y) {
      assert if right then Before(y, t.v) else Before(t.v, y);
    }
  }

  lemma SplitApart(t: Tree, inc: Interval, sub: Tree)
    requires t.Node? && Ordered(t) && inc.from <= inc.to && DelCmp(inc, t.v).insert.Some?
    requires Elems(sub) == Trimmed(Elems(t.right), inc)
    ensures var q := DelCmp(inc, t.v); Apart(Node(t.left, q.kept, sub, t.red), q.insert)
  {
    ElemsNonEmpty(t);
    OtherSideMisses(t, inc);
    TrimmedMiss(Elems(t.right), inc);
    forall x | x in Elems(t.left) ensures !Meets(DelCmp(inc, t.v).insert.value, x) { assert Before(x, t.v); }
    forall x | x in Elems(t.right) ensures !Meets(DelCmp(inc, t.v).insert.value, x) { assert Before(t.v, x); }
  }

  lemma ApartRight(t: Tree, inc: Interval, sub: Tree, ins: Option<Interval>)
    requires t.Node? && Ordered(t) && inc.from <= inc.to && !Swallowed(t.v, inc)
    requires LeavesOf(Elems(t.right), inc, sub, ins) && (DelCmp(inc, t.v).insert.Some? ==> ins.None?)
    ensures var q := DelCmp(inc, t.v); Apart(Node(t.left, q.kept, sub, t.red), Or(ins, q.insert))
  {
    KeptIsCut(t.v, inc);
    if ins.Some? {
      HalfApart(t, inc, ins.value, true, DelCmp(inc, t.v).kept);
    } else if DelCmp(inc, t.v).insert.Some? {
      assert Elems(sub) == Elems(sub) + Pending(ins);
      SplitApart(t, inc, sub);
    }
  }

  lemma NoneRight(t: Tree, inc: Interval, sub: Tree, ins: Option<Interval>)
    requires t.Node? && Ordered(t) && inc.from <= inc.to && !Swallowed(t.v, inc) && DelCmp(inc, t.v).dir > 0
    requires LeavesOf(Elems(t.right), inc, sub, ins) && (DelCmp(inc, t.v).insert.Some? ==> ins.None?)
    ensures var q := DelCmp(inc, t.v);
      LeavesOf(Elems(t), inc, Node(t.left, q.kept, sub, t.red), Or(ins, q.insert))
  {
    var q := DelCmp(inc, t.v);
    KeptIsCut(t.v, inc);
    assert Ordered(Node(t.left, q.kept, sub, t.red)) by {
      ElemsNonEmpty(t.right);
      TrimmedParts(Elems(t.right), inc);
      RightPartOrdered(t, q.kept, sub);
    }
    ApartRight(t, inc, sub, ins);
    TrimmedSides(t, inc);
    Shuffle(Elems(t.left), {q.kept}, Elems(sub), Pending(Or(ins, q.insert)), Trimmed(Elems(t), inc));
  }

  lemma NoneLeft(t: Tree, inc: Interval, sub: Tree, ins: Option<Interval>)
    requires t.Node? && Ordered(t) && inc.from <= inc.to && !Swallowed(t.v, inc) && DelCmp(inc, t.v).dir < 0
    requires LeavesOf(Elems(t.left), inc, sub, ins)
    ensures LeavesOf(Elems(t), inc, Node(sub, DelCmp(inc, t.v).kept, t.right, t.red), ins)
  {
    var q := DelCmp(inc, t.v);
    KeptIsCut(t.v, inc);
    assert Ordered(Node(sub, q.kept, t.right, t.red)) by {
      ElemsNonEmpty(t.left);
      TrimmedParts(Elems(t.left), inc);
      LeftPartOrdered(t, q.kept, sub);
    }
    if ins.Some? { HalfApart(t, inc, ins.value, false, q.kept); }
    TrimmedSides(t, inc);
    Shuffle(Elems(sub), {q.kept}, Elems(t.right), Pending(ins), Trimmed(Elems(t), inc));
  }

  /** Cutting back a node, its interval not swallowed: only the entered side changes. */
  lemma TrimmedSides(t: Tree, inc: Interval)
    requires t.Node? && Ordered(t) && inc.from <= inc.to && !Swallowed(t.v, inc)
    ensures var q := DelCmp(inc, t.v);
      Trimmed(Elems(t), inc) ==
        if q.dir > 0 then Elems(t.left) + ({q.kept} + Pending(q.insert)) + Trimmed(Elems(t.right), inc)
        else Trimmed(Elems(t.left), inc) + {q.kept} + Elems(t.right)
  {
    KeptIsCut(t.v, inc);
    OtherSideMisses(t, inc);
    TrimmedNode(t, inc);
    if DelCmp(inc, t.v).dir > 0 {
      TrimmedMiss(Elems(t.left), inc);
    } else {
      TrimmedMiss(Elems(t.right), inc);
      assert {DelCmp(inc, t.v).kept} + {} == {DelCmp(inc, t.v).kept};
    }
  }

  lemma EnterNone(t: Tree, inc: Interval, sub: Tree, ins: Option<Interval>)
    requires t.Node? && Ordered(t) && inc.from <= inc.to && !Swallowed(t.v, inc)
    requires LeavesOf(Elems(if DelCmp(inc, t.v).dir > 0 then t.right else t.left), inc, sub, ins)
    requires DelCmp(inc, t.v).insert.Some? ==> ins.None?
    ensures var q := DelCmp(inc, t.v);
      LeavesOf(Elems(t), inc,
               if q.dir > 0 then Node(t.left, q.kept, sub, t.red) else Node(sub, q.kept, t.right, t.red),
               Or(ins, q.insert))
  {
    KeptIsCut(t.v, inc);
    if DelCmp(inc, t.v).dir > 0 { NoneRight(t, inc, sub, ins); } else { NoneLeft(t, inc, sub, ins); }
  }

  /** A range that holds no stored interval entirely is cut out in one round. */
  lemma {:induction false} TakeNone(t: Tree, inc: Interval)
    requires t.Node? && Ordered(t) && inc.from <= inc.to
    requires forall x :: x in Elems(t) ==> !Swallowed(x, inc)
    ensures var c := Take(t, inc, false);
      !c.found && c.todo == [] && LeavesOf(Elems(t), inc, c.tree, c.insert)
  {
    var q := DelCmp(inc, t.v);
    var next := if q.dir > 0 then t.right else t.left;
    assert t.v in Elems(t);
    if next.Leaf? {
      EnterNone(t, inc, Leaf, None);
    } else {
      TakeNone(next, inc);
      var c := Take(next, inc, false);
      if q.insert.Some? { NothingSplit(t, inc); }
      EnterNone(t, inc, c.tree, c.insert);
    }
    KeptIsCut(t.v, inc);
  }

  lemma NothingSplit(t: Tree, inc: Interval)
    requires t.Node? && t.right.Node? && Ordered(t) && inc.from <= inc.to && DelCmp(inc, t.v).insert.Some?
    ensures Take(t.right, inc, false).insert == None
  {
    OtherSideMisses(t, inc);
    TakeMiss(t.right, inc);
  }

  // ---------------------------------------------------------------- one interval swallowed

  function Max(t: Tree): Interval
    requires t.Node?
  {
    if t.right.Leaf? then t.v else Max(t.right)
  }

  function DropMax(t: Tree): Tree
    requires t.Node?
  {
    if t.right.Leaf? then t.left else Node(t.left, t.v, DropMax(t.right), t.red)
  }

  lemma {:induction false} DropMaxOrdered(t: Tree)
    requires t.Node? && Ordered(t)
    ensures Ordered(DropMax(t))
    ensures Elems(t) == Elems(DropMax(t)) + {Max(t)} && Max(t) !in Elems(DropMax(t))
    ensures forall x :: x in Elems(DropMax(t)) ==> Before(x, Max(t))
    ensures Max(t).from <= Max(t).to
  {
    if t.right.Node? {
      DropMaxOrdered(t.right);
      assert Before(t.v, Max(t.right));
      forall x | x in Elems(DropMax(t)) ensures Before(x, Max(t)) {
        if x in Elems(t.left) { assert Before(x, t.v); }
      }
    }
  }

  /** x starts below inc and ends before or inside it. */
  predicate Pokes(x: Interval, inc: Interval) {
    Before(x, inc) || (x.kind == inc.kind && x.from < inc.from && x.to <= inc.to)
  }

  /** Past a match, with nothing but intervals that start below the range, the walk ends at the
      greatest of them. */
  lemma {:induction false} TakeMax(t: Tree, inc: Interval)
    requires t.Node? && Ordered(t) && inc.from <= inc.to
    requires forall x :: x in Elems(t) ==> Pokes(x, inc)
    ensures Take(t, inc, true) == Taken(DropMax(t), DelCmp(inc, Max(t)).kept, true, None, [])
  {
    assert t.v in Elems(t);
    if t.right.Node? {
      assert t.right.v in Elems(t.right) && t.right.v in Elems(t);
      assert Before(t.v, t.right.v) && Pokes(t.right.v, inc);
      ElemsNonEmpty(t);
      TakeMax(t.right, inc);
    }
  }

  /** A round with one swallowed interval s: s is gone, the others are cut back or still wait. */
  ghost predicate Loose(e: set<Interval>, s: Interval, inc: Interval, e': set<Interval>) {
    && Trimmed(e', inc) == Trimmed(e, inc)
    && PartsOf(e', e - {s})
    && forall y :: y in e' ==> !Swallowed(y, inc)
  }

  /** The match, and the greatest interval on its left moving up in its place. */
  lemma MovedOrdered(t: Tree, m: Interval)
    requires t.Node? && t.left.Node? && Ordered(t) && Within(m, Max(t.left))
    ensures Ordered(Node(DropMax(t.left), m, t.right, t.red))
    ensures PartsOf(Elems(Node(DropMax(t.left), m, t.right, t.red)), Elems(t) - {t.v})
  {
    DropMaxOrdered(t.left);
    ElemsNonEmpty(t);
    assert Before(Max(t.left), t.v);
    forall x | x in Elems(t.right) ensures Before(m, x) { assert Before(t.v, x); }
    forall y | y in Elems(Node(DropMax(t.left), m, t.right, t.red))
      ensures exists x :: x in Elems(t) - {t.v} && Within(y, x)
    {
      assert y in Elems(t.left) ==> Before(y, t.v);
      assert y in Elems(t.right) ==> Before(t.v, y);
      assert Within(y, if y == m then Max(t.left) else y);
    }
  }

  lemma MovedTrimmed(t: Tree, inc: Interval, m: Interval)
    requires t.Node? && t.left.Node? && Ordered(t) && Swallowed(t.v, inc)
    requires Cut(Max(t.left), inc) == Cut(m, inc)
    ensures Trimmed(Elems(Node(DropMax(t.left), m, t.right, t.red)), inc) == Trimmed(Elems(t), inc)
  {
    DropMaxOrdered(t.left);
    TrimmedNode(t, inc);
    TrimmedNode(Node(DropMax(t.left), m, t.right, t.red), inc);
    TrimmedUnion(Elems(DropMax(t.left)), {Max(t.left)}, inc);
    assert Trimmed({Max(t.left)}, inc) == Cut(Max(t.left), inc);
    assert Cut(t.v, inc) == {};
  }

  lemma MaxCut(t: Tree, inc: Interval)
    requires t.Node? && t.left.Node? && Ordered(t) && inc.from <= inc.to && Swallowed(t.v, inc)
    requires forall x :: x in Elems(t) && Swallowed(x, inc) ==> x == t.v
    ensures var x, m := Max(t.left), DelCmp(inc, Max(t.left)).kept;
      && Take(t.left, inc, true) == Taken(DropMax(t.left), m, true, None, [])
      && Within(m, x) && !Swallowed(m, inc) && Cut(x, inc) == Cut(m, inc)
  {
    ElemsNonEmpty(t);
    forall x | x in Elems(t.left) ensures Pokes(x, inc) {
      assert Before(x, t.v) && !Swallowed(x, inc);
    }
    TakeMax(t.left, inc);
    DropMaxOrdered(t.left);
    KeptIsCut(Max(t.left), inc);
  }

  lemma NothingMoved(t: Tree, inc: Interval)
    requires t.Node? && t.left.Leaf? && Ordered(t) && inc.from <= inc.to && Swallowed(t.v, inc)
    requires forall x :: x in Elems(t) && Swallowed(x, inc) ==> x == t.v
    ensures Loose(Elems(t), t.v, inc, Elems(t.right))
  {
    ElemsNonEmpty(t);
    TrimmedNode(t, inc);
    assert Cut(t.v, inc) == {};
    forall y | y in Elems(t.right) ensures !Swallowed(y, inc) && exists x :: x in Elems(t) - {t.v} && Within(y, x) {
      assert Before(t.v, y) && Within(y, y);
    }
  }

  /** The node with the match itself. */
  lemma OneHere(t: Tree, inc: Interval)
    requires t.Node? && Ordered(t) && inc.from <= inc.to && Swallowed(t.v, inc)
    requires forall x :: x in Elems(t) && Swallowed(x, inc) ==> x == t.v
    ensures var c := Take(t, inc, false);
      && c.found && c.insert == None && c.todo == DelCmp(inc, t.v).todo
      && Ordered(c.tree) && Loose(Elems(t), t.v, inc, Elems(c.tree))
  {
    if t.left.Leaf? {
      NothingMoved(t, inc);
    } else {
      var m := DelCmp(inc, Max(t.left)).kept;
      MaxCut(t, inc);
      var t' := Node(DropMax(t.left), m, t.right, t.red);
      assert Take(t, inc, false) == Taken(t', m, true, None, DelCmp(inc, t.v).todo);
      MovedOrdered(t, m);
      MovedTrimmed(t, inc, m);
      MovedOut(t, inc, m);
    }
  }

  lemma MovedOut(t: Tree, inc: Interval, m: Interval)
    requires t.Node? && t.left.Node? && Ordered(t) && !Swallowed(m, inc)
    requires forall x :: x in Elems(t) && Swallowed(x, inc) ==> x == t.v
    ensures forall y :: y in Elems(Node(DropMax(t.left), m, t.right, t.red)) ==> !Swallowed(y, inc)
  {
    DropMaxOrdered(t.left);
    ElemsNonEmpty(t);
    forall y | y in Elems(DropMax(t.left)) ensures !Swallowed(y, inc) { assert Before(y, t.v); }
    forall y | y in Elems(t.right) ensures !Swallowed(y, inc) { assert Before(t.v, y); }
  }

  /** A range that holds exactly one stored interval entirely: one round unlinks it and queues
      the rest of the range. */
  lemma {:induction false} TakeOne(t: Tree, inc: Interval, s: Interval)
    requires t.Node? && Ordered(t) && inc.from <= inc.to && s in Elems(t) && Swallowed(s, inc)
    requires forall x :: x in Elems(t) && Swallowed(x, inc) ==> x == s
    ensures var c := Take(t, inc, false);
      && c.found && c.insert == None && c.todo == DelCmp(inc, s).todo
      && Ordered(c.tree) && Loose(Elems(t), s, inc, Elems(c.tree))
  {
    if t.v == s {
      OneHere(t, inc);
    } else {
      OneSide(t, inc, s);
      var q := DelCmp(inc, t.v);
      var next := if q.dir > 0 then t.right else t.left;
      TakeOne(next, inc, s);
      if q.dir > 0 {
        OneRight(t, inc, s, Take(next, inc, false).tree);
      } else {
        OneLeft(t, inc, s, Take(next, inc, false).tree);
      }
    }
  }

  /** On the way to the match: the walk enters its side, and nothing is split. */
  lemma OneSide(t: Tree, inc: Interval, s: Interval)
    requires t.Node? && Ordered(t) && inc.from <= inc.to && s in Elems(t) && Swallowed(s, inc)
    requires forall x :: x in Elems(t) && Swallowed(x, inc) ==> x == s
    requires t.v != s
    ensures var q := DelCmp(inc, t.v);
      && !Swallowed(t.v, inc) && q.dir != 0 && q.insert == None && q.todo == []
      && s in Elems(if q.dir > 0 then t.right else t.left)
      && !Meets(t.v, s)
      && forall x :: x in Elems(if q.dir > 0 then t.left else t.right) ==> !Meets(x, inc) && x != s
  {
    assert t.v in Elems(t);
    ElemsNonEmpty(t);
    ElemsDisjoint(t, t.v, s);
    KeptIsCut(t.v, inc);
    OtherSideMisses(t, inc);
    assert Meets(s, inc);
  }

  lemma OneRight(t: Tree, inc: Interval, s: Interval, sub: Tree)
    requires t.Node? && Ordered(t) && inc.from <= inc.to && s in Elems(t.right) && Swallowed(s, inc)
    requires forall x :: x in Elems(t) && Swallowed(x, inc) ==> x == s
    requires t.v != s && DelCmp(inc, t.v).dir > 0
    requires Ordered(sub) && Loose(Elems(t.right), s, inc, Elems(sub))
    ensures var t' := Node(t.left, DelCmp(inc, t.v).kept, sub, t.red);
      Ordered(t') && Loose(Elems(t), s, inc, Elems(t'))
  {
    var k := DelCmp(inc, t.v).kept;
    OneSide(t, inc, s);
    ElemsNonEmpty(t);
    KeptIsCut(t.v, inc);
    var t' := Node(t.left, k, sub, t.red);
    assert Ordered(t') by {
      assert PartsOf(Elems(sub), Elems(t.right));
      RightPartOrdered(t, k, sub);
    }
    TrimmedNode(t, inc);
    TrimmedNode(t', inc);
    assert Cut(k, inc) == Cut(t.v, inc);
    forall y | y in Elems(t')
      ensures !Swallowed(y, inc) && exists x :: x in Elems(t) - {s} && Within(y, x)
    {
      if y in Elems(sub) {
        var x :| x in Elems(t.right) - {s} && Within(y, x);
      } else {
        assert Within(y, if y == k then t.v else y);
      }
    }
  }

  lemma OneLeft(t: Tree, inc: Interval, s: Interval, sub: Tree)
    requires t.Node? && Ordered(t) && inc.from <= inc.to && s in Elems(t.left) && Swallowed(s, inc)
    requires forall x :: x in Elems(t) && Swallowed(x, inc) ==> x == s
    requires t.v != s && DelCmp(inc, t.v).dir < 0
    requires Ordered(sub) && Loose(Elems(t.left), s, inc, Elems(sub))
    ensures var t' := Node(sub, DelCmp(inc, t.v).kept, t.right, t.red);
      Ordered(t') && Loose(Elems(t), s, inc, Elems(t'))
  {
    var k := DelCmp(inc, t.v).kept;
    OneSide(t, inc, s);
    ElemsNonEmpty(t);
    KeptIsCut(t.v, inc);
    var t' := Node(sub, k, t.right, t.red);
    assert Ordered(t') by {
      assert PartsOf(Elems(sub), Elems(t.left));
      LeftPartOrdered(t, k, sub);
    }
    TrimmedNode(t, inc);
    TrimmedNode(t', inc);
    assert Cut(k, inc) == Cut(t.v, inc);
    forall y | y in Elems(t')
      ensures !Swallowed(y, inc) && exists x :: x in Elems(t) - {s} && Within(y, x)
    {
      if y in Elems(sub) {
        var x :| x in Elems(t.left) - {s} && Within(y, x);
      } else {
        assert Within(y, if y == k then t.v else y);
      }
    }
  }

  // ---------------------------------------------------------------- the loop clears the range

  lemma PartsFit(w: Bases, s: Tree, t: Tree)
    requires AllFit(w, t) && PartsOf(Elems(s), Elems(t))
    ensures AllFit(w, s)
  {
    forall y | y in Elems(s) ensures Fits(w, y) {
      var x :| x in Elems(t) && Within(y, x);
      assert Fits(w, x);
    }
  }

  lemma LeavesFit(w: Bases, t: Tree, p: Interval, sub: Tree, ins: Option<Interval>)
    requires Ordered(t) && AllFit(w, t) && p.from <= p.to && LeavesOf(Elems(t), p, sub, ins)
    ensures AllFit(w, sub) && (ins.Some? ==> Fits(w, ins.value))
  {
    ElemsNonEmpty(t);
    TrimmedParts(Elems(t), p);
    forall y | y in Elems(sub) + Pending(ins) ensures Fits(w, y) {
      var x :| x in Elems(t) && Within(y, x);
      assert Fits(w, x);
    }
  }

  /** A round whose piece swallows nothing cuts the piece out, and queues nothing. */
  lemma RoundNone(w: Bases, t: Tree, p: Interval)
    requires Ordered(t) && AllFit(w, t) && p.from <= p.to && forall x :: x in Elems(t) ==> !Swallowed(x, p)
    ensures Ordered(Round(t, p)) && AllFit(w, Round(t, p))
    ensures Elems(Round(t, p)) == Trimmed(Elems(t), p) && RbTake(t, p).todo == []
  {
    if t.Node? {
      TakeNone(t, p);
      RbTakeInorder(t, p);
      var c := RbTake(t, p);
      SameList(c.tree, Take(t, p, false).tree);
      LeavesFit(w, t, p, c.tree, c.insert);
      if c.insert.Some? { RbInsertOrdered(w, c.tree, c.insert.value); }
    } else {
      assert Trimmed({}, p) == {};
    }
  }

  /** The queued pieces of rng: whatever meets one is cut back to the edges of rng by it, and
      nothing meets rng elsewhere. */
  ghost predicate Edged(e: set<Interval>, q: seq<Interval>, rng: Interval) {
    && (forall i :: 0 <= i < |q| ==> q[i].from <= q[i].to && Swallowed(q[i], rng))
    && (forall x, i :: x in e && 0 <= i < |q| && Meets(x, q[i]) ==> Cut(x, q[i]) == Cut(x, rng))
    && (forall x :: x in e && Meets(x, rng) ==> exists i :: 0 <= i < |q| && Meets(x, q[i]))
    && (forall x :: x in e ==> !Swallowed(x, rng))
  }

  lemma EdgedStep(e: set<Interval>, q: seq<Interval>, rng: Interval)
    requires NonEmpty(e) && q != [] && Edged(e, q, rng) && rng.from <= rng.to
    ensures Edged(Trimmed(e, q[0]), q[1..], rng)
  {
    var e' := Trimmed(e, q[0]);
    forall y | y in e' ensures (y in e && !Meets(y, q[0])) || !Meets(y, rng) {
      var x :| x in e && y in Cut(x, q[0]);
      if Meets(x, q[0]) { assert y in Cut(x, rng); }
    }
    forall y | y in e' && Meets(y, rng) ensures exists i :: 0 <= i < |q[1..]| && Meets(y, q[1..][i]) {
      var i :| 0 <= i < |q| && Meets(y, q[i]);
      assert q[1..][i - 1] == q[i];
    }
    forall y | y in e' ensures !Swallowed(y, rng) {
      TrimmedParts(e, q[0]);
      assert y.from <= y.to;
    }
    forall i | 0 <= i < |q[1..]| ensures q[1..][i] == q[i + 1] {}
  }

  /** With only such pieces left, the loop cuts out exactly rng. */
  lemma {:induction false} DrainEdged(w: Bases, t: Tree, q: seq<Interval>, rng: Interval)
    requires Ordered(t) && AllFit(w, t) && rng.from <= rng.to && Edged(Elems(t), q, rng)
    ensures var t' := Drain(t, q); Ordered(t') && AllFit(w, t') && Elems(t') == Trimmed(Elems(t), rng)
    decreases |q|
  {
    ElemsNonEmpty(t);
    if q == [] {
      TrimmedMiss(Elems(t), rng);
    } else {
      forall x | x in Elems(t) ensures !Swallowed(x, q[0]) { assert !Swallowed(x, rng); }
      RoundNone(w, t, q[0]);
      EdgedStep(Elems(t), q, rng);
      TrimmedTwice(Elems(t), q[0], rng);
      assert q[1..] + [] == q[1..];
      DrainEdged(w, Round(t, q[0]), q[1..], rng);
    }
  }

  /** The range holds at most one stored interval entirely. */
  ghost predicate AtMostOne(e: set<Interval>, rng: Interval) {
    forall x, y :: x in e && y in e && Swallowed(x, rng) && Swallowed(y, rng) ==> x == y
  }

  /** The first round when one interval is swallowed. */
  lemma RoundOne(w: Bases, t: Tree, rng: Interval, s: Interval)
    requires Ordered(t) && AllFit(w, t) && rng.from <= rng.to && AtMostOne(Elems(t), rng)
    requires s in Elems(t) && Swallowed(s, rng)
    ensures Ordered(Round(t, rng)) && AllFit(w, Round(t, rng))
    ensures Trimmed(Elems(Round(t, rng)), rng) == Trimmed(Elems(t), rng)
    ensures Edged(Elems(Round(t, rng)), RbTake(t, rng).todo, rng)
  {
    TakeOne(t, rng, s);
    RbTakeInorder(t, rng);
    var c := RbTake(t, rng);
    SameList(c.tree, Take(t, rng, false).tree);
    assert PartsOf(Elems(c.tree), Elems(t));
    PartsFit(w, c.tree, t);
    ElemsNonEmpty(t);
    forall y | y in Elems(c.tree) ensures !Meets(y, s) {
      var x :| x in Elems(t) - {s} && Within(y, x);
      ElemsDisjoint(t, x, s);
    }
    ElemsNonEmpty(c.tree);
    RestEdged(Elems(c.tree), rng, s);
  }

  lemma RestEdged(e: set<Interval>, rng: Interval, s: Interval)
    requires NonEmpty(e) && rng.from <= rng.to && s.from <= s.to && Swallowed(s, rng)
    requires forall x :: x in e ==> !Meets(x, s) && !Swallowed(x, rng)
    ensures Edged(e, DelCmp(rng, s).todo, rng)
  {
    var q := DelCmp(rng, s).todo;
    forall x, i | x in e && 0 <= i < |q| && Meets(x, q[i]) ensures Cut(x, q[i]) == Cut(x, rng) {
      assert x.from <= x.to && !Meets(x, s) && !Swallowed(x, rng);
    }
    forall x | x in e && Meets(x, rng) ensures exists i :: 0 <= i < |q| && Meets(x, q[i]) {
      var i := if x.to < s.from then 0 else |q| - 1;
      assert Meets(x, q[i]);
    }
  }

  /** The loop clears exactly the range, if the range holds at most one stored interval entirely:
      what met it is cut back to its edges, and nothing else changes. */
  lemma DrainExact(w: Bases, t: Tree, rng: Interval)
    requires Ordered(t) && AllFit(w, t) && rng.from <= rng.to && AtMostOne(Elems(t), rng)
    ensures var t' := Drain(t, [rng]); Ordered(t') && AllFit(w, t') && Elems(t') == Trimmed(Elems(t), rng)
  {
    ElemsNonEmpty(t);
    if s :| s in Elems(t) && Swallowed(s, rng) {
      var q := RbTake(t, rng).todo;
      RoundOne(w, t, rng, s);
      assert [rng][1..] + q == q;
      assert Drain(t, [rng]) == Drain(Round(t, rng), q);
      DrainEdged(w, Round(t, rng), q, rng);
    } else {
      forall x | x in Elems(t) && Meets(x, rng) ensures exists i :: 0 <= i < |[rng]| && Meets(x, [rng][i]) {
        assert Meets(x, [rng][0]);
      }
      DrainEdged(w, t, [rng], rng);
    }
  }

  /** A write under that condition: the new interval, and what the others keep outside it. */
  lemma SetExact(w: Bases, t: Tree, rng: Interval, n: nat)
    requires Ordered(t) && AllFit(w, t) && Fits(w, rng) && AtMostOne(Elems(t), rng)
    ensures var t' := SetTree(t, rng, n);
      && Ordered(t') && AllFit(w, t')
      && Elems(t') == Trimmed(Elems(t), rng) + {rng.(node := n)}
  {
    var t', x := Drain(t, [rng]), rng.(node := n);
    DrainExact(w, t, rng);
    ElemsNonEmpty(t);
    TrimmedParts(Elems(t), rng);
    assert forall y :: y in Elems(t') ==> !Meets(x, y);
    RbInsertOrdered(w, t', x);
  }

  /** In terms of bits: exactly those of the range are relabelled. */
  lemma SetBits(w: Bases, t: Tree, rng: Interval, n: nat, k: Kind, b: int)
    requires Ordered(t) && AllFit(w, t) && Fits(w, rng) && AtMostOne(Elems(t), rng)
    ensures At(SetTree(t, rng, n), k, b) == if In(rng, k, b) then Some(n) else At(t, k, b)
  {
    var t' := SetTree(t, rng, n);
    SetExact(w, t, rng, n);
    if In(rng, k, b) {
      AtUnique(t', rng.(node := n), b);
    } else {
      AtElem(t, k, b);
      AtElem(t', k, b);
      if At(t, k, b).Some? {
        var x :| x in Elems(t) && In(x, k, b) && x.node == At(t, k, b).value;
        KeptBit(t, rng, x, k, b);
        var y :| y in Cut(x, rng) && In(y, k, b) && y.node == x.node;
        AtUnique(t', y, b);
      } else if At(t', k, b).Some? {
        var y :| y in Elems(t') && In(y, k, b);
        NoNewBit(t, rng, y, k, b);
      }
    }
  }

  lemma KeptBit(t: Tree, rng: Interval, x: Interval, k: Kind, b: int)
    requires In(x, k, b) && !In(rng, k, b)
    ensures exists y :: y in Cut(x, rng) && In(y, k, b) && y.node == x.node
  {
    var y := if !Meets(x, rng) then x else if b < rng.from then x.(to := rng.from - 1) else x.(from := rng.to + 1);
    assert y in Cut(x, rng);
  }

  lemma NoNewBit(t: Tree, rng: Interval, y: Interval, k: Kind, b: int)
    requires Ordered(t) && rng.from <= rng.to && In(y, k, b) && !In(rng, k, b) && y in Trimmed(Elems(t), rng)
    ensures At(t, k, b).Some?
  {
    ElemsNonEmpty(t);
    AtElem(t, k, b);
    var x :| x in Elems(t) && y in Cut(x, rng);
    assert In(x, k, b);
  }

  // ---------------------------------------------------------------- sequences of writes

  function SetTrees(t: Tree, writes: seq<Interval>): Tree
    requires Solid(writes)
    decreases |writes|
  {
    if writes == [] then t else SetTrees(SetTree(t, writes[0], writes[0].node), writes[1..])
  }

  /** No write swallows two of the intervals stored before it. */
  ghost predicate TidyWrites(e: set<Interval>, writes: seq<Interval>)
    decreases |writes|
  {
    writes != [] ==> AtMostOne(e, writes[0]) && TidyWrites(Trimmed(e, writes[0]) + {writes[0]}, writes[1..])
  }

  function LastWriter(writes: seq<Interval>, k: Kind, b: int): Option<nat> {
    if writes == [] then None
    else Or(LastWriter(writes[1..], k, b), if In(writes[0], k, b) then Some(writes[0].node) else None)
  }

  /** After tidy writes the tree is in order, and every bit carries the node of the last write
      over it, or what it carried before. */
  lemma {:induction false} TidyWritesExact(w: Bases, t: Tree, writes: seq<Interval>)
    requires Ordered(t) && AllFit(w, t) && forall i :: 0 <= i < |writes| ==> Fits(w, writes[i])
    requires Solid(writes) && TidyWrites(Elems(t), writes)
    decreases |writes|
    ensures Ordered(SetTrees(t, writes))
    ensures forall k, b :: At(SetTrees(t, writes), k, b) == Or(LastWriter(writes, k, b), At(t, k, b))
  {
    if writes != [] {
      var v := writes[0];
      var t' := SetTree(t, v, v.node);
      SetExact(w, t, v, v.node);
      forall k, b { SetBits(w, t, v, v.node, k, b); }
      TidyWritesExact(w, t', writes[1..]);
    }
  }
}
