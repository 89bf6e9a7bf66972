/** Graph nodes carry tags, the tree carries nodes.  The tree operations never look at the node
    of an interval, so they do the same on a tree in which every node is replaced by 1 if it is
    tagged constant and by 0 if not. */
module Tagging {
  import opened Lists
  import opened IntervalTree
  import opened RedBlack
  import opened Clearing
  import opened Lookups

  datatype Tag = CONST | VAR | PTR | RESULT | GENERATIVE | REG | MEM | MERGE | SIBLING

  type Nodes = seq<set<Tag>>

  function Tags(base: set<Tag>, fixed: bool): set<Tag> { base + (if fixed then {CONST} else {}) }

  predicate ConstNode(nodes: Nodes, n: nat) { n < |nodes| && CONST in nodes[n] }

  function Mark(nodes: Nodes, n: nat): nat { if ConstNode(nodes, n) then 1 else 0 }

  function Marked(nodes: Nodes, x: Interval): Interval { x.(node := Mark(nodes, x.node)) }

  function Marks(nodes: Nodes, t: Tree): Tree {
    match t
    case Leaf => Leaf
    case Node(l, v, r, red) => Node(Marks(nodes, l), Marked(nodes, v), Marks(nodes, r), red)
  }

  function MarksZip(nodes: Nodes, z: Zip): Zip {
    match z
    case Top => Top
    case Down(up, right, v, red, other, hit) =>
      Down(MarksZip(nodes, up), right, Marked(nodes, v), red, Marks(nodes, other), hit)
  }

  function MarkedOr(nodes: Nodes, o: Option<Interval>): Option<Interval> {
    if o.Some? then Some(Marked(nodes, o.value)) else None
  }

  lemma MarksRed(nodes: Nodes, t: Tree)
    ensures Red(Marks(nodes, t)) == Red(t) && Marks(nodes, t).Node? == t.Node?
    ensures forall c :: Marks(nodes, Paint(t, c)) == Paint(Marks(nodes, t), c)
  {
  }

  lemma {:induction false} MarksPlug(nodes: Nodes, z: Zip, t: Tree, fill: Option<Interval>)
    ensures Marks(nodes, Plug(z, t, fill)) == Plug(MarksZip(nodes, z), Marks(nodes, t), MarkedOr(nodes, fill))
  {
    if z.Down? { MarksPlug(nodes, z.up, Mk(z.right, t, Final(z, fill), z.other, z.red), fill); }
  }

  // ---------------------------------------------------------------- insertion

  lemma MarksFlip(nodes: Nodes, q: Tree)
    ensures Marks(nodes, Flip(q)) == Flip(Marks(nodes, q))
  {
  }

  lemma MarksOld(nodes: Nodes, z: Zip, q: Tree)
    requires z.Down? && z.up.Down? && q.Node?
    ensures MarksZip(nodes, z).up == MarksZip(nodes, z.up) && MarksZip(nodes, z.up).Down?
    ensures Marks(nodes, OldParent(z, q)) == OldParent(MarksZip(nodes, z), Marks(nodes, q))
    ensures Marks(nodes, OldGrand(z, q)) == OldGrand(MarksZip(nodes, z), Marks(nodes, q))
  {
    assert Marks(nodes, Child(q, true)) == Child(Marks(nodes, q), true);
    assert Marks(nodes, Child(q, false)) == Child(Marks(nodes, q), false);
  }

  lemma MarksTwice(nodes: Nodes, z: Zip, f: Tree, right: bool)
    requires z.Down? && z.up.Down? && f.Node?
    ensures MarksZip(nodes, z).up == MarksZip(nodes, z.up) && MarksZip(nodes, z.up).Down?
    ensures var (w, c) := Twice(z, f, right);
      Twice(MarksZip(nodes, z), Marks(nodes, f), right) == (MarksZip(nodes, w), Marks(nodes, c))
  {
    var g := z.up.right;
    var s := if right == g then OldParent(z, f) else OldGrand(z, f);
    MarksOld(nodes, z, f);
    MarksFlip(nodes, s);
    var (w, c) := Twice(z, f, right);
    assert MarksZip(nodes, w.up) == Twice(MarksZip(nodes, z), Marks(nodes, f), right).0.up;
  }

  lemma MarksOnce(nodes: Nodes, z: Zip, f: Tree)
    requires f.Node?
    ensures MarksZip(nodes, Once(z, f)) == Once(MarksZip(nodes, z), Marks(nodes, f))
    ensures Clash(MarksZip(nodes, z), Marks(nodes, f)) == Clash(z, f)
  {
    MarksRed(nodes, f);
    if z.Down? && z.up.Down? {
      assert MarksZip(nodes, z.up) == MarksZip(nodes, z).up;
      if z.right == z.up.right {
        assert Marks(nodes, Raise(z).other) == Raise(MarksZip(nodes, z)).other;
      }
    }
  }

  lemma MarksGoes(nodes: Nodes, z: Zip, f: Tree, right: bool)
    requires f.Node?
    ensures var (w, c) := Goes(z, f, right);
      Goes(MarksZip(nodes, z), Marks(nodes, f), right) == (MarksZip(nodes, w), Marks(nodes, c))
  {
    MarksOnce(nodes, z, f);
    if Clash(z, f) { MarksTwice(nodes, z, f, right); }
  }

  lemma MarksLand(nodes: Nodes, z: Zip, x: Interval)
    ensures Marks(nodes, Land(z, Node(Leaf, x, Leaf, true)))
         == Land(MarksZip(nodes, z), Node(Leaf, Marked(nodes, x), Leaf, true))
  {
    var f := Node(Leaf, x, Leaf, true);
    MarksOnce(nodes, z, f);
    if Clash(z, f) && z.right != z.up.right {
      MarksOld(nodes, z, f);
      MarksPlug(nodes, z.up.up, Mk(z.up.right, OldParent(z, f), f.v, OldGrand(z, f), false), None);
    } else {
      MarksPlug(nodes, Once(z, f), f, None);
    }
  }

  lemma {:induction false} MarksSink(nodes: Nodes, z: Zip, q: Tree, x: Interval)
    ensures Marks(nodes, Sink(z, q, x)) == Sink(MarksZip(nodes, z), Marks(nodes, q), Marked(nodes, x))
    decreases Size(q)
  {
    if q.Leaf? {
      MarksLand(nodes, z, x);
    } else {
      var right := InsCmp(x, q.v) >= 0;
      var (w, c) := Goes(z, Flip(q), right);
      MarksFlip(nodes, q);
      MarksGoes(nodes, z, Flip(q), right);
      MarksSink(nodes, w, c, x);
    }
  }

  lemma MarksInsert(nodes: Nodes, t: Tree, x: Interval)
    ensures Marks(nodes, RbInsert(t, x)) == RbInsert(Marks(nodes, t), Marked(nodes, x))
  {
    if t.Node? { MarksSink(nodes, Top, t, x); }
  }

  // ---------------------------------------------------------------- deletion

  function MarkedCut(nodes: Nodes, c: Taken): Taken {
    Taken(Marks(nodes, c.tree), Marked(nodes, c.last), c.found, MarkedOr(nodes, c.insert), c.todo)
  }

  lemma MarksEnter(nodes: Nodes, z: Zip, right: bool, v: Interval, red: bool, next: Tree, other: Tree, hit: bool)
    ensures MarksZip(nodes, Enter(z, right, v, red, next, other, hit))
         == Enter(MarksZip(nodes, z), right, Marked(nodes, v), red, Marks(nodes, next), Marks(nodes, other), hit)
  {
    MarksRed(nodes, next);
    MarksRed(nodes, other);
    if !red && !Red(next) {
      if Red(other) {
        MarksLift(nodes, z, right, other);
      } else if z.Down? && z.other.Node? {
        MarksRed(nodes, z.other.left);
        MarksRed(nodes, z.other.right);
        if Red(z.other.left) || Red(z.other.right) { MarksRotated(nodes, z); } else { MarksPaint(nodes, z); }
      }
    }
  }

  lemma MarksLift(nodes: Nodes, z: Zip, right: bool, other: Tree)
    requires other.Node?
    ensures MarksZip(nodes, Down(z, right, other.v, false, Child(other, !right), false))
         == Down(MarksZip(nodes, z), right, Marked(nodes, other.v), false, Child(Marks(nodes, other), !right), false)
    ensures Marks(nodes, Child(other, right)) == Child(Marks(nodes, other), right)
  {
  }

  lemma MarksPaint(nodes: Nodes, z: Zip)
    requires z.Down?
    ensures MarksZip(nodes, z).Down?
    ensures MarksZip(nodes, z.(red := false, other := Paint(z.other, true)))
         == MarksZip(nodes, z).(red := false, other := Paint(Marks(nodes, z.other), true))
  {
    MarksRed(nodes, z.other);
  }

  lemma MarksRotated(nodes: Nodes, z: Zip)
    requires z.Down? && z.other.Node? && (Red(z.other.left) || Red(z.other.right))
    ensures MarksZip(nodes, Rotated(z)) == Rotated(MarksZip(nodes, z))
  {
    var s, last := z.other, z.right;
    var inner := Child(s, last);
    assert Marks(nodes, inner) == Child(Marks(nodes, s), last);
    assert Marks(nodes, Child(s, !last)) == Child(Marks(nodes, s), !last);
    if Red(inner) {
      assert Marks(nodes, Mk(last, Child(inner, !last), s.v, Child(s, !last), false))
          == Mk(last, Child(Marks(nodes, inner), !last), Marked(nodes, s.v), Child(Marks(nodes, s), !last), false);
    }
    var r := Rotated(z);
    assert MarksZip(nodes, r.up) == Rotated(MarksZip(nodes, z)).up;
  }

  lemma {:induction false} MarksDescend(nodes: Nodes, z: Zip, q: Tree, inc: Interval, found: bool)
    requires q.Node?
    ensures Descend(MarksZip(nodes, z), Marks(nodes, q), inc, found) == MarkedCut(nodes, Descend(z, q, inc, found))
    decreases q
  {
    var c := DelCmp(inc, q.v);
    var hit, right := c.dir == 0 && !found, c.dir > 0;
    var next := Child(q, right);
    var w := Enter(z, right, c.kept, q.red, next, Child(q, !right), hit);
    MarksEnter(nodes, z, right, c.kept, q.red, next, Child(q, !right), hit);
    MarksCmp(nodes, inc, q.v);
    if next.Leaf? {
      if found || hit { MarksPlug(nodes, w.up, w.other, Some(c.kept)); } else { MarksPlug(nodes, w, Leaf, None); }
    } else {
      MarksDescend(nodes, w, next, inc, found || hit);
    }
  }

  lemma MarksCmp(nodes: Nodes, inc: Interval, v: Interval)
    ensures var c, d := DelCmp(inc, v), DelCmp(inc, Marked(nodes, v));
      d == Verdict(c.dir, Marked(nodes, c.kept), MarkedOr(nodes, c.insert), c.todo)
  {
  }

  lemma MarksRound(nodes: Nodes, t: Tree, inc: Interval)
    ensures Marks(nodes, Round(t, inc)) == Round(Marks(nodes, t), inc)
    ensures RbTake(Marks(nodes, t), inc).todo == RbTake(t, inc).todo
  {
    if t.Node? {
      MarksDescend(nodes, Top, t, inc, false);
      var c := RbTake(t, inc);
      if c.insert.Some? { MarksInsert(nodes, c.tree, c.insert.value); }
    }
  }

  lemma {:induction false} MarksDrain(nodes: Nodes, t: Tree, q: seq<Interval>)
    requires Solid(q)
    ensures Marks(nodes, Drain(t, q)) == Drain(Marks(nodes, t), q)
    decreases Longest(q), Count(q, Longest(q)), First(q, Longest(q))
  {
    if q != [] {
      var more := RbTake(t, q[0]).todo;
      RoundQueue(t, q[0]);
      QueueShrinks(q, more);
      MarksRound(nodes, t, q[0]);
      MarksDrain(nodes, Round(t, q[0]), q[1..] + more);
    }
  }

  lemma MarksSet(nodes: Nodes, t: Tree, rng: Interval, n: nat)
    requires rng.from <= rng.to
    ensures Marks(nodes, SetTree(t, rng, n)) == SetTree(Marks(nodes, t), rng, Mark(nodes, n))
  {
    MarksDrain(nodes, t, [rng]);
    MarksInsert(nodes, Drain(t, [rng]), rng.(node := n));
  }

  // ---------------------------------------------------------------- lookups

  lemma {:induction false} MarksSearch(nodes: Nodes, t: Tree, inc: Interval)
    ensures Search(Marks(nodes, t), inc) == Hit(MarkedOr(nodes, Search(t, inc).part), Search(t, inc).todo)
  {
    if t.Node? && FindCmp(inc, t.v).dir != 0 {
      MarksSearch(nodes, if FindCmp(inc, t.v).dir < 0 then t.left else t.right, inc);
    }
  }

  function MarkedParts(nodes: Nodes, s: seq<nat>): seq<nat> { seq(|s|, i requires 0 <= i < |s| => Mark(nodes, s[i])) }

  lemma MarkedConcat(nodes: Nodes, a: seq<nat>, b: seq<nat>)
    ensures MarkedParts(nodes, a + b) == MarkedParts(nodes, a) + MarkedParts(nodes, b)
  {
  }

  lemma {:induction false} MarksCollect(nodes: Nodes, t: Tree, q: seq<Interval>, n: nat, filled: bool)
    requires Solid(q)
    ensures var g := Collect(t, q, n, filled);
      Collect(Marks(nodes, t), q, Mark(nodes, n), filled)
      == Gathered(Marks(nodes, g.tree), MarkedParts(nodes, g.parts), g.filled)
    decreases Longest(q), Count(q, Longest(q)), First(q, Longest(q))
  {
    if q != [] {
      var h := Search(t, q[0]);
      SearchQueue(t, q[0]);
      QueueShrinks(q, h.todo);
      MarksSearch(nodes, t, q[0]);
      if h.part.Some? {
        MarksCollect(nodes, t, q[1..] + h.todo, n, filled);
        MarkedConcat(nodes, [h.part.value.node], Collect(t, q[1..] + h.todo, n, filled).parts);
        assert MarkedParts(nodes, [h.part.value.node]) == [Mark(nodes, h.part.value.node)];
      } else {
        var t', first := RbInsert(t, q[0].(node := n)), if filled then [] else [n];
        MarksInsert(nodes, t, q[0].(node := n));
        MarksCollect(nodes, t', q[1..] + h.todo, n, true);
        MarkedConcat(nodes, first, Collect(t', q[1..] + h.todo, n, true).parts);
        assert MarkedParts(nodes, first) == if filled then [] else [Mark(nodes, n)];
      }
    }
  }

  // ---------------------------------------------------------------- more nodes

  /** Nodes added later change no mark. */
  lemma {:induction false} MarksMore(nodes: Nodes, nodes': Nodes, t: Tree)
    requires nodes <= nodes' && forall x :: x in Elems(t) ==> x.node < |nodes|
    ensures Marks(nodes', t) == Marks(nodes, t)
  {
    if t.Node? {
      assert t.v in Elems(t);
      MarksMore(nodes, nodes', t.left);
      MarksMore(nodes, nodes', t.right);
    }
  }

  // ---------------------------------------------------------------- what holds in any tree

  /** Every stored interval is non-empty, lies in the window, and has an existing node. */
  ghost predicate Sound(w: Bases, n: nat, t: Tree) { forall x :: x in Elems(t) ==> Fits(w, x) && x.node < n }

  lemma KeptSound(w: Bases, n: nat, v: Interval, inc: Interval)
    requires Fits(w, v) && v.node < n && inc.from <= inc.to
    ensures var q := DelCmp(inc, v);
      && Fits(w, q.kept) && q.kept.node < n
      && (q.insert.Some? ==> Fits(w, q.insert.value) && q.insert.value.node < n)
  {
  }

  lemma {:induction false} TakeSound(w: Bases, n: nat, t: Tree, inc: Interval, found: bool)
    requires t.Node? && Sound(w, n, t) && inc.from <= inc.to
    ensures var c := Take(t, inc, found);
      && Sound(w, n, c.tree) && Fits(w, c.last) && c.last.node < n
      && (c.insert.Some? ==> Fits(w, c.insert.value) && c.insert.value.node < n)
  {
    var q := DelCmp(inc, t.v);
    var next := if q.dir > 0 then t.right else t.left;
    assert t.v in Elems(t);
    KeptSound(w, n, t.v, inc);
    if next.Node? { TakeSound(w, n, next, inc, found || q.dir == 0); }
  }

  lemma InsertSound(w: Bases, n: nat, t: Tree, x: Interval)
    requires Sound(w, n, t) && Fits(w, x) && x.node < n
    ensures Sound(w, n, RbInsert(t, x))
  {
    RbInsertElems(t, x);
  }

  lemma RoundSound(w: Bases, n: nat, t: Tree, inc: Interval)
    requires Sound(w, n, t) && inc.from <= inc.to
    ensures Sound(w, n, Round(t, inc))
  {
    if t.Node? {
      var c := RbTake(t, inc);
      TakeSound(w, n, t, inc, false);
      RbTakeInorder(t, inc);
      SameList(c.tree, Take(t, inc, false).tree);
      if c.insert.Some? { InsertSound(w, n, c.tree, c.insert.value); }
    }
  }

  lemma {:induction false} CollectSound(w: Bases, k: nat, t: Tree, q: seq<Interval>, n: nat, filled: bool)
    requires Solid(q) && Sound(w, k, t) && forall i :: 0 <= i < |q| ==> Fits(w, q[i])
    requires Collect(t, q, n, filled).filled ==> n < k
    ensures var g := Collect(t, q, n, filled); Sound(w, k, g.tree) && forall m :: m in g.parts ==> m < k
    decreases Longest(q), Count(q, Longest(q)), First(q, Longest(q))
  {
    if q != [] {
      var h := Search(t, q[0]);
      SearchQueue(t, q[0]);
      QueueShrinks(q, h.todo);
      var r := q[1..] + h.todo;
      forall i | 0 <= i < |r| ensures Fits(w, r[i]) {
        assert i < |q| - 1 ==> r[i] == q[i + 1];
        assert i >= |q| - 1 ==> Within(r[i], q[0]);
      }
      if h.part.Some? {
        CollectSound(w, k, t, r, n, filled);
      } else {
        var t' := RbInsert(t, q[0].(node := n));
        FilledStays(t', r, n);
        InsertSound(w, k, t, q[0].(node := n));
        CollectSound(w, k, t', r, n, true);
      }
    }
  }

  /** The marks after a read, and the tag of the node n it answers: the single part, or a merge
      node, which is never constant. */
  lemma ReadMarks(nodes: Nodes, nodes': Nodes, t: Tree, rng: Interval, id: nat, n: nat)
    requires rng.from <= rng.to && nodes <= nodes' && Mark(nodes', id) == 0
    requires forall x :: x in Elems(t) ==> x.node < |nodes|
    requires var g := Collect(t, [rng], id, false);
      if |g.parts| == 1 then n == g.parts[0] else !ConstNode(nodes', n)
    ensures var g, m := Collect(t, [rng], id, false), Collect(Marks(nodes, t), [rng], 0, false);
      m.tree == Marks(nodes', g.tree) && (m.parts == [1] <==> ConstNode(nodes', n))
  {
    MarksMore(nodes, nodes', t);
    MarksCollect(nodes', t, [rng], id, false);
    var g := Collect(t, [rng], id, false);
    if |g.parts| == 1 { assert MarkedParts(nodes', g.parts) == [Mark(nodes', n)]; }
  }
}
