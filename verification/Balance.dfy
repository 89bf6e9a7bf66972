/** The red-black tree stays one: both operations of libr/util/new_rbtree.c keep the root black,
    give no red node a red child, and keep the number of black nodes equal on all ways down,
    whatever the comparator answers and whether or not the intervals are in order. */
module Balance {
  import opened Lists
  import opened IntervalTree
  import opened RedBlack
  import opened Clearing
  import opened Lookups

  /** No red node has a red child. */
  predicate Calm(t: Tree) {
    t.Leaf? || (Calm(t.left) && Calm(t.right) && (t.red ==> !Red(t.left) && !Red(t.right)))
  }

  /** Every way down passes h black nodes. */
  predicate Even(t: Tree, h: nat) {
    match t
    case Leaf => h == 0
    case Node(l, _, r, red) => if red then Even(l, h) && Even(r, h) else h > 0 && Even(l, h - 1) && Even(r, h - 1)
  }

  ghost predicate Balanced(t: Tree) { !Red(t) && Calm(t) && exists h: nat :: Even(t, h) }

  /** A red or black subtree of black height h fits into the gap. */
  predicate Hosts(z: Zip, red: bool, h: nat) {
    z.Top? || (Calm(z.other) && Even(z.other, h) && (z.red ==> !red && !Red(z.other))
               && Hosts(z.up, z.red, if z.red then h else h + 1))
  }

  lemma {:induction false} PlugBalanced(z: Zip, t: Tree, fill: Option<Interval>, h: nat)
    requires Calm(t) && Even(t, h) && Hosts(z, Red(t), h)
    ensures Balanced(Paint(Plug(z, t, fill), false))
  {
    if z.Down? {
      var m := Mk(z.right, t, Final(z, fill), z.other, z.red);
      PlugBalanced(z.up, m, fill, if z.red then h else h + 1);
    } else if t.Node? {
      assert Even(Paint(t, false), if t.red then h + 1 else h);
    }
  }

  // ---------------------------------------------------------------- insertion

  /** A black node with black children. */
  predicate Cool(t: Tree) { t.Node? && !t.red && !Red(t.left) && !Red(t.right) }

  /** Between the steps of the descent: q is not red at the root or beside a red sibling, and
      below a red node either q does not turn red or the uncle is not red. */
  predicate Settled(z: Zip, q: Tree) {
    if z.Top? then !Red(q)
    else !(Red(q) && Red(z.other)) && (z.red ==> Cool(q) || (z.up.Down? && !Red(z.up.other)))
  }

  predicate Legal(z: Zip, q: Tree, h: nat) { Calm(q) && Even(q, h) && Hosts(z, Red(q), h) }

  lemma BlackenKeeps(t: Tree, h: nat)
    requires Red(t) && Calm(t) && Even(t, h)
    ensures var b := Paint(t, false); Calm(b) && Even(b, h + 1) && Cool(b)
  {
  }

  lemma FlipKeeps(q: Tree, h: nat)
    requires q.Node? && Calm(q) && Even(q, h)
    ensures var f := Flip(q);
      && Calm(f) && Even(f, h) && !(Red(f.left) && Red(f.right))
      && (Red(f) && !Red(q) ==> Cool(f.left) && Cool(f.right)) && (Cool(q) ==> f == q)
  {
    if Red(q.left) && Red(q.right) {
      BlackenKeeps(q.left, h - 1);
      BlackenKeeps(q.right, h - 1);
      assert !q.red && h > 0;
    }
  }

  /** A rotation is only due right after a colour flip, below a red parent with a black uncle;
      so the node met next is black and does not flip, and no other rotation follows at once. */
  lemma ClashCools(z: Zip, q: Tree, h: nat)
    requires q.Node? && Legal(z, q, h) && Settled(z, q) && Clash(z, Flip(q))
    ensures !Red(q) && Cool(Flip(q).left) && Cool(Flip(q).right)
    ensures !Red(z.other) && !z.up.red && !Red(z.up.other)
  {
    FlipKeeps(q, h);
    assert z.red && Hosts(z.up, true, h);
  }

  lemma RaiseHosts(z: Zip, h: nat)
    requires z.Down? && z.up.Down? && z.red && Hosts(z, false, h) && !Red(z.up.other)
    ensures Hosts(Raise(z), true, h) && Hosts(z.up.up, false, h + 1)
  {
    assert Hosts(z.up, true, h) && Hosts(z.up.up, z.up.red, h + 1);
    var o := Raise(z).other;
    assert Calm(o) && Even(o, h);
  }

  lemma TwiceKeeps(z: Zip, q: Tree, right: bool, h: nat)
    requires q.Node? && Legal(z, q, h) && Settled(z, q) && Clash(z, Flip(q)) && z.right != z.up.right
    ensures var (w, c) := Twice(z, Flip(q), right); Legal(w, c, h) && Settled(w, c)
  {
    FlipKeeps(q, h);
    ClashCools(z, q, h);
    RaiseHosts(z, h);
    var f, g := Flip(q), z.up.right;
    var p, o := OldParent(z, f), OldGrand(z, f);
    assert Calm(p) && Even(p, h) && Flip(p) == p;
    assert Calm(o) && Even(o, h) && Flip(o) == o;
    var (w, c) := Twice(z, f, right);
    assert Hosts(w.up, true, h);
  }

  /** One step of the descent. */
  lemma GoesKeeps(z: Zip, q: Tree, right: bool, h: nat)
    requires q.Node? && Legal(z, q, h) && Settled(z, q)
    ensures var f := Flip(q);
      var (w, c) := Goes(z, f, right);
      Even(q, h) && (!f.red ==> h > 0) && Legal(w, c, if f.red then h else h - 1) && Settled(w, c)
  {
    FlipKeeps(q, h);
    if Clash(z, Flip(q)) {
      ClashCools(z, q, h);
      RaiseHosts(z, h);
      if z.right != z.up.right { TwiceKeeps(z, q, right, h); }
    }
  }

  lemma LandKeeps(z: Zip, x: Interval)
    requires Hosts(z, false, 0) && Settled(z, Leaf)
    ensures Balanced(Paint(Land(z, Node(Leaf, x, Leaf, true)), false))
  {
    var f := Node(Leaf, x, Leaf, true);
    assert Even(f, 0);
    if Clash(z, f) {
      RaiseHosts(z, 0);
      if z.right != z.up.right {
        PlugBalanced(z.up.up, Mk(z.up.right, OldParent(z, f), f.v, OldGrand(z, f), false), None, 1);
      } else {
        PlugBalanced(Raise(z), f, None, 0);
      }
    } else {
      PlugBalanced(z, f, None, 0);
    }
  }

  lemma {:induction false} SinkKeeps(z: Zip, q: Tree, x: Interval, h: nat)
    requires Legal(z, q, h) && Settled(z, q)
    ensures Balanced(Paint(Sink(z, q, x), false))
    decreases Size(q)
  {
    if q.Leaf? {
      LandKeeps(z, x);
    } else {
      var right := InsCmp(x, q.v) >= 0;
      var (w, c) := Goes(z, Flip(q), right);
      GoesKeeps(z, q, right, h);
      SinkKeeps(w, c, x, if Flip(q).red then h else h - 1);
    }
  }

  /** Insertion keeps the tree balanced. */
  lemma InsertBalanced(t: Tree, x: Interval)
    requires Balanced(t)
    ensures Balanced(RbInsert(t, x))
  {
    var h: nat :| Even(t, h);
    if t.Leaf? {
      assert Even(Node(Leaf, x, Leaf, false), 1);
    } else {
      SinkKeeps(Top, t, x, h);
    }
  }

  // ---------------------------------------------------------------- deletion

  /** On the way down of a deletion: the node to enter or its parent is red, unless its parent
      is the root, and then its sibling is black. */
  predicate Warm(z: Zip, q: Tree) { z.Top? || z.red || Red(q) || (z.up.Top? && !Red(z.other)) }

  lemma RotatedHosts(z: Zip, h: nat)
    requires z.Down? && z.other.Node? && !Red(z.other) && (Red(z.other.left) || Red(z.other.right))
    requires Hosts(z, false, h + 1) && (z.up.Top? || z.red)
    ensures Hosts(Rotated(z), true, h)
  {
    var s, last, r := z.other, z.right, Rotated(z);
    var inner, outer := Child(s, last), Child(s, !last);
    assert Even(inner, h) && Even(outer, h) && Calm(inner) && Calm(outer);
    assert Hosts(z.up, true, h + 1);
    assert Calm(r.up.other) && Even(r.up.other, h + 1) && !Red(r.up.other);
    assert Hosts(r.up, false, h + 1);
  }

  lemma LiftHosts(z: Zip, right: bool, other: Tree, h: nat)
    requires Red(other) && Calm(other) && Even(other, h) && Hosts(z, false, h + 1)
    ensures Hosts(Down(z, right, other.v, false, Child(other, !right), false), true, h)
    ensures Hosts(Down(z, right, other.v, false, Child(other, !right), false), false, h)
    ensures Calm(Child(other, right)) && Even(Child(other, right), h) && !Red(Child(other, right))
  {
  }

  lemma PaintHosts(z: Zip, h: nat)
    requires z.Down? && z.other.Node? && !Red(z.other) && !Red(z.other.left) && !Red(z.other.right)
    requires Hosts(z, false, h + 1) && (z.up.Top? || z.red)
    ensures Hosts(z.(red := false, other := Paint(z.other, true)), true, h)
  {
    var o := Paint(z.other, true);
    assert Calm(o) && Even(o, h);
    assert Hosts(z.up, false, h + 1);
  }

  lemma {:induction false} HostsLess(z: Zip, red: bool, h: nat)
    requires Hosts(z, red, h)
    ensures Hosts(z, false, h)
  {
  }

  /** A node that is left red, above its next child. */
  lemma RedFrame(z: Zip, q: Tree, right: bool, v: Interval, other: Tree, hit: bool, h: nat)
    requires q.Node? && !q.red && Calm(q) && Even(q, h + 1) && !Red(Child(q, right)) && !Red(other)
    requires Calm(other) && Even(other, h) && Hosts(z, true, h)
    ensures var w := Down(z, right, v, true, other, hit);
      Legal(w, Child(q, right), h) && (Child(q, right).Leaf? ==> other.Leaf? && h == 0)
  {
  }

  /** One step of the way down: the repairs keep the colours, and the next node or its parent is red. */
  lemma EnterKeeps(z: Zip, q: Tree, right: bool, v: Interval, hit: bool, h: nat)
    requires q.Node? && Legal(z, q, h) && Warm(z, q)
    ensures var next, other := Child(q, right), Child(q, !right);
      var w, k := Enter(z, right, v, q.red, next, other, hit), if q.red then h else h - 1;
      && (!q.red ==> h > 0) && Legal(w, next, k) && Warm(w, next)
      && (next.Leaf? ==> w.other.Leaf? && k == 0 && Hosts(w.up, false, 0))
  {
    var next, other := Child(q, right), Child(q, !right);
    HostsLess(z, Red(q), h);
    if q.red || Red(next) {
    } else if Red(other) {
      LiftHosts(z, right, other, h - 1);
      var up := Down(z, right, other.v, false, Child(other, !right), false);
      RedFrame(up, q, right, v, Child(other, right), hit, h - 1);
    } else if z.Down? {
      assert z.other.Node? && !Red(z.other) by { assert Even(z.other, h); }
      if Red(z.other.left) || Red(z.other.right) {
        RotatedHosts(z, h - 1);
        RedFrame(Rotated(z), q, right, v, other, hit, h - 1);
      } else {
        PaintHosts(z, h - 1);
        RedFrame(z.(red := false, other := Paint(z.other, true)), q, right, v, other, hit, h - 1);
      }
    }
  }

  lemma {:induction false} DescendKeeps(z: Zip, q: Tree, inc: Interval, found: bool, h: nat)
    requires q.Node? && Legal(z, q, h) && Warm(z, q)
    ensures Balanced(Paint(Descend(z, q, inc, found).tree, false))
    decreases q
  {
    var c := DelCmp(inc, q.v);
    var hit, right := c.dir == 0 && !found, c.dir > 0;
    var next := Child(q, right);
    var w, k := Enter(z, right, c.kept, q.red, next, Child(q, !right), hit), if q.red then h else h - 1;
    EnterKeeps(z, q, right, c.kept, hit, h);
    if next.Leaf? {
      if found || hit { PlugBalanced(w.up, w.other, Some(c.kept), 0); } else { PlugBalanced(w, Leaf, None, 0); }
    } else {
      DescendKeeps(w, next, inc, found || hit, k);
    }
  }

  /** Deletion keeps the tree balanced, whatever the comparator does to the intervals. */
  lemma TakeBalanced(t: Tree, inc: Interval)
    requires Balanced(t)
    ensures Balanced(RbTake(t, inc).tree)
  {
    if t.Node? {
      var h: nat :| Even(t, h);
      DescendKeeps(Top, t, inc, false, h);
    }
  }

  // ---------------------------------------------------------------- the loops

  lemma RoundBalanced(t: Tree, inc: Interval)
    requires Balanced(t)
    ensures Balanced(Round(t, inc))
  {
    TakeBalanced(t, inc);
    var c := RbTake(t, inc);
    if c.insert.Some? { InsertBalanced(c.tree, c.insert.value); }
  }

  lemma {:induction false} DrainBalanced(t: Tree, q: seq<Interval>)
    requires Solid(q) && Balanced(t)
    ensures Balanced(Drain(t, q))
    decreases Longest(q), Count(q, Longest(q)), First(q, Longest(q))
  {
    if q != [] {
      RoundQueue(t, q[0]);
      QueueShrinks(q, RbTake(t, q[0]).todo);
      RoundBalanced(t, q[0]);
      DrainBalanced(Round(t, q[0]), q[1..] + RbTake(t, q[0]).todo);
    }
  }

  /** Every write keeps the tree balanced, even one that leaves it out of order. */
  lemma SetBalanced(t: Tree, rng: Interval, n: nat)
    requires Balanced(t) && rng.from <= rng.to
    ensures Balanced(SetTree(t, rng, n))
  {
    DrainBalanced(t, [rng]);
    InsertBalanced(Drain(t, [rng]), rng.(node := n));
  }

  /** So does every read. */
  lemma {:induction false} CollectBalanced(t: Tree, q: seq<Interval>, n: nat, filled: bool)
    requires Solid(q) && Balanced(t)
    ensures Balanced(Collect(t, q, n, filled).tree)
    decreases Longest(q), Count(q, Longest(q)), First(q, Longest(q))
  {
    if q != [] {
      var h := Search(t, q[0]);
      SearchQueue(t, q[0]);
      QueueShrinks(q, h.todo);
      if h.part.Some? {
        CollectBalanced(t, q[1..] + h.todo, n, filled);
      } else {
        InsertBalanced(t, q[0].(node := n));
        CollectBalanced(RbInsert(t, q[0].(node := n)), q[1..] + h.todo, n, true);
      }
    }
  }
}
