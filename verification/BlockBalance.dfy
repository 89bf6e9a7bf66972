/** The block tree of libr/util/rbtree.c stays red-black.  Its steps are those of RedBlack on
    other contents, so the colours follow from Balance. */
module BlockBalance {
  import opened Lists
  import I = IntervalTree
  import R = RedBlack
  import L = Balance
  import T = AddressTree
  import B = BlockTree

  const BLANK := I.Interval(I.Reg, 0, 0, 0)

  /** The colours of a tree of blocks. */
  function Shape(t: T.Tree): (r: I.Tree)
    ensures r.Node? == t.Node? && R.Red(r) == B.Red(t)
  {
    if t.Leaf? then I.Leaf else I.Node(Shape(t.left), BLANK, Shape(t.right), t.red)
  }

  function ShapeZip(z: B.Zip): (y: R.Zip)
    ensures y.Down? == z.Down?
  {
    if z.Top? then R.Top else R.Down(ShapeZip(z.up), z.right, BLANK, z.red, Shape(z.other), z.hit)
  }

  ghost predicate Balanced(t: T.Tree) { L.Balanced(Shape(t)) }

  lemma MkShape(right: bool, sub: T.Tree, k: B.Key, other: T.Tree, red: bool)
    ensures Shape(B.Mk(right, sub, k, other, red)) == R.Mk(right, Shape(sub), BLANK, Shape(other), red)
  {
  }

  lemma {:induction false} PlugShape(z: B.Zip, t: T.Tree, fill: Option<B.Key>)
    ensures Shape(B.Plug(z, t, fill)) == R.Plug(ShapeZip(z), Shape(t), None)
  {
    if z.Down? {
      MkShape(z.right, t, B.Final(z, fill), z.other, z.red);
      PlugShape(z.up, B.Mk(z.right, t, B.Final(z, fill), z.other, z.red), fill);
    }
  }

  // ---------------------------------------------------------------- insertion

  lemma FlipShape(q: T.Tree)
    ensures Shape(B.Flip(q, false)) == R.Flip(Shape(q))
  {
  }

  lemma OldShape(z: B.Zip, f: T.Tree)
    requires z.Down? && z.up.Down? && f.Node?
    ensures Shape(B.OldParent(z, f)) == R.OldParent(ShapeZip(z), Shape(f))
    ensures Shape(B.OldGrand(z, f)) == R.OldGrand(ShapeZip(z), Shape(f))
  {
    MkShape(!z.up.right, B.Child(f, z.up.right), z.k, z.other, true);
    MkShape(z.up.right, B.Child(f, !z.up.right), z.up.k, z.up.other, true);
  }

  lemma OnceShape(z: B.Zip, f: T.Tree)
    ensures ShapeZip(B.Once(z, f)) == R.Once(ShapeZip(z), Shape(f))
  {
    if B.Clash(z, f) && z.right == z.up.right { MkShape(z.up.right, z.other, z.up.k, z.up.other, true); }
  }

  lemma GoesShape(z: B.Zip, f: T.Tree, right: bool)
    requires f.Node?
    ensures var (w, c) := B.Goes(z, f, right); R.Goes(ShapeZip(z), Shape(f), right) == (ShapeZip(w), Shape(c))
  {
    OnceShape(z, f);
    if B.Clash(z, f) && z.right != z.up.right {
      OldShape(z, f);
      FlipShape(B.OldParent(z, f));
      FlipShape(B.OldGrand(z, f));
    }
  }

  /** The root on the way is black. */
  predicate DarkRoot(z: B.Zip) { z.Down? && if z.up.Top? then !z.red else DarkRoot(z.up) }

  lemma {:induction false} PlugDark(z: B.Zip, t: T.Tree, fill: Option<B.Key>)
    requires DarkRoot(z)
    ensures !B.Red(B.Plug(z, t, fill)) && B.Plug(z, t, fill).Node?
  {
    var m := B.Mk(z.right, t, B.Final(z, fill), z.other, z.red);
    if z.up.Down? { PlugDark(z.up, m, fill); }
  }

  ghost predicate Going(z: B.Zip, q: T.Tree, h: nat) {
    && L.Legal(ShapeZip(z), Shape(q), h) && L.Settled(ShapeZip(z), Shape(q))
    && (z.Top? || DarkRoot(z)) && (z.Top? ==> q.Node?)
  }

  /** The rotations of the insertion are only due right after a colour flip; the node met next is
      black and does not flip: the ancestors it remembers are the true ones whenever it rotates. */
  lemma ClashCools(z: B.Zip, q: T.Tree, h: nat)
    requires Going(z, q, h) && z.Down? && q.Node? && B.Clash(z, B.Flip(q, false))
    ensures !B.Red(q) && L.Cool(Shape(B.Flip(q, false).left)) && L.Cool(Shape(B.Flip(q, false).right))
    ensures !B.Red(z.other) && !z.up.red && !B.Red(z.up.other)
  {
    FlipShape(q);
    L.ClashCools(ShapeZip(z), Shape(q), h);
    assert ShapeZip(z).up == ShapeZip(z.up);
    var f := B.Flip(q, false);
    assert Shape(f).left == Shape(f.left) && Shape(f).right == Shape(f.right);
  }

  lemma GoesDark(z: B.Zip, f: T.Tree, right: bool)
    requires f.Node? && DarkRoot(z)
    ensures DarkRoot(B.Goes(z, f, right).0)
  {
    if B.Clash(z, f) && z.right == z.up.right { assert DarkRoot(B.Raise(z)); }
  }

  lemma GoesKeeps(z: B.Zip, q: T.Tree, right: bool, h: nat)
    requires Going(z, q, h) && z.Down? && q.Node?
    ensures var f := B.Flip(q, false);
      var (w, c) := B.Goes(z, f, right);
      (!f.red ==> h > 0) && Going(w, c, if f.red then h else h - 1)
  {
    var f := B.Flip(q, false);
    FlipShape(q);
    GoesShape(z, f, right);
    GoesDark(z, f, right);
    L.GoesKeeps(ShapeZip(z), Shape(q), right, h);
  }

  lemma BelowRoot(sub: I.Tree, other: I.Tree, right: bool, h: nat)
    requires L.Calm(sub) && L.Even(sub, h) && L.Calm(other) && L.Even(other, h) && !(R.Red(sub) && R.Red(other))
    ensures var z := R.Down(R.Top, right, BLANK, false, other, false); L.Legal(z, sub, h) && L.Settled(z, sub)
  {
  }

  /** From the root, which stays black when its children turn black. */
  lemma GoesFromRoot(q: T.Tree, right: bool, h: nat)
    requires Going(B.Top, q, h)
    ensures var (w, c) := B.Goes(B.Top, B.Flip(q, true), right);
      h > 0 && Going(w, c, if B.Red(q.left) && B.Red(q.right) then h else h - 1)
  {
    var sub, other := Shape(B.Child(q, right)), Shape(B.Child(q, !right));
    var (w, c) := B.Goes(B.Top, B.Flip(q, true), right);
    assert !q.red && L.Calm(sub) && L.Calm(other) && L.Even(sub, h - 1) && L.Even(other, h - 1);
    if B.Red(q.left) && B.Red(q.right) {
      L.BlackenKeeps(sub, h - 1);
      L.BlackenKeeps(other, h - 1);
      sub, other := R.Paint(sub, false), R.Paint(other, false);
      BelowRoot(sub, other, right, h);
    } else {
      BelowRoot(sub, other, right, h - 1);
    }
    assert Shape(c) == sub && ShapeZip(w) == R.Down(R.Top, right, BLANK, false, other, false);
  }

  lemma {:induction false} SinkBalanced(z: B.Zip, q: T.Tree, a: nat, n: nat, h: nat)
    requires Going(z, q, h)
    ensures Balanced(B.Sink(z, q, a, n))
    decreases B.Size(q)
  {
    if q.Leaf? {
      LandBalanced(z, T.Sum(a, n, T.Leaf, T.Leaf, true));
    } else {
      var (w, c) := B.Goes(z, B.Flip(q, z.Top?), a >= q.addr);
      if z.Top? {
        GoesFromRoot(q, a >= q.addr, h);
        SinkBalanced(w, c, a, n, if B.Red(q.left) && B.Red(q.right) then h else h - 1);
      } else {
        GoesKeeps(z, q, a >= q.addr, h);
        SinkBalanced(w, c, a, n, if B.Flip(q, false).red then h else h - 1);
      }
    }
  }

  lemma LandBalanced(z: B.Zip, f: T.Tree)
    requires DarkRoot(z) && L.Hosts(ShapeZip(z), false, 0) && L.Settled(ShapeZip(z), I.Leaf)
    requires f.Node? && f.red && f.left.Leaf? && f.right.Leaf?
    ensures Balanced(B.Land(z, f))
  {
    L.LandKeeps(ShapeZip(z), BLANK);
    assert Shape(f) == I.Node(I.Leaf, BLANK, I.Leaf, true);
    if B.Clash(z, f) && z.right != z.up.right {
      OldShape(z, f);
      var m := B.Mk(z.up.right, B.OldParent(z, f), B.KeyOf(f), B.OldGrand(z, f), false);
      MkShape(z.up.right, B.OldParent(z, f), B.KeyOf(f), B.OldGrand(z, f), false);
      PlugShape(z.up.up, m, None);
      if z.up.up.Down? { PlugDark(z.up.up, m, None); }
    } else {
      OnceShape(z, f);
      PlugShape(B.Once(z, f), f, None);
      PlugDark(B.Once(z, f), f, None);
    }
  }

  /** Creating a block keeps the tree red-black. */
  lemma InsertBalanced(t: T.Tree, a: nat, n: nat)
    requires Balanced(t)
    ensures Balanced(B.RbInsert(t, a, n))
  {
    if t.Leaf? {
      assert L.Even(Shape(B.RbInsert(t, a, n)), 1);
    } else {
      var h: nat :| L.Even(Shape(t), h);
      SinkBalanced(B.Top, t, a, n, h);
    }
  }

  // ---------------------------------------------------------------- deletion

  lemma RotatedShape(z: B.Zip)
    requires z.Down? && z.other.Node?
    ensures ShapeZip(B.Rotated(z)) == R.Rotated(ShapeZip(z))
  {
    var s, last := z.other, z.right;
    var inner, outer := B.Child(s, last), B.Child(s, !last);
    assert R.Child(Shape(s), last) == Shape(inner) && R.Child(Shape(s), !last) == Shape(outer);
    if B.Red(inner) {
      assert R.Child(Shape(inner), !last) == Shape(B.Child(inner, !last));
      assert R.Child(Shape(inner), last) == Shape(B.Child(inner, last));
      MkShape(last, B.Child(inner, !last), B.KeyOf(s), outer, false);
    }
  }

  lemma RoundShape(z: B.Zip, q: T.Tree, b: nat, found: bool)
    requires q.Node?
    ensures var right := B.GoesRight(q, b, found);
      ShapeZip(B.Round(z, q, b, found))
      == R.Enter(ShapeZip(z), right, BLANK, q.red, Shape(B.Child(q, right)), Shape(B.Child(q, !right)),
                 !found && q.addr == b)
  {
    if z.Down? && z.other.Node? { RotatedShape(z); }
  }

  lemma {:induction false} DescendBalanced(z: B.Zip, q: T.Tree, b: nat, found: bool, h: nat)
    requires q.Node? && (found || T.Find(q, b).Node?)
    requires L.Legal(ShapeZip(z), Shape(q), h) && L.Warm(ShapeZip(z), Shape(q))
    ensures Balanced(B.Paint(B.Descend(z, q, b, found), false))
    decreases q
  {
    var right := B.GoesRight(q, b, found);
    var w, next := B.Round(z, q, b, found), B.Child(q, right);
    RoundShape(z, q, b, found);
    assert Shape(next) == R.Child(Shape(q), right);
    assert Shape(B.Child(q, !right)) == R.Child(Shape(q), !right);
    L.EnterKeeps(ShapeZip(z), Shape(q), right, BLANK, !found && q.addr == b, h);
    if next.Leaf? {
      PlugShape(w.up, w.other, Some(B.KeyOf(q)));
      L.PlugBalanced(ShapeZip(w.up), Shape(w.other), None, 0);
    } else {
      DescendBalanced(w, next, b, found || q.addr == b, if q.red then h else h - 1);
    }
  }

  /** So does deleting one. */
  lemma DeleteBalanced(t: T.Tree, b: nat)
    requires Balanced(t) && T.Find(t, b).Node?
    ensures Balanced(B.RbDelete(t, b))
  {
    var h: nat :| L.Even(Shape(t), h);
    DescendBalanced(B.Top, t, b, false, h);
  }
}
