/** The red-black tree of libr/util/new_rbtree.c, with its colours and rotations, as the ESIL
    graph uses it.  Both operations go down once and repair on the way; the way back up is kept
    in a zipper.  Rotations move nodes, but never change the list of intervals in their order,
    so the list is that of Insert and Take, which do not rotate. */
module RedBlack {
  import opened Lists
  import opened IntervalTree

  predicate Red(t: Tree) { t.Node? && t.red }

  function Paint(t: Tree, red: bool): Tree { if t.Node? then t.(red := red) else t }

  function Child(t: Tree, right: bool): Tree
    requires t.Node?
  {
    if right then t.right else t.left
  }

  /** The node with sub on the given side and other on the other. */
  function Mk(right: bool, sub: Tree, v: Interval, other: Tree, red: bool): Tree {
    if right then Node(other, v, sub, red) else Node(sub, v, other, red)
  }

  /** The way back to the root: at each node, the side taken, the subtree on the other side, and
      whether the node is the first match of a deletion. */
  datatype Zip = Top | Down(up: Zip, right: bool, v: Interval, red: bool, other: Tree, hit: bool)

  /** What the node stores in the end: the first match gets the last interval, if one is given. */
  function Final(z: Zip, fill: Option<Interval>): Interval
    requires z.Down?
  {
    if z.hit && fill.Some? then fill.value else z.v
  }

  function Plug(z: Zip, t: Tree, fill: Option<Interval>): Tree {
    match z
    case Top => t
    case Down(up, right, _, red, other, _) => Plug(up, Mk(right, t, Final(z, fill), other, red), fill)
  }

  function Lefts(z: Zip, fill: Option<Interval>): seq<Interval> {
    match z
    case Top => []
    case Down(up, right, _, _, other, _) =>
      Lefts(up, fill) + (if right then Inorder(other) + [Final(z, fill)] else [])
  }

  function Rights(z: Zip, fill: Option<Interval>): seq<Interval> {
    match z
    case Top => []
    case Down(up, right, _, _, other, _) =>
      (if right then [] else [Final(z, fill)] + Inorder(other)) + Rights(up, fill)
  }

  /** The whole list when s stands in the gap. */
  function Spread(z: Zip, s: seq<Interval>, fill: Option<Interval>): seq<Interval> {
    Lefts(z, fill) + s + Rights(z, fill)
  }

  /** The list below one node: s on the given side, the other subtree on the other. */
  function Beside(right: bool, s: seq<Interval>, v: Interval, other: Tree): seq<Interval> {
    if right then Inorder(other) + [v] + s else s + [v] + Inorder(other)
  }

  lemma DownSpread(z: Zip, s: seq<Interval>, fill: Option<Interval>)
    requires z.Down?
    ensures Spread(z, s, fill) == Spread(z.up, Beside(z.right, s, Final(z, fill), z.other), fill)
  {
    var v, o := [Final(z, fill)], Inorder(z.other);
    if z.right {
      Around(Lefts(z.up, fill), o + v, s, Rights(z.up, fill));
    } else {
      assert Beside(false, s, Final(z, fill), z.other) == s + (v + o);
      Around(Lefts(z.up, fill), s, v + o, Rights(z.up, fill));
    }
  }

  lemma {:induction false} PlugInorder(z: Zip, t: Tree, fill: Option<Interval>)
    ensures Inorder(Plug(z, t, fill)) == Spread(z, Inorder(t), fill)
  {
    if z.Down? {
      var m := Mk(z.right, t, Final(z, fill), z.other, z.red);
      PlugInorder(z.up, m, fill);
      DownSpread(z, Inorder(t), fill);
    }
  }

  // ---------------------------------------------------------------- insertion

  function Size(t: Tree): nat {
    match t
    case Leaf => 0
    case Node(l, _, r, _) => 1 + Size(l) + Size(r)
  }

  /** A node with two red children turns red and they turn black. */
  function Flip(q: Tree): (r: Tree)
    ensures Size(r) == Size(q) && Inorder(r) == Inorder(q)
  {
    if q.Node? && Red(q.left) && Red(q.right) then
      Node(Paint(q.left, false), q.v, Paint(q.right, false), true)
    else q
  }

  /** A red node below a red one that has a parent. */
  predicate Clash(z: Zip, q: Tree) {
    Red(q) && z.Down? && z.red && z.up.Down?
  }

  /** _rot_once on the grandparent: the parent takes its place. */
  function Raise(z: Zip): Zip
    requires z.Down? && z.up.Down?
  {
    var g := z.up;
    Down(g.up, g.right, z.v, false, Mk(g.right, z.other, g.v, g.other, true), false)
  }

  /** _rot_twice on the grandparent: q takes its place, between the old parent ... */
  function OldParent(z: Zip, q: Tree): Tree
    requires z.Down? && z.up.Down? && q.Node?
  {
    Mk(!z.up.right, Child(q, z.up.right), z.v, z.other, true)
  }

  /** ... and the old grandparent. */
  function OldGrand(z: Zip, q: Tree): Tree
    requires z.Down? && z.up.Down? && q.Node?
  {
    Mk(z.up.right, Child(q, !z.up.right), z.up.v, z.up.other, true)
  }

  /** Where the descent goes on after a double rotation: it meets the old parent or grandparent
      a second time, and goes on from there as it did before. */
  function Twice(z: Zip, f: Tree, right: bool): (Zip, Tree)
    requires z.Down? && z.up.Down? && f.Node?
  {
    var g := z.up.right;
    var s := Flip(if right == g then OldParent(z, f) else OldGrand(z, f));
    var other := if right == g then OldGrand(z, f) else OldParent(z, f);
    var side := (right == g) != g;
    (Down(Down(z.up.up, right, f.v, false, other, false), side, s.v, true, Child(s, !side), false), Child(s, side))
  }

  /** The way back after a single rotation, if one is due. */
  function Once(z: Zip, f: Tree): Zip {
    if Clash(z, f) && z.right == z.up.right then Raise(z) else z
  }

  /** One step of the descent from f: the way back and the subtree to go on with. */
  function Goes(z: Zip, f: Tree, right: bool): (p: (Zip, Tree))
    requires f.Node?
    ensures Size(p.1) == Size(Child(f, right)) < Size(f)
  {
    if Clash(z, f) && z.right != z.up.right then Twice(z, f, right)
    else (Down(Once(z, f), right, f.v, f.red, Child(f, !right), false), Child(f, right))
  }

  /** The new node f in its place. */
  function Land(z: Zip, f: Tree): Tree
    requires f.Node?
  {
    if Clash(z, f) && z.right != z.up.right then
      Plug(z.up.up, Mk(z.up.right, OldParent(z, f), f.v, OldGrand(z, f), false), None)
    else Plug(Once(z, f), f, None)
  }

  /** The descent of r_crbtree_insert at q, below z. */
  function Sink(z: Zip, q: Tree, x: Interval): Tree
    decreases Size(q)
  {
    if q.Leaf? then Land(z, Node(Leaf, x, Leaf, true))
    else
      var (w, c) := Goes(z, Flip(q), InsCmp(x, q.v) >= 0);
      Sink(w, c, x)
  }

  lemma RaiseSpread(z: Zip, s: seq<Interval>)
    requires z.Down? && z.up.Down? && z.right == z.up.right
    ensures Spread(Raise(z), s, None) == Spread(z, s, None)
  {
    DownSpread(z, s, None);
    DownSpread(z.up, Beside(z.right, s, z.v, z.other), None);
    DownSpread(Raise(z), s, None);
    assert Beside(z.up.right, s, z.v, Raise(z).other)
        == Beside(z.up.right, Beside(z.right, s, z.v, z.other), z.up.v, z.up.other);
  }

  /** After a double rotation the list is the same. */
  lemma TwiceSpread(z: Zip, q: Tree)
    requires z.Down? && z.up.Down? && z.right != z.up.right && q.Node?
    ensures Spread(z.up.up, Inorder(Mk(z.up.right, OldParent(z, q), q.v, OldGrand(z, q), false)), None)
         == Spread(z, Inorder(q), None)
  {
    DownSpread(z, Inorder(q), None);
    DownSpread(z.up, Beside(z.right, Inorder(q), z.v, z.other), None);
    var l, v, r := Inorder(q.left), [q.v], Inorder(q.right);
    if z.right {
      Regroup(Inorder(z.other), [z.v], l, v, r, [z.up.v], Inorder(z.up.other));
    } else {
      Regroup(Inorder(z.up.other), [z.up.v], l, v, r, [z.v], Inorder(z.other));
    }
  }

  /** q with the subtree on one side replaced. */
  function With(q: Tree, right: bool, sub: Tree): Tree
    requires q.Node?
  {
    Mk(right, sub, q.v, Child(q, !right), q.red)
  }

  lemma InsertChild(q: Tree, x: Interval)
    requires q.Node?
    ensures var right := InsCmp(x, q.v) >= 0;
      Inorder(Insert(q, x)) == Inorder(With(Flip(q), right, Insert(Child(Flip(q), right), x)))
  {
    assert forall t: Tree, c :: Inorder(Insert(Paint(t, c), x)) == Inorder(Insert(t, x));
  }

  lemma LandInorder(z: Zip, f: Tree)
    requires f.Node?
    ensures Inorder(Land(z, f)) == Spread(z, Inorder(f), None)
  {
    if Clash(z, f) && z.right != z.up.right {
      TwiceSpread(z, f);
      PlugInorder(z.up.up, Mk(z.up.right, OldParent(z, f), f.v, OldGrand(z, f), false), None);
    } else {
      if Clash(z, f) { RaiseSpread(z, Inorder(f)); }
      PlugInorder(Once(z, f), f, None);
    }
  }

  /** What is put in place of the subtree gone to stands in place of it in the list. */
  lemma GoesSpread(z: Zip, f: Tree, right: bool, sub: Tree)
    requires f.Node?
    ensures Spread(Goes(z, f, right).0, Inorder(sub), None) == Spread(z, Inorder(With(f, right, sub)), None)
  {
    if Clash(z, f) && z.right != z.up.right {
      var g, w, f' := z.up.right, Twice(z, f, right).0, With(f, right, sub);
      DownSpread(w, Inorder(sub), None);
      DownSpread(w.up, Beside(w.right, Inorder(sub), w.v, w.other), None);
      TwiceSpread(z, f');
      var s := if right == g then OldParent(z, f') else OldGrand(z, f');
      assert Beside(w.right, Inorder(sub), w.v, w.other) == Inorder(s);
      assert Beside(right, Inorder(s), f.v, w.up.other)
          == Inorder(Mk(g, OldParent(z, f'), f.v, OldGrand(z, f'), false));
    } else {
      var w := Goes(z, f, right).0;
      DownSpread(w, Inorder(sub), None);
      if Clash(z, f) { RaiseSpread(z, Inorder(With(f, right, sub))); }
    }
  }

  lemma {:induction false} SinkInorder(z: Zip, q: Tree, x: Interval)
    decreases Size(q)
    ensures Inorder(Sink(z, q, x)) == Spread(z, Inorder(Insert(q, x)), None)
  {
    if q.Leaf? {
      LandInorder(z, Node(Leaf, x, Leaf, true));
      assert Inorder(Insert(q, x)) == [x];
    } else {
      var f, right := Flip(q), InsCmp(x, q.v) >= 0;
      var (w, c) := Goes(z, f, right);
      InsertChild(q, x);
      SinkInorder(w, c, x);
      GoesSpread(z, f, right, Insert(Child(f, right), x));
      assert Inorder(Insert(c, x)) == Inorder(Insert(Child(f, right), x));
    }
  }

  /** r_crbtree_insert. */
  function RbInsert(t: Tree, x: Interval): Tree {
    if t.Leaf? then Node(Leaf, x, Leaf, false) else Paint(Sink(Top, t, x), false)
  }

  /** With or without rotations, an insertion gives one list of intervals. */
  lemma RbInsertInorder(t: Tree, x: Interval)
    ensures Inorder(RbInsert(t, x)) == Inorder(Insert(t, x))
  {
    if t.Node? { SinkInorder(Top, t, x); }
  }

  /** Insertion with rotations keeps the order and adds exactly the new interval. */
  lemma RbInsertOrdered(w: Bases, t: Tree, x: Interval)
    requires Ordered(t) && AllFit(w, t) && Fits(w, x) && forall y :: y in Elems(t) ==> !Meets(x, y)
    ensures Ordered(RbInsert(t, x)) && AllFit(w, RbInsert(t, x)) && Elems(RbInsert(t, x)) == Elems(t) + {x}
  {
    InsertOrdered(w, t, x);
    InsertElems(t, x);
    RbInsertInorder(t, x);
    SameList(RbInsert(t, x), Insert(t, x));
  }

  lemma RbInsertElems(t: Tree, x: Interval)
    ensures Elems(RbInsert(t, x)) == Elems(t) + {x}
  {
    InsertElems(t, x);
    RbInsertInorder(t, x);
    SameList(RbInsert(t, x), Insert(t, x));
  }

  // ---------------------------------------------------------------- deletion

  /** A rotation of the parent with its other child, which has a red child of its own: once, or
      twice if the inner child is red.  The new top is red, both nodes below it are black. */
  function Rotated(z: Zip): Zip
    requires z.Down? && z.other.Node?
  {
    var s, last := z.other, z.right;
    var inner, outer := Child(s, last), Child(s, !last);
    if Red(inner) then
      var top := Down(z.up, last, inner.v, true, Mk(last, Child(inner, !last), s.v, outer, false), false);
      Down(top, last, z.v, false, Child(inner, last), z.hit)
    else
      var top := Down(z.up, last, s.v, true, Paint(outer, false), false);
      Down(top, last, z.v, false, inner, z.hit)
  }

  /** One round of r_crbtree_take: the node v below z, about to be left on the given side, with
      the repairs that keep it, or the node it goes to, red. */
  function Enter(z: Zip, right: bool, v: Interval, red: bool, next: Tree, other: Tree, hit: bool): Zip {
    if red || Red(next) then Down(z, right, v, red, other, hit)
    else if Red(other) then
      Down(Down(z, right, other.v, false, Child(other, !right), false),
           right, v, true, Child(other, right), hit)
    else if z.Down? && z.other.Node? then
      var flip := !Red(z.other.left) && !Red(z.other.right);
      Down(if flip then z.(red := false, other := Paint(z.other, true)) else Rotated(z), right, v, true, other, hit)
    else Down(z, right, v, red, other, hit)
  }

  function Descend(z: Zip, q: Tree, inc: Interval, found: bool): Taken
    requires q.Node?
    decreases q
  {
    var c := DelCmp(inc, q.v);
    var hit, right := c.dir == 0 && !found, c.dir > 0;
    var next := Child(q, right);
    var w := Enter(z, right, c.kept, q.red, next, Child(q, !right), hit);
    if next.Leaf? then
      var t := if found || hit then Plug(w.up, w.other, Some(c.kept)) else Plug(w, Leaf, None);
      Taken(t, c.kept, found || hit, c.insert, c.todo)
    else
      var d := Descend(w, next, inc, found || hit);
      Taken(d.tree, d.last, d.found, Or(d.insert, c.insert), c.todo + d.todo)
  }

  /** r_crbtree_take. */
  function RbTake(t: Tree, inc: Interval): Taken {
    if t.Leaf? then Taken(Leaf, inc, false, None, [])
    else
      var d := Descend(Top, t, inc, false);
      d.(tree := Paint(d.tree, false))
  }

  /** The list m next to a subtree. */
  function Next(right: bool, m: seq<Interval>, other: Tree): seq<Interval> {
    if right then Inorder(other) + m else m + Inorder(other)
  }

  lemma RotatedSpread(z: Zip, s: seq<Interval>, fill: Option<Interval>)
    requires z.Down? && z.other.Node? && (Red(z.other.left) || Red(z.other.right))
    ensures Spread(Rotated(z), s, fill) == Spread(z, s, fill)
  {
    var r := Rotated(z);
    var v, o := Final(z, fill), z.other;
    DownSpread(z, s, fill);
    DownSpread(r, s, fill);
    DownSpread(r.up, Beside(z.right, s, v, r.other), fill);
    RotatedBeside(z, s, v);
  }

  lemma RotatedBeside(z: Zip, s: seq<Interval>, v: Interval)
    requires z.Down? && z.other.Node? && (Red(z.other.left) || Red(z.other.right))
    ensures var r := Rotated(z);
      Beside(z.right, Beside(z.right, s, v, r.other), r.up.v, r.up.other) == Beside(z.right, s, v, z.other)
  {
    var o, inner := z.other, Child(z.other, z.right);
    if Red(inner) {
      var a, b, c := Inorder(inner.left), [inner.v], Inorder(inner.right);
      if z.right {
        Regroup(Inorder(o.left), [o.v], a, b, c, [v], s);
        assert Inorder(o) == Inorder(o.left) + [o.v] + (a + b + c);
      } else {
        Regroup(s, [v], a, b, c, [o.v], Inorder(o.right));
        assert Inorder(o) == (a + b + c) + [o.v] + Inorder(o.right);
      }
    } else if z.right {
      Regroup5(Inorder(o.left), [o.v], Inorder(o.right), [v], s);
    } else {
      Regroup5(s, [v], Inorder(o.left), [o.v], Inorder(o.right));
    }
  }

  lemma LiftSpread(z: Zip, right: bool, other: Tree, m: seq<Interval>, fill: Option<Interval>)
    requires other.Node?
    ensures var up := Down(z, right, other.v, false, Child(other, !right), false);
      Spread(up, Next(right, m, Child(other, right)), fill) == Spread(z, Next(right, m, other), fill)
  {
    var up := Down(z, right, other.v, false, Child(other, !right), false);
    DownSpread(up, Next(right, m, Child(other, right)), fill);
    if right {
      Regroup4(Inorder(other.left), [other.v], Inorder(other.right), m);
    } else {
      Regroup4(m, Inorder(other.left), [other.v], Inorder(other.right));
    }
  }

  lemma PaintSpread(z: Zip, s: seq<Interval>, fill: Option<Interval>)
    requires z.Down?
    ensures Spread(z.(red := false, other := Paint(z.other, true)), s, fill) == Spread(z, s, fill)
  {
    DownSpread(z, s, fill);
    DownSpread(z.(red := false, other := Paint(z.other, true)), s, fill);
  }

  /** The repairs leave the list as it is, whatever stands in place of the node and its next subtree. */
  lemma EnterSpread(z: Zip, right: bool, v: Interval, red: bool, next: Tree, other: Tree, hit: bool,
                    m: seq<Interval>, fill: Option<Interval>)
    ensures var w := Enter(z, right, v, red, next, other, hit);
      && w.right == right && w.v == v && w.hit == hit
      && Spread(w.up, Next(right, m, w.other), fill) == Spread(z, Next(right, m, other), fill)
  {
    if !red && !Red(next) {
      if Red(other) {
        LiftSpread(z, right, other, m, fill);
      } else if z.Down? && z.other.Node? {
        if Red(z.other.left) || Red(z.other.right) {
          RotatedSpread(z, Next(right, m, other), fill);
        } else {
          PaintSpread(z, Next(right, m, other), fill);
        }
      }
    }
  }

  lemma BesideNext(right: bool, s: seq<Interval>, v: Interval, other: Tree)
    ensures Beside(right, s, v, other) == Next(right, if right then [v] + s else s + [v], other)
  {
  }

  /** One level of the descent, seen from above. */
  lemma LevelSpread(z: Zip, right: bool, v: Interval, red: bool, next: Tree, other: Tree, hit: bool,
                    s: seq<Interval>, fill: Option<Interval>)
    ensures var w := Enter(z, right, v, red, next, other, hit);
      Spread(w, s, fill) == Spread(z, Beside(right, s, if hit && fill.Some? then fill.value else v, other), fill)
  {
    var w := Enter(z, right, v, red, next, other, hit);
    var last := if hit && fill.Some? then fill.value else v;
    var m := if right then [last] + s else s + [last];
    EnterSpread(z, right, v, red, next, other, hit, m, fill);
    DownSpread(w, s, fill);
    BesideNext(right, s, last, w.other);
    BesideNext(right, s, last, other);
  }

  /** No node on the way back is a match. */
  predicate Unhit(z: Zip) { z.Top? || (!z.hit && Unhit(z.up)) }

  lemma {:induction false} UnhitSpread(z: Zip, s: seq<Interval>, fill: Option<Interval>)
    requires Unhit(z)
    ensures Spread(z, s, fill) == Spread(z, s, None)
  {
    if z.Down? {
      DownSpread(z, s, fill);
      DownSpread(z, s, None);
      UnhitSpread(z.up, Beside(z.right, s, z.v, z.other), fill);
    }
  }

  /** The end of the descent: the last node goes, or stays if there was no match. */
  lemma EndInorder(z: Zip, q: Tree, inc: Interval, found: bool)
    requires q.Node? && Child(q, DelCmp(inc, q.v).dir > 0).Leaf? && (!found ==> Unhit(z))
    ensures var d, c := Descend(z, q, inc, found), Take(q, inc, found);
      Inorder(d.tree) == Spread(z, Inorder(c.tree), if found then Some(c.last) else None)
  {
    var c := DelCmp(inc, q.v);
    var hit, right := c.dir == 0 && !found, c.dir > 0;
    var other := Child(q, !right);
    var w := Enter(z, right, c.kept, q.red, Leaf, other, hit);
    if found || hit {
      EnterSpread(z, right, c.kept, q.red, Leaf, other, hit, [], Some(c.kept));
      PlugInorder(w.up, w.other, Some(c.kept));
      assert forall o :: Next(right, [], o) == Inorder(o);
      if !found { UnhitSpread(z, Inorder(other), Some(c.kept)); }
    } else {
      LevelSpread(z, right, c.kept, q.red, Leaf, other, hit, [], None);
      PlugInorder(w, Leaf, None);
    }
  }

  /** With or without rotations, a deletion compares the same intervals and leaves one list. */
  lemma {:induction false} DescendInorder(z: Zip, q: Tree, inc: Interval, found: bool)
    requires q.Node? && (!found ==> Unhit(z))
    decreases q
    ensures var d, c := Descend(z, q, inc, found), Take(q, inc, found);
      && d == c.(tree := d.tree)
      && Inorder(d.tree) == Spread(z, Inorder(c.tree), if found then Some(c.last) else None)
  {
    var c, t := DelCmp(inc, q.v), Take(q, inc, found);
    var hit, right := c.dir == 0 && !found, c.dir > 0;
    var next, other := Child(q, right), Child(q, !right);
    var w := Enter(z, right, c.kept, q.red, next, other, hit);
    var fill := if found || hit then Some(t.last) else None;
    if next.Leaf? {
      EndInorder(z, q, inc, found);
    } else {
      DescendInorder(w, next, inc, found || hit);
      var below := Inorder(Take(next, inc, found || hit).tree);
      LevelSpread(z, right, c.kept, q.red, next, other, hit, below, fill);
      if !found { UnhitSpread(z, Inorder(t.tree), fill); }
    }
  }

  lemma RbTakeInorder(t: Tree, inc: Interval)
    requires t.Node?
    ensures var d, c := RbTake(t, inc), Take(t, inc, false);
      d == c.(tree := d.tree) && Inorder(d.tree) == Inorder(c.tree)
  {
    DescendInorder(Top, t, inc, false);
  }
}
