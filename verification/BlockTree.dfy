/** The block tree as libr/util/rbtree.c keeps it: red-black, with the greatest ends redone along
    the way back and at every node a rotation lowers (libr/anal/block.c:234-285, 428-443).  As in
    RedBlack, the way back is a zipper. */
module BlockTree {
  import opened Lists
  import opened AddressTree

  datatype Key = Key(addr: nat, size: nat)

  function KeyOf(t: Tree): Key
    requires t.Node?
  {
    Key(t.addr, t.size)
  }

  /** The blocks in their order. */
  function Inorder(t: Tree): seq<Key> {
    if t.Leaf? then [] else Inorder(t.left) + [KeyOf(t)] + Inorder(t.right)
  }

  ghost predicate Rising(s: seq<Key>) { forall i, j :: 0 <= i < j < |s| ==> s[i].addr < s[j].addr }

  lemma {:induction false} InorderIn(t: Tree)
    ensures forall a: nat, n: nat :: In(t, a, n) <==> Key(a, n) in Inorder(t)
  {
    if t.Node? {
      InorderIn(t.left);
      InorderIn(t.right);
    }
  }

  lemma RisingJoin(l: seq<Key>, k: Key, r: seq<Key>)
    ensures Rising(l + [k] + r) <==>
            Rising(l) && Rising(r) && (forall x :: x in l ==> x.addr < k.addr) && forall x :: x in r ==> k.addr < x.addr
  {
    var s := l + [k] + r;
    assert forall i :: 0 <= i < |l| ==> s[i] == l[i];
    assert s[|l|] == k && forall i :: 0 <= i < |r| ==> s[|l| + 1 + i] == r[i];
    if Rising(s) {
      forall i, j | 0 <= i < j < |r| ensures r[i].addr < r[j].addr {
        assert s[|l| + 1 + i].addr < s[|l| + 1 + j].addr;
      }
      forall x | x in r ensures k.addr < x.addr {
        var i :| 0 <= i < |r| && r[i] == x;
        assert s[|l|].addr < s[|l| + 1 + i].addr;
      }
    }
  }

  lemma {:induction false} SortedRising(t: Tree)
    ensures Sorted(t) <==> Rising(Inorder(t))
  {
    if t.Node? {
      SortedRising(t.left);
      SortedRising(t.right);
      InorderIn(t.left);
      InorderIn(t.right);
      RisingJoin(Inorder(t.left), KeyOf(t), Inorder(t.right));
      if Rising(Inorder(t)) {
        assert forall a: nat, n: nat :: In(t.left, a, n) ==> Key(a, n).addr < t.addr;
        assert forall a: nat, n: nat :: In(t.right, a, n) ==> t.addr < Key(a, n).addr;
      }
    }
  }

  lemma SameList(s: Tree, t: Tree)
    requires Inorder(s) == Inorder(t)
    ensures Sorted(s) <==> Sorted(t)
    ensures forall a: nat, n: nat :: In(s, a, n) <==> In(t, a, n)
  {
    SortedRising(s);
    SortedRising(t);
    InorderIn(s);
    InorderIn(t);
  }

  // ---------------------------------------------------------------- the way back

  predicate Red(t: Tree) { t.Node? && t.red }

  function Paint(t: Tree, red: bool): (r: Tree)
    ensures Inorder(r) == Inorder(t) && (Summed(r) <==> Summed(t))
  {
    if t.Node? then t.(red := red) else t
  }

  function Child(t: Tree, right: bool): Tree
    requires t.Node?
  {
    if right then t.right else t.left
  }

  /** The node with sub on the given side and other on the other, and its sum. */
  function Mk(right: bool, sub: Tree, k: Key, other: Tree, red: bool): Tree {
    if right then Sum(k.addr, k.size, other, sub, red) else Sum(k.addr, k.size, sub, other, red)
  }

  /** At each node of the way back: the side taken, the subtree on the other side, and whether
      the node is the one to delete. */
  datatype Zip = Top | Down(up: Zip, right: bool, k: Key, red: bool, other: Tree, hit: bool)

  /** The node to delete gets the last block of the way, if one is given. */
  function Final(z: Zip, fill: Option<Key>): Key
    requires z.Down?
  {
    if z.hit && fill.Some? then fill.value else z.k
  }

  function Plug(z: Zip, t: Tree, fill: Option<Key>): Tree {
    match z
    case Top => t
    case Down(up, right, _, red, other, _) => Plug(up, Mk(right, t, Final(z, fill), other, red), fill)
  }

  /** Some subtree beside the way has a wrong sum. */
  predicate Stained(z: Zip) { z.Down? && (!Summed(z.other) || Stained(z.up)) }

  lemma {:induction false} PlugSummed(z: Zip, t: Tree, fill: Option<Key>)
    ensures Summed(Plug(z, t, fill)) <==> Summed(t) && !Stained(z)
  {
    if z.Down? { PlugSummed(z.up, Mk(z.right, t, Final(z, fill), z.other, z.red), fill); }
  }

  function Lefts(z: Zip, fill: Option<Key>): seq<Key> {
    if z.Top? then [] else Lefts(z.up, fill) + (if z.right then Inorder(z.other) + [Final(z, fill)] else [])
  }

  function Rights(z: Zip, fill: Option<Key>): seq<Key> {
    if z.Top? then [] else (if z.right then [] else [Final(z, fill)] + Inorder(z.other)) + Rights(z.up, fill)
  }

  /** The whole list when s stands in the gap. */
  function Spread(z: Zip, s: seq<Key>, fill: Option<Key>): seq<Key> { Lefts(z, fill) + s + Rights(z, fill) }

  /** The list below one node: s on the given side, the other subtree on the other. */
  function Beside(right: bool, s: seq<Key>, k: Key, other: Tree): seq<Key> {
    if right then Inorder(other) + [k] + s else s + [k] + Inorder(other)
  }

  lemma DownSpread(z: Zip, s: seq<Key>, fill: Option<Key>)
    requires z.Down?
    ensures Spread(z, s, fill) == Spread(z.up, Beside(z.right, s, Final(z, fill), z.other), fill)
  {
    var k, o := [Final(z, fill)], Inorder(z.other);
    if z.right {
      Around(Lefts(z.up, fill), o + k, s, Rights(z.up, fill));
    } else {
      assert Beside(false, s, Final(z, fill), z.other) == s + (k + o);
      Around(Lefts(z.up, fill), s, k + o, Rights(z.up, fill));
    }
  }

  lemma {:induction false} PlugInorder(z: Zip, t: Tree, fill: Option<Key>)
    ensures Inorder(Plug(z, t, fill)) == Spread(z, Inorder(t), fill)
  {
    if z.Down? {
      PlugInorder(z.up, Mk(z.right, t, Final(z, fill), z.other, z.red), fill);
      DownSpread(z, Inorder(t), fill);
    }
  }

  // ---------------------------------------------------------------- insertion

  function Size(t: Tree): nat { if t.Leaf? then 0 else 1 + Size(t.left) + Size(t.right) }

  /** A node with two red children turns red, unless it is the root, and they turn black. */
  function Flip(q: Tree, root: bool): (r: Tree)
    ensures Size(r) == Size(q) && Inorder(r) == Inorder(q) && (Summed(q) ==> Summed(r))
  {
    if q.Node? && Red(q.left) && Red(q.right) then
      q.(left := Paint(q.left, false), right := Paint(q.right, false), red := q.red || !root)
    else q
  }

  /** A red node below a red one that has a parent. */
  predicate Clash(z: Zip, q: Tree) { Red(q) && z.Down? && z.red && z.up.Down? }

  /** zag on the grandparent: the parent takes its place. */
  function Raise(z: Zip): Zip
    requires z.Down? && z.up.Down?
  {
    var g := z.up;
    Down(g.up, g.right, z.k, false, Mk(g.right, z.other, g.k, g.other, true), false)
  }

  /** zig_zag on the grandparent: q takes its place, between the old parent ... */
  function OldParent(z: Zip, q: Tree): Tree
    requires z.Down? && z.up.Down? && q.Node?
  {
    Mk(!z.up.right, Child(q, z.up.right), z.k, z.other, true)
  }

  /** ... and the old grandparent. */
  function OldGrand(z: Zip, q: Tree): Tree
    requires z.Down? && z.up.Down? && q.Node?
  {
    Mk(z.up.right, Child(q, !z.up.right), z.up.k, z.up.other, true)
  }

  /** Where the descent goes on after a double rotation: it meets the old parent or grandparent
      a second time, and goes on from there as it did before. */
  function Twice(z: Zip, f: Tree, right: bool): (Zip, Tree)
    requires z.Down? && z.up.Down? && f.Node?
  {
    var g := z.up.right;
    var s := Flip(if right == g then OldParent(z, f) else OldGrand(z, f), false);
    var other := if right == g then OldGrand(z, f) else OldParent(z, f);
    var side := (right == g) != g;
    (Down(Down(z.up.up, right, KeyOf(f), false, other, false), side, KeyOf(s), true, Child(s, !side), false),
     Child(s, side))
  }

  /** The way back after a single rotation, if one is due. */
  function Once(z: Zip, f: Tree): Zip {
    if Clash(z, f) && z.right == z.up.right then Raise(z) else z
  }

  /** One step of the descent from f: the way back and the subtree to go on with. */
  function Goes(z: Zip, f: Tree, right: bool): (p: (Zip, Tree))
    requires f.Node?
    ensures Size(p.1) == Size(Child(f, right)) < Size(f)
  {
    if Clash(z, f) && z.right != z.up.right then Twice(z, f, right)
    else (Down(Once(z, f), right, KeyOf(f), f.red, Child(f, !right), false), Child(f, right))
  }

  /** The new node f in its place. */
  function Land(z: Zip, f: Tree): Tree
    requires f.Node?
  {
    if Clash(z, f) && z.right != z.up.right then
      Plug(z.up.up, Mk(z.up.right, OldParent(z, f), KeyOf(f), OldGrand(z, f), false), None)
    else Plug(Once(z, f), f, None)
  }

  /** The descent of r_rbtree_aug_insert at q, below z. */
  function Sink(z: Zip, q: Tree, a: nat, n: nat): Tree
    decreases Size(q)
  {
    if q.Leaf? then Land(z, Sum(a, n, Leaf, Leaf, true))
    else
      var (w, c) := Goes(z, Flip(q, z.Top?), a >= q.addr);
      Sink(w, c, a, n)
  }

  lemma {:induction false} SinkSummed(z: Zip, q: Tree, a: nat, n: nat)
    requires !Stained(z) && Summed(q)
    ensures Summed(Sink(z, q, a, n))
    decreases Size(q)
  {
    if q.Leaf? {
      var f := Sum(a, n, Leaf, Leaf, true);
      if Clash(z, f) && z.right != z.up.right {
        PlugSummed(z.up.up, Mk(z.up.right, OldParent(z, f), KeyOf(f), OldGrand(z, f), false), None);
      } else {
        PlugSummed(Once(z, f), f, None);
      }
    } else {
      var f := Flip(q, z.Top?);
      var (w, c) := Goes(z, f, a >= q.addr);
      assert !Stained(w) && Summed(c);
      SinkSummed(w, c, a, n);
    }
  }

  lemma RaiseSpread(z: Zip, s: seq<Key>)
    requires z.Down? && z.up.Down? && z.right == z.up.right
    ensures Spread(Raise(z), s, None) == Spread(z, s, None)
  {
    DownSpread(z, s, None);
    DownSpread(z.up, Beside(z.right, s, z.k, z.other), None);
    DownSpread(Raise(z), s, None);
    assert Beside(z.up.right, s, z.k, Raise(z).other)
        == Beside(z.up.right, Beside(z.right, s, z.k, z.other), z.up.k, z.up.other);
  }

  /** After a double rotation the list is the same. */
  lemma TwiceSpread(z: Zip, q: Tree)
    requires z.Down? && z.up.Down? && z.right != z.up.right && q.Node?
    ensures Spread(z.up.up, Inorder(Mk(z.up.right, OldParent(z, q), KeyOf(q), OldGrand(z, q), false)), None)
         == Spread(z, Inorder(q), None)
  {
    DownSpread(z, Inorder(q), None);
    DownSpread(z.up, Beside(z.right, Inorder(q), z.k, z.other), None);
    var l, k, r := Inorder(q.left), [KeyOf(q)], Inorder(q.right);
    if z.right {
      Regroup(Inorder(z.other), [z.k], l, k, r, [z.up.k], Inorder(z.up.other));
    } else {
      Regroup(Inorder(z.up.other), [z.up.k], l, k, r, [z.k], Inorder(z.other));
    }
  }

  /** q with the subtree on one side replaced. */
  function With(q: Tree, right: bool, sub: Tree): Tree
    requires q.Node?
  {
    if right then q.(right := sub) else q.(left := sub)
  }

  lemma InsertChild(q: Tree, root: bool, a: nat, n: nat)
    requires q.Node?
    ensures var f, right := Flip(q, root), a >= q.addr;
      Inorder(Insert(q, a, n)) == Inorder(With(f, right, Insert(Child(f, right), a, n)))
  {
    assert forall t: Tree, c :: Inorder(Insert(Paint(t, c), a, n)) == Inorder(Insert(t, a, n));
  }

  lemma LandInorder(z: Zip, f: Tree)
    requires f.Node?
    ensures Inorder(Land(z, f)) == Spread(z, Inorder(f), None)
  {
    if Clash(z, f) && z.right != z.up.right {
      TwiceSpread(z, f);
      PlugInorder(z.up.up, Mk(z.up.right, OldParent(z, f), KeyOf(f), OldGrand(z, f), false), None);
    } else {
      if Clash(z, f) { RaiseSpread(z, Inorder(f)); }
      PlugInorder(Once(z, f), f, None);
    }
  }

  /** What is put in place of the subtree gone to stands in place of it in the list. */
  lemma GoesSpread(z: Zip, f: Tree, right: bool, sub: Tree)
    requires f.Node?
    ensures Spread(Goes(z, f, right).0, Inorder(sub), None) == Spread(z, Inorder(With(f, right, sub)), None)
  {
    if Clash(z, f) && z.right != z.up.right {
      var g, w, f' := z.up.right, Twice(z, f, right).0, With(f, right, sub);
      DownSpread(w, Inorder(sub), None);
      DownSpread(w.up, Beside(w.right, Inorder(sub), w.k, w.other), None);
      TwiceSpread(z, f');
      var s := if right == g then OldParent(z, f') else OldGrand(z, f');
      assert Beside(w.right, Inorder(sub), w.k, w.other) == Inorder(s);
      assert Beside(right, Inorder(s), KeyOf(f), w.up.other)
          == Inorder(Mk(g, OldParent(z, f'), KeyOf(f), OldGrand(z, f'), false));
    } else {
      var w := Goes(z, f, right).0;
      DownSpread(w, Inorder(sub), None);
      if Clash(z, f) { RaiseSpread(z, Inorder(With(f, right, sub))); }
    }
  }

  lemma {:induction false} SinkInorder(z: Zip, q: Tree, a: nat, n: nat)
    decreases Size(q)
    ensures Inorder(Sink(z, q, a, n)) == Spread(z, Inorder(Insert(q, a, n)), None)
  {
    if q.Leaf? {
      LandInorder(z, Sum(a, n, Leaf, Leaf, true));
    } else {
      var f, right := Flip(q, z.Top?), a >= q.addr;
      var (w, c) := Goes(z, f, right);
      InsertChild(q, z.Top?, a, n);
      SinkInorder(w, c, a, n);
      GoesSpread(z, f, right, Insert(Child(f, right), a, n));
      assert Inorder(Insert(c, a, n)) == Inorder(Insert(Child(f, right), a, n));
    }
  }

  /** r_rbtree_aug_insert. */
  function RbInsert(t: Tree, a: nat, n: nat): Tree {
    if t.Leaf? then Sum(a, n, Leaf, Leaf, false) else Sink(Top, t, a, n)
  }

  /** Insertion with its rotations keeps order and sums and adds exactly the new block. */
  lemma InsertGood(t: Tree, a: nat, n: nat)
    requires Good(t) && Find(t, a).Leaf?
    ensures Good(RbInsert(t, a, n))
    ensures forall b: nat, m: nat :: In(RbInsert(t, a, n), b, m) <==> In(t, b, m) || (b == a && m == n)
  {
    InsertSorted(t, a, n);
    if t.Node? {
      SinkInorder(Top, t, a, n);
      SameList(RbInsert(t, a, n), Insert(t, a, n));
      SinkSummed(Top, t, a, n);
    }
  }

  // ---------------------------------------------------------------- deletion

  /** A rotation of the parent with its other child, which has a red child of its own: once, or
      twice if the inner child is red.  The new top is red, both nodes below it are black. */
  function Rotated(z: Zip): Zip
    requires z.Down? && z.other.Node?
  {
    var s, last := z.other, z.right;
    var inner, outer := Child(s, last), Child(s, !last);
    if Red(inner) then
      var top := Down(z.up, last, KeyOf(inner), true, Mk(last, Child(inner, !last), KeyOf(s), outer, false), false);
      Down(top, last, z.k, false, Child(inner, last), z.hit)
    else
      var top := Down(z.up, last, KeyOf(s), true, Paint(outer, false), false);
      Down(top, last, z.k, false, inner, z.hit)
  }

  /** One round of r_rbtree_aug_delete: the node k below z, about to be left on the given side,
      with the repairs that keep it, or the node it goes to, red. */
  function Enter(z: Zip, right: bool, k: Key, red: bool, next: Tree, other: Tree, hit: bool): (w: Zip)
    ensures w.Down? && w.k == k && w.right == right && w.hit == hit
  {
    if red || Red(next) then Down(z, right, k, red, other, hit)
    else if Red(other) then
      Down(Down(z, right, KeyOf(other), false, Child(other, !right), false),
           right, k, true, Child(other, right), hit)
    else if z.Down? && z.other.Node? then
      var flip := !Red(z.other.left) && !Red(z.other.right);
      Down(if flip then z.(red := false, other := Paint(z.other, true)) else Rotated(z), right, k, true, other, hit)
    else Down(z, right, k, red, other, hit)
  }

  /** The way a deletion of b leaves q: after the match always to the right. */
  predicate GoesRight(q: Tree, b: nat, found: bool)
    requires q.Node?
  {
    found || b > q.addr
  }

  /** The round at q. */
  function Round(z: Zip, q: Tree, b: nat, found: bool): (w: Zip)
    requires q.Node?
    ensures w.Down?
  {
    var right := GoesRight(q, b, found);
    Enter(z, right, KeyOf(q), q.red, Child(q, right), Child(q, !right), !found && q.addr == b)
  }

  /** The descent of r_rbtree_aug_delete at q, below z. */
  function Descend(z: Zip, q: Tree, b: nat, found: bool): Tree
    requires q.Node? && (found || Find(q, b).Node?)
    decreases q
  {
    var w, next := Round(z, q, b, found), Child(q, GoesRight(q, b, found));
    if next.Leaf? then Plug(w.up, w.other, Some(KeyOf(q))) else Descend(w, next, b, found || q.addr == b)
  }

  /** r_rbtree_aug_delete of a block of the tree. */
  function RbDelete(t: Tree, b: nat): Tree
    requires Find(t, b).Node?
  {
    Paint(Descend(Top, t, b, false), false)
  }

  lemma MkSummed(right: bool, sub: Tree, k: Key, other: Tree, red: bool)
    ensures Summed(Mk(right, sub, k, other, red)) <==> Summed(sub) && Summed(other)
  {
  }

  lemma RotatedSummed(z: Zip)
    requires z.Down? && z.other.Node? && !Stained(z)
    ensures !Stained(Rotated(z))
  {
    var s, last := z.other, z.right;
    var inner, outer := Child(s, last), Child(s, !last);
    assert Summed(inner) && Summed(outer);
    if Red(inner) {
      MkSummed(last, Child(inner, !last), KeyOf(s), outer, false);
      assert Summed(Child(inner, last)) && Summed(Child(inner, !last));
    }
  }

  lemma RoundSummed(z: Zip, q: Tree, b: nat, found: bool)
    requires q.Node? && !Stained(z) && Summed(q.left) && Summed(q.right)
    ensures !Stained(Round(z, q, b, found))
  {
    if z.Down? && z.other.Node? { RotatedSummed(z); }
  }

  lemma {:induction false} DescendSummed(z: Zip, q: Tree, b: nat, found: bool)
    requires q.Node? && (found || Find(q, b).Node?)
    requires !Stained(z) && Summed(q.left) && Summed(q.right)
    ensures Summed(Descend(z, q, b, found))
    decreases q
  {
    var w, next := Round(z, q, b, found), Child(q, GoesRight(q, b, found));
    RoundSummed(z, q, b, found);
    if next.Leaf? {
      PlugSummed(w.up, w.other, Some(KeyOf(q)));
    } else {
      DescendSummed(w, next, b, found || q.addr == b);
    }
  }

  /** The list k next to a subtree. */
  function Next(right: bool, m: seq<Key>, other: Tree): seq<Key> {
    if right then Inorder(other) + m else m + Inorder(other)
  }

  lemma RotatedBeside(z: Zip, s: seq<Key>, k: Key)
    requires z.Down? && z.other.Node? && (Red(z.other.left) || Red(z.other.right))
    ensures var r := Rotated(z);
      Beside(z.right, Beside(z.right, s, k, r.other), r.up.k, r.up.other) == Beside(z.right, s, k, z.other)
  {
    var o, inner := z.other, Child(z.other, z.right);
    if Red(inner) {
      var a, b, c := Inorder(inner.left), [KeyOf(inner)], Inorder(inner.right);
      if z.right {
        Regroup(Inorder(o.left), [KeyOf(o)], a, b, c, [k], s);
        assert Inorder(o) == Inorder(o.left) + [KeyOf(o)] + (a + b + c);
      } else {
        Regroup(s, [k], a, b, c, [KeyOf(o)], Inorder(o.right));
        assert Inorder(o) == (a + b + c) + [KeyOf(o)] + Inorder(o.right);
      }
    } else if z.right {
      Regroup5(Inorder(o.left), [KeyOf(o)], Inorder(o.right), [k], s);
    } else {
      Regroup5(s, [k], Inorder(o.left), [KeyOf(o)], Inorder(o.right));
    }
  }

  lemma RotatedSpread(z: Zip, s: seq<Key>, fill: Option<Key>)
    requires z.Down? && z.other.Node? && (Red(z.other.left) || Red(z.other.right))
    ensures Spread(Rotated(z), s, fill) == Spread(z, s, fill)
  {
    var r := Rotated(z);
    var k := Final(z, fill);
    DownSpread(z, s, fill);
    DownSpread(r, s, fill);
    DownSpread(r.up, Beside(z.right, s, k, r.other), fill);
    RotatedBeside(z, s, k);
  }

  lemma LiftSpread(z: Zip, right: bool, other: Tree, m: seq<Key>, fill: Option<Key>)
    requires other.Node?
    ensures var up := Down(z, right, KeyOf(other), false, Child(other, !right), false);
      Spread(up, Next(right, m, Child(other, right)), fill) == Spread(z, Next(right, m, other), fill)
  {
    var up := Down(z, right, KeyOf(other), false, Child(other, !right), false);
    DownSpread(up, Next(right, m, Child(other, right)), fill);
    if right {
      Regroup4(Inorder(other.left), [KeyOf(other)], Inorder(other.right), m);
    } else {
      Regroup4(m, Inorder(other.left), [KeyOf(other)], Inorder(other.right));
    }
  }

  lemma PaintSpread(z: Zip, s: seq<Key>, fill: Option<Key>)
    requires z.Down?
    ensures Spread(z.(red := false, other := Paint(z.other, true)), s, fill) == Spread(z, s, fill)
  {
    DownSpread(z, s, fill);
    DownSpread(z.(red := false, other := Paint(z.other, true)), s, fill);
  }

  /** The repairs leave the list as it is, whatever stands in place of the node and its next subtree. */
  lemma EnterSpread(z: Zip, right: bool, k: Key, red: bool, next: Tree, other: Tree, hit: bool,
                    m: seq<Key>, fill: Option<Key>)
    ensures var w := Enter(z, right, k, red, next, other, hit);
      Spread(w.up, Next(right, m, w.other), fill) == Spread(z, Next(right, m, other), fill)
  {
    if !red && !Red(next) {
      if Red(other) {
        LiftSpread(z, right, other, m, fill);
      } else if z.Down? && z.other.Node? {
        if Red(z.other.left) || Red(z.other.right) {
          RotatedSpread(z, Next(right, m, other), fill);
        } else {
          PaintSpread(z, Next(right, m, other), fill);
        }
      }
    }
  }

  lemma BesideNext(right: bool, s: seq<Key>, k: Key, other: Tree)
    ensures Beside(right, s, k, other) == Next(right, if right then [k] + s else s + [k], other)
  {
  }

  /** One level of the descent, seen from above. */
  lemma LevelSpread(z: Zip, q: Tree, b: nat, found: bool, s: seq<Key>, fill: Option<Key>)
    requires q.Node?
    ensures var right := GoesRight(q, b, found);
      Spread(Round(z, q, b, found), s, fill)
      == Spread(z, Beside(right, s, if !found && q.addr == b && fill.Some? then fill.value else KeyOf(q),
                          Child(q, !right)), fill)
  {
    var w, right := Round(z, q, b, found), GoesRight(q, b, found);
    var last := Final(w, fill);
    var m := if right then [last] + s else s + [last];
    EnterSpread(z, right, KeyOf(q), q.red, Child(q, right), Child(q, !right), w.hit, m, fill);
    DownSpread(w, s, fill);
    BesideNext(right, s, last, w.other);
    BesideNext(right, s, last, Child(q, !right));
  }

  /** No node on the way back is the one to delete. */
  predicate Unhit(z: Zip) { z.Top? || (!z.hit && Unhit(z.up)) }

  lemma {:induction false} UnhitSpread(z: Zip, s: seq<Key>, fill: Option<Key>)
    requires Unhit(z)
    ensures Spread(z, s, fill) == Spread(z, s, None)
  {
    if z.Down? {
      DownSpread(z, s, fill);
      DownSpread(z, s, None);
      UnhitSpread(z.up, Beside(z.right, s, z.k, z.other), fill);
    }
  }

  lemma RoundUnhit(z: Zip, q: Tree, b: nat)
    requires Unhit(z) && q.Node? && q.addr != b
    ensures Unhit(Round(z, q, b, false))
  {
    if z.Down? && z.other.Node? { assert Unhit(Rotated(z).up); }
  }

  /** What the descent leaves in place of q, and the block that takes the place of b. */
  function Rest(q: Tree, b: nat, found: bool): Tree
    requires q.Node?
  {
    if found then DropLast(q) else Delete(q, b)
  }

  function Fill(q: Tree, b: nat, found: bool): Option<Key>
    requires q.Node?
  {
    if found then Some(KeyOf(Last(q))) else None
  }

  lemma {:induction false} DescendInorder(z: Zip, q: Tree, b: nat, found: bool)
    requires q.Node? && (found || (Find(q, b).Node? && Unhit(z)))
    ensures Inorder(Descend(z, q, b, found)) == Spread(z, Inorder(Rest(q, b, found)), Fill(q, b, found))
    decreases q
  {
    var right := GoesRight(q, b, found);
    var w, next, hit := Round(z, q, b, found), Child(q, right), !found && q.addr == b;
    if next.Leaf? {
      var last := Some(KeyOf(q));
      EnterSpread(z, right, KeyOf(q), q.red, next, Child(q, !right), hit, [], last);
      PlugInorder(w.up, w.other, last);
      assert forall o :: Next(right, [], o) == Inorder(o);
      if !found { UnhitSpread(z, Inorder(Child(q, !right)), last); }
    } else {
      if !found && !hit { RoundUnhit(z, q, b); }
      DescendInorder(w, next, b, found || hit);
      var fill := Fill(next, b, found || hit);
      LevelSpread(z, q, b, found, Inorder(Rest(next, b, found || hit)), fill);
      if !found { UnhitSpread(z, Inorder(Rest(q, b, found)), fill); }
    }
  }

  /** Deletion with its rotations keeps order and sums and removes exactly that block. */
  lemma DeleteGood(t: Tree, b: nat)
    requires Good(t) && Find(t, b).Node?
    ensures Good(RbDelete(t, b))
    ensures forall c: nat, m: nat :: In(RbDelete(t, b), c, m) <==> In(t, c, m) && c != b
  {
    DeleteExact(t, b);
    DescendSummed(Top, t, b, false);
  }

  /** Order and contents do not depend on the sums. */
  lemma DeleteExact(t: Tree, b: nat)
    requires Sorted(t) && Find(t, b).Node?
    ensures Sorted(RbDelete(t, b))
    ensures forall c: nat, m: nat :: In(RbDelete(t, b), c, m) <==> In(t, c, m) && c != b
  {
    DeleteSorted(t, b);
    DescendInorder(Top, t, b, false);
    SameList(RbDelete(t, b), Delete(t, b));
  }

  // ---------------------------------------------------------------- r_anal_block_merge and the sums

  predicate Has(t: Tree, a: nat) { t.Node? && (t.addr == a || Has(t.left, a) || Has(t.right, a)) }

  predicate Clean(t: Tree, a: nat) { Summed(t) && !Has(t, a) }

  /** The sum at a is wrong, and no other. */
  predicate Stale(t: Tree, a: nat) {
    && t.Node?
    && if t.addr == a then !Own(t) && Clean(t.left, a) && Clean(t.right, a)
       else Own(t) && ((Stale(t.left, a) && Clean(t.right, a)) || (Clean(t.left, a) && Stale(t.right, a)))
  }

  lemma {:induction false} StaleNotSummed(t: Tree, a: nat)
    requires Stale(t, a)
    ensures !Summed(t) && Has(t, a)
  {
    if t.addr != a {
      if Stale(t.left, a) { StaleNotSummed(t.left, a); } else { StaleNotSummed(t.right, a); }
    }
  }

  lemma {:induction false} HasFind(t: Tree, a: nat)
    requires Sorted(t)
    ensures Has(t, a) <==> Find(t, a).Node?
  {
    if t.Node? {
      HasFind(t.left, a);
      HasFind(t.right, a);
      OneSide(t, a);
    }
  }

  /** A size written without redoing sums spoils the sum of its own node, or none. */
  lemma {:induction false} EnlargeStale(t: Tree, a: nat, n: nat)
    requires Good(t) && Find(t, a).Node? && n >= Find(t, a).size && !Reaches(t, a, n)
    ensures Stale(Enlarge(t, a, n), a)
  {
    HasFind(t.left, a);
    HasFind(t.right, a);
    OneSide(t, a);
    FindIn(t, a);
    if a < t.addr {
      FindIn(t.left, a);
      EnlargeStale(t.left, a, n);
      EnlargeIff(t.left, a, n);
    } else if a > t.addr {
      FindIn(t.right, a);
      EnlargeStale(t.right, a, n);
      EnlargeIff(t.right, a, n);
    }
  }

  /** The child beside the way is rotated onto it. */
  predicate Lifts(q: Tree, b: nat, found: bool)
    requires q.Node?
  {
    var right := GoesRight(q, b, found);
    !q.red && !Red(Child(q, right)) && Red(Child(q, !right))
  }

  /** A rotation of the parent takes place. */
  predicate Turns(z: Zip, q: Tree, b: nat, found: bool)
    requires q.Node?
  {
    && !q.red && !Red(q.left) && !Red(q.right)
    && z.Down? && z.other.Node? && (Red(z.other.left) || Red(z.other.right))
  }

  /** It moves the node at a: the sibling, or its red inner child. */
  predicate Moved(z: Zip, a: nat)
    requires z.Down? && z.other.Node?
  {
    z.other.addr == a || (Red(Child(z.other, z.right)) && Child(z.other, z.right).addr == a)
  }

  /** The rotation of this round, if any, moves the node at a. */
  predicate Moves(z: Zip, q: Tree, b: nat, found: bool, a: nat)
    requires q.Node?
  {
    || (Lifts(q, b, found) && Child(q, !GoesRight(q, b, found)).addr == a)
    || (Turns(z, q, b, found) && Moved(z, a))
  }

  /** A deletion of b redoes the sum at a: it passes through the node or moves it. */
  predicate Redoes(z: Zip, q: Tree, b: nat, found: bool, a: nat)
    requires q.Node?
    decreases q
  {
    var next := Child(q, GoesRight(q, b, found));
    || q.addr == a || Moves(z, q, b, found, a)
    || (next.Node? && Redoes(Round(z, q, b, found), next, b, found || q.addr == b, a))
  }

  lemma {:induction false} NotRedone(z: Zip, q: Tree, b: nat, found: bool, a: nat)
    requires q.Node? && !Has(q, a) && (z.Down? ==> !Has(z.other, a))
    ensures !Redoes(z, q, b, found, a)
    decreases q
  {
    var w, next := Round(z, q, b, found), Child(q, GoesRight(q, b, found));
    assert !Moves(z, q, b, found, a);
    if next.Node? { NotRedone(w, next, b, found || q.addr == b, a); }
  }

  /** A wrong sum beside the way above the last node stays. */
  lemma {:induction false} DescendStained(z: Zip, q: Tree, b: nat, found: bool)
    requires q.Node? && (found || Find(q, b).Node?) && z.Down? && Stained(z.up)
    ensures !Summed(Descend(z, q, b, found))
    decreases q
  {
    var w, next := Round(z, q, b, found), Child(q, GoesRight(q, b, found));
    assert Stained(w.up);
    if next.Leaf? {
      PlugSummed(w.up, w.other, Some(KeyOf(q)));
    } else {
      DescendStained(w, next, b, found || q.addr == b);
    }
  }

  predicate CleanZip(z: Zip, a: nat) { z.Top? || (Clean(z.other, a) && CleanZip(z.up, a)) }

  lemma {:induction false} CleanUnstained(z: Zip, a: nat)
    requires CleanZip(z, a)
    ensures !Stained(z)
  {
    if z.Down? { CleanUnstained(z.up, a); }
  }

  lemma RotatedClean(z: Zip, a: nat)
    requires z.Down? && z.other.Node? && CleanZip(z, a)
    ensures CleanZip(Rotated(z), a)
  {
    var s, last := z.other, z.right;
    var inner, outer := Child(s, last), Child(s, !last);
    assert Clean(inner, a) && Clean(outer, a) && s.addr != a;
    if Red(inner) {
      assert Clean(Child(inner, last), a) && Clean(Child(inner, !last), a);
      assert Clean(Mk(last, Child(inner, !last), KeyOf(s), outer, false), a);
    }
  }

  lemma RoundClean(z: Zip, q: Tree, b: nat, found: bool, a: nat)
    requires q.Node? && CleanZip(z, a)
    ensures var w, other := Round(z, q, b, found), Child(q, !GoesRight(q, b, found));
      && (Clean(other, a) ==> CleanZip(w, a))
      && (!Lifts(q, b, found) ==> w.other == other && CleanZip(w.up, a))
  {
    var right := GoesRight(q, b, found);
    var other := Child(q, !right);
    if Lifts(q, b, found) {
      if Clean(other, a) { assert Clean(Child(other, right), a) && Clean(Child(other, !right), a); }
    } else if Turns(z, q, b, found) {
      RotatedClean(z, a);
    }
  }

  /** A clean way moves nothing of a. */
  lemma CleanMoves(z: Zip, q: Tree, b: nat, found: bool, a: nat)
    requires q.Node? && (z.Down? ==> !Has(z.other, a))
    ensures Moves(z, q, b, found, a) ==> Lifts(q, b, found) && Child(q, !GoesRight(q, b, found)).addr == a
  {
    if Turns(z, q, b, found) { assert !Has(Child(z.other, z.right), a); }
  }

  lemma MovedSummed(z: Zip, a: nat)
    requires z.Down? && z.other.Node? && Stale(z.other, a) && !Stained(z.up) && Moved(z, a)
    ensures !Stained(Rotated(z))
  {
    var s, last := z.other, z.right;
    var inner, outer := Child(s, last), Child(s, !last);
    if s.addr == a {
      assert Summed(inner) && Summed(outer);
    } else {
      assert Has(inner, a);
      assert Stale(inner, a) && Summed(outer);
      assert Summed(Child(inner, last)) && Summed(Child(inner, !last));
    }
    if Red(inner) { MkSummed(last, Child(inner, !last), KeyOf(s), outer, false); }
  }

  lemma UnmovedStained(z: Zip, a: nat)
    requires z.Down? && z.other.Node? && Stale(z.other, a) && !Moved(z, a)
    ensures Stained(Rotated(z))
  {
    var s, last := z.other, z.right;
    var inner, outer := Child(s, last), Child(s, !last);
    if Stale(outer, a) { StaleNotSummed(outer, a); } else { StaleNotSummed(inner, a); }
    if Red(inner) {
      MkSummed(last, Child(inner, !last), KeyOf(s), outer, false);
      if Stale(inner, a) {
        if Stale(Child(inner, last), a) {
          StaleNotSummed(Child(inner, last), a);
        } else {
          StaleNotSummed(Child(inner, !last), a);
        }
      }
    }
  }

  lemma StaysStained(z: Zip, q: Tree, b: nat, found: bool, a: nat)
    requires q.Node? && z.Down? && Stale(z.other, a) && Clean(q, a) && !(Turns(z, q, b, found) && Moved(z, a))
    ensures var w := Round(z, q, b, found); Stained(w.up) && !Has(w.other, a) && !Moves(z, q, b, found, a)
  {
    StaleNotSummed(z.other, a);
    var right := GoesRight(q, b, found);
    assert !Has(q.left, a) && !Has(q.right, a);
    if Lifts(q, b, found) {
      assert !Has(Child(Child(q, !right), right), a);
    } else if Turns(z, q, b, found) {
      UnmovedStained(z, a);
    }
  }

  /** With the wrong sum in the sibling: only a rotation in this round can put it right. */
  lemma BesideIff(z: Zip, q: Tree, b: nat, found: bool, a: nat)
    requires q.Node? && (found || Find(q, b).Node?)
    requires z.Down? && Stale(z.other, a) && Clean(q, a) && CleanZip(z.up, a)
    ensures Summed(Descend(z, q, b, found)) <==> Redoes(z, q, b, found, a)
  {
    var w, next := Round(z, q, b, found), Child(q, GoesRight(q, b, found));
    var hit := found || q.addr == b;
    CleanUnstained(z.up, a);
    if Turns(z, q, b, found) && Moved(z, a) {
      MovedSummed(z, a);
      assert Summed(next) && !Stained(w);
      if next.Leaf? { PlugSummed(w.up, w.other, Some(KeyOf(q))); } else { DescendSummed(w, next, b, hit); }
    } else {
      StaysStained(z, q, b, found, a);
      if next.Leaf? {
        PlugSummed(w.up, w.other, Some(KeyOf(q)));
      } else {
        NotRedone(w, next, b, hit, a);
        DescendStained(w, next, b, hit);
      }
    }
  }

  /** With the wrong sum in the subtree to go through. */
  lemma {:induction false} BelowIff(z: Zip, q: Tree, b: nat, found: bool, a: nat)
    requires q.Node? && (found || Find(q, b).Node?) && CleanZip(z, a) && Stale(q, a)
    ensures Summed(Descend(z, q, b, found)) <==> Redoes(z, q, b, found, a)
    decreases q
  {
    var right := GoesRight(q, b, found);
    var next, other := Child(q, right), Child(q, !right);
    var w := Round(z, q, b, found);
    CleanUnstained(z, a);
    RoundClean(z, q, b, found, a);
    if q.addr == a {
      DescendSummed(z, q, b, found);
    } else if Stale(next, a) {
      StaleNotSummed(next, a);
      CleanMoves(z, q, b, found, a);
      BelowIff(w, next, b, found || q.addr == b, a);
    } else {
      AsideIff(z, q, b, found, a);
    }
  }

  /** With the wrong sum in the subtree beside the way. */
  lemma AsideIff(z: Zip, q: Tree, b: nat, found: bool, a: nat)
    requires q.Node? && (found || Find(q, b).Node?) && CleanZip(z, a) && q.addr != a
    requires var right := GoesRight(q, b, found); Clean(Child(q, right), a) && Stale(Child(q, !right), a)
    ensures Summed(Descend(z, q, b, found)) <==> Redoes(z, q, b, found, a)
  {
    var right := GoesRight(q, b, found);
    var next, other := Child(q, right), Child(q, !right);
    var w := Round(z, q, b, found);
    CleanUnstained(z, a);
    RoundClean(z, q, b, found, a);
    if !Lifts(q, b, found) {
      CleanMoves(z, q, b, found, a);
      StaleNotSummed(other, a);
      if next.Leaf? {
        PlugSummed(w.up, w.other, Some(KeyOf(q)));
      } else {
        BesideIff(w, next, b, found || q.addr == b, a);
      }
    } else {
      LiftedIff(z, q, b, found, a);
    }
  }

  /** The same when that subtree is rotated onto the way. */
  lemma LiftedIff(z: Zip, q: Tree, b: nat, found: bool, a: nat)
    requires q.Node? && (found || Find(q, b).Node?) && CleanZip(z, a) && q.addr != a
    requires Lifts(q, b, found)
    requires var right := GoesRight(q, b, found); Clean(Child(q, right), a) && Stale(Child(q, !right), a)
    ensures Summed(Descend(z, q, b, found)) <==> Redoes(z, q, b, found, a)
  {
    var right := GoesRight(q, b, found);
    var next, other := Child(q, right), Child(q, !right);
    var w, hit := Round(z, q, b, found), found || q.addr == b;
    CleanUnstained(z, a);
    if other.addr == a {
      assert !Stained(w);
      if next.Leaf? { PlugSummed(w.up, w.other, Some(KeyOf(q))); } else { DescendSummed(w, next, b, hit); }
    } else if Stale(w.other, a) {
      StaleNotSummed(w.other, a);
      if next.Leaf? { PlugSummed(w.up, w.other, Some(KeyOf(q))); } else { BesideIff(w, next, b, hit, a); }
    } else {
      StaleNotSummed(w.up.other, a);
      if next.Leaf? {
        PlugSummed(w.up, w.other, Some(KeyOf(q)));
      } else {
        NotRedone(w, next, b, hit, a);
        DescendStained(w, next, b, hit);
      }
    }
  }

  /** Trees that differ in sizes and sums only; the descent does not look at these. */
  predicate Alike(t: Tree, u: Tree) {
    if t.Leaf? then u.Leaf?
    else u.Node? && t.addr == u.addr && t.red == u.red && Alike(t.left, u.left) && Alike(t.right, u.right)
  }

  predicate AlikeZip(z: Zip, y: Zip) {
    if z.Top? then y.Top?
    else y.Down? && z.right == y.right && Alike(z.other, y.other) && AlikeZip(z.up, y.up)
  }

  lemma {:induction false} EnlargeAlike(t: Tree, a: nat, n: nat)
    ensures Alike(t, Enlarge(t, a, n))
  {
    if t.Node? {
      AlikeSelf(t.left);
      AlikeSelf(t.right);
      EnlargeAlike(t.left, a, n);
      EnlargeAlike(t.right, a, n);
    }
  }

  lemma {:induction false} AlikeSelf(t: Tree)
    ensures Alike(t, t)
  {
    if t.Node? {
      AlikeSelf(t.left);
      AlikeSelf(t.right);
    }
  }

  lemma RotatedAlike(z: Zip, y: Zip)
    requires z.Down? && z.other.Node? && AlikeZip(z, y)
    ensures AlikeZip(Rotated(z), Rotated(y))
  {
    var s, r, last := z.other, y.other, z.right;
    assert Alike(Child(s, last), Child(r, last)) && Alike(Child(s, !last), Child(r, !last));
    if Red(Child(s, last)) {
      assert Alike(Child(Child(s, last), last), Child(Child(r, last), last));
      assert Alike(Child(Child(s, last), !last), Child(Child(r, last), !last));
    }
  }

  lemma MovesAlike(z: Zip, y: Zip, q: Tree, p: Tree, b: nat, found: bool, a: nat)
    requires q.Node? && Alike(q, p) && AlikeZip(z, y)
    ensures Moves(z, q, b, found, a) == Moves(y, p, b, found, a)
    ensures Lifts(q, b, found) == Lifts(p, b, found) && Turns(z, q, b, found) == Turns(y, p, b, found)
  {
    assert Alike(q.left, p.left) && Alike(q.right, p.right);
    if z.Down? && z.other.Node? {
      assert Alike(z.other.left, y.other.left) && Alike(z.other.right, y.other.right);
    }
  }

  lemma RoundAlike(z: Zip, y: Zip, q: Tree, p: Tree, b: nat, found: bool)
    requires q.Node? && Alike(q, p) && AlikeZip(z, y)
    requires Lifts(q, b, found) == Lifts(p, b, found) && Turns(z, q, b, found) == Turns(y, p, b, found)
    ensures AlikeZip(Round(z, q, b, found), Round(y, p, b, found))
  {
    var right := GoesRight(q, b, found);
    var o, u := Child(q, !right), Child(p, !right);
    assert Alike(o, u) && Alike(Child(q, right), Child(p, right));
    if Lifts(q, b, found) {
      assert Alike(Child(o, right), Child(u, right)) && Alike(Child(o, !right), Child(u, !right));
    } else if Turns(z, q, b, found) {
      RotatedAlike(z, y);
    } else if z.Down? && z.other.Node? {
      assert Alike(Paint(z.other, true), Paint(y.other, true));
    }
  }

  lemma {:induction false} RedoesAlike(z: Zip, y: Zip, q: Tree, p: Tree, b: nat, found: bool, a: nat)
    requires q.Node? && Alike(q, p) && AlikeZip(z, y)
    ensures Redoes(z, q, b, found, a) == Redoes(y, p, b, found, a)
    decreases q
  {
    var right := GoesRight(q, b, found);
    MovesAlike(z, y, q, p, b, found, a);
    RoundAlike(z, y, q, p, b, found);
    if Child(q, right).Node? {
      RedoesAlike(Round(z, q, b, found), Round(y, p, b, found), Child(q, right), Child(p, right), b,
                  found || q.addr == b, a);
    }
  }

  /** The two steps of r_anal_block_merge on the tree: a size written, and a block deleted. */
  function Merged(t: Tree, a: nat, b: nat, n: nat): Tree
    requires Find(Enlarge(t, a, n), b).Node?
  {
    RbDelete(Enlarge(t, a, n), b)
  }

  lemma EnlargeFinds(t: Tree, a: nat, b: nat, n: nat)
    ensures Find(Enlarge(t, a, n), b).Node? <==> Find(t, b).Node?
  {
  }

  /** A merge keeps the tree exact if and only if the deletion of b redoes the sum at a, or the
      greatest end below a already reached the new end. */
  lemma MergeIff(t: Tree, a: nat, b: nat, n: nat)
    requires Good(t) && a != b && Find(t, a).Node? && Find(t, b).Node? && n >= Find(t, a).size
    ensures Find(Enlarge(t, a, n), b).Node?
    ensures Good(Merged(t, a, b, n)) <==> Redoes(Top, t, b, false, a) || Reaches(t, a, n)
    ensures forall c: nat, m: nat :: In(Merged(t, a, b, n), c, m) <==>
              c != b && if c == a then m == n else In(t, c, m)
  {
    var u := Enlarge(t, a, n);
    EnlargeFinds(t, a, b, n);
    EnlargeSorted(t, a, n);
    DeleteExact(u, b);
    FindIn(t, a);
    if Reaches(t, a, n) {
      EnlargeIff(t, a, n);
      DescendSummed(Top, u, b, false);
    } else {
      EnlargeStale(t, a, n);
      BelowIff(Top, u, b, false, a);
      EnlargeAlike(t, a, n);
      RedoesAlike(Top, Top, t, u, b, false, a);
    }
  }

  lemma {:induction false} SpineRedone(z: Zip, q: Tree, b: nat, a: nat)
    requires OnSpine(q, a)
    ensures Redoes(z, q, b, true, a)
    decreases q
  {
    if q.addr != a { SpineRedone(Round(z, q, b, true), q.right, b, a); }
  }

  lemma {:induction false} PassesRedone(z: Zip, q: Tree, b: nat, a: nat)
    requires Passes(q, a, b)
    ensures Redoes(z, q, b, false, a)
    decreases q
  {
    var w, next := Round(z, q, b, false), Child(q, GoesRight(q, b, false));
    if q.addr == b { SpineRedone(w, next, b, a); } else if q.addr != a { PassesRedone(w, next, b, a); }
  }

  /** So a merge of neighbours keeps the tree exact. */
  lemma MergeNeighbours(t: Tree, a: nat, b: nat, n: nat)
    requires Good(t) && a < b && Find(t, a).Node? && Find(t, b).Node? && n >= Find(t, a).size
    requires forall c: nat, m: nat :: In(t, c, m) ==> c <= a || b <= c
    ensures Find(Enlarge(t, a, n), b).Node? && Good(Merged(t, a, b, n))
  {
    NeighbourPasses(t, a, b);
    PassesRedone(Top, t, b, a);
    MergeIff(t, a, b, n);
  }

  /** With a block that starts between them, the sum above a can stay too small, and a lookup
      then misses bytes of a. */
  lemma MergeLosesBytes()
    ensures var t := Sum(5, 1, Sum(0, 10, Leaf, Leaf, true), Sum(10, 10, Leaf, Leaf, true), false);
      var t' := RbDelete(Enlarge(t, 0, 20), 10);
      Good(t) && In(t', 0, 20) && Hits(t', 15, 16) == [0] && t'.Node? && t'.maxEnd <= 15
  {
    var l, r := Sum(0, 10, Leaf, Leaf, true), Sum(10, 10, Leaf, Leaf, true);
    assert forall a: nat, n: nat :: In(l, a, n) ==> a == 0;
    assert forall a: nat, n: nat :: In(r, a, n) ==> a == 10;
    assert Sorted(l) && Sorted(r) && Summed(l) && Summed(r);
    var l' := Node(0, 20, 10, Leaf, Leaf, true);
    var u := Node(5, 1, 20, l', r, false);
    assert Enlarge(Sum(5, 1, l, r, false), 0, 20) == u;
    var z := Down(Top, true, Key(5, 1), false, l', false);
    assert Round(Top, u, 10, false) == z;
    assert Descend(Top, u, 10, false) == Descend(z, r, 10, false) == Plug(z, Leaf, Some(Key(10, 10)));
    assert Plug(z, Leaf, Some(Key(10, 10))) == Sum(5, 1, l', Leaf, false);
    assert Hits(l', 15, 16) == [0];
  }

  /** Without the rotations it would be another condition: here the sum is redone because the
      sibling of the way is rotated, although the deletion does not pass through it. */
  lemma RotationSaves()
    ensures var s := Sum(0, 10, Leaf, Sum(2, 1, Leaf, Leaf, true), false);
      var t := Sum(5, 1, s, Sum(10, 10, Leaf, Leaf, false), false);
      !Passes(t, 0, 10) && Redoes(Top, t, 10, false, 0)
  {
    var s := Sum(0, 10, Leaf, Sum(2, 1, Leaf, Leaf, true), false);
    var r := Sum(10, 10, Leaf, Leaf, false);
    var t := Sum(5, 1, s, r, false);
    var z := Down(Top, true, Key(5, 1), false, s, false);
    assert Round(Top, t, 10, false) == z;
    assert Turns(z, r, 10, false) && Moved(z, 0);
    assert Redoes(z, r, 10, false, 0);
  }
}
