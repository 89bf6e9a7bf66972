/** What goes wrong in the write loop (libr/anal/esil_dfg.c:206-283) when a range holds two stored
    intervals entirely: the deletion meets both on one way down, and the node it unlinks comes
    from below both of them.  That node ends on the wrong side of the lower one, which the next
    piece of the queue then walks past. */
module Leftovers {
  import opened Lists
  import opened IntervalTree
  import opened RedBlack
  import opened Clearing

  // ---------------------------------------------------------------- rounds that leave x alone

  /** A deletion that does not meet x leaves x in any tree, perhaps in the place of a match. */
  lemma {:induction false} TakeLeaves(t: Tree, inc: Interval, found: bool, x: Interval)
    requires t.Node? && x in Elems(t) && x.from <= x.to && inc.from <= inc.to && !Meets(x, inc)
    ensures var c := Take(t, inc, found); x in Elems(c.tree) || (found && c.last == x)
  {
    var q := DelCmp(inc, t.v);
    var next := if q.dir > 0 then t.right else t.left;
    if next.Node? && x in Elems(next) { TakeLeaves(next, inc, found || q.dir == 0, x); }
  }

  lemma RoundLeaves(t: Tree, inc: Interval, x: Interval)
    requires t.Node? && x in Elems(t) && x.from <= x.to && inc.from <= inc.to && !Meets(x, inc)
    ensures x in Elems(Round(t, inc))
  {
    TakeLeaves(t, inc, false, x);
    KeptByRound(t, inc, x);
  }

  lemma KeptByRound(t: Tree, inc: Interval, x: Interval)
    requires t.Node? && x in Elems(Take(t, inc, false).tree)
    ensures x in Elems(Round(t, inc))
  {
    RbTakeInorder(t, inc);
    SameList(RbTake(t, inc).tree, Take(t, inc, false).tree);
    if RbTake(t, inc).insert.Some? { RbInsertElems(RbTake(t, inc).tree, RbTake(t, inc).insert.value); }
  }

  /** As long as no queued piece meets x, the loop leaves x alone. */
  lemma {:induction false} DrainLeaves(t: Tree, q: seq<Interval>, x: Interval)
    requires Solid(q) && x in Elems(t) && x.from <= x.to && forall i :: 0 <= i < |q| ==> !Meets(x, q[i])
    ensures x in Elems(Drain(t, q))
    decreases Longest(q), Count(q, Longest(q)), First(q, Longest(q))
  {
    if q != [] {
      var more := RbTake(t, q[0]).todo;
      RoundQueue(t, q[0]);
      QueueShrinks(q, more);
      RoundLeaves(t, q[0], x);
      forall i | 0 <= i < |q[1..] + more| ensures !Meets(x, (q[1..] + more)[i]) {
        if i < |q| - 1 {
          assert !Meets(x, q[i + 1]);
        } else {
          assert Within(more[i - (|q| - 1)], q[0]);
        }
      }
      DrainLeaves(Round(t, q[0]), q[1..] + more, x);
    }
  }

  // ---------------------------------------------------------------- a walk that misses x

  /** On its way down inc queues nothing. */
  predicate Quiet(t: Tree, inc: Interval) {
    t.Leaf? || (DelCmp(inc, t.v).todo == [] && Quiet(if DelCmp(inc, t.v).dir > 0 then t.right else t.left, inc))
  }

  /** x is stored on a side that the walk of inc does not enter, and the walk queues nothing. */
  ghost predicate Off(t: Tree, inc: Interval, x: Interval) {
    && t.Node? && DelCmp(inc, t.v).todo == []
    && var right := DelCmp(inc, t.v).dir > 0;
       (x in Elems(Child(t, !right)) && Quiet(Child(t, right), inc)) || Off(Child(t, right), inc, x)
  }

  lemma {:induction false} QuietTake(t: Tree, inc: Interval, found: bool)
    requires t.Node? && Quiet(t, inc)
    ensures Take(t, inc, found).todo == []
  {
    var q := DelCmp(inc, t.v);
    var next := if q.dir > 0 then t.right else t.left;
    if next.Node? { QuietTake(next, inc, found || q.dir == 0); }
  }

  lemma {:induction false} OffTake(t: Tree, inc: Interval, x: Interval, found: bool)
    requires Off(t, inc, x)
    ensures var c := Take(t, inc, found); x in Elems(c.tree) && c.todo == []
  {
    var q := DelCmp(inc, t.v);
    var next := if q.dir > 0 then t.right else t.left;
    if next.Node? {
      if Off(next, inc, x) {
        OffTake(next, inc, x, found || q.dir == 0);
      } else {
        QuietTake(next, inc, found || q.dir == 0);
      }
    }
  }

  lemma OffRound(t: Tree, inc: Interval, x: Interval)
    requires Off(t, inc, x)
    ensures x in Elems(Round(t, inc)) && RbTake(t, inc).todo == []
  {
    OffTake(t, inc, x, false);
    KeptByRound(t, inc, x);
    RbTakeInorder(t, inc);
  }

  // ---------------------------------------------------------------- the first round

  /** v lies behind p. */
  predicate Behind(p: Interval, v: Interval) { Before(p, v) }

  /** Nodes passed on their left, all behind p. */
  predicate AllBehind(z: Zip, p: Interval) {
    z.Top? || (!z.right && !z.hit && Behind(p, z.v) && AllBehind(z.up, p))
  }

  /** The way back leads through the match, and above the match all is behind p. */
  ghost predicate Guarded(z: Zip, p: Interval) {
    z.Down? &&
    if z.hit then !z.right && AllBehind(z.up, p) && forall e :: e in Elems(z.other) ==> Behind(p, e)
    else Guarded(z.up, p)
  }

  /** x lies below the match, when t stands in the gap. */
  ghost predicate BelowHit(z: Zip, t: Tree, x: Interval) {
    z.Down? && if z.hit then x in Elems(t) else BelowHit(z.up, Mk(z.right, t, z.v, z.other, z.red), x)
  }

  lemma {:induction false} BelowHitMore(z: Zip, t: Tree, t': Tree, x: Interval)
    requires BelowHit(z, t, x) && forall e :: e in Elems(t) && e == x ==> e in Elems(t')
    ensures BelowHit(z, t', x)
  {
    if !z.hit { BelowHitMore(z.up, Mk(z.right, t, z.v, z.other, z.red), Mk(z.right, t', z.v, z.other, z.red), x); }
  }

  lemma {:induction false} QuietBehind(t: Tree, p: Interval)
    requires forall e :: e in Elems(t) ==> Behind(p, e)
    ensures Quiet(t, p)
  {
    if t.Node? {
      assert t.v in Elems(t);
      QuietBehind(t.left, p);
    }
  }

  /** A round that ends below the match leaves x off the way of p, if what moves up to the match
      lies before p. */
  lemma {:induction false} PlugOff(z: Zip, t: Tree, last: Interval, p: Interval, x: Interval)
    requires Guarded(z, p) && BelowHit(z, t, x) && Before(last, p)
    requires p.from <= p.to && last.from <= last.to
    ensures Off(Plug(z, t, Some(last)), p, x)
  {
    var m := Mk(z.right, t, Final(z, Some(last)), z.other, z.red);
    if z.hit {
      QuietBehind(z.other, p);
      assert m.v == last && Off(m, p, x);
      PlugBehind(z.up, m, last, p, x);
    } else {
      PlugOff(z.up, m, last, p, x);
    }
  }

  lemma {:induction false} PlugBehind(z: Zip, t: Tree, last: Interval, p: Interval, x: Interval)
    requires AllBehind(z, p) && Off(t, p, x) && p.from <= p.to
    ensures Off(Plug(z, t, Some(last)), p, x)
  {
    if z.Down? {
      PlugBehind(z.up, Mk(false, t, z.v, z.other, z.red), last, p, x);
    }
  }

  /** The repairs keep x below the match, and the match the first to be met from above by p. */
  lemma EnterGuarded(z: Zip, right: bool, v: Interval, red: bool, next: Tree, other: Tree, p: Interval, x: Interval)
    requires Guarded(z, p) && BelowHit(z, Mk(right, next, v, other, red), x)
    ensures var w := Enter(z, right, v, red, next, other, false);
      Guarded(w, p) && !w.hit && BelowHit(w, next, x)
  {
    var m := Mk(right, next, v, other, red);
    if !red && !Red(next) {
      if Red(other) {
        var up := Down(z, right, other.v, false, Child(other, !right), false);
        var low := Mk(right, next, v, Child(other, right), true);
        BelowHitMore(z, m, Mk(right, low, other.v, Child(other, !right), false), x);
      } else if z.Down? && z.other.Node? {
        BelowHitMore(z, m, Mk(right, next, v, other, true), x);
        if Red(z.other.left) || Red(z.other.right) {
          RotatedGuarded(z, Mk(right, next, v, other, true), p, x);
        } else {
          PaintGuarded(z, Mk(right, next, v, other, true), p, x);
        }
      }
    }
  }

  lemma PaintGuarded(z: Zip, t: Tree, p: Interval, x: Interval)
    requires Guarded(z, p) && BelowHit(z, t, x)
    ensures var w := z.(red := false, other := Paint(z.other, true)); Guarded(w, p) && BelowHit(w, t, x)
  {
    if !z.hit {
      BelowHitMore(z.up, Mk(z.right, t, z.v, z.other, z.red), Mk(z.right, t, z.v, Paint(z.other, true), false), x);
    }
  }

  lemma RotatedGuarded(z: Zip, t: Tree, p: Interval, x: Interval)
    requires Guarded(z, p) && BelowHit(z, t, x) && z.other.Node? && (Red(z.other.left) || Red(z.other.right))
    ensures Guarded(Rotated(z), p) && BelowHit(Rotated(z), t, x)
  {
    var w := Rotated(z);
    if !z.hit {
      var m := Mk(w.right, Mk(z.right, t, z.v, w.other, false), w.up.v, w.up.other, w.up.red);
      var o, last := z.other, z.right;
      assert Elems(o) == Elems(Child(o, last)) + {o.v} + Elems(Child(o, !last));
      assert Elems(Mk(z.right, t, z.v, w.other, false)) == Elems(t) + {z.v} + Elems(w.other);
      BelowHitMore(z.up, Mk(z.right, t, z.v, z.other, z.red), m, x);
    } else {
      var o, inner := z.other, Child(z.other, z.right);
      assert Elems(o) == Elems(inner) + {o.v} + Elems(Child(o, !z.right));
      assert forall e :: e in Elems(w.other) ==> e in Elems(inner);
      assert inner.Node? ==> inner.v in Elems(o);
    }
  }

  /** Below the match only intervals before the range are met: the walk ends at one of them, and
      x is off the way of p. */
  lemma {:induction false} DescendOff(z: Zip, q: Tree, rng: Interval, p: Interval, x: Interval)
    requires q.Node? && Guarded(z, p) && !z.hit && BelowHit(z, q, x)
    requires rng.from <= rng.to && p.from <= p.to && p.kind == rng.kind && p.from == rng.from && Swallowed(x, rng)
    requires x.from <= x.to
    requires forall e :: e in Elems(q) ==> Pokes(e, rng) && e.from <= e.to
    ensures var d := Descend(z, q, rng, true); Off(d.tree, p, x) && d.todo == []
    decreases q
  {
    var c := DelCmp(rng, q.v);
    assert q.v in Elems(q);
    assert c.dir > 0 && c.todo == [] && Before(c.kept, rng);
    assert q.v != x && c.kept != x;
    var m := Mk(true, q.right, c.kept, q.left, q.red);
    assert x in Elems(q) ==> x in Elems(m);
    BelowHitMore(z, q, m, x);
    EnterGuarded(z, true, c.kept, q.red, q.right, q.left, p, x);
    var w := Enter(z, true, c.kept, q.red, q.right, q.left, false);
    if q.right.Leaf? {
      EnterTop(z, true, c.kept, q.red, q.right, q.left, false);
      BelowHitMore(w.up, Mk(true, Leaf, c.kept, w.other, w.red), w.other, x);
      PlugOff(w.up, w.other, c.kept, p, x);
    } else {
      DescendOff(w, q.right, rng, p, x);
    }
  }

  lemma EnterTop(z: Zip, right: bool, v: Interval, red: bool, next: Tree, other: Tree, hit: bool)
    ensures var w := Enter(z, right, v, red, next, other, hit); w.Down? && w.v == v && w.right == right && w.hit == hit
  {
  }

  /** A root and its left child both inside the range, and something further left. */
  ghost predicate Stacked(t: Tree, rng: Interval) {
    && t.Node? && t.left.Node? && t.left.left.Node?
    && Swallowed(t.v, rng) && Swallowed(t.left.v, rng)
    && forall e :: e in Elems(t.left.left) ==> Pokes(e, rng)
  }

  /** The first round on such a tree, whatever its colours. */
  lemma FirstRound(t: Tree, rng: Interval)
    requires Ordered(t) && rng.from <= rng.to && Stacked(t, rng)
    ensures var p, x := rng.(to := t.v.from - 1), t.left.v;
      && Off(RbTake(t, rng).tree, p, x) && RbTake(t, rng).insert == None
      && RbTake(t, rng).todo == DelCmp(rng, t.v).todo + DelCmp(rng, x).todo
  {
    var p, x := rng.(to := t.v.from - 1), t.left.v;
    StackedSides(t, rng);
    RootGuarded(t, rng);
    var w1 := Enter(Top, false, t.v, t.red, t.left, t.right, true);
    SecondStep(w1, t.left, rng, p);
    assert RbTake(t, rng).tree == Paint(Descend(w1, t.left, rng, true).tree, false);
    PaintOff(Descend(w1, t.left, rng, true).tree, p, x);
    FirstQueue(t, rng);
  }

  lemma SecondStep(z: Zip, q: Tree, rng: Interval, p: Interval)
    requires q.Node? && q.left.Node? && Guarded(z, p) && BelowHit(z, q, q.v)
    requires rng.from <= rng.to && p.from <= p.to && p.kind == rng.kind && p.from == rng.from
    requires Swallowed(q.v, rng) && q.v.from <= q.v.to && DelCmp(rng, q.v).dir == 0
    requires forall e :: e in Elems(q.left) ==> Pokes(e, rng) && e.from <= e.to
    ensures Off(Descend(z, q, rng, true).tree, p, q.v)
  {
    EnterGuarded(z, false, q.v, q.red, q.left, q.right, p, q.v);
    assert DelCmp(rng, q.v).kept == q.v;
    DescendOff(Enter(z, false, q.v, q.red, q.left, q.right, false), q.left, rng, p, q.v);
  }

  lemma FirstQueue(t: Tree, rng: Interval)
    requires Ordered(t) && rng.from <= rng.to && Stacked(t, rng)
    ensures RbTake(t, rng).insert == None
    ensures RbTake(t, rng).todo == DelCmp(rng, t.v).todo + DelCmp(rng, t.left.v).todo
  {
    StackedSides(t, rng);
    RbTakeInorder(t, rng);
    TakeMax(t.left.left, rng);
    assert Take(t.left, rng, true).todo == DelCmp(rng, t.left.v).todo;
  }

  lemma StackedSides(t: Tree, rng: Interval)
    requires Ordered(t) && rng.from <= rng.to && Stacked(t, rng)
    ensures var p, x := rng.(to := t.v.from - 1), t.left.v;
      && p.from <= p.to && x.from <= x.to && Before(x, t.v)
      && DelCmp(rng, t.v).dir == DelCmp(rng, x).dir == 0
      && DelCmp(rng, t.v).insert == DelCmp(rng, x).insert == None
      && (forall e :: e in Elems(t.right) ==> Behind(p, e))
      && (forall e :: e in Elems(t.left.left) ==> e.from <= e.to)
  {
    ElemsNonEmpty(t);
    assert t.left.v in Elems(t.left) && t.left.v in Elems(t) && Before(t.left.v, t.v);
    forall e | e in Elems(t.right) ensures Behind(rng.(to := t.v.from - 1), e) { assert Before(t.v, e); }
    forall e | e in Elems(t.left.left) ensures e.from <= e.to { assert e in Elems(t); }
  }

  lemma RootGuarded(t: Tree, rng: Interval)
    requires Ordered(t) && rng.from <= rng.to && Stacked(t, rng)
    ensures var w := Enter(Top, false, t.v, t.red, t.left, t.right, true);
      Guarded(w, rng.(to := t.v.from - 1)) && w.hit && BelowHit(w, t.left, t.left.v)
  {
    StackedSides(t, rng);
    var p, r := rng.(to := t.v.from - 1), t.right;
    assert AllBehind(Top, p) && t.left.v in Elems(t.left);
    if !t.red && !Red(t.left) && Red(r) {
      assert r.v in Elems(r) && forall e :: e in Elems(r.left) ==> e in Elems(r);
      assert AllBehind(Down(Top, false, r.v, false, r.right, false), p);
    }
  }

  lemma PaintOff(t: Tree, p: Interval, x: Interval)
    requires Off(t, p, x)
    ensures Off(Paint(t, false), p, x)
  {
    var s := Paint(t, false);
    var right := DelCmp(p, t.v).dir > 0;
    assert s.v == t.v && Child(s, right) == Child(t, right) && Child(s, !right) == Child(t, !right);
    assert Off(t, p, x) == Off(s, p, x);
  }

  /** The pieces queued behind the first one do not meet the left child. */
  lemma RestMisses(t: Tree, rng: Interval)
    requires Ordered(t) && rng.from <= rng.to && Stacked(t, rng)
    ensures var q1, q2, x := DelCmp(rng, t.v).todo, DelCmp(rng, t.left.v).todo, t.left.v;
      && q1 != [] && q1[0] == rng.(to := t.v.from - 1) && Solid(q1[1..] + q2)
      && forall i :: 0 <= i < |q1[1..] + q2| ==> !Meets(x, (q1[1..] + q2)[i])
  {
    StackedSides(t, rng);
    var q1, q2, x := DelCmp(rng, t.v).todo, DelCmp(rng, t.left.v).todo, t.left.v;
    var rest := q1[1..] + q2;
    forall i | 0 <= i < |rest| ensures rest[i].from <= rest[i].to && !Meets(x, rest[i]) {
      if i < |q1| - 1 { assert rest[i] == q1[i + 1]; } else { assert rest[i] == q2[i - (|q1| - 1)]; }
    }
  }

  lemma DrainStays(t: Tree, rng: Interval)
    requires Ordered(t) && rng.from <= rng.to && Stacked(t, rng)
    ensures t.left.v in Elems(Drain(t, [rng]))
  {
    var q1, q2, x := DelCmp(rng, t.v).todo, DelCmp(rng, t.left.v).todo, t.left.v;
    FirstRound(t, rng);
    StackedSides(t, rng);
    RestMisses(t, rng);
    var t1 := Round(t, rng);
    RoundQueue(t, rng);
    assert [rng][1..] + (q1 + q2) == q1 + q2;
    OffRound(t1, q1[0], x);
    assert (q1 + q2)[1..] + [] == q1[1..] + q2;
    DrainLeaves(Round(t1, q1[0]), q1[1..] + q2, x);
  }

  /** On such a tree the write leaves the left child stored beside the new interval. */
  lemma LeftBehind(t: Tree, rng: Interval, n: nat)
    requires Ordered(t) && rng.from <= rng.to && Stacked(t, rng)
    ensures t.left.v in Elems(SetTree(t, rng, n)) && !Ordered(SetTree(t, rng, n))
  {
    var x, v := t.left.v, rng.(node := n);
    DrainStays(t, rng);
    StackedSides(t, rng);
    RbInsertElems(Drain(t, [rng]), v);
    if Ordered(SetTree(t, rng, n)) { ElemsDisjoint(SetTree(t, rng, n), x, v); }
  }

  // ---------------------------------------------------------------- in terms of contents

  /** A tree with a given list. */
  function Spine(s: seq<Interval>): (t: Tree)
    ensures Inorder(t) == s
  {
    if s == [] then Leaf else Node(Leaf, s[0], Spine(s[1..]), false)
  }

  ghost predicate Right(t: Tree, rng: Interval, n: nat)
    requires rng.from <= rng.to
  {
    Ordered(SetTree(t, rng, n)) && Elems(SetTree(t, rng, n)) == Trimmed(Elems(t), rng) + {rng.(node := n)}
  }

  /** The list admits a tree on which the write goes wrong. */
  lemma BadTree(s: seq<Interval>, rng: Interval, n: nat, i: nat, j: nat) returns (t: Tree)
    requires Sorted(s) && rng.from <= rng.to && 0 < i < j < |s|
    requires Swallowed(s[i], rng) && Swallowed(s[j], rng) && !Swallowed(s[i - 1], rng)
    ensures Inorder(t) == s && !Right(t, rng, n)
  {
    var l := Node(Spine(s[..i]), s[i], Spine(s[i + 1..j]), false);
    t := Node(l, s[j], Spine(s[j + 1..]), false);
    assert s == (s[..i] + [s[i]] + s[i + 1..j]) + [s[j]] + s[j + 1..];
    OrderedSorted(t);
    InorderElems(l.left);
    forall e | e in Elems(l.left) ensures Pokes(e, rng) {
      var k :| 0 <= k < i && s[k] == e;
      assert Before(s[k], s[i]) && (k < i - 1 ==> Before(s[k], s[i - 1]));
      assert Before(s[i - 1], s[i]);
    }
    assert s[..i] != [];
    LeftBehind(t, rng, n);
  }

  /** For contents that start below the range: the write does what it should on every tree with
      these contents if and only if the range holds at most one of the intervals entirely. */
  lemma RightIff(w: Bases, s: seq<Interval>, rng: Interval, n: nat)
    requires Sorted(s) && (forall x :: x in s ==> Fits(w, x)) && Fits(w, rng)
    requires s != [] && Pokes(s[0], rng)
    ensures (forall t :: Inorder(t) == s ==> Right(t, rng, n))
       <==> forall i, j :: 0 <= i < j < |s| && Swallowed(s[i], rng) ==> !Swallowed(s[j], rng)
  {
    if forall i, j :: 0 <= i < j < |s| && Swallowed(s[i], rng) ==> !Swallowed(s[j], rng) {
      forall t | Inorder(t) == s ensures Right(t, rng, n) {
        InorderElems(t);
        OrderedSorted(t);
        SetExact(w, t, rng, n);
      }
    } else {
      var i, j :| 0 <= i < j < |s| && Swallowed(s[i], rng) && Swallowed(s[j], rng);
      var k := FirstSwallowed(s, rng, i);
      var t := BadTree(s, rng, n, k, j);
    }
  }

  lemma FirstSwallowed(s: seq<Interval>, rng: Interval, i: nat) returns (k: nat)
    requires i < |s| && Swallowed(s[i], rng) && !Swallowed(s[0], rng)
    ensures 0 < k <= i && Swallowed(s[k], rng) && !Swallowed(s[k - 1], rng)
  {
    k := i;
    while Swallowed(s[k - 1], rng)
      invariant 0 < k <= i && Swallowed(s[k], rng)
      decreases k
    {
      k := k - 1;
    }
  }
}
