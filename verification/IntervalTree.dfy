/** The interval tree behind the ESIL data-flow graph: closed intervals of register bits or
    memory bytes, each labelled with the graph node that last defined it, and the three
    comparators the tree library is called with.  The one for writes edits the tree on its way
    (libr/anal/esil_dfg.c:47-191), the one for reads only queues the uncovered ends
    (libr/anal/esil_dfg.c:285-352). */
module IntervalTree {
  import opened Lists

  /** VAR_TYPE_REG sorts before VAR_TYPE_MEM. */
  datatype Kind = Reg | Mem

  datatype Interval = Interval(kind: Kind, from: int, to: int, node: nat)

  datatype Tree = Leaf | Node(left: Tree, v: Interval, right: Tree, red: bool)

  // ---------------------------------------------------------------- meaning of a tree

  predicate In(v: Interval, k: Kind, b: int) {
    v.kind == k && v.from <= b <= v.to
  }

  predicate Meets(x: Interval, y: Interval) {
    x.kind == y.kind && x.from <= y.to && y.from <= x.to
  }

  function Len(v: Interval): int { v.to - v.from + 1 }

  /** The node that defines bit b: the per-bit map a tree stands for. */
  function At(t: Tree, k: Kind, b: int): Option<nat> {
    match t
    case Leaf => None
    case Node(l, v, r, _) =>
      if In(v, k, b) then Some(v.node)
      else if At(l, k, b).Some? then At(l, k, b) else At(r, k, b)
  }

  predicate Before(x: Interval, y: Interval) {
    (x.kind == Reg && y.kind == Mem) || (x.kind == y.kind && x.to < y.from)
  }

  ghost function Elems(t: Tree): set<Interval> {
    match t
    case Leaf => {}
    case Node(l, v, r, _) => Elems(l) + {v} + Elems(r)
  }

  /** Intervals are non-empty, pairwise disjoint and in search order. */
  ghost predicate Ordered(t: Tree) {
    match t
    case Leaf => true
    case Node(l, v, r, _) =>
      && v.from <= v.to
      && Ordered(l) && Ordered(r)
      && (forall x :: x in Elems(l) ==> Before(x, v))
      && (forall x :: x in Elems(r) ==> Before(v, x))
  }

  lemma ElemsNonEmpty(t: Tree)
    requires Ordered(t)
    ensures forall x :: x in Elems(t) ==> x.from <= x.to
  {
  }

  /** A bit is labelled exactly when some stored interval holds it. */
  lemma {:induction false} AtElem(t: Tree, k: Kind, b: int)
    ensures At(t, k, b).Some? <==> exists x :: x in Elems(t) && In(x, k, b)
    ensures At(t, k, b).Some? ==> exists x :: x in Elems(t) && In(x, k, b) && x.node == At(t, k, b).value
  {
    if t.Node? {
      AtElem(t.left, k, b);
      AtElem(t.right, k, b);
    }
  }

  /** Any two distinct stored intervals are disjoint. */
  lemma {:induction false} ElemsDisjoint(t: Tree, x: Interval, y: Interval)
    requires Ordered(t) && x in Elems(t) && y in Elems(t) && x != y
    ensures !Meets(x, y)
  {
    if x != t.v && y != t.v {
      if x in Elems(t.left) && y in Elems(t.left) {
        ElemsDisjoint(t.left, x, y);
      } else if x in Elems(t.right) && y in Elems(t.right) {
        ElemsDisjoint(t.right, x, y);
      } else {
        assert Before(x, t.v) || Before(t.v, x);
        assert Before(y, t.v) || Before(t.v, y);
      }
    }
    ElemsNonEmpty(t);
  }

  /** In an ordered tree the label of a bit is the label of the only interval that holds it. */
  lemma {:induction false} AtUnique(t: Tree, x: Interval, b: int)
    requires Ordered(t) && x in Elems(t) && In(x, x.kind, b)
    ensures At(t, x.kind, b) == Some(x.node)
  {
    if In(t.v, x.kind, b) {
      if x != t.v {
        ElemsDisjoint(t, x, t.v);
      }
    } else if x in Elems(t.left) {
      AtUnique(t.left, x, b);
    } else {
      AtUnique(t.right, x, b);
      AtElem(t.left, x.kind, b);
    }
  }

  // ---------------------------------------------------------------- the tree as a list

  function Inorder(t: Tree): seq<Interval> {
    match t
    case Leaf => []
    case Node(l, v, r, _) => Inorder(l) + [v] + Inorder(r)
  }

  ghost predicate Sorted(s: seq<Interval>) {
    && (forall i :: 0 <= i < |s| ==> s[i].from <= s[i].to)
    && forall i, j :: 0 <= i < j < |s| ==> Before(s[i], s[j])
  }

  lemma {:induction false} InorderElems(t: Tree)
    ensures forall x :: x in Elems(t) <==> x in Inorder(t)
  {
    if t.Node? {
      InorderElems(t.left);
      InorderElems(t.right);
    }
  }

  lemma SortedJoin(a: seq<Interval>, v: Interval, b: seq<Interval>)
    ensures Sorted(a + [v] + b) <==>
              (Sorted(a) && Sorted(b) && v.from <= v.to
               && (forall x :: x in a ==> Before(x, v)) && (forall x :: x in b ==> Before(v, x)))
  {
    var s := a + [v] + b;
    assert forall i :: 0 <= i < |a| ==> s[i] == a[i];
    assert forall i :: 0 <= i < |b| ==> s[|a| + 1 + i] == b[i];
    assert s[|a|] == v;
    if Sorted(s) {
      forall x | x in a ensures Before(x, v) {
        var i :| 0 <= i < |a| && a[i] == x;
        assert Before(s[i], s[|a|]);
      }
      forall x | x in b ensures Before(v, x) {
        var i :| 0 <= i < |b| && b[i] == x;
        assert Before(s[|a|], s[|a| + 1 + i]);
      }
      forall i, j | 0 <= i < j < |b| ensures Before(b[i], b[j]) {
        assert Before(s[|a| + 1 + i], s[|a| + 1 + j]);
      }
    } else if Sorted(a) && Sorted(b) && v.from <= v.to
            && (forall x :: x in a ==> Before(x, v)) && (forall x :: x in b ==> Before(v, x)) {
      forall i, j | 0 <= i < j < |s| ensures Before(s[i], s[j]) {
        assert i < |a| ==> s[i] in a;
        assert j > |a| ==> s[j] == b[j - |a| - 1] && s[j] in b;
        assert i > |a| ==> s[i] == b[i - |a| - 1];
      }
    }
  }

  lemma {:induction false} OrderedSorted(t: Tree)
    ensures Ordered(t) == Sorted(Inorder(t))
  {
    if t.Node? {
      OrderedSorted(t.left);
      OrderedSorted(t.right);
      InorderElems(t.left);
      InorderElems(t.right);
      var a, b := Inorder(t.left), Inorder(t.right);
      SortedJoin(a, t.v, b);
      assert Inorder(t) == a + [t.v] + b;
      assert (forall x :: x in Elems(t.left) ==> Before(x, t.v)) <==> forall x :: x in a ==> Before(x, t.v);
      assert (forall x :: x in Elems(t.right) ==> Before(t.v, x)) <==> forall x :: x in b ==> Before(t.v, x);
    }
  }

  /** Trees with one in-order list hold the same intervals, and are in search order together. */
  lemma SameList(s: Tree, t: Tree)
    requires Inorder(s) == Inorder(t)
    ensures Elems(s) == Elems(t) && (Ordered(s) <==> Ordered(t))
  {
    InorderElems(s);
    InorderElems(t);
    OrderedSorted(s);
    OrderedSorted(t);
  }

  // ---------------------------------------------------------------- insertion

  /** libr/anal/esil_dfg.c:203 returns a 64-bit difference as a 32-bit int. */
  function ToInt32(d: int): (r: int)
    ensures -0x8000_0000 <= d < 0x8000_0000 ==> r == d
  {
    (d + 0x8000_0000) % 0x1_0000_0000 - 0x8000_0000
  }

  function InsCmp(x: Interval, y: Interval): int {
    if x.kind == Reg && y.kind == Mem then -1
    else if x.kind == Mem && y.kind == Reg then 1
    else ToInt32(x.from - y.from)
  }

  /** Where an insertion puts x, before any rotation. */
  function Insert(t: Tree, x: Interval): Tree {
    match t
    case Leaf => Node(Leaf, x, Leaf, true)
    case Node(l, v, r, c) =>
      if InsCmp(x, v) < 0 then Node(Insert(l, x), v, r, c) else Node(l, v, Insert(r, x), c)
  }

  /** All starts of one kind lie in a window narrower than 2^31, where the truncated
      comparison of InsCmp is exact. */
  const WINDOW := 0x8000_0000

  datatype Bases = Bases(reg: int, mem: int)

  function Base(w: Bases, k: Kind): int { if k == Reg then w.reg else w.mem }

  predicate Fits(w: Bases, x: Interval) {
    Base(w, x.kind) <= x.from <= x.to < Base(w, x.kind) + WINDOW
  }

  ghost predicate AllFit(w: Bases, t: Tree) {
    forall x :: x in Elems(t) ==> Fits(w, x)
  }

  lemma {:induction false} InsertElems(t: Tree, x: Interval)
    ensures Elems(Insert(t, x)) == Elems(t) + {x}
  {
    if t.Node? {
      InsertElems(t.left, x);
      InsertElems(t.right, x);
    }
  }

  /** Inserting an interval that meets no stored one keeps the order and adds exactly its bits. */
  lemma {:induction false} InsertOrdered(w: Bases, t: Tree, x: Interval)
    requires Ordered(t) && AllFit(w, t) && Fits(w, x)
    requires forall y :: y in Elems(t) ==> !Meets(x, y)
    ensures Ordered(Insert(t, x)) && AllFit(w, Insert(t, x))
  {
    InsertElems(t, x);
    if t.Node? {
      InsertElems(t.left, x);
      InsertElems(t.right, x);
      assert Fits(w, t.v) && !Meets(x, t.v);
      if InsCmp(x, t.v) < 0 {
        assert Before(x, t.v);
        InsertOrdered(w, t.left, x);
      } else {
        assert Before(t.v, x);
        InsertOrdered(w, t.right, x);
      }
    }
  }

  lemma SameBits(t: Tree, t': Tree, x: Interval, k: Kind, b: int)
    requires Ordered(t) && Ordered(t') && Elems(t') == Elems(t) + {x}
    ensures At(t', k, b) == if In(x, k, b) then Some(x.node) else At(t, k, b)
  {
    if In(x, k, b) {
      AtUnique(t', x, b);
    } else {
      AtElem(t, k, b);
      AtElem(t', k, b);
      if At(t, k, b).Some? {
        var y :| y in Elems(t) && In(y, k, b) && y.node == At(t, k, b).value;
        AtUnique(t', y, b);
      }
    }
  }

  predicate Ahead(k: Kind, b: int, v: Interval) {
    (k == Reg && v.kind == Mem) || (k == v.kind && b < v.from)
  }

  predicate Past(k: Kind, b: int, v: Interval) {
    (k == Mem && v.kind == Reg) || (k == v.kind && v.to < b)
  }

  /** Left of a node lie only bits ahead of its interval, right of it only bits past it. */
  lemma AtSides(t: Tree, k: Kind, b: int)
    requires Ordered(t) && t.Node?
    ensures At(t.left, k, b).Some? ==> Ahead(k, b, t.v)
    ensures At(t.right, k, b).Some? ==> Past(k, b, t.v)
  {
    AtElem(t.left, k, b);
    AtElem(t.right, k, b);
  }

  predicate Within(y: Interval, x: Interval) {
    y.kind == x.kind && y.node == x.node && x.from <= y.from <= y.to <= x.to
  }

  lemma ElemBits(t: Tree, x: Interval)
    requires Ordered(t) && x in Elems(t)
    ensures x.from <= x.to
    ensures At(t, x.kind, x.from) == At(t, x.kind, x.to) == Some(x.node)
  {
    ElemsNonEmpty(t);
    AtUnique(t, x, x.from);
    AtUnique(t, x, x.to);
  }

  predicate Covered(q: seq<Interval>, k: Kind, b: int) {
    exists i :: 0 <= i < |q| && In(q[i], k, b)
  }

  // ---------------------------------------------------------------- deletion

  /** What one call of a comparator does: which way to go on, what the stored interval becomes,
      and what it puts into dfg->insert and dfg->todo. */
  datatype Verdict = Verdict(dir: int, kept: Interval, insert: Option<Interval>, todo: seq<Interval>)

  /** _rv_del_alloc_cmp, branch by branch. */
  function DelCmp(inc: Interval, v: Interval): Verdict {
    if inc.kind == Reg && v.kind == Mem then Verdict(-1, v, None, [])
    else if inc.kind == Mem && v.kind == Reg then Verdict(1, v, None, [])
    else if inc.to < v.from then Verdict(-1, v, None, [])
    else if v.to < inc.from then Verdict(1, v, None, [])
    else if v.from == inc.from && v.to == inc.to then Verdict(0, v, None, [])
    else if v.from < inc.from && inc.to < v.to then
      Verdict(1, v.(to := inc.from - 1), Some(v.(from := inc.to + 1)), [])
    else if inc.from < v.from && v.to < inc.to then
      Verdict(0, v, None, [inc.(to := v.from - 1), inc.(from := v.to + 1)])
    else if inc.from == v.from && v.to < inc.to then Verdict(0, v, None, [inc.(from := v.to + 1)])
    else if inc.from < v.from && v.to == inc.to then Verdict(0, v, None, [inc.(to := v.from - 1)])
    else if v.to <= inc.to then Verdict(1, v.(to := inc.from - 1), None, [])
    else Verdict(-1, v.(from := inc.to + 1), None, [])
  }

  function Or<T>(a: Option<T>, b: Option<T>): Option<T> { if a.Some? then a else b }

  /** A deletion: the tree afterwards, the last interval on the way down, whether something was
      unlinked, the half that waits in dfg->insert, and what was queued on dfg->todo. */
  datatype Taken =
    Taken(tree: Tree, last: Interval, found: bool, insert: Option<Interval>, todo: seq<Interval>)

  /** What r_crbtree_take does to the intervals in their order, before any rotation.  It does not
      stop at a match: it goes on comparing, to the left after every 0, until it runs out of
      tree; then the last node it saw is unlinked and takes the place of the first match. */
  function Take(t: Tree, inc: Interval, found: bool): Taken
    requires t.Node?
  {
    var q := DelCmp(inc, t.v);
    var first := q.dir == 0 && !found;
    var next := if q.dir > 0 then t.right else t.left;
    if next.Leaf? then
      if found || first then
        Taken(if q.dir > 0 then t.left else t.right, q.kept, true, q.insert, q.todo)
      else Taken(t.(v := q.kept), q.kept, false, q.insert, q.todo)
    else
      var c := Take(next, inc, found || first);
      var v := if first then c.last else q.kept;
      Taken(if q.dir > 0 then Node(t.left, v, c.tree, t.red) else Node(c.tree, v, t.right, t.red),
            c.last, c.found, Or(c.insert, q.insert), q.todo + c.todo)
  }

  // ---------------------------------------------------------------- lookup

  /** _rv_find_cmp, branch by branch: any intersection stops the descent. */
  function FindCmp(inc: Interval, v: Interval): Verdict {
    if inc.kind == Reg && v.kind == Mem then Verdict(-1, v, None, [])
    else if inc.kind == Mem && v.kind == Reg then Verdict(1, v, None, [])
    else if inc.to < v.from then Verdict(-1, v, None, [])
    else if v.to < inc.from then Verdict(1, v, None, [])
    else if v.from <= inc.from && inc.to <= v.to then Verdict(0, v, None, [])
    else if inc.from < v.from && v.to < inc.to then
      Verdict(0, v, None, [inc.(to := v.from - 1), inc.(from := v.to + 1)])
    else if v.from <= inc.from && v.to < inc.to then Verdict(0, v, None, [inc.(from := v.to + 1)])
    else Verdict(0, v, None, [inc.(to := v.from - 1)])
  }

  datatype Hit = Hit(part: Option<Interval>, todo: seq<Interval>)

  function Search(t: Tree, inc: Interval): Hit {
    match t
    case Leaf => Hit(None, [])
    case Node(l, v, r, _) =>
      var q := FindCmp(inc, v);
      if q.dir == 0 then Hit(Some(v), q.todo)
      else if q.dir < 0 then Search(l, inc) else Search(r, inc)
  }

  /** A lookup misses exactly when no bit of the range is labelled; otherwise it finds a stored
      interval and queues exactly the bits of the range outside it. */
  lemma {:induction false} SearchExact(t: Tree, inc: Interval)
    requires Ordered(t) && inc.from <= inc.to
    ensures var h := Search(t, inc);
      && (h.part.None? ==> h.todo == [] && forall b :: In(inc, inc.kind, b) ==> At(t, inc.kind, b).None?)
      && (h.part.Some? ==> h.part.value in Elems(t) && Meets(h.part.value, inc))
      && (h.part.Some? ==> forall b :: In(inc, inc.kind, b) ==>
            (Covered(h.todo, inc.kind, b) <==> !In(h.part.value, inc.kind, b)))
      && (forall i :: 0 <= i < |h.todo| ==> Within(h.todo[i], inc))
  {
    if t.Node? {
      var q, h := FindCmp(inc, t.v), Search(t, inc);
      if q.dir == 0 {
        forall b | In(inc, inc.kind, b) && !In(t.v, inc.kind, b) ensures Covered(h.todo, inc.kind, b) {
          var i := if b < t.v.from then 0 else |q.todo| - 1;
          assert In(q.todo[i], inc.kind, b);
        }
      } else {
        SearchExact(if q.dir < 0 then t.left else t.right, inc);
        forall b | In(inc, inc.kind, b) && h.part.None? ensures At(t, inc.kind, b).None? {
          AtSides(t, inc.kind, b);
        }
      }
    }
  }
}
