/** The tree of blocks: a search tree on the address, where every node also knows the greatest
    end in its subtree (libr/anal/block.c:31-58, 123-232, libr/util/rbtree.c).  Insert and Delete
    do not balance; they say what the operations of BlockTree leave in the tree. */
module AddressTree {
  import opened Lists

  datatype Tree = Leaf | Node(addr: nat, size: nat, maxEnd: nat, left: Tree, right: Tree, red: bool)

  function MaxEnd(t: Tree): nat {
    if t.Leaf? then 0 else t.maxEnd
  }

  function Greater(a: nat, b: nat): nat { if b > a then b else a }

  /** A node with its sum recomputed: __max_end. */
  function Sum(addr: nat, size: nat, l: Tree, r: Tree, red: bool): Tree {
    Node(addr, size, Greater(Greater(addr + size, MaxEnd(l)), MaxEnd(r)), l, r, red)
  }

  /** The sum of the topmost node is right. */
  predicate Own(t: Tree)
    requires t.Node?
  {
    t == Sum(t.addr, t.size, t.left, t.right, t.red)
  }

  predicate Summed(t: Tree) { t.Leaf? || (Own(t) && Summed(t.left) && Summed(t.right)) }

  /** A block of the tree: an address and a size. */
  predicate In(t: Tree, a: nat, n: nat) {
    t.Node? && ((t.addr == a && t.size == n) || In(t.left, a, n) || In(t.right, a, n))
  }

  ghost predicate Sorted(t: Tree) {
    t.Leaf? ||
    (&& Sorted(t.left) && Sorted(t.right)
     && (forall a: nat, n: nat :: In(t.left, a, n) ==> a < t.addr)
     && (forall a: nat, n: nat :: In(t.right, a, n) ==> t.addr < a))
  }

  ghost predicate Good(t: Tree) { Sorted(t) && Summed(t) }

  /** The search path is decided by the address alone. */
  function Find(t: Tree, a: nat): Tree {
    if t.Leaf? then Leaf
    else if a < t.addr then Find(t.left, a)
    else if a > t.addr then Find(t.right, a)
    else t
  }

  lemma {:induction false} FindExact(t: Tree, a: nat)
    requires Sorted(t)
    ensures forall n: nat :: In(t, a, n) <==> Find(t, a).Node? && Find(t, a).size == n
    ensures Find(t, a).Node? ==> Find(t, a).addr == a
  {
    if t.Node? {
      FindExact(t.left, a);
      FindExact(t.right, a);
    }
  }

  // ---------------------------------------------------------------- updates

  /** Insertion into a search tree; equal addresses go right. */
  function Insert(t: Tree, a: nat, n: nat): Tree {
    if t.Leaf? then Sum(a, n, Leaf, Leaf, true)
    else if a < t.addr then t.(left := Insert(t.left, a, n))
    else t.(right := Insert(t.right, a, n))
  }

  lemma {:induction false} InsertSorted(t: Tree, a: nat, n: nat)
    requires Sorted(t) && Find(t, a).Leaf?
    ensures Sorted(Insert(t, a, n))
    ensures forall b: nat, m: nat :: In(Insert(t, a, n), b, m) <==> In(t, b, m) || (b == a && m == n)
  {
    if t.Node? {
      InsertSorted(if a < t.addr then t.left else t.right, a, n);
    }
  }

  /** r_anal_block_set_size on the tree: the node's size changes and the sums above it are redone. */
  function Resize(t: Tree, a: nat, n: nat): Tree {
    if t.Leaf? then t
    else if a < t.addr then Sum(t.addr, t.size, Resize(t.left, a, n), t.right, t.red)
    else if a > t.addr then Sum(t.addr, t.size, t.left, Resize(t.right, a, n), t.red)
    else Sum(a, n, t.left, t.right, t.red)
  }

  lemma {:induction false} ResizeGood(t: Tree, a: nat, n: nat)
    requires Good(t) && Find(t, a).Node?
    ensures Good(Resize(t, a, n))
    ensures forall b: nat, m: nat :: In(Resize(t, a, n), b, m) <==> if b == a then m == n else In(t, b, m)
  {
    FindExact(t, a);
    if t.Node? {
      if a < t.addr {
        ResizeGood(t.left, a, n);
        FindExact(t.left, a);
      } else if a > t.addr {
        ResizeGood(t.right, a, n);
        FindExact(t.right, a);
      }
    }
  }

  /** The greatest address of a tree, and the tree without it. */
  function Last(t: Tree): (r: Tree)
    requires t.Node?
    ensures r.Node?
  {
    if t.right.Leaf? then t else Last(t.right)
  }

  function DropLast(t: Tree): Tree
    requires t.Node?
  {
    if t.right.Leaf? then t.left else t.(right := DropLast(t.right))
  }

  function Join(l: Tree, r: Tree): Tree {
    if l.Leaf? then r else Sum(Last(l).addr, Last(l).size, DropLast(l), r, false)
  }

  /** Deletion from a search tree: the predecessor takes the place of the node. */
  function Delete(t: Tree, a: nat): Tree {
    if t.Leaf? then t
    else if a < t.addr then t.(left := Delete(t.left, a))
    else if a > t.addr then t.(right := Delete(t.right, a))
    else Join(t.left, t.right)
  }

  lemma {:induction false} DropLastSorted(t: Tree)
    requires Sorted(t) && t.Node?
    ensures Sorted(DropLast(t)) && In(t, Last(t).addr, Last(t).size)
    ensures forall b: nat, m: nat :: In(t, b, m) && b != Last(t).addr ==> b < Last(t).addr
    ensures forall b: nat, m: nat :: In(DropLast(t), b, m) <==> In(t, b, m) && b != Last(t).addr
  {
    if t.right.Node? {
      DropLastSorted(t.right);
    }
  }

  /** Deletion keeps the order and removes exactly that block, whatever the sums are. */
  lemma {:induction false} DeleteSorted(t: Tree, a: nat)
    requires Sorted(t)
    ensures Sorted(Delete(t, a))
    ensures forall b: nat, m: nat :: In(Delete(t, a), b, m) <==> In(t, b, m) && b != a
  {
    if t.Node? {
      if a < t.addr {
        DeleteSorted(t.left, a);
      } else if a > t.addr {
        DeleteSorted(t.right, a);
      } else if t.left.Node? {
        DropLastSorted(t.left);
        assert Last(t.left).addr < t.addr;
        FindExact(t.left, Last(t.left).addr);
      }
    }
  }

  // ---------------------------------------------------------------- r_anal_block_merge and the sums

  /** A size written without redoing any sum, as r_anal_block_merge does. */
  function Enlarge(t: Tree, a: nat, n: nat): Tree {
    if t.Leaf? then t
    else if a < t.addr then t.(left := Enlarge(t.left, a, n))
    else if a > t.addr then t.(right := Enlarge(t.right, a, n))
    else t.(size := n)
  }

  lemma {:induction false} EnlargeSorted(t: Tree, a: nat, n: nat)
    requires Sorted(t) && Find(t, a).Node?
    ensures Sorted(Enlarge(t, a, n))
    ensures forall c: nat, m: nat :: In(Enlarge(t, a, n), c, m) <==> if c == a then m == n else In(t, c, m)
  {
    FindExact(t, a);
    if a < t.addr {
      EnlargeSorted(t.left, a, n);
    } else if a > t.addr {
      EnlargeSorted(t.right, a, n);
    }
  }

  /** The greatest end below the block a reaches n bytes behind it. */
  predicate Reaches(t: Tree, a: nat, n: nat) { Find(t, a).Node? && Find(t, a).maxEnd >= a + n }

  /** Without any sum redone, they stay right exactly if the sum at a has room. */
  lemma {:induction false} EnlargeIff(t: Tree, a: nat, n: nat)
    requires Summed(t) && Find(t, a).Node? && Find(t, a).addr == a && n >= Find(t, a).size
    ensures Summed(Enlarge(t, a, n)) <==> Reaches(t, a, n)
    ensures MaxEnd(Enlarge(t, a, n)) == MaxEnd(t)
  {
    if a < t.addr {
      EnlargeIff(t.left, a, n);
    } else if a > t.addr {
      EnlargeIff(t.right, a, n);
    }
  }

  predicate OnSpine(t: Tree, a: nat) { t.Node? && (t.addr == a || OnSpine(t.right, a)) }

  /** A deletion of b passes through a: on the way down, or on the way to the predecessor of b. */
  predicate Passes(t: Tree, a: nat, b: nat) {
    && t.Node?
    && if b < t.addr then t.addr == a || Passes(t.left, a, b)
       else if b > t.addr then t.addr == a || Passes(t.right, a, b)
       else OnSpine(t.left, a)
  }

  lemma FindIn(t: Tree, a: nat)
    requires Sorted(t) && Find(t, a).Node?
    ensures In(t, a, Find(t, a).size) && Find(t, a).addr == a
  {
    FindExact(t, a);
  }

  /** An address is stored on one side of a node only. */
  lemma OneSide(t: Tree, a: nat)
    requires Sorted(t) && t.Node?
    ensures Find(t.right, a).Node? ==> t.addr < a
    ensures Find(t.left, a).Node? ==> a < t.addr
  {
    if Find(t.right, a).Node? { FindIn(t.right, a); }
    if Find(t.left, a).Node? { FindIn(t.left, a); }
  }

  /** With no block starting between the two, the deletion always passes through a. */
  lemma {:induction false} NeighbourPasses(t: Tree, a: nat, b: nat)
    requires Sorted(t) && a < b && Find(t, a).Node? && Find(t, b).Node?
    requires forall c: nat, m: nat :: In(t, c, m) ==> c <= a || b <= c
    ensures Passes(t, a, b)
  {
    FindExact(t, a);
    FindExact(t, b);
    InBelow(t);
    if b < t.addr {
      NeighbourPasses(t.left, a, b);
    } else if t.addr < a {
      NeighbourPasses(t.right, a, b);
    } else if t.addr == b {
      NeighbourSpine(t.left, a);
    }
  }

  lemma {:induction false} NeighbourSpine(t: Tree, a: nat)
    requires Sorted(t) && Find(t, a).Node? && forall c: nat, m: nat :: In(t, c, m) ==> c <= a
    ensures OnSpine(t, a)
  {
    FindExact(t, a);
    InBelow(t);
    if t.addr < a { NeighbourSpine(t.right, a); }
  }

  lemma InBelow(t: Tree)
    requires t.Node?
    ensures In(t, t.addr, t.size)
    ensures forall a: nat, n: nat :: In(t.left, a, n) || In(t.right, a, n) ==> In(t, a, n)
  {
  }

  // ---------------------------------------------------------------- lookups

  predicate Meets(a: nat, n: nat, lo: nat, end: nat) { a < end && lo < a + n }

  /** All blocks that meet [lo, end), found without looking at the sums. */
  function Hits(t: Tree, lo: nat, end: nat): seq<nat> {
    if t.Leaf? then [] else
      (if Meets(t.addr, t.size, lo, end) then [t.addr] else []) + Hits(t.left, lo, end) + Hits(t.right, lo, end)
  }

  lemma {:induction false} HitsMembers(t: Tree, lo: nat, end: nat)
    ensures forall a: nat :: a in Hits(t, lo, end) <==> exists n: nat :: In(t, a, n) && Meets(a, n, lo, end)
  {
    if t.Node? {
      HitsMembers(t.left, lo, end);
      HitsMembers(t.right, lo, end);
      forall a: nat ensures a in Hits(t, lo, end) <==> exists n: nat :: In(t, a, n) && Meets(a, n, lo, end) {
        if exists n: nat :: In(t, a, n) && Meets(a, n, lo, end) {
          var n: nat :| In(t, a, n) && Meets(a, n, lo, end);
          assert (a == t.addr && n == t.size) || In(t.left, a, n) || In(t.right, a, n);
        }
        if a in Hits(t.left, lo, end) {
          var n: nat :| In(t.left, a, n) && Meets(a, n, lo, end);
          assert In(t, a, n);
        }
        if a in Hits(t.right, lo, end) {
          var n: nat :| In(t.right, a, n) && Meets(a, n, lo, end);
          assert In(t, a, n);
        }
        if a == t.addr && Meets(a, t.size, lo, end) { assert In(t, a, t.size); }
      }
    }
  }

  lemma {:induction false} HitsOnce(t: Tree, lo: nat, end: nat)
    requires Sorted(t)
    ensures Distinct(Hits(t, lo, end))
  {
    if t.Node? {
      HitsOnce(t.left, lo, end);
      HitsOnce(t.right, lo, end);
      HitsMembers(t.left, lo, end);
      HitsMembers(t.right, lo, end);
      var l, r := Hits(t.left, lo, end), Hits(t.right, lo, end);
      forall i | 0 <= i < |l| ensures l[i] < t.addr { assert l[i] in l; }
      forall i | 0 <= i < |r| ensures t.addr < r[i] { assert r[i] in r; }
    }
  }

  /** What the sums are for: a subtree that ends at or before lo holds no hit. */
  lemma {:induction false} NoHitsBelow(t: Tree, lo: nat, end: nat)
    requires Summed(t) && MaxEnd(t) <= lo
    ensures Hits(t, lo, end) == []
  {
    if t.Node? {
      NoHitsBelow(t.left, lo, end);
      NoHitsBelow(t.right, lo, end);
    }
  }

  /** What the order is for: a subtree right of a node that starts at or after end holds no hit. */
  lemma {:induction false} NoHitsRight(t: Tree, lo: nat, end: nat)
    requires forall a: nat, n: nat :: In(t, a, n) ==> end <= a
    ensures Hits(t, lo, end) == []
  {
    if t.Node? {
      assert In(t, t.addr, t.size);
      forall a: nat, n: nat | In(t.left, a, n) ensures end <= a { assert In(t, a, n); }
      forall a: nat, n: nat | In(t.right, a, n) ensures end <= a { assert In(t, a, n); }
      NoHitsRight(t.left, lo, end);
      NoHitsRight(t.right, lo, end);
    }
  }

  function AllHits(stack: seq<Tree>, lo: nat, end: nat): seq<nat> {
    if stack == [] then [] else Hits(stack[|stack| - 1], lo, end) + AllHits(stack[..|stack| - 1], lo, end)
  }

  function Nodes(t: Tree): nat { if t.Leaf? then 0 else 1 + Nodes(t.left) + Nodes(t.right) }

  function AllNodes(stack: seq<Tree>): nat {
    if stack == [] then 0 else Nodes(stack[|stack| - 1]) + AllNodes(stack[..|stack| - 1])
  }

  /** Step left past the nodes that start at or after end. */
  method SkipLeft(t: Tree, lo: nat, end: nat) returns (cur: Tree)
    requires Good(t)
    ensures Good(cur) && Hits(cur, lo, end) == Hits(t, lo, end) && Nodes(cur) <= Nodes(t)
    ensures cur.Node? ==> cur.addr < end
  {
    cur := t;
    while cur.Node? && end <= cur.addr
      invariant Good(cur) && Hits(cur, lo, end) == Hits(t, lo, end) && Nodes(cur) <= Nodes(t)
      decreases cur
    {
      NoHitsRight(cur.right, lo, end);
      cur := cur.left;
    }
  }

  ghost predicate AllGood(stack: seq<Tree>) {
    forall i :: 0 <= i < |stack| ==> Good(stack[i])
  }

  method Push(stack: seq<Tree>, t: Tree, ghost lo: nat, ghost end: nat) returns (stack': seq<Tree>)
    requires Good(t) && AllGood(stack)
    ensures AllGood(stack') && AllNodes(stack') == Nodes(t) + AllNodes(stack)
    ensures AllHits(stack', lo, end) == Hits(t, lo, end) + AllHits(stack, lo, end)
  {
    stack' := stack;
    if t.Node? {
      stack' := stack + [t];
      assert stack'[..|stack'| - 1] == stack;
    }
  }

  /** The callback said to go on after every block seen. */
  ghost predicate WentOn(seen: seq<nat>, more: seq<nat> -> bool) {
    forall k :: 0 < k <= |seen| ==> more(seen[..k])
  }

  lemma WentOnStep(seen: seq<nat>, a: nat, more: seq<nat> -> bool)
    requires WentOn(seen, more)
    ensures forall k :: 0 < k <= |seen| ==> more((seen + [a])[..k])
    ensures more(seen + [a]) ==> WentOn(seen + [a], more)
  {
    forall k | 0 < k <= |seen| ensures more((seen + [a])[..k]) { assert (seen + [a])[..k] == seen[..k]; }
    assert (seen + [a])[..|seen| + 1] == seen + [a];
  }

  lemma Reordered(seen: seq<nat>, hit: seq<nat>, l: seq<nat>, r: seq<nat>, below: seq<nat>)
    ensures (seen + hit) + (l + (r + below)) == seen + ((hit + l + r) + below)
  {
  }

  /** The loop of all_in (with end = lo + 1) and all_intersect.  more is the callback's answer
      after the blocks seen so far; without an early stop, exactly the blocks that meet the range
      are visited, each once; with one, the walk ends at the first block that asked for it. */
  method Walk(t: Tree, lo: nat, end: nat, more: seq<nat> -> bool) returns (seen: seq<nat>, complete: bool)
    requires Good(t)
    ensures complete ==> seen == Hits(t, lo, end) && WentOn(seen, more)
    ensures !complete ==> seen != [] && seen <= Hits(t, lo, end) && !more(seen)
    ensures !complete ==> forall k :: 0 < k < |seen| ==> more(seen[..k])
  {
    var stack := [];
    stack := Push(stack, t, lo, end);
    seen := [];
    while stack != []
      invariant AllGood(stack) && seen + AllHits(stack, lo, end) == Hits(t, lo, end) && WentOn(seen, more)
      decreases AllNodes(stack), |stack|
    {
      var top := stack[|stack| - 1];
      stack := stack[..|stack| - 1];
      var cur := SkipLeft(top, lo, end);
      if cur.Leaf? || lo >= cur.maxEnd {
        NoHitsBelow(cur, lo, end);
        continue;
      }
      Reordered(seen, if Meets(cur.addr, cur.size, lo, end) then [cur.addr] else [], Hits(cur.left, lo, end),
                Hits(cur.right, lo, end), AllHits(stack, lo, end));
      if lo < cur.addr + cur.size {
        WentOnStep(seen, cur.addr, more);
        seen := seen + [cur.addr];
        if !more(seen) { return seen, false; }
      }
      stack := Push(stack, cur.right, lo, end);
      stack := Push(stack, cur.left, lo, end);
    }
    complete := true;
  }
}
