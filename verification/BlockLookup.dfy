/** Finding blocks by address through the tree: exact for every table that creation, resizing,
    splitting and deletion build (libr/anal/block.c:133-285, 665-690, libr/anal/fcn.c:2994-3051). */
module BlockLookup {
  import opened Lists
  import opened Cfg
  import opened Offsets
  import opened Blocks
  import opened SplitMerge
  import B = BlockTree
  import T = AddressTree

  /** The tree holds the blocks of the table, sorted and summed. */
  ghost predicate Holds(t: T.Tree, bs: BbTree) {
    T.Good(t) && forall a: nat, n: nat :: T.In(t, a, n) <==> a in bs && bs[a].size == n
  }

  lemma FindHeld(t: T.Tree, bs: BbTree, a: nat)
    requires Holds(t, bs)
    ensures T.Find(t, a).Node? <==> a in bs
  {
    T.FindExact(t, a);
    if a in bs { assert T.In(t, a, bs[a].size); }
    if T.Find(t, a).Node? { assert T.In(t, a, T.Find(t, a).size); }
  }

  lemma HeldAfterCreate(t: T.Tree, bs: BbTree, a: nat, bb: Bb)
    requires Holds(t, bs) && a !in bs
    ensures Holds(B.RbInsert(t, a, bb.size), bs[a := bb])
  {
    FindHeld(t, bs, a);
    B.InsertGood(t, a, bb.size);
  }

  lemma HeldAfterResize(t: T.Tree, bs: BbTree, a: nat, bb: Bb)
    requires Holds(t, bs) && a in bs
    ensures Holds(T.Resize(t, a, bb.size), bs[a := bb])
  {
    FindHeld(t, bs, a);
    T.ResizeGood(t, a, bb.size);
  }

  lemma HeldAfterDelete(t: T.Tree, bs: BbTree, a: nat)
    requires Holds(t, bs) && a in bs
    ensures T.Find(t, a).Node? && Holds(B.RbDelete(t, a), bs - {a})
  {
    FindHeld(t, bs, a);
    B.DeleteGood(t, a);
  }

  lemma HeldAfterSplit(t: T.Tree, bs: BbTree, bs': BbTree, b: nat, addr: nat)
    requires Holds(t, bs) && b in bs && Splits(bs, b, addr) && SplitBlocks(bs, bs', b, addr)
    ensures Holds(B.RbInsert(T.Resize(t, b, addr - b), addr, b + bs[b].size - addr), bs')
  {
    HeldAfterResize(t, bs, b, bs'[b]);
    HeldAfterCreate(T.Resize(t, b, addr - b), bs[b := bs'[b]], addr, bs'[addr]);
  }

  /** After a merge the tree holds the table again, and lookups are exact, under one condition. */
  lemma HeldAfterMerge(t: T.Tree, bs: BbTree, bs': BbTree, a: nat, b: nat)
    requires Holds(t, bs) && a in bs && b in bs && a != b && MergeBlocks(bs, bs', a, b)
    ensures var n := bs[a].size + bs[b].size;
      && T.Find(t, b).Node? && T.Find(T.Enlarge(t, a, n), b).Node?
      && (Holds(B.Merged(t, a, b, n), bs') <==> B.Redoes(B.Top, t, b, false, a) || T.Reaches(t, a, n))
  {
    FindHeld(t, bs, a);
    FindHeld(t, bs, b);
    T.FindIn(t, a);
    B.MergeIff(t, a, b, bs[a].size + bs[b].size);
  }

  /** The blocks that contain an address are exactly those the walk visits, each once. */
  lemma HitsAreBlocks(t: T.Tree, bs: BbTree, lo: nat, end: nat)
    requires Holds(t, bs)
    ensures Distinct(T.Hits(t, lo, end))
    ensures forall b: nat :: b in T.Hits(t, lo, end) <==> b in bs && T.Meets(b, bs[b].size, lo, end)
  {
    T.HitsOnce(t, lo, end);
    T.HitsMembers(t, lo, end);
    forall b: nat ensures b in T.Hits(t, lo, end) <==> b in bs && T.Meets(b, bs[b].size, lo, end) {
      if b in bs && T.Meets(b, bs[b].size, lo, end) { assert T.In(t, b, bs[b].size); }
    }
  }

  /** r_anal_get_blocks_intersect. */
  method BlocksIntersect(t: T.Tree, bs: BbTree, addr: nat, size: nat) returns (r: seq<nat>)
    requires Holds(t, bs)
    ensures Distinct(r) && forall b :: b in r <==> b in bs && b < addr + size && addr < b + bs[b].size
  {
    var complete;
    r, complete := T.Walk(t, addr, addr + size, s => true);
    HitsAreBlocks(t, bs, addr, addr + size);
  }

  predicate Contains(bs: BbTree, b: nat, x: nat)
    requires b in bs
  {
    b <= x < b + bs[b].size
  }

  /** r_anal_get_blocks_in. */
  method BlocksIn(t: T.Tree, bs: BbTree, x: nat) returns (r: seq<nat>)
    requires Holds(t, bs)
    ensures Distinct(r) && forall b :: b in r <==> b in bs && Contains(bs, b, x)
  {
    var complete;
    r, complete := T.Walk(t, x, x + 1, s => true);
    HitsAreBlocks(t, bs, x, x + 1);
  }

  /** The block an address stands for: the first that contains it in the order of the walk, or
      the address itself. */
  function Target(t: T.Tree, x: nat): nat {
    var hits := T.Hits(t, x, x + 1);
    if hits == [] then x else hits[0]
  }

  lemma TargetContains(t: T.Tree, bs: BbTree, x: nat)
    requires Holds(t, bs)
    ensures if exists b :: b in bs && Contains(bs, b, x) then Target(t, x) in bs && Contains(bs, Target(t, x), x)
            else Target(t, x) == x
  {
    HitsAreBlocks(t, bs, x, x + 1);
    var hits := T.Hits(t, x, x + 1);
    if hits != [] { assert hits[0] in hits; }
    forall b | b in bs && Contains(bs, b, x) ensures hits != [] {
      assert b in hits;
    }
  }

  /** bb_addr_for. */
  method BbAddrFor(t: T.Tree, bs: BbTree, x: nat) returns (b: nat)
    requires Holds(t, bs)
    ensures b == Target(t, x)
  {
    var blocks, complete := T.Walk(t, x, x + 1, s => true);
    b := if blocks == [] then x else blocks[0];
  }

  // ---------------------------------------------------------------- r_anal_block_op_starts_at

  /** The scan of the offsets from index i on: it ends at the first offset past off. */
  function Scan(t: Ops, i: nat, off: nat): bool
    decreases t.ninstr - i
  {
    i < t.ninstr && OffsetInst(t, i) <= off && (OffsetInst(t, i) == off || Scan(t, i + 1, off))
  }

  function OpStarts(bs: BbTree, b: nat, x: nat): bool
    requires b in bs
  {
    Contains(bs, b, x) && (x == b || (x - b <= UT16_MAX && (bs[b].ops.ninstr < 1 || Scan(bs[b].ops, 0, x - b))))
  }

  method OpStartsAt(bs: BbTree, b: nat, x: nat) returns (r: bool)
    requires b in bs
    ensures r == OpStarts(bs, b, x)
  {
    if !(b <= x < b + bs[b].size) { return false; }
    var off := x - b;
    if off == 0 { return true; }
    if off > UT16_MAX { return false; }
    if bs[b].ops.ninstr < 1 { return true; }
    var i := 0;
    while i < bs[b].ops.ninstr
      invariant i <= bs[b].ops.ninstr && Scan(bs[b].ops, i, off) == Scan(bs[b].ops, 0, off)
    {
      var instOff := OffsetInst(bs[b].ops, i);
      if instOff > off { break; }
      if off == instOff { return true; }
      i := i + 1;
    }
    r := false;
  }

  /** With increasing offsets the scan misses none. */
  lemma {:induction false} ScanFinds(t: Ops, size: nat, i: nat, off: nat)
    requires WellFormed(t, size)
    ensures Scan(t, i, off) <==> exists k :: i <= k < t.ninstr && OffsetInst(t, k) == off
    decreases t.ninstr - i
  {
    if i < t.ninstr {
      ScanFinds(t, size, i + 1, off);
      forall k | i < k < t.ninstr ensures OffsetInst(t, i) < OffsetInst(t, k) { Increasing(t, size, i, k); }
    }
  }

  lemma OpStartsExact(bs: BbTree, b: nat, x: nat)
    requires b in bs && WellFormed(bs[b].ops, bs[b].size) && bs[b].ops.ninstr > 0
    ensures OpStarts(bs, b, x) <==> b <= x && StartsAt(bs[b].ops, x - b)
  {
    var t, size := bs[b].ops, bs[b].size;
    assert OffsetInst(t, 0) == 0;
    if b <= x { ScanFinds(t, size, 0, x - b); }
  }

  // ---------------------------------------------------------------- r_anal_function_bbget_in

  /** Whether a block of the function answers for an address; strict asks that an instruction
      starts there (anal->opt.jmpmid and an aligned address). */
  predicate Answers(bs: BbTree, b: nat, x: nat, strict: bool)
    requires b in bs
  {
    Contains(bs, b, x) && (!strict || OpStarts(bs, b, x))
  }

  /** r is the first block of the list that answers. */
  ghost predicate First(bs: BbTree, bbs: seq<nat>, x: nat, strict: bool, r: Option<nat>)
    requires forall b :: b in bbs ==> b in bs
  {
    match r
    case None => forall b :: b in bbs ==> !Answers(bs, b, x, strict)
    case Some(b) => exists i :: 0 <= i < |bbs| && bbs[i] == b && Answers(bs, b, x, strict)
                                && forall j :: 0 <= j < i ==> !Answers(bs, bbs[j], x, strict)
  }

  method BbgetInLinear(bs: BbTree, bbs: seq<nat>, x: nat, strict: bool) returns (r: Option<nat>)
    requires forall b :: b in bbs ==> b in bs
    ensures First(bs, bbs, x, strict, r)
  {
    for i := 0 to |bbs|
      invariant forall j :: 0 <= j < i ==> !Answers(bs, bbs[j], x, strict)
    {
      assert bbs[i] in bbs;
      if bbs[i] <= x < bbs[i] + bs[bbs[i]].size {
        var starts := OpStartsAt(bs, bbs[i], x);
        if !strict || starts { return Some(bbs[i]); }
      }
    }
    r := None;
  }

  predicate Match(bs: BbTree, f: nat, x: nat, strict: bool, b: nat) {
    b in bs && f in bs[b].fcns && (!strict || OpStarts(bs, b, x))
  }

  /** The matches among the blocks the callback was given. */
  function Matches(bs: BbTree, f: nat, x: nat, strict: bool, s: seq<nat>): seq<nat> {
    if s == [] then [] else
      Matches(bs, f, x, strict, s[..|s| - 1]) +
      if Match(bs, f, x, strict, s[|s| - 1]) then [s[|s| - 1]] else []
  }

  lemma {:induction false} MatchesMembers(bs: BbTree, f: nat, x: nat, strict: bool, s: seq<nat>)
    ensures forall b :: b in Matches(bs, f, x, strict, s) <==> b in s && Match(bs, f, x, strict, b)
    ensures Distinct(s) ==> Distinct(Matches(bs, f, x, strict, s))
  {
    if s != [] {
      var init, last := s[..|s| - 1], s[|s| - 1];
      MatchesMembers(bs, f, x, strict, init);
      assert s == init + [last];
      if Distinct(s) && Match(bs, f, x, strict, last) {
        assert last !in init;
        DistinctConcat(Matches(bs, f, x, strict, init), [last]);
      }
    }
  }

  lemma MatchesAnswer(t: T.Tree, bs: BbTree, fs: FcnTable, f: nat, x: nat, strict: bool, b: nat)
    requires Linked(bs, fs) && Holds(t, bs) && f in fs
    ensures b in Matches(bs, f, x, strict, T.Hits(t, x, x + 1)) <==>
              b in fs[f].bbs && b in bs && Answers(bs, b, x, strict)
  {
    HitsAreBlocks(t, bs, x, x + 1);
    MatchesMembers(bs, f, x, strict, T.Hits(t, x, x + 1));
    if b in fs[f].bbs { assert f in bs[b].fcns; }
  }

  lemma OnlyAnswer(bs: BbTree, bbs: seq<nat>, x: nat, strict: bool, found: seq<nat>)
    requires (forall b :: b in bbs ==> b in bs) && Distinct(bbs) && |found| < 2
    requires forall b :: b in found <==> b in bbs && b in bs && Answers(bs, b, x, strict)
    ensures First(bs, bbs, x, strict, if found == [] then None else Some(found[0]))
  {
    if found != [] {
      assert found[0] in found;
      var i :| 0 <= i < |bbs| && bbs[i] == found[0];
      forall j | 0 <= j < i ensures !Answers(bs, bbs[j], x, strict) {
        assert bbs[j] in bbs && bbs[j] != bbs[i];
      }
    }
  }

  /** At most one match among all blocks around the address: it is what the list scan finds. */
  lemma SoleMatch(t: T.Tree, bs: BbTree, fs: FcnTable, f: nat, x: nat, strict: bool, found: seq<nat>)
    requires Linked(bs, fs) && Holds(t, bs) && f in fs
    requires found == Matches(bs, f, x, strict, T.Hits(t, x, x + 1)) && |found| < 2
    ensures First(bs, fs[f].bbs, x, strict, if found == [] then None else Some(found[0]))
  {
    forall b: nat ensures b in found <==> b in fs[f].bbs && b in bs && Answers(bs, b, x, strict) {
      MatchesAnswer(t, bs, fs, f, x, strict, b);
    }
    OnlyAnswer(bs, fs[f].bbs, x, strict, found);
  }

  /** r_anal_function_bbget_in: the tree walk with its fallback gives the same answer as the scan
      of the function's own list. */
  method BbgetIn(t: T.Tree, bs: BbTree, fs: FcnTable, f: nat, x: nat, strict: bool) returns (r: Option<nat>)
    requires Linked(bs, fs) && Holds(t, bs) && f in fs
    ensures First(bs, fs[f].bbs, x, strict, r)
  {
    if x == NONE { return None; }
    if t.Leaf? {
      r := BbgetInLinear(bs, fs[f].bbs, x, strict);
      return;
    }
    var seen, complete := T.Walk(t, x, x + 1, s => |Matches(bs, f, x, strict, s)| < 2);
    var found := Matches(bs, f, x, strict, seen);
    if |found| > 1 {
      r := BbgetInLinear(bs, fs[f].bbs, x, strict);
    } else {
      SoleMatch(t, bs, fs, f, x, strict, found);
      r := if found == [] then None else Some(found[0]);
    }
  }

  // ---------------------------------------------------------------- other lookups

  lemma NoneStopped(seen: seq<nat>, stop: nat -> bool, more: seq<nat> -> bool)
    requires T.WentOn(seen, more) && forall s: seq<nat> :: s != [] ==> more(s) == !stop(s[|s| - 1])
    ensures forall b :: b in seen ==> !stop(b)
  {
    forall k | 0 <= k < |seen| ensures !stop(seen[k]) {
      var s := seen[..k + 1];
      assert more(s) && s[|s| - 1] == seen[k];
    }
  }

  lemma HitIsBlock(t: T.Tree, bs: BbTree, x: nat, b: nat)
    requires Holds(t, bs) && b in T.Hits(t, x, x + 1)
    ensures b in bs && Contains(bs, b, x)
  {
    HitsAreBlocks(t, bs, x, x + 1);
  }

  /** The walk with a callback that stops at the first block with some property. */
  method FirstAround(t: T.Tree, bs: BbTree, x: nat, stop: nat -> bool) returns (hit: Option<nat>, seen: seq<nat>)
    requires Holds(t, bs)
    ensures hit.Some? ==> hit.value in bs && Contains(bs, hit.value, x) && stop(hit.value)
    ensures hit.None? ==> forall b: nat :: b in seen <==> b in bs && Contains(bs, b, x)
    ensures hit.None? ==> forall b :: b in seen ==> !stop(b)
  {
    var complete;
    var more := (s: seq<nat>) => s == [] || !stop(s[|s| - 1]);
    seen, complete := T.Walk(t, x, x + 1, more);
    if complete {
      HitsAreBlocks(t, bs, x, x + 1);
      NoneStopped(seen, stop, more);
      hit := None;
    } else {
      var b := seen[|seen| - 1];
      assert b in T.Hits(t, x, x + 1) && stop(b);
      HitIsBlock(t, bs, x, b);
      hit := Some(b);
    }
  }

  lemma CoversAround(bs: BbTree, fs: FcnTable, f: nat, x: nat)
    requires Linked(bs, fs) && f in fs
    ensures Covers(bs, fs[f], x) <==> exists b :: b in bs && Contains(bs, b, x) && f in bs[b].fcns
  {
    if Covers(bs, fs[f], x) {
      var b :| b in fs[f].bbs && b in bs && b <= x < b + bs[b].size;
      assert b in bs && Contains(bs, b, x) && f in bs[b].fcns;
    }
    if b :| b in bs && Contains(bs, b, x) && f in bs[b].fcns {
      assert b in fs[f].bbs && b in bs && b <= x < b + bs[b].size;
    }
  }

  /** r_anal_function_contains: the walk stops at the first block of the function. */
  method FunctionContains(t: T.Tree, bs: BbTree, fs: FcnTable, f: nat, x: nat) returns (r: bool)
    requires Linked(bs, fs) && Holds(t, bs) && f in fs
    ensures r <==> Covers(bs, fs[f], x)
  {
    CoversAround(bs, fs, f, x);
    if x == NONE { return false; }
    var hit, seen := FirstAround(t, bs, x, b => b in bs && f in bs[b].fcns);
    r := hit.Some?;
  }

  /** r_anal_bb_from_offset where instructions may be jumped into: a block in which one starts at
      the address, else the block around it that starts last. */
  method FromOffset(t: T.Tree, bs: BbTree, x: nat) returns (r: Option<nat>)
    requires Holds(t, bs)
    ensures r.None? <==> forall b :: b in bs ==> !Contains(bs, b, x)
    ensures r.Some? ==> r.value in bs && Contains(bs, r.value, x)
    ensures r.Some? && !OpStarts(bs, r.value, x) ==>
      forall b :: b in bs && Contains(bs, b, x) ==> b <= r.value && !OpStarts(bs, b, x)
  {
    var seen;
    r, seen := FirstAround(t, bs, x, b => b in bs && OpStarts(bs, b, x));
    if r.Some? { return; }
    for i := 0 to |seen|
      invariant r.None? <==> i == 0
      invariant r.Some? ==> r.value in seen && forall k :: 0 <= k < i ==> seen[k] <= r.value
    {
      assert seen[i] in seen;
      if r.None? || r.value < seen[i] { r := Some(seen[i]); }
    }
  }
}
