/** Basic blocks, the functions they belong to, and the cached address range of a function
    (libr/anal/block.c, libr/anal/function.c). */
module Blocks {
  import opened Lists
  import opened Cfg
  import opened Offsets

  /** A block, keyed by its address in anal->bb_tree. */
  datatype Bb = Bb(size: nat, out: Block, ops: Ops, fcns: seq<nat>)

  /** A function; meta._min == UT64_MAX marks the cached range as not computed. */
  datatype Fcn = Fcn(addr: nat, bbs: seq<nat>, min: nat, max: nat)

  type BbTree = map<nat, Bb>
  type FcnTable = map<nat, Fcn>

  /** Blocks and functions list each other, without repetition, and no block wraps around. */
  ghost predicate Linked(bs: BbTree, fs: FcnTable) {
    && NONE !in bs
    && (forall b :: b in bs ==> Distinct(bs[b].fcns) && b + bs[b].size <= NONE)
    && (forall f :: f in fs ==> Distinct(fs[f].bbs))
    && (forall b, f :: b in bs && f in bs[b].fcns ==> f in fs && b in fs[f].bbs)
    && (forall b, f :: f in fs && b in fs[f].bbs ==> b in bs && f in bs[b].fcns)
  }

  function CfgOf(bs: BbTree): Graph
    requires NONE !in bs
  {
    map a | a in bs :: bs[a].out
  }

  // ---------------------------------------------------------------- cached ranges

  /** The cache holds the least start and the greatest end of the function's blocks. */
  ghost predicate Exact(bs: BbTree, fc: Fcn) {
    && fc.min in fc.bbs
    && (forall b :: b in fc.bbs ==> b in bs && fc.min <= b && b + bs[b].size <= fc.max)
    && exists b :: b in fc.bbs && b in bs && b + bs[b].size == fc.max
  }

  ghost predicate RangeOk(bs: BbTree, fc: Fcn) {
    fc.min == NONE || Exact(bs, fc)
  }

  ghost predicate RangesOk(bs: BbTree, fs: FcnTable) {
    forall f :: f in fs ==> RangeOk(bs, fs[f])
  }

  /** r_anal_function_add_block, on the function: start and end are the new block's. */
  function Extended(fc: Fcn, start: nat, end: nat): Fcn {
    var fc1 := fc.(bbs := fc.bbs + [start]);
    if fc.min == NONE then fc1
    else fc1.(max := if end > fc.max then end else fc.max, min := if start < fc.min then start else fc.min)
  }

  /** r_anal_function_remove_block, on the function. */
  function Shortened(fc: Fcn, start: nat, end: nat): Fcn {
    fc.(bbs := Without(fc.bbs, start),
        min := if fc.min != NONE && (fc.min == start || fc.max == end) then NONE else fc.min)
  }

  lemma ExtendedOk(bs: BbTree, fc: Fcn, b: nat)
    requires RangeOk(bs, fc) && b in bs
    ensures RangeOk(bs, Extended(fc, b, b + bs[b].size))
  {
    var fc' := Extended(fc, b, b + bs[b].size);
    if fc.min != NONE {
      assert fc'.bbs[|fc.bbs|] == b;
      var m :| m in fc.bbs && m in bs && m + bs[m].size == fc.max;
      assert m in fc'.bbs && fc.min in fc'.bbs && b in fc'.bbs;
      assert fc'.max == m + bs[m].size || fc'.max == b + bs[b].size;
    }
  }

  lemma ShortenedOk(bs: BbTree, fc: Fcn, b: nat)
    requires RangeOk(bs, fc) && Distinct(fc.bbs) && b in bs
    ensures RangeOk(bs, Shortened(fc, b, b + bs[b].size))
  {
    WithoutMembers(fc.bbs, b);
    if fc.min != NONE {
      var m :| m in fc.bbs && m in bs && m + bs[m].size == fc.max;
    }
  }

  /** The span of some blocks; last is one of those that end it. */
  ghost predicate Spanned(bs: BbTree, bbs: seq<nat>, min: nat, max: nat, last: nat) {
    && (forall b :: b in bbs ==> b in bs && min <= b && b + bs[b].size <= max)
    && (bbs == [] ==> min == NONE && max == 0)
    && (bbs != [] ==> min in bbs && last in bbs && last + bs[last].size == max)
  }

  /** The least start and the greatest end of some blocks, as ensure_fcn_range looks for them. */
  method Span(bs: BbTree, bbs: seq<nat>) returns (min: nat, max: nat)
    requires NONE !in bs && forall b :: b in bbs ==> b in bs && b + bs[b].size <= NONE
    ensures bbs == [] ==> min == NONE && max == 0
    ensures bbs != [] ==> Exact(bs, Fcn(0, bbs, min, max))
  {
    min, max := NONE, 0;
    var i := 0;
    ghost var last: nat := 0;
    while i < |bbs|
      invariant i <= |bbs| && Spanned(bs, bbs[..i], min, max, last)
    {
      var b := bbs[i];
      assert b in bbs && bbs[..i + 1] == bbs[..i] + [b];
      if b < min { min := b; }
      if b + bs[b].size > max || i == 0 { last := b; }
      if b + bs[b].size > max { max := b + bs[b].size; }
      i := i + 1;
    }
    assert bbs[..i] == bbs;
  }

  // ---------------------------------------------------------------- links

  /** bs' is bs with other function lists: every cached range is as good as it was. */
  lemma SameSizes(bs: BbTree, bs': BbTree, fc: Fcn)
    requires RangeOk(bs, fc) && forall b :: b in bs ==> b in bs' && bs'[b].size == bs[b].size
    ensures RangeOk(bs', fc)
  {
    if fc.min != NONE {
      var m :| m in fc.bbs && m in bs && m + bs[m].size == fc.max;
      assert m in bs' && m + bs'[m].size == fc.max;
    }
  }

  lemma RangesKept(bs: BbTree, bs': BbTree, fs: FcnTable, f: nat, fc: Fcn)
    requires RangesOk(bs, fs) && RangeOk(bs, fc)
    requires forall b :: b in bs ==> b in bs' && bs'[b].size == bs[b].size
    ensures RangesOk(bs', fs[f := fc])
  {
    var fs' := fs[f := fc];
    forall g | g in fs' ensures RangeOk(bs', fs'[g]) {
      SameSizes(bs, bs', fs'[g]);
    }
  }

  /** Adding a block to a function, as r_anal_function_add_block leaves the two tables. */
  function BsAdded(bs: BbTree, f: nat, b: nat): BbTree
    requires b in bs
  {
    bs[b := bs[b].(fcns := bs[b].fcns + [f])]
  }

  function FsAdded(bs: BbTree, fs: FcnTable, f: nat, b: nat): FcnTable
    requires b in bs && f in fs
  {
    fs[f := Extended(fs[f], b, b + bs[b].size)]
  }

  /** Removing a block from a function, as r_anal_function_remove_block leaves the two tables. */
  function BsRemoved(bs: BbTree, f: nat, b: nat): BbTree
    requires b in bs
  {
    bs[b := bs[b].(fcns := Without(bs[b].fcns, f))]
  }

  function FsRemoved(bs: BbTree, fs: FcnTable, f: nat, b: nat): FcnTable
    requires b in bs && f in fs
  {
    fs[f := Shortened(fs[f], b, b + bs[b].size)]
  }

  lemma AddKeepsRanges(bs: BbTree, fs: FcnTable, f: nat, b: nat)
    requires RangesOk(bs, fs) && f in fs && b in bs
    ensures RangesOk(BsAdded(bs, f, b), FsAdded(bs, fs, f, b))
  {
    ExtendedOk(bs, fs[f], b);
    RangesKept(bs, BsAdded(bs, f, b), fs, f, Extended(fs[f], b, b + bs[b].size));
  }

  lemma RemoveKeepsRanges(bs: BbTree, fs: FcnTable, f: nat, b: nat)
    requires RangesOk(bs, fs) && f in fs && b in bs && Distinct(fs[f].bbs)
    ensures RangesOk(BsRemoved(bs, f, b), FsRemoved(bs, fs, f, b))
  {
    ShortenedOk(bs, fs[f], b);
    RangesKept(bs, BsRemoved(bs, f, b), fs, f, Shortened(fs[f], b, b + bs[b].size));
  }

  lemma LinkAdded(bs: BbTree, fs: FcnTable, f: nat, b: nat)
    requires Linked(bs, fs) && f in fs && b in bs && f !in bs[b].fcns
    ensures Linked(BsAdded(bs, f, b), FsAdded(bs, fs, f, b))
  {
    DistinctConcat(bs[b].fcns, [f]);
    DistinctConcat(fs[f].bbs, [b]);
  }

  lemma LinkRemoved(bs: BbTree, fs: FcnTable, f: nat, b: nat)
    requires Linked(bs, fs) && f in fs && b in bs
    ensures Linked(BsRemoved(bs, f, b), FsRemoved(bs, fs, f, b))
  {
    WithoutMembers(bs[b].fcns, f);
    WithoutMembers(fs[f].bbs, b);
  }

  lemma RerangedOk(bs: BbTree, fs: FcnTable, f: nat, fc: Fcn)
    requires Linked(bs, fs) && f in fs && fc.bbs == fs[f].bbs
    ensures Linked(bs, fs[f := fc])
  {
  }

  /** The function's side of r_anal_function_add_block. */
  method Extend(fc: Fcn, start: nat, end: nat) returns (r: Fcn)
    ensures r == Extended(fc, start, end)
  {
    r := fc.(bbs := fc.bbs + [start]);
    if r.min != NONE {
      if end > r.max { r := r.(max := end); }
      if start < r.min { r := r.(min := start); }
    }
  }

  class Anal {
    var bs: BbTree
    var fs: FcnTable

    ghost predicate Valid()
      reads this
    {
      Linked(bs, fs)
    }

    /** r_anal_function_add_block. */
    method AddBlock(f: nat, b: nat)
      requires Valid() && f in fs && b in bs
      modifies this
      ensures Valid()
      ensures f in old(bs[b].fcns) ==> bs == old(bs) && fs == old(fs)
      ensures f !in old(bs[b].fcns) ==>
        bs == BsAdded(old(bs), f, b) && fs == FsAdded(old(bs), old(fs), f, b)
    {
      if f in bs[b].fcns { return; }
      LinkAdded(bs, fs, f, b);
      var fc := Extend(fs[f], b, b + bs[b].size);
      bs := bs[b := bs[b].(fcns := bs[b].fcns + [f])];
      fs := fs[f := fc];
    }

    /** r_anal_function_remove_block. */
    method RemoveBlock(f: nat, b: nat)
      requires Valid() && f in fs && b in bs
      modifies this
      ensures Valid()
      ensures bs == BsRemoved(old(bs), f, b) && fs == FsRemoved(old(bs), old(fs), f, b)
    {
      LinkRemoved(bs, fs, f, b);
      bs := bs[b := bs[b].(fcns := Without(bs[b].fcns, f))];
      var fc := fs[f];
      if fc.min != NONE && (fc.min == b || fc.max == b + bs[b].size) {
        fc := fc.(min := NONE);
      }
      fc := fc.(bbs := Without(fc.bbs, b));
      fs := fs[f := fc];
    }

    /** ensure_fcn_range: recompute an invalid cache.  A function without blocks keeps it invalid. */
    method EnsureRange(f: nat)
      requires Valid() && f in fs
      modifies this`fs
      ensures Valid() && f in fs && fs == old(fs)[f := old(fs)[f].(min := fs[f].min, max := fs[f].max)]
      ensures old(fs[f].min) != NONE ==> fs == old(fs)
      ensures old(fs[f].min) == NONE && fs[f].bbs != [] ==> Exact(bs, fs[f])
      ensures old(fs[f].min) == NONE && fs[f].bbs == [] ==> fs[f].min == fs[f].max == NONE
      ensures old(RangeOk(bs, fs[f])) ==> RangeOk(bs, fs[f])
    {
      if fs[f].min != NONE { return; }
      var minval, maxval := Span(bs, fs[f].bbs);
      var fc := fs[f].(min := minval, max := if minval == NONE then NONE else maxval);
      RerangedOk(bs, fs, f, fc);
      fs := fs[f := fc];
    }

    /** r_anal_function_linear_size: the span from the first byte to the last. */
    method LinearSize(f: nat) returns (n: nat)
      requires Valid() && f in fs && RangeOk(bs, fs[f])
      modifies this`fs
      ensures Valid() && f in fs && fs == old(fs)[f := fs[f]] && fs[f].bbs == old(fs[f].bbs)
      ensures RangeOk(bs, fs[f])
      ensures fs[f].bbs == [] ==> n == 0
      ensures fs[f].bbs != [] ==> Exact(bs, fs[f]) && n == fs[f].max - fs[f].min
    {
      EnsureRange(f);
      if fs[f].bbs != [] {
        assert Exact(bs, fs[f]);
        assert fs[f].min in fs[f].bbs;
      }
      n := fs[f].max - fs[f].min;
    }
  }
}
