/** Resizing, splitting and merging basic blocks (libr/anal/block.c:268-285, 330-452). */
module SplitMerge {
  import opened Lists
  import opened Cfg
  import opened Offsets
  import opened Blocks

  // ---------------------------------------------------------------- r_anal_block_set_size

  /** A function's cache when a block that ended at end now ends at end'. */
  function Resized(fc: Fcn, end: nat, end': nat): Fcn {
    if fc.min != NONE && fc.max == end then fc.(max := end') else fc
  }

  function FsResized(fs: FcnTable, fcns: seq<nat>, end: nat, end': nat): FcnTable {
    map f | f in fs :: if f in fcns then Resized(fs[f], end, end') else fs[f]
  }

  /** Linked speaks of addresses, lengths and lists only. */
  lemma LinkSame(bs: BbTree, fs: FcnTable, bs': BbTree, fs': FcnTable)
    requires Linked(bs, fs) && bs'.Keys == bs.Keys && fs'.Keys == fs.Keys
    requires forall b :: b in bs ==> bs'[b].fcns == bs[b].fcns && b + bs'[b].size <= NONE
    requires forall f :: f in fs ==> fs'[f].bbs == fs[f].bbs
    ensures Linked(bs', fs')
  {
    forall b, f | b in bs' && f in bs'[b].fcns ensures f in fs' && b in fs'[f].bbs {
      assert f in bs[b].fcns;
    }
    forall b, f | f in fs' && b in fs'[f].bbs ensures b in bs' && f in bs'[b].fcns {
      assert b in fs[f].bbs;
    }
  }

  lemma {:induction false} ResizedStep(fs: FcnTable, s: seq<nat>, f: nat, end: nat, end': nat)
    requires f in fs && f !in s
    ensures FsResized(fs, s + [f], end, end') == FsResized(fs, s, end, end')[f := Resized(fs[f], end, end')]
  {
  }

  method SetSize(an: Anal, b: nat, size: nat)
    requires an.Valid() && b in an.bs && b + size <= NONE
    modifies an
    ensures an.Valid()
    ensures an.bs == old(an.bs)[b := old(an.bs)[b].(size := size)]
    ensures an.fs == FsResized(old(an.fs), old(an.bs)[b].fcns, b + old(an.bs)[b].size, b + size)
  {
    ghost var bs0, fs0 := an.bs, an.fs;
    var was, fcns := an.bs[b].size, an.bs[b].fcns;
    if was == size {
      assert FsResized(fs0, fcns, b + was, b + size) == fs0;
      return;
    }
    assert FsResized(fs0, fcns[..0], b + was, b + size) == fs0;
    var i := 0;
    while i < |fcns|
      invariant i <= |fcns| && an.bs == bs0
      invariant an.fs == FsResized(fs0, fcns[..i], b + was, b + size)
    {
      var f := fcns[i];
      assert fcns[..i + 1] == fcns[..i] + [f] && f in fcns && f !in fcns[..i];
      ResizedStep(fs0, fcns[..i], f, b + was, b + size);
      if an.fs[f].min != NONE && an.fs[f].max == b + was {
        an.fs := an.fs[f := an.fs[f].(max := b + size)];
      } else {
        assert an.fs == an.fs[f := an.fs[f]];
      }
      i := i + 1;
    }
    assert fcns[..i] == fcns;
    an.bs := an.bs[b := an.bs[b].(size := size)];
    LinkSame(bs0, fs0, an.bs, an.fs);
  }

  /** A resize alone keeps an exact range exact only on this condition: a block that ended the
      range must still end it, and any other must not grow past it. */
  lemma ResizeExact(bs: BbTree, fc: Fcn, b: nat, size: nat)
    requires b in bs && b in fc.bbs && fc.min != NONE && Exact(bs, fc)
    ensures Exact(bs[b := bs[b].(size := size)], Resized(fc, b + bs[b].size, b + size)) <==>
      if fc.max == b + bs[b].size
      then forall c :: c in fc.bbs && c != b ==> c + bs[c].size <= b + size
      else b + size <= fc.max
  {
    var bs', fc' := bs[b := bs[b].(size := size)], Resized(fc, b + bs[b].size, b + size);
    var m :| m in fc.bbs && m in bs && m + bs[m].size == fc.max;
    if fc.max == b + bs[b].size {
      assert b in bs' && b + bs'[b].size == fc'.max;
      if Exact(bs', fc') {
        forall c | c in fc.bbs && c != b ensures c + bs[c].size <= b + size {
          assert c in bs' && c + bs'[c].size <= fc'.max;
        }
      }
    } else {
      assert m != b && m in bs' && m + bs'[m].size == fc'.max;
    }
  }

  // ---------------------------------------------------------------- r_anal_block_split

  function FsExtended(fs: FcnTable, fcns: seq<nat>, start: nat, end: nat): FcnTable {
    map f | f in fs :: if f in fcns then Extended(fs[f], start, end) else fs[f]
  }

  lemma {:induction false} ExtendedStep(fs: FcnTable, s: seq<nat>, f: nat, start: nat, end: nat)
    requires f in fs && f !in s
    ensures FsExtended(fs, s + [f], start, end) == FsExtended(fs, s, start, end)[f := Extended(fs[f], start, end)]
  {
  }

  lemma LinkInserted(bs: BbTree, fs: FcnTable, b: nat, bb: Bb)
    requires Linked(bs, fs) && b !in bs && b < NONE && bb.fcns == [] && b + bb.size <= NONE
    ensures Linked(bs[b := bb], fs)
  {
  }

  lemma BlockUpdates(bs: BbTree, b: nat, bb: Bb, bb': Bb)
    ensures bs[b := bb][b := bb'] == bs[b := bb']
  {
  }

  lemma AddedOnce(bs: BbTree, fs: FcnTable, b: nat, bb: Bb, s: seq<nat>, f: nat, end: nat, bs1: BbTree, fs1: FcnTable)
    requires f in fs && f !in s && end == b + bb.size
    requires bs1 == bs[b := bb.(fcns := s)] && fs1 == FsExtended(fs, s, b, end)
    ensures BsAdded(bs1, f, b) == bs[b := bb.(fcns := s + [f])]
    ensures FsAdded(bs1, fs1, f, b) == FsExtended(fs, s + [f], b, end)
  {
    BlockUpdates(bs, b, bb.(fcns := s), bb.(fcns := s + [f]));
    ExtendedStep(fs, s, f, b, end);
  }

  /** A new block enters every function of a list. */
  method AddToAll(an: Anal, fcns: seq<nat>, b: nat)
    requires an.Valid() && b in an.bs && an.bs[b].fcns == [] && Distinct(fcns)
    requires forall f :: f in fcns ==> f in an.fs
    modifies an
    ensures an.Valid()
    ensures an.bs == old(an.bs)[b := old(an.bs)[b].(fcns := fcns)]
    ensures an.fs == FsExtended(old(an.fs), fcns, b, b + old(an.bs)[b].size)
  {
    ghost var bs0, fs0, bb, end := an.bs, an.fs, an.bs[b], b + an.bs[b].size;
    assert FsExtended(fs0, [], b, end) == fs0;
    assert bs0 == bs0[b := bb.(fcns := [])];
    var i := 0;
    ghost var s := [];
    while i < |fcns|
      invariant i <= |fcns| && s == fcns[..i] && an.Valid()
      invariant an.bs == bs0[b := bb.(fcns := s)] && an.fs == FsExtended(fs0, s, b, end)
    {
      assert fcns[..i + 1] == s + [fcns[i]] && fcns[i] in fcns && fcns[i] !in s;
      AddedOnce(bs0, fs0, b, bb, s, fcns[i], end, an.bs, an.fs);
      s := s + [fcns[i]];
      an.AddBlock(fcns[i], b);
      i := i + 1;
    }
    assert fcns[..i] == fcns;
  }

  /** Where a split happens: strictly inside the block, with no block there yet. */
  predicate Splits(bs: BbTree, b: nat, addr: nat)
    requires b in bs
  {
    b < addr < b + bs[b].size && addr !in bs
  }

  /** The block table after a split: the first half falls through to the second, which has the
      old out-edges; both are in the same functions. */
  ghost predicate SplitBlocks(bs: BbTree, bs': BbTree, b: nat, addr: nat)
    requires b in bs && Splits(bs, b, addr)
  {
    && b in bs' && addr in bs' && bs' == bs[b := bs'[b]][addr := bs'[addr]]
    && bs'[b].size == addr - b && bs'[addr].size == b + bs[b].size - addr
    && bs'[b].out == Block(addr, NONE, None) && bs'[addr].out == bs[b].out
    && bs'[b].fcns == bs'[addr].fcns == bs[b].fcns
    && (WellFormed(bs[b].ops, bs[b].size) ==> Halves(bs[b].ops, bs[b].size, addr - b, bs'[b].ops, bs'[addr].ops))
  }

  function FsSplit(bs: BbTree, fs: FcnTable, b: nat, addr: nat): FcnTable
    requires b in bs
  {
    FsExtended(FsResized(fs, bs[b].fcns, b + bs[b].size, addr), bs[b].fcns, addr, b + bs[b].size)
  }

  lemma LinkCut(bs: BbTree, fs: FcnTable, b: nat, first: Bb, addr: nat, second: Bb)
    requires Linked(bs, fs) && b in bs && first.fcns == bs[b].fcns && b + first.size <= NONE
    requires addr !in bs && addr < NONE && second.fcns == [] && addr + second.size <= NONE
    ensures Linked(bs[b := first][addr := second], fs)
  {
    LinkSame(bs, fs, bs[b := first], fs);
    LinkInserted(bs[b := first], fs, addr, second);
  }

  /** The first step of a split: shrink the block and insert the second half, in no function yet. */
  method CutInTwo(an: Anal, b: nat, addr: nat)
    requires an.Valid() && b in an.bs && Splits(an.bs, b, addr)
    modifies an
    ensures an.Valid()
    ensures an.bs == old(an.bs)[b := old(an.bs)[b].(size := addr - b, out := Block(addr, NONE, None))]
                               [addr := Bb(b + old(an.bs)[b].size - addr, old(an.bs)[b].out, FRESH, [])]
    ensures an.fs == FsResized(old(an.fs), old(an.bs)[b].fcns, b + old(an.bs)[b].size, addr)
  {
    ghost var bs0 := an.bs;
    var second := Bb(b + an.bs[b].size - addr, an.bs[b].out, FRESH, []);
    SetSize(an, b, addr - b);
    ghost var bs1 := an.bs;
    var first := an.bs[b].(out := Block(addr, NONE, None));
    BlockUpdates(bs0, b, bs0[b].(size := addr - b), first);
    LinkCut(bs1, an.fs, b, first, addr, second);
    an.bs := an.bs[b := first];
    an.bs := an.bs[addr := second];
  }

  /** The last step of a split: divide the instruction offsets. */
  method DivideOps(an: Anal, b: nat, addr: nat, size: nat)
    requires an.Valid() && b in an.bs && addr in an.bs && b < addr < b + size
    modifies an
    ensures an.Valid() && an.fs == old(an.fs)
    ensures b in an.bs && addr in an.bs
    ensures an.bs == old(an.bs)[b := old(an.bs)[b].(ops := an.bs[b].ops)]
                               [addr := old(an.bs)[addr].(ops := an.bs[addr].ops)]
    ensures WellFormed(old(an.bs)[b].ops, size) ==>
              Halves(old(an.bs)[b].ops, size, addr - b, an.bs[b].ops, an.bs[addr].ops)
  {
    ghost var bs0 := an.bs;
    var first, second := SplitOffsets(an.bs[b].ops, size, addr - b);
    an.bs := an.bs[b := an.bs[b].(ops := first)];
    an.bs := an.bs[addr := an.bs[addr].(ops := second)];
    LinkSame(bs0, an.fs, an.bs, an.fs);
  }

  lemma SplitResult(bs: BbTree, bs1: BbTree, bs2: BbTree, bs': BbTree, b: nat, addr: nat)
    requires b in bs && Splits(bs, b, addr)
    requires bs1 == bs[b := bs[b].(size := addr - b, out := Block(addr, NONE, None))]
                      [addr := Bb(b + bs[b].size - addr, bs[b].out, FRESH, [])]
    requires bs2 == bs1[addr := bs1[addr].(fcns := bs[b].fcns)]
    requires b in bs' && addr in bs'
    requires bs' == bs2[b := bs2[b].(ops := bs'[b].ops)][addr := bs2[addr].(ops := bs'[addr].ops)]
    requires WellFormed(bs[b].ops, bs[b].size) ==> Halves(bs[b].ops, bs[b].size, addr - b, bs'[b].ops, bs'[addr].ops)
    ensures SplitBlocks(bs, bs', b, addr)
  {
  }

  method Split(an: Anal, b: nat, addr: nat) returns (r: Option<nat>)
    requires an.Valid() && b in an.bs
    modifies an
    ensures an.Valid()
    ensures r == (if old(Splits(an.bs, b, addr)) || (addr == b && old(an.bs[b].size) > 0) then Some(addr) else None)
    ensures !old(Splits(an.bs, b, addr)) ==> an.bs == old(an.bs) && an.fs == old(an.fs)
    ensures old(Splits(an.bs, b, addr)) ==>
      SplitBlocks(old(an.bs), an.bs, b, addr) && an.fs == FsSplit(old(an.bs), old(an.fs), b, addr)
  {
    if !(b <= addr < b + an.bs[b].size && addr != NONE) { return None; }
    if addr == b { return Some(b); }
    if addr in an.bs { return None; }
    ghost var bs0 := an.bs;
    var fcns, size := an.bs[b].fcns, an.bs[b].size;
    CutInTwo(an, b, addr);
    ghost var bs1 := an.bs;
    assert addr + bs1[addr].size == b + size;
    AddToAll(an, fcns, addr);
    ghost var bs2 := an.bs;
    DivideOps(an, b, addr, size);
    SplitResult(bs0, bs1, bs2, an.bs, b, addr);
    r := Some(addr);
  }

  /** A function's record after a split: a range that was exact is not touched in the end. */
  lemma SplitFcn(bs: BbTree, fs: FcnTable, b: nat, addr: nat, f: nat)
    requires Linked(bs, fs) && b in bs && Splits(bs, b, addr) && f in fs && RangeOk(bs, fs[f])
    ensures FsSplit(bs, fs, b, addr)[f] ==
            if f in bs[b].fcns then fs[f].(bbs := fs[f].bbs + [addr]) else fs[f]
  {
    if f in bs[b].fcns && fs[f].min != NONE {
      assert b in fs[f].bbs && b + bs[b].size <= fs[f].max;
    }
  }

  lemma SplitExact(bs: BbTree, bs': BbTree, fc: Fcn, b: nat, addr: nat)
    requires b in bs && Splits(bs, b, addr) && SplitBlocks(bs, bs', b, addr) && Exact(bs, fc)
    ensures b in fc.bbs ==> Exact(bs', fc.(bbs := fc.bbs + [addr]))
    ensures b !in fc.bbs ==> Exact(bs', fc)
  {
    var m :| m in fc.bbs && m in bs && m + bs[m].size == fc.max;
    if b in fc.bbs {
      var fc' := fc.(bbs := fc.bbs + [addr]);
      assert fc'.bbs[|fc.bbs|] == addr;
      var m' := if m == b then addr else m;
      assert m' in fc'.bbs && m' in bs' && m' + bs'[m'].size == fc'.max;
    } else {
      assert m in bs' && m + bs'[m].size == fc.max;
    }
  }

  /** The cached ranges come through a whole split unchanged, and still exact. */
  lemma SplitKeepsRange(bs: BbTree, fs: FcnTable, bs': BbTree, b: nat, addr: nat, f: nat)
    requires Linked(bs, fs) && b in bs && Splits(bs, b, addr) && SplitBlocks(bs, bs', b, addr)
    requires f in fs && RangeOk(bs, fs[f])
    ensures RangeOk(bs', FsSplit(bs, fs, b, addr)[f])
  {
    SplitFcn(bs, fs, b, addr, f);
    if fs[f].min != NONE { SplitExact(bs, bs', fs[f], b, addr); }
  }

  /** A byte belongs to some block of the function. */
  ghost predicate Covers(bs: BbTree, fc: Fcn, x: nat) {
    exists b :: b in fc.bbs && b in bs && b <= x < b + bs[b].size
  }

  lemma SplitBytesThere(bs: BbTree, fs: FcnTable, bs': BbTree, b: nat, addr: nat, f: nat, x: nat)
    requires Linked(bs, fs) && b in bs && Splits(bs, b, addr) && SplitBlocks(bs, bs', b, addr) && f in fs
    requires Covers(bs, fs[f], x)
    ensures Covers(bs', FsSplit(bs, fs, b, addr)[f], x)
  {
    var fc' := FsSplit(bs, fs, b, addr)[f];
    var c :| c in fs[f].bbs && c in bs && c <= x < c + bs[c].size;
    var c' := if c == b && addr <= x then addr else c;
    if f in bs[b].fcns { assert fc'.bbs == fs[f].bbs + [addr]; } else { assert fc'.bbs == fs[f].bbs && c != b; }
    assert c' in fc'.bbs && c' in bs' && c' <= x < c' + bs'[c'].size;
  }

  lemma SplitBytesBack(bs: BbTree, fs: FcnTable, bs': BbTree, b: nat, addr: nat, f: nat, x: nat)
    requires Linked(bs, fs) && b in bs && Splits(bs, b, addr) && SplitBlocks(bs, bs', b, addr) && f in fs
    requires Covers(bs', FsSplit(bs, fs, b, addr)[f], x)
    ensures Covers(bs, fs[f], x)
  {
    var fc' := FsSplit(bs, fs, b, addr)[f];
    var c :| c in fc'.bbs && c in bs' && c <= x < c + bs'[c].size;
    if f in bs[b].fcns { assert fc'.bbs == fs[f].bbs + [addr]; } else { assert fc'.bbs == fs[f].bbs && c != addr; }
    var c' := if c == addr then b else c;
    assert c' in fs[f].bbs && c' in bs && c' <= x < c' + bs[c'].size;
  }

  /** The halves share out the bytes of the block, and every function keeps its bytes. */
  lemma SplitKeepsBytes(bs: BbTree, fs: FcnTable, bs': BbTree, b: nat, addr: nat, f: nat, x: nat)
    requires Linked(bs, fs) && b in bs && Splits(bs, b, addr) && SplitBlocks(bs, bs', b, addr) && f in fs
    ensures b <= x < b + bs[b].size <==> b <= x < b + bs'[b].size || addr <= x < addr + bs'[addr].size
    ensures Covers(bs', FsSplit(bs, fs, b, addr)[f], x) <==> Covers(bs, fs[f], x)
  {
    if Covers(bs, fs[f], x) { SplitBytesThere(bs, fs, bs', b, addr, f, x); }
    if Covers(bs', FsSplit(bs, fs, b, addr)[f], x) { SplitBytesBack(bs, fs, bs', b, addr, f, x); }
  }

  lemma SplitReachThere(bs: BbTree, bs': BbTree, b: nat, addr: nat, x: nat)
    requires NONE !in bs && b in bs && addr < NONE && Splits(bs, b, addr) && SplitBlocks(bs, bs', b, addr) && x in bs
    ensures forall y :: Reach(CfgOf(bs), x, y) ==> Reach(CfgOf(bs'), x, y)
  {
    var g, g' := CfgOf(bs), CfgOf(bs');
    assert Succs(g'[b]) == [addr];
    var s := set z | z in bs && Reach(g', x, z);
    forall u, v | u in s && Edge(g, u, v) ensures v in s {
      if u == b {
        assert Edge(g', b, addr) && Edge(g', addr, v);
        ReachStep(g', x, b, addr);
        ReachStep(g', x, addr, v);
      } else {
        assert Edge(g', u, v);
        ReachStep(g', x, u, v);
      }
    }
    ReachSelf(g', x);
    ClosedReach(g, s, x);
  }

  lemma SplitReachBack(bs: BbTree, bs': BbTree, b: nat, addr: nat, x: nat)
    requires NONE !in bs && b in bs && addr < NONE && Splits(bs, b, addr) && SplitBlocks(bs, bs', b, addr) && x in bs
    requires forall q :: q in bs ==> addr !in Succs(bs[q].out)
    ensures forall y :: y in bs && Reach(CfgOf(bs'), x, y) ==> Reach(CfgOf(bs), x, y)
  {
    var g, g' := CfgOf(bs), CfgOf(bs');
    assert Succs(g'[b]) == [addr];
    var s := set z | z in bs' && Reach(g, x, if z == addr then b else z);
    forall u, v | u in s && Edge(g', u, v) ensures v in s {
      if u == addr {
        assert Edge(g, b, v);
        ReachStep(g, x, b, v);
      } else if u != b {
        assert Edge(g, u, v);
        ReachStep(g, x, u, v);
      } else {
        assert v == addr;
      }
    }
    ReachSelf(g, x);
    ClosedReach(g', s, x);
  }

  /** Reachability among the old blocks is what it was, provided no edge was waiting for a block
      at the split address. */
  lemma SplitKeepsReach(bs: BbTree, bs': BbTree, b: nat, addr: nat, x: nat, y: nat)
    requires NONE !in bs && b in bs && addr < NONE && Splits(bs, b, addr) && SplitBlocks(bs, bs', b, addr)
    requires forall q :: q in bs ==> addr !in Succs(bs[q].out)
    requires x in bs && y in bs
    ensures Reach(CfgOf(bs'), x, y) <==> Reach(CfgOf(bs), x, y)
  {
    SplitReachThere(bs, bs', b, addr, x);
    SplitReachBack(bs, bs', b, addr, x);
  }

  // ---------------------------------------------------------------- r_anal_block_merge

  function FsShortened(fs: FcnTable, fcns: seq<nat>, start: nat, end: nat): FcnTable {
    map f | f in fs :: if f in fcns then Shortened(fs[f], start, end) else fs[f]
  }

  lemma RemovedOnce(bs: BbTree, fs: FcnTable, b: nat, bb: Bb, s: seq<nat>, f: nat, rest: seq<nat>, end: nat,
                    bs1: BbTree, fs1: FcnTable)
    requires f in fs && f !in s && end == b + bb.size
    requires bs1 == bs[b := bb.(fcns := [f] + rest)] && fs1 == FsShortened(fs, s, b, end)
    ensures BsRemoved(bs1, f, b) == bs[b := bb.(fcns := rest)]
    ensures FsRemoved(bs1, fs1, f, b) == FsShortened(fs, s + [f], b, end)
  {
    BlockUpdates(bs, b, bb.(fcns := [f] + rest), bb.(fcns := rest));
    assert ([f] + rest)[1..] == rest;
  }

  lemma FirstOf(s: seq<nat>, i: nat)
    requires i < |s| && Distinct(s)
    ensures s[i..] == [s[i]] + s[i + 1..] && s[..i + 1] == s[..i] + [s[i]] && s[i] !in s[..i] && s[i] in s
  {
  }

  /** A block leaves all its functions. */
  method RemoveFromAll(an: Anal, b: nat)
    requires an.Valid() && b in an.bs
    modifies an
    ensures an.Valid()
    ensures an.bs == old(an.bs)[b := old(an.bs)[b].(fcns := [])]
    ensures an.fs == FsShortened(old(an.fs), old(an.bs)[b].fcns, b, b + old(an.bs)[b].size)
  {
    ghost var bs0, fs0, bb, end := an.bs, an.fs, an.bs[b], b + an.bs[b].size;
    assert FsShortened(fs0, [], b, end) == fs0;
    assert bs0 == bs0[b := bb.(fcns := bb.fcns)];
    ghost var i, s, rest := 0, [], bb.fcns;
    while an.bs[b].fcns != []
      invariant i <= |bb.fcns| && s == bb.fcns[..i] && rest == bb.fcns[i..] && an.Valid()
      invariant an.bs == bs0[b := bb.(fcns := rest)] && an.fs == FsShortened(fs0, s, b, end)
      decreases |bb.fcns| - i
    {
      var f := an.bs[b].fcns[0];
      ghost var rest' := bb.fcns[i + 1..];
      FirstOf(bb.fcns, i);
      RemovedOnce(bs0, fs0, b, bb, s, f, rest', end, an.bs, an.fs);
      s, rest, i := s + [f], rest', i + 1;
      an.RemoveBlock(f, b);
    }
    assert s == bb.fcns;
  }

  lemma LinkDeleted(bs: BbTree, fs: FcnTable, a: nat, bb: Bb, b: nat)
    requires Linked(bs, fs) && a in bs && b in bs && bs[b].fcns == []
    requires bb.fcns == bs[a].fcns && a + bb.size <= NONE
    ensures Linked(bs[a := bb] - {b}, fs)
  {
    LinkSame(bs, fs, bs[a := bb], fs);
  }

  predicate SameFcns(s: seq<nat>, t: seq<nat>) {
    |s| == |t| && forall f :: f in s ==> f in t
  }

  /** When r_anal_block_merge merges. */
  predicate Merges(bs: BbTree, a: nat, b: nat)
    requires a in bs && b in bs
  {
    a + bs[a].size == b && SameFcns(bs[a].fcns, bs[b].fcns)
  }

  method CompareLists(s: seq<nat>, t: seq<nat>) returns (same: bool)
    ensures same <==> SameFcns(s, t)
  {
    if |s| != |t| { return false; }
    for i := 0 to |s|
      invariant forall f :: f in s[..i] ==> f in t
    {
      assert s[..i + 1] == s[..i] + [s[i]];
      if s[i] !in t { return false; }
    }
    assert s[..|s|] == s;
    same := true;
  }

  /** The block table after a merge: b is gone and a has its bytes, edges and instructions. */
  ghost predicate MergeBlocks(bs: BbTree, bs': BbTree, a: nat, b: nat)
    requires a in bs && b in bs
  {
    && a in bs' && bs' == (bs - {b})[a := bs'[a]]
    && bs'[a].size == bs[a].size + bs[b].size && bs'[a].out == bs[b].out && bs'[a].fcns == bs[a].fcns
    && (Room(bs[a].ops, bs[a].size, bs[b].ops) ==> Joined(bs[a].ops, bs[a].size, bs[b].ops, bs'[a].ops))
  }

  function FsMerged(bs: BbTree, fs: FcnTable, a: nat, b: nat): FcnTable
    requires a in bs
  {
    map f | f in fs :: if f in bs[a].fcns then fs[f].(bbs := Without(fs[f].bbs, b), min := NONE) else fs[f]
  }

  function FsInvalid(fs: FcnTable, fcns: seq<nat>): FcnTable {
    map f | f in fs :: if f in fcns then fs[f].(min := NONE) else fs[f]
  }

  method Invalidate(an: Anal, fcns: seq<nat>)
    requires an.Valid() && forall f :: f in fcns ==> f in an.fs
    modifies an`fs
    ensures an.Valid()
    ensures an.fs == FsInvalid(old(an.fs), fcns)
  {
    ghost var fs0 := an.fs;
    for i := 0 to |fcns|
      invariant an.fs == FsInvalid(fs0, fcns[..i])
    {
      assert fcns[..i + 1] == fcns[..i] + [fcns[i]] && fcns[i] in fcns;
      an.fs := an.fs[fcns[i] := an.fs[fcns[i]].(min := NONE)];
    }
    assert fcns[..|fcns|] == fcns;
    LinkSame(an.bs, fs0, an.bs, an.fs);
  }

  /** Two lists of one length without repetition, one inside the other, hold the same. */
  lemma {:induction false} SameMembers(s: seq<nat>, t: seq<nat>)
    requires Distinct(s) && Distinct(t) && SameFcns(s, t)
    ensures forall f :: f in t ==> f in s
  {
    if s != [] {
      WithoutMembers(t, s[0]);
      forall f | f in s[1..] ensures f in Without(t, s[0]) {
        var k :| 0 <= k < |s| - 1 && s[1..][k] == f;
        assert s[k + 1] != s[0];
      }
      SameMembers(s[1..], Without(t, s[0]));
    }
  }

  lemma MergedTables(bs: BbTree, fs: FcnTable, a: nat, b: nat)
    requires Linked(bs, fs) && a in bs && b in bs && a != b && Merges(bs, a, b)
    ensures FsInvalid(FsShortened(fs, bs[b].fcns, b, b + bs[b].size), bs[a].fcns) == FsMerged(bs, fs, a, b)
  {
    SameMembers(bs[a].fcns, bs[b].fcns);
  }

  /** b, which is in no function any more, gives its instructions, bytes and edges to a and goes. */
  method Absorb(an: Anal, a: nat, b: nat)
    requires an.Valid() && a in an.bs && b in an.bs && a != b && an.bs[b].fcns == [] && a + an.bs[a].size == b
    modifies an
    ensures an.Valid() && an.fs == old(an.fs)
    ensures MergeBlocks(old(an.bs), an.bs, a, b)
  {
    var ops := MergeOffsets(an.bs[a].ops, an.bs[a].size, an.bs[b].ops);
    var merged := an.bs[a].(ops := ops, size := an.bs[a].size + an.bs[b].size, out := an.bs[b].out);
    LinkDeleted(an.bs, an.fs, a, merged, b);
    an.bs := an.bs[a := merged];
    an.bs := an.bs - {b};
  }

  lemma AbsorbedTables(bs: BbTree, bs': BbTree, a: nat, b: nat)
    requires a in bs && b in bs && a != b && MergeBlocks(bs[b := bs[b].(fcns := [])], bs', a, b)
    ensures MergeBlocks(bs, bs', a, b)
  {
  }

  /** r_anal_block_merge of two different blocks. */
  method Merge(an: Anal, a: nat, b: nat) returns (ok: bool)
    requires an.Valid() && a in an.bs && b in an.bs && a != b
    modifies an
    ensures an.Valid()
    ensures ok == old(Merges(an.bs, a, b))
    ensures !ok ==> an.bs == old(an.bs) && an.fs == old(an.fs)
    ensures ok ==> MergeBlocks(old(an.bs), an.bs, a, b) && an.fs == FsMerged(old(an.bs), old(an.fs), a, b)
  {
    if a + an.bs[a].size != b { return false; }
    var same := CompareLists(an.bs[a].fcns, an.bs[b].fcns);
    if !same { return false; }
    ghost var bs0 := an.bs;
    MergedTables(an.bs, an.fs, a, b);
    RemoveFromAll(an, b);
    Absorb(an, a, b);
    AbsorbedTables(bs0, an.bs, a, b);
    Invalidate(an, an.bs[a].fcns);
    ok := true;
  }

  lemma {:induction false} WithoutAppended(s: seq<nat>, x: nat)
    requires x !in s
    ensures Without(s + [x], x) == s
  {
    if s != [] {
      assert (s + [x])[1..] == s[1..] + [x];
      WithoutAppended(s[1..], x);
    }
  }

  lemma RestoredFcn(bs: BbTree, fs: FcnTable, bs1: BbTree, b: nat, addr: nat, f: nat)
    requires Linked(bs, fs) && b in bs && Splits(bs, b, addr) && f in fs && RangeOk(bs, fs[f])
    requires b in bs1 && bs1[b].fcns == bs[b].fcns
    ensures FsMerged(bs1, FsSplit(bs, fs, b, addr), b, addr)[f]
         == if f in bs[b].fcns then fs[f].(min := NONE) else fs[f]
  {
    SplitFcn(bs, fs, b, addr, f);
    if f in bs[b].fcns {
      assert addr !in fs[f].bbs;
      WithoutAppended(fs[f].bbs, addr);
    }
  }

  lemma RestoredBlocks(bs: BbTree, bs1: BbTree, bs': BbTree, b: nat, addr: nat)
    requires b in bs && Splits(bs, b, addr) && SplitBlocks(bs, bs1, b, addr) && MergeBlocks(bs1, bs', b, addr)
    ensures bs' == bs[b := bs[b].(ops := bs'[b].ops)]
  {
    assert bs'[b] == bs[b].(ops := bs'[b].ops);
  }

  lemma RestoredTables(bs: BbTree, fs: FcnTable, bs1: BbTree, b: nat, addr: nat)
    requires Linked(bs, fs) && RangesOk(bs, fs) && b in bs && Splits(bs, b, addr) && SplitBlocks(bs, bs1, b, addr)
    ensures FsMerged(bs1, FsSplit(bs, fs, b, addr), b, addr) ==
            FsInvalid(fs, bs[b].fcns)
  {
    forall f | f in fs
      ensures FsMerged(bs1, FsSplit(bs, fs, b, addr), b, addr)[f]
           == if f in bs[b].fcns then fs[f].(min := NONE) else fs[f]
    {
      RestoredFcn(bs, fs, bs1, b, addr, f);
    }
  }

  /** Splitting a block and merging the halves gives back the block: its size, edges, cases and
      functions always, and its instruction offsets exactly as far as an instruction starts at the
      split address (or none lies behind it) and a fresh table holds the second half.  The cached
      ranges are dropped. */
  method SplitThenMerge(an: Anal, b: nat, addr: nat)
    requires an.Valid() && b in an.bs && Splits(an.bs, b, addr) && RangesOk(an.bs, an.fs)
    modifies an
    ensures an.Valid() && b in an.bs && an.bs == old(an.bs)[b := old(an.bs)[b].(ops := an.bs[b].ops)]
    ensures an.fs == FsInvalid(old(an.fs), old(an.bs)[b].fcns)
    ensures WellFormed(old(an.bs)[b].ops, old(an.bs)[b].size) && old(an.bs)[b].ops.ninstr > 0 ==>
      && (forall k :: 0 <= k < an.bs[b].ops.ninstr ==> OffsetInst(an.bs[b].ops, k) == OffsetInst(old(an.bs)[b].ops, k))
      && (an.bs[b].ops.ninstr == old(an.bs)[b].ops.ninstr <==> Restores(old(an.bs)[b].ops, addr - b))
  {
    ghost var bs0, fs0, bb := an.bs, an.fs, an.bs[b];
    var r := Split(an, b, addr);
    ghost var bs1 := an.bs;
    var ok := Merge(an, b, addr);
    RestoredBlocks(bs0, bs1, an.bs, b, addr);
    RestoredTables(bs0, fs0, bs1, b, addr);
    if WellFormed(bb.ops, bb.size) && bb.ops.ninstr > 0 {
      HalvesJoin(bb.ops, bb.size, addr - b, bs1[b].ops, bs1[addr].ops);
      RestoresAt(bb.ops, bb.size, addr - b, bs1[b].ops, bs1[addr].ops);
    }
  }

  /** Nothing is lost by splitting at delta and merging. */
  ghost predicate Restores(t: Ops, delta: nat) {
    || (forall k :: 0 <= k < t.ninstr ==> OffsetInst(t, k) < delta)
    || (exists k :: 0 <= k < t.ninstr && OffsetInst(t, k) == delta && t.ninstr - k <= MOST)
  }

  lemma RestoresAt(t: Ops, size: nat, delta: nat, a: Ops, b: Ops)
    requires WellFormed(t, size) && Halves(t, size, delta, a, b)
    ensures Restores(t, delta) <==> a.ninstr == t.ninstr || (StartsAt(t, delta) && t.ninstr - a.ninstr <= MOST)
  {
    forall k | 0 <= k < a.ninstr ensures OffsetInst(t, k) < delta { assert OffsetInst(a, k) < delta; }
    forall k | 0 <= k < t.ninstr && OffsetInst(t, k) == delta ensures k == a.ninstr {
      if a.ninstr < k { Increasing(t, size, a.ninstr, k); }
    }
  }
}
