/** The whole of r_anal_block_chop_noreturn (libr/anal/block.c:938-1004): chop, then automerge. */
module Noreturn {
  import opened Lists
  import opened Cfg
  import opened Blocks
  import opened SplitMerge
  import opened Automerging
  import opened Chopping

  /** A byte that a function should keep: it is in one of its blocks, the chopped one ending at
      addr, that the entry reaches once the chopped block leads nowhere. */
  ghost predicate Survives(bs: BbTree, fc: Fcn, b: nat, addr: nat, x: nat)
    requires NONE !in bs && b in bs
  {
    exists q :: q in fc.bbs && q in bs && Reach(CfgOf(bs)[b := NOWHERE], fc.addr, q)
                && q <= x < if q == b then addr else q + bs[q].size
  }

  /** The function holds block b, its entry block belongs to it, and that reaches all its blocks. */
  ghost predicate AllReached(bs: BbTree, fs: FcnTable, f: nat, b: nat)
    requires NONE !in bs && b in bs && f in fs
  {
    f in bs[b].fcns && EntryOk(bs, fs, f) && forall q :: q in fs[f].bbs ==> Reach(CfgOf(bs), fs[f].addr, q)
  }

  lemma ChoppedBytes(bs: BbTree, fs: FcnTable, bs1: BbTree, fs1: FcnTable, b: nat, addr: nat, f: nat)
    requires Linked(bs, fs) && b in bs && Chops(bs, b, addr) && Chopped(bs, fs, bs1, fs1, b, addr)
    requires f in fs && AllReached(bs, fs, f, b)
    ensures forall x: nat :: Covers(bs1, fs1[f], x) <==> Survives(bs, fs[f], b, addr, x)
  {
    ChopExact(bs, fs, bs1, fs1, b, addr, f);
    assert CfgOf(bs1) == CfgOf(bs)[b := NOWHERE];
    forall x: nat ensures Covers(bs1, fs1[f], x) <==> Survives(bs, fs[f], b, addr, x) {
      if Covers(bs1, fs1[f], x) {
        var q :| q in fs1[f].bbs && q in bs1 && q <= x < q + bs1[q].size;
        assert q in fs[f].bbs && q in bs && Reach(CfgOf(bs)[b := NOWHERE], fs[f].addr, q);
      }
      if Survives(bs, fs[f], b, addr, x) {
        var q :| q in fs[f].bbs && q in bs && Reach(CfgOf(bs)[b := NOWHERE], fs[f].addr, q)
                 && q <= x < if q == b then addr else q + bs[q].size;
        assert q in fs1[f].bbs && q in bs1 && q <= x < q + bs1[q].size;
      }
    }
  }

  lemma ChoppedLoopFree(bs: BbTree, fs: FcnTable, bs1: BbTree, fs1: FcnTable, b: nat, addr: nat)
    requires NONE !in bs && b in bs && Chops(bs, b, addr) && Chopped(bs, fs, bs1, fs1, b, addr) && NoEmptyLoop(bs)
    ensures NoEmptyLoop(bs1)
  {
  }

  /** In such functions the bytes left after chopping and merging are exactly those still reachable. */
  ghost predicate ExactBytes(bs: BbTree, fs: FcnTable, bs': BbTree, fs': FcnTable, b: nat, addr: nat)
    requires NONE !in bs && b in bs
  {
    forall f, x: nat :: f in fs && f in fs' && AllReached(bs, fs, f, b) ==>
      (Covers(bs', fs'[f], x) <==> Survives(bs, fs[f], b, addr, x))
  }

  lemma BytesExact(bs: BbTree, fs: FcnTable, bs1: BbTree, fs1: FcnTable, bs': BbTree, fs': FcnTable, b: nat, addr: nat)
    requires Linked(bs, fs) && b in bs && Chops(bs, b, addr) && Chopped(bs, fs, bs1, fs1, b, addr)
    requires SameBytes(bs1, fs1, bs', fs')
    ensures ExactBytes(bs, fs, bs', fs', b, addr)
  {
    forall f, x: nat | f in fs && f in fs' && AllReached(bs, fs, f, b)
      ensures Covers(bs', fs'[f], x) <==> Survives(bs, fs[f], b, addr, x)
    {
      ChoppedBytes(bs, fs, bs1, fs1, b, addr, f);
    }
  }

  /** The result is the chopped block, if it is still there. */
  method ChopNoreturn(an: Anal, b: nat, addr: nat) returns (r: Option<nat>)
    requires an.Valid() && b in an.bs && NoEmptyLoop(an.bs)
    modifies an
    ensures an.Valid() && NoEmptyLoop(an.bs) && an.fs.Keys == old(an.fs).Keys
    ensures !old(Chops(an.bs, b, addr)) ==> an.bs == old(an.bs) && an.fs == old(an.fs) && r == Some(b)
    ensures old(Chops(an.bs, b, addr)) ==>
      ExactBytes(old(an.bs), old(an.fs), an.bs, an.fs, b, addr) && r == if b in an.bs then Some(b) else None
  {
    if !(b <= addr < b + an.bs[b].size) || addr == b { return Some(b); }
    ghost var bs0, fs0 := an.bs, an.fs;
    var cands := Chop(an, b, addr);
    ReachSelf(CfgOf(bs0), b);
    ghost var bs1, fs1 := an.bs, an.fs;
    ChoppedLoopFree(bs0, fs0, bs1, fs1, b, addr);
    forall c | c in cands ensures c in bs1 { ReachIn(CfgOf(bs0), b, c); }
    var left := Automerge(an, cands);
    BytesExact(bs0, fs0, bs1, fs1, an.bs, an.fs, b, addr);
    r := if b in left then Some(b) else None;
  }
}
