/** Cutting a block at a call that does not return (libr/anal/block.c:889-973). */
module Chopping {
  import opened Lists
  import opened Cfg
  import opened Blocks
  import opened SplitMerge

  const NOWHERE := Block(NONE, NONE, None)

  /** The function's entry block exists and belongs to it. */
  predicate EntryOk(bs: BbTree, fs: FcnTable, f: nat)
    requires f in fs
  {
    fs[f].addr in bs && f in bs[fs[f].addr].fcns
  }

  /** The blocks a function loses when b is chopped: those behind b that its entry no longer
      reaches.  g is the graph before the chop, g' the graph after. */
  ghost function Gone(g: Graph, g': Graph, b: nat, ok: bool, entry: nat): set<nat> {
    set x | x in g && Reach(g, b, x) && !(ok && Reach(g', entry, x))
  }

  /** The table of a function after some blocks left it. */
  ghost predicate Pruned(fc: Fcn, fc': Fcn, gone: set<nat>) {
    fc'.addr == fc.addr && forall x :: x in fc'.bbs <==> x in fc.bbs && x !in gone
  }

  /** The blocks of a table after some of them left function f. */
  ghost predicate Left(bs: BbTree, bs': BbTree, f: nat, gone: set<nat>) {
    && bs'.Keys == bs.Keys
    && (forall b :: b in bs ==> bs'[b] == bs[b].(fcns := bs'[b].fcns))
    && forall b, h :: b in bs ==> (h in bs'[b].fcns <==> h in bs[b].fcns && !(h == f && b in gone))
  }

  lemma LeftOnce(bs: BbTree, f: nat, b: nat)
    requires b in bs && Distinct(bs[b].fcns)
    ensures Left(bs, BsRemoved(bs, f, b), f, {b})
  {
    WithoutMembers(bs[b].fcns, f);
  }

  /** Some blocks left function f, and nothing else happened. */
  ghost predicate Removed(bs: BbTree, fs: FcnTable, bs': BbTree, fs': FcnTable, f: nat, gone: set<nat>)
    requires f in fs
  {
    && Left(bs, bs', f, gone) && f in fs' && fs' == fs[f := fs'[f]] && Pruned(fs[f], fs'[f], gone)
  }

  lemma RemovedMore(bs: BbTree, fs: FcnTable, bs1: BbTree, fs1: FcnTable, bs2: BbTree, fs2: FcnTable, f: nat,
                    gone: set<nat>, more: set<nat>)
    requires f in fs && Removed(bs, fs, bs1, fs1, f, gone) && Removed(bs1, fs1, bs2, fs2, f, more)
    ensures Removed(bs, fs, bs2, fs2, f, gone + more)
  {
    forall b | b in bs ensures bs2[b] == bs[b].(fcns := bs2[b].fcns) {
      assert bs1[b] == bs[b].(fcns := bs1[b].fcns);
    }
  }

  lemma MembersStep(s: seq<nat>, i: nat, t: set<nat>)
    requires i < |s|
    ensures Members(s[..i + 1]) - t == Members(s[..i]) - t + (if s[i] in t then {} else {s[i]})
  {
    assert s[..i + 1] == s[..i] + [s[i]];
    MembersIn(s[..i]);
    MembersIn(s[..i + 1]);
  }

  /** noreturn_remove_unreachable_cb on a candidate the entry does not reach. */
  method RemoveOne(an: Anal, f: nat, c: nat)
    requires an.Valid() && f in an.fs && c in an.bs
    modifies an
    ensures an.Valid() && f in an.fs
    ensures Removed(old(an.bs), old(an.fs), an.bs, an.fs, f, {c})
  {
    if f in an.bs[c].fcns {
      LeftOnce(an.bs, f, c);
      WithoutMembers(an.fs[f].bbs, c);
      an.RemoveBlock(f, c);
    }
  }

  /** noreturn_remove_unreachable_cb over all candidates. */
  method RemoveUnreachable(an: Anal, f: nat, cands: seq<nat>, reachable: set<nat>)
    requires an.Valid() && f in an.fs && forall c :: c in cands ==> c in an.bs
    modifies an
    ensures an.Valid() && f in an.fs
    ensures Removed(old(an.bs), old(an.fs), an.bs, an.fs, f, Members(cands) - reachable)
  {
    ghost var bs0, fs0 := an.bs, an.fs;
    var i := 0;
    while i < |cands|
      invariant i <= |cands| && an.Valid() && f in an.fs
      invariant Removed(bs0, fs0, an.bs, an.fs, f, Members(cands[..i]) - reachable)
    {
      ghost var bs1, fs1, gone := an.bs, an.fs, Members(cands[..i]) - reachable;
      MembersStep(cands, i, reachable);
      var c := cands[i];
      assert c in cands;
      if c !in reachable {
        RemoveOne(an, f, c);
        RemovedMore(bs0, fs0, bs1, fs1, an.bs, an.fs, f, gone, {c});
      } else {
        assert gone + {} == gone;
      }
      i := i + 1;
    }
    assert cands[..i] == cands;
  }

  /** One function: mark what its entry reaches now, and take out the other candidates. */
  method ChopFunction(an: Anal, f: nat, cands: seq<nat>, ghost g: Graph, ghost b: nat)
    requires an.Valid() && f in an.fs && CfgOf(an.bs).Keys == g.Keys
    requires forall c :: c in cands <==> Reach(g, b, c)
    requires forall c :: c in cands ==> c in g
    modifies an
    ensures an.Valid() && f in an.fs
    ensures Removed(old(an.bs), old(an.fs), an.bs, an.fs, f,
                    Gone(g, CfgOf(old(an.bs)), b, old(EntryOk(an.bs, an.fs, f)), old(an.fs[f].addr)))
  {
    var entry := an.fs[f].addr;
    var order := [];
    ghost var g' := CfgOf(an.bs);
    if entry in an.bs && f in an.bs[entry].fcns {
      order := Recurse(CfgOf(an.bs), entry);
    }
    MembersIn(cands);
    MembersIn(order);
    assert Members(cands) - Members(order) == Gone(g, g', b, EntryOk(an.bs, an.fs, f), entry);
    RemoveUnreachable(an, f, cands, Members(order));
  }

  ghost function GoneFrom(g: Graph, g': Graph, b: nat, bs: BbTree, fs: FcnTable, f: nat): set<nat>
    requires f in fs
  {
    Gone(g, g', b, EntryOk(bs, fs, f), fs[f].addr)
  }

  /** The functions of list s have lost their blocks, the others have not. */
  ghost predicate ChoppedBlocks(g: Graph, g': Graph, b: nat, bs: BbTree, fs: FcnTable, bs': BbTree, s: seq<nat>) {
    && bs'.Keys == bs.Keys
    && (forall x :: x in bs ==> bs'[x] == bs[x].(fcns := bs'[x].fcns))
    && (forall x, h :: x in bs && h in fs ==>
          (h in bs'[x].fcns <==> h in bs[x].fcns && !(h in s && x in GoneFrom(g, g', b, bs, fs, h))))
  }

  ghost predicate ChoppedFcns(g: Graph, g': Graph, b: nat, bs: BbTree, fs: FcnTable, fs': FcnTable, s: seq<nat>) {
    && fs'.Keys == fs.Keys
    && (forall f :: f in fs && f in s ==> Pruned(fs[f], fs'[f], GoneFrom(g, g', b, bs, fs, f)))
    && (forall f :: f in fs && f !in s ==> fs'[f] == fs[f])
  }

  lemma BlocksStep(g: Graph, g': Graph, b: nat, bs: BbTree, fs: FcnTable, bs1: BbTree, bs2: BbTree, s: seq<nat>, f: nat)
    requires ChoppedBlocks(g, g', b, bs, fs, bs1, s) && f in fs && f !in s
    requires Left(bs1, bs2, f, GoneFrom(g, g', b, bs, fs, f))
    ensures ChoppedBlocks(g, g', b, bs, fs, bs2, s + [f])
  {
    forall x | x in bs ensures bs2[x] == bs[x].(fcns := bs2[x].fcns) {
      assert bs1[x] == bs[x].(fcns := bs1[x].fcns);
    }
  }

  lemma SameEntry(g: Graph, g': Graph, b: nat, bs: BbTree, fs: FcnTable, bs1: BbTree, fs1: FcnTable, s: seq<nat>,
                  f: nat)
    requires ChoppedBlocks(g, g', b, bs, fs, bs1, s) && ChoppedFcns(g, g', b, bs, fs, fs1, s) && f in fs && f !in s
    ensures GoneFrom(g, g', b, bs1, fs1, f) == GoneFrom(g, g', b, bs, fs, f)
  {
    assert EntryOk(bs1, fs1, f) == EntryOk(bs, fs, f);
  }

  lemma ChoppingStep(g: Graph, g': Graph, b: nat, bs: BbTree, fs: FcnTable, bs1: BbTree, fs1: FcnTable,
                     bs2: BbTree, fs2: FcnTable, s: seq<nat>, f: nat)
    requires NONE !in bs && ChoppedBlocks(g, g', b, bs, fs, bs1, s) && ChoppedFcns(g, g', b, bs, fs, fs1, s)
    requires f in fs && f !in s && Removed(bs1, fs1, bs2, fs2, f, GoneFrom(g, g', b, bs1, fs1, f))
    ensures ChoppedBlocks(g, g', b, bs, fs, bs2, s + [f]) && ChoppedFcns(g, g', b, bs, fs, fs2, s + [f])
    ensures CfgOf(bs2) == CfgOf(bs1)
  {
    SameEntry(g, g', b, bs, fs, bs1, fs1, s, f);
    BlocksStep(g, g', b, bs, fs, bs1, bs2, s, f);
  }

  /** The second half of r_anal_block_chop_noreturn's work: every function of the chopped block. */
  method ChopFunctions(an: Anal, fcns: seq<nat>, cands: seq<nat>, ghost g: Graph, ghost b: nat)
    requires an.Valid() && Distinct(fcns) && (forall f :: f in fcns ==> f in an.fs) && CfgOf(an.bs).Keys == g.Keys
    requires forall c :: c in cands <==> Reach(g, b, c)
    requires forall c :: c in cands ==> c in g
    modifies an
    ensures an.Valid()
    ensures ChoppedBlocks(g, CfgOf(old(an.bs)), b, old(an.bs), old(an.fs), an.bs, fcns)
    ensures ChoppedFcns(g, CfgOf(old(an.bs)), b, old(an.bs), old(an.fs), an.fs, fcns)
  {
    ghost var bs0, fs0, s, g' := an.bs, an.fs, [], CfgOf(an.bs);
    var i := 0;
    while i < |fcns|
      invariant i <= |fcns| && s == fcns[..i] && an.Valid() && CfgOf(an.bs) == g'
      invariant ChoppedBlocks(g, g', b, bs0, fs0, an.bs, s) && ChoppedFcns(g, g', b, bs0, fs0, an.fs, s)
    {
      assert fcns[..i + 1] == s + [fcns[i]] && fcns[i] in fcns && fcns[i] !in s;
      ghost var bs1, fs1 := an.bs, an.fs;
      ChopFunction(an, fcns[i], cands, g, b);
      ChoppingStep(g, g', b, bs0, fs0, bs1, fs1, an.bs, an.fs, s, fcns[i]);
      s := s + [fcns[i]];
      i := i + 1;
    }
    assert fcns[..i] == fcns;
  }

  /** The chop takes place strictly inside the block. */
  predicate Chops(bs: BbTree, b: nat, addr: nat)
    requires b in bs
  {
    b < addr < b + bs[b].size
  }

  /** The tables after block b was cut at addr: it ends there, leads nowhere, and each of its
      functions has lost the blocks behind it that its entry no longer reaches. */
  ghost predicate Chopped(bs: BbTree, fs: FcnTable, bs': BbTree, fs': FcnTable, b: nat, addr: nat)
    requires NONE !in bs && b in bs && Chops(bs, b, addr)
  {
    && bs'.Keys == bs.Keys && fs'.Keys == fs.Keys
    && bs'[b] == bs[b].(size := addr - b, out := NOWHERE, fcns := bs'[b].fcns)
    && (forall x :: x in bs && x != b ==> bs'[x] == bs[x].(fcns := bs'[x].fcns))
    && (forall f :: f in fs && f in bs[b].fcns ==>
          Pruned(fs[f], fs'[f], GoneFrom(CfgOf(bs), CfgOf(bs'), b, bs, fs, f)))
    && (forall f :: f in fs && f !in bs[b].fcns ==> fs'[f] == fs[f])
  }

  lemma ChoppedTables(bs: BbTree, fs: FcnTable, bs1: BbTree, fs1: FcnTable, bs': BbTree, fs': FcnTable, b: nat,
                      addr: nat)
    requires Linked(bs, fs) && b in bs && Chops(bs, b, addr)
    requires bs1 == bs[b := bs[b].(size := addr - b, out := NOWHERE)]
    requires fs1 == FsResized(fs, bs[b].fcns, b + bs[b].size, addr)
    requires ChoppedBlocks(CfgOf(bs), CfgOf(bs1), b, bs1, fs1, bs', bs[b].fcns)
    requires ChoppedFcns(CfgOf(bs), CfgOf(bs1), b, bs1, fs1, fs', bs[b].fcns)
    ensures Chopped(bs, fs, bs', fs', b, addr)
  {
    assert CfgOf(bs') == CfgOf(bs1);
    forall f | f in fs && f in bs[b].fcns
      ensures Pruned(fs[f], fs'[f], GoneFrom(CfgOf(bs), CfgOf(bs'), b, bs, fs, f))
    {
      assert EntryOk(bs1, fs1, f) == EntryOk(bs, fs, f);
      assert Pruned(fs1[f], fs'[f], GoneFrom(CfgOf(bs), CfgOf(bs1), b, bs1, fs1, f));
    }
  }

  /** The block itself is resized and loses its out-edges. */
  method Shorten(an: Anal, b: nat, addr: nat)
    requires an.Valid() && b in an.bs && Chops(an.bs, b, addr)
    modifies an
    ensures an.Valid()
    ensures an.bs == old(an.bs)[b := old(an.bs)[b].(size := addr - b, out := NOWHERE)]
    ensures an.fs == FsResized(old(an.fs), old(an.bs)[b].fcns, b + old(an.bs)[b].size, addr)
  {
    ghost var bs0 := an.bs;
    SetSize(an, b, addr - b);
    var chopped := an.bs[b].(out := NOWHERE);
    LinkSame(an.bs, an.fs, an.bs[b := chopped], an.fs);
    BlockUpdates(bs0, b, an.bs[b], chopped);
    an.bs := an.bs[b := chopped];
  }

  /** r_anal_block_chop_noreturn up to its automerge; the candidates it hands on are the blocks
      that were reachable from b. */
  method Chop(an: Anal, b: nat, addr: nat) returns (cands: seq<nat>)
    requires an.Valid() && b in an.bs
    modifies an
    ensures an.Valid()
    ensures !old(Chops(an.bs, b, addr)) ==> an.bs == old(an.bs) && an.fs == old(an.fs) && cands == []
    ensures old(Chops(an.bs, b, addr)) ==>
      && Chopped(old(an.bs), old(an.fs), an.bs, an.fs, b, addr)
      && Distinct(cands) && forall c :: c in cands <==> Reach(CfgOf(old(an.bs)), b, c)
  {
    cands := [];
    if !(b <= addr < b + an.bs[b].size) || addr == b { return; }
    ghost var bs0, fs0, g := an.bs, an.fs, CfgOf(an.bs);
    cands := Recurse(CfgOf(an.bs), b);
    Shorten(an, b, addr);
    ghost var bs1, fs1 := an.bs, an.fs;
    forall c | c in cands ensures c in g { ReachIn(g, b, c); }
    ChopFunctions(an, an.bs[b].fcns, cands, g, b);
    ChoppedTables(bs0, fs0, bs1, fs1, an.bs, an.fs, b, addr);
  }

  lemma ReachIn(g: Graph, a: nat, b: nat)
    requires Reach(g, a, b)
    ensures a in g && b in g
  {
    var p :| PathFromTo(g, p, a, b);
    if |p| > 1 { assert Edge(g, p[|p| - 2], p[|p| - 1]); }
  }

  // ---------------------------------------------------------------- the chop is exact

  /** A block that was reachable is either still so, or lies behind the chopped block. */
  lemma StillOrBehind(g: Graph, b: nat, entry: nat)
    requires b in g && entry in g
    ensures forall x :: Reach(g, entry, x) ==> Reach(g[b := NOWHERE], entry, x) || Reach(g, b, x)
    ensures forall x :: Reach(g[b := NOWHERE], entry, x) ==> Reach(g, entry, x)
  {
    var g' := g[b := NOWHERE];
    var s := set x | x in g && (Reach(g', entry, x) || Reach(g, b, x));
    forall u, v | u in s && Edge(g, u, v) ensures v in s {
      if Reach(g, b, u) {
        ReachStep(g, b, u, v);
      } else {
        if u == b { ReachSelf(g, b); } else { assert Edge(g', u, v); ReachStep(g', entry, u, v); }
      }
    }
    ReachSelf(g', entry);
    ClosedReach(g, s, entry);
    var t := set x | x in g && Reach(g, entry, x);
    forall u, v | u in t && Edge(g', u, v) ensures v in t {
      assert Edge(g, u, v);
      ReachStep(g, entry, u, v);
    }
    ReachSelf(g, entry);
    ClosedReach(g', t, entry);
  }

  /** For a function that holds the block, whose entry block belongs to it and reached all its
      blocks, the blocks left are exactly those the entry reaches without the block's out-edges. */
  lemma ChopExact(bs: BbTree, fs: FcnTable, bs': BbTree, fs': FcnTable, b: nat, addr: nat, f: nat)
    requires Linked(bs, fs) && b in bs && Chops(bs, b, addr) && Chopped(bs, fs, bs', fs', b, addr)
    requires f in bs[b].fcns && EntryOk(bs, fs, f)
    requires forall x :: x in fs[f].bbs ==> Reach(CfgOf(bs), fs[f].addr, x)
    ensures forall x :: x in fs'[f].bbs <==> x in fs[f].bbs && Reach(CfgOf(bs'), fs[f].addr, x)
  {
    assert CfgOf(bs') == CfgOf(bs)[b := NOWHERE];
    StillOrBehind(CfgOf(bs), b, fs[f].addr);
  }

  /** Without an entry block of its own, the function loses everything behind the chop. */
  lemma ChopWithoutEntry(bs: BbTree, fs: FcnTable, bs': BbTree, fs': FcnTable, b: nat, addr: nat, f: nat)
    requires Linked(bs, fs) && b in bs && Chops(bs, b, addr) && Chopped(bs, fs, bs', fs', b, addr)
    requires f in bs[b].fcns && !EntryOk(bs, fs, f)
    ensures forall x :: x in fs'[f].bbs <==> x in fs[f].bbs && !Reach(CfgOf(bs), b, x)
    ensures b !in fs'[f].bbs
  {
    ReachSelf(CfgOf(bs), b);
  }
}
