/** Merging blocks into their only predecessors (libr/anal/block.c:1006-1151). */
module Automerging {
  import opened Lists
  import opened Cfg
  import opened Blocks
  import opened SplitMerge

  type Preds = map<nat, Option<nat>>

  function Out(bs: BbTree, q: nat): seq<nat>
    requires q in bs
  {
    Succs(bs[q].out)
  }

  /** Among the blocks of rel, p is the only one that leads to c. */
  ghost predicate Sole(bs: BbTree, rel: set<nat>, c: nat, p: nat)
    requires rel <= bs.Keys
  {
    p in rel && c in Out(bs, p) && forall q :: q in rel && c in Out(bs, q) ==> q == p
  }

  // ---------------------------------------------------------------- finding the predecessors

  /** What ctx.predecessors knows once the blocks in seen were scanned: nothing about a block no
      one leads to; a predecessor only if it is the only one; and a sole predecessor without other
      successors for certain. */
  ghost predicate Scanned(bs: BbTree, seen: set<nat>, blocks: set<nat>, preds: Preds)
    requires seen <= bs.Keys
  {
    && (forall c, q :: c in blocks && c !in preds && q in seen ==> c !in Out(bs, q))
    && (forall c :: c in blocks && c in preds ==> exists q :: q in seen && c in Out(bs, q))
    && (forall c :: c in blocks && c in preds && preds[c].Some? ==> Sole(bs, seen, c, preds[c].value))
    && (forall c, p :: c in blocks && c in preds && preds[c].None? && p in seen && Out(bs, p) == [c] ==>
          !Sole(bs, seen, c, p))
  }

  /** automerge_predecessor_successor_cb over the successors of p. */
  method ScanSuccessors(addrs: seq<nat>, p: nat, blocks: set<nat>, preds: Preds) returns (preds': Preds)
    ensures forall c :: c in blocks && c !in addrs ==>
      (c in preds' <==> c in preds) && (c in preds ==> preds'[c] == preds[c])
    ensures forall c :: c in blocks && c in addrs && c in preds ==> c in preds' && preds'[c] == None
    ensures forall c :: c in blocks && c in addrs && c !in preds ==>
      c in preds' && (preds'[c] == Some(p) || (preds'[c] == None && |addrs| > 1))
  {
    preds' := preds;
    var k := 0;
    while k < |addrs|
      invariant k <= |addrs|
      invariant forall c :: c in blocks && c !in addrs[..k] ==>
        (c in preds' <==> c in preds) && (c in preds ==> preds'[c] == preds[c])
      invariant forall c :: c in blocks && c in addrs[..k] && c in preds ==> c in preds' && preds'[c] == None
      invariant forall c :: c in blocks && c in addrs[..k] && c !in preds ==>
        c in preds' && (preds'[c] == Some(p) || (preds'[c] == None && k > 1))
    {
      var a := addrs[k];
      assert addrs[..k + 1] == addrs[..k] + [a];
      if a in blocks {
        if a in preds' {
          if preds'[a].Some? { preds' := preds'[a := None]; }
        } else {
          preds' := preds'[a := Some(p)];
        }
      }
      k := k + 1;
    }
    assert addrs[..k] == addrs;
  }

  lemma ScannedStep(bs: BbTree, seen: set<nat>, blocks: set<nat>, preds: Preds, p: nat, preds': Preds)
    requires seen <= bs.Keys && p in bs && p !in seen && Scanned(bs, seen, blocks, preds)
    requires forall c :: c in blocks && c !in Out(bs, p) ==>
      (c in preds' <==> c in preds) && (c in preds ==> preds'[c] == preds[c])
    requires forall c :: c in blocks && c in Out(bs, p) && c in preds ==> c in preds' && preds'[c] == None
    requires forall c :: c in blocks && c in Out(bs, p) && c !in preds ==>
      c in preds' && (preds'[c] == Some(p) || (preds'[c] == None && |Out(bs, p)| > 1))
    ensures Scanned(bs, seen + {p}, blocks, preds')
  {
    forall c | c in blocks && c in preds' ensures exists q :: q in seen + {p} && c in Out(bs, q) {
      if c in Out(bs, p) {
        assert p in seen + {p};
      } else {
        var q :| q in seen && c in Out(bs, q);
        assert q in seen + {p};
      }
    }
    forall c, p' | c in blocks && c in preds' && preds'[c].None? && p' in seen + {p} && Out(bs, p') == [c]
      ensures !Sole(bs, seen + {p}, c, p')
    {
      if c in Out(bs, p) && c in preds {
        var q :| q in seen && c in Out(bs, q);
        assert q in seen + {p} && p in seen + {p};
      } else if c !in Out(bs, p) {
        assert p' in seen && !Sole(bs, seen, c, p');
      }
    }
  }

  lemma MembersNext(s: seq<nat>, i: nat)
    requires i < |s|
    ensures Members(s[..i + 1]) == Members(s[..i]) + {s[i]}
  {
    assert s[..i + 1] == s[..i] + [s[i]];
    MembersIn(s[..i]);
    MembersIn(s[..i + 1]);
  }

  /** automerge_get_predecessors_cb: every block of one function that was not scanned before. */
  method ScanFunction(bs: BbTree, bbs: seq<nat>, blocks: set<nat>, preds: Preds, visited: map<nat, nat>)
      returns (preds': Preds, visited': map<nat, nat>)
    requires visited.Keys <= bs.Keys && forall q :: q in bbs ==> q in bs
    requires Scanned(bs, visited.Keys, blocks, preds) && Counted(bs, visited)
    ensures visited'.Keys <= bs.Keys && visited'.Keys == visited.Keys + Members(bbs)
    ensures Scanned(bs, visited'.Keys, blocks, preds') && Counted(bs, visited')
  {
    preds', visited' := preds, visited;
    var i := 0;
    while i < |bbs|
      invariant i <= |bbs| && visited'.Keys <= bs.Keys && visited'.Keys == visited.Keys + Members(bbs[..i])
      invariant Scanned(bs, visited'.Keys, blocks, preds') && Counted(bs, visited')
    {
      var p := bbs[i];
      MembersNext(bbs, i);
      if p !in visited' {
        ghost var preds1, seen := preds', visited'.Keys;
        preds' := ScanSuccessors(Out(bs, p), p, blocks, preds');
        ScannedStep(bs, seen, blocks, preds1, p, preds');
        visited' := visited'[p := |Out(bs, p)|];
        assert visited'.Keys == seen + {p};
      }
      i := i + 1;
    }
    assert bbs[..i] == bbs;
  }

  ghost predicate Counted(bs: BbTree, visited: map<nat, nat>)
    requires visited.Keys <= bs.Keys
  {
    forall q :: q in visited ==> visited[q] == |Out(bs, q)|
  }

  /** All the blocks of some functions. */
  ghost function BlocksOf(fs: FcnTable, fcns: set<nat>): set<nat>
    requires fcns <= fs.Keys
  {
    set f: nat, q: nat | f in fcns && q in fs[f].bbs :: q
  }

  method ScanFunctions(bs: BbTree, fs: FcnTable, fcns: set<nat>, blocks: set<nat>)
      returns (preds: Preds, visited: map<nat, nat>)
    requires Linked(bs, fs) && fcns <= fs.Keys
    ensures BlocksOf(fs, fcns) <= bs.Keys && visited.Keys == BlocksOf(fs, fcns)
    ensures Scanned(bs, visited.Keys, blocks, preds) && Counted(bs, visited)
  {
    preds, visited := map[], map[];
    var todo := fcns;
    ghost var done: set<nat> := {};
    while todo != {}
      invariant todo + done == fcns
      invariant visited.Keys <= bs.Keys && visited.Keys == BlocksOf(fs, done)
      invariant Scanned(bs, visited.Keys, blocks, preds) && Counted(bs, visited)
      decreases todo
    {
      var f :| f in todo;
      todo := todo - {f};
      MembersIn(fs[f].bbs);
      assert BlocksOf(fs, done + {f}) == BlocksOf(fs, done) + Members(fs[f].bbs);
      done := done + {f};
      preds, visited := ScanFunction(bs, fs[f].bbs, blocks, preds, visited);
    }
    assert done == fcns;
  }

  // ---------------------------------------------------------------- one merge

  /** c can be merged into p: p is its only predecessor and leads nowhere else, it ends where c
      starts, and both are in the same functions. */
  ghost predicate CanMerge(bs: BbTree, rel: set<nat>, c: nat, p: nat)
    requires rel <= bs.Keys
  {
    c in bs && Sole(bs, rel, c, p) && Out(bs, p) == [c] && Merges(bs, p, c)
  }

  /** The predecessors are right for the blocks still to come. */
  ghost predicate Known(bs: BbTree, rel: set<nat>, rest: seq<nat>, preds: Preds)
    requires rel <= bs.Keys
  {
    && (forall c :: c in rest && c in preds && preds[c].Some? ==> Sole(bs, rel, c, preds[c].value))
    && (forall c: nat, p: nat ::
          c in rest && Sole(bs, rel, c, p) && Out(bs, p) == [c] ==> c in preds && preds[c] == Some(p))
  }

  /** No block without bytes is its own successor: it would be merged with itself. */
  ghost predicate NoEmptyLoop(bs: BbTree) {
    forall q :: q in bs && bs[q].size == 0 ==> q !in Out(bs, q)
  }

  /** What NoEmptyLoop rules out: such a block, if nothing else leads to it, can be merged with
      itself, by r_anal_block_merge as by the round that asks whether to call it. */
  lemma EmptyLoopMerges(bs: BbTree, rel: set<nat>, a: nat)
    requires rel <= bs.Keys && a in rel && bs[a].size == 0 && Out(bs, a) == [a]
    requires forall q :: q in rel && a in Out(bs, q) ==> q == a
    ensures Merges(bs, a, a) && CanMerge(bs, rel, a, a) && !NoEmptyLoop(bs)
  {
    assert a in Out(bs, a);
  }

  /** rel holds exactly the blocks that are in one of those functions. */
  ghost predicate Relevant(bs: BbTree, fcns: set<nat>, rel: set<nat>) {
    forall q :: q in rel <==> q in bs && exists f :: f in fcns && f in bs[q].fcns
  }

  /** Block c is about to be, or was, merged into p. */
  ghost predicate Step(bs: BbTree, fcns: set<nat>, rel: set<nat>, c: nat, p: nat, bs': BbTree) {
    && NONE !in bs && rel <= bs.Keys && Relevant(bs, fcns, rel) && NoEmptyLoop(bs)
    && (forall q :: q in bs ==> Distinct(bs[q].fcns))
    && CanMerge(bs, rel, c, p) && p != c && MergeBlocks(bs, bs', p, c)
  }

  lemma StepFacts(bs: BbTree, fcns: set<nat>, rel: set<nat>, c: nat, p: nat, bs': BbTree)
    requires Step(bs, fcns, rel, c, p, bs')
    ensures c in rel && rel - {c} <= bs'.Keys && Relevant(bs', fcns, rel - {c})
    ensures Out(bs', p) == Out(bs, c) && c !in Out(bs, c)
    ensures forall q :: q in bs && q != p && q != c ==> q in bs' && bs'[q] == bs[q]
  {
    var f :| f in fcns && f in bs[p].fcns;
    assert f in bs[c].fcns;
  }

  lemma StepKeepsLoopFree(bs: BbTree, fcns: set<nat>, rel: set<nat>, c: nat, p: nat, bs': BbTree)
    requires Step(bs, fcns, rel, c, p, bs')
    ensures NoEmptyLoop(bs')
  {
    StepFacts(bs, fcns, rel, c, p, bs');
  }

  /** An edge to a block stays an edge to a block. */
  lemma StepKeepsTargets(bs: BbTree, fcns: set<nat>, rel: set<nat>, c: nat, p: nat, bs': BbTree, bs0: BbTree)
    requires Step(bs, fcns, rel, c, p, bs')
    requires forall q, v :: q in rel && v in Out(bs, q) && v in bs0 ==> v in bs
    ensures rel - {c} <= bs'.Keys
    ensures forall q, v :: q in rel - {c} && v in Out(bs', q) && v in bs0 ==> v in bs'
  {
    StepFacts(bs, fcns, rel, c, p, bs');
    forall q, v | q in rel - {c} && v in Out(bs', q) && v in bs0 ensures v in bs' {
      if q == p {
        assert v in Out(bs, c) && c in rel;
      } else {
        assert v in Out(bs, q);
      }
    }
  }

  /** The fix-up: blocks to come whose predecessor was c now follow p. */
  function Redirected(preds: Preds, rest: seq<nat>, c: nat, p: nat): Preds {
    map d | d in preds :: if d in rest && preds[d] == Some(c) then Some(p) else preds[d]
  }

  lemma SoleBack(bs: BbTree, fcns: set<nat>, rel: set<nat>, c: nat, p: nat, bs': BbTree, d: nat, q: nat)
    requires Step(bs, fcns, rel, c, p, bs') && d != c && d in bs
    requires rel - {c} <= bs'.Keys && Sole(bs', rel - {c}, d, q)
    ensures Sole(bs, rel, d, if q == p then c else q)
  {
    StepFacts(bs, fcns, rel, c, p, bs');
    var q0 := if q == p then c else q;
    forall r | r in rel && d in Out(bs, r) ensures r == q0 {
      if r == c {
        assert d in Out(bs', p) && p in rel - {c};
      } else if r != p {
        assert d in Out(bs', r) && r in rel - {c};
      }
    }
  }

  lemma SoleForth(bs: BbTree, fcns: set<nat>, rel: set<nat>, c: nat, p: nat, bs': BbTree, d: nat, q: nat)
    requires Step(bs, fcns, rel, c, p, bs') && d != c && Sole(bs, rel, d, q)
    ensures rel - {c} <= bs'.Keys && Sole(bs', rel - {c}, d, if q == c then p else q)
  {
    StepFacts(bs, fcns, rel, c, p, bs');
    var q1 := if q == c then p else q;
    assert q != p;
    forall r | r in rel - {c} && d in Out(bs', r) ensures r == q1 {
      if r == p { assert d in Out(bs, c); } else { assert d in Out(bs, r); }
    }
  }

  lemma KnownForth(bs: BbTree, fcns: set<nat>, rel: set<nat>, c: nat, p: nat, bs': BbTree, rest: seq<nat>,
                   preds: Preds, d: nat)
    requires Step(bs, fcns, rel, c, p, bs') && d != c && d in rest && d in preds && preds[d].Some?
    requires Sole(bs, rel, d, preds[d].value)
    ensures rel - {c} <= bs'.Keys && Redirected(preds, rest, c, p)[d].Some?
    ensures Sole(bs', rel - {c}, d, Redirected(preds, rest, c, p)[d].value)
  {
    SoleForth(bs, fcns, rel, c, p, bs', d, preds[d].value);
  }

  lemma KnownBack(bs: BbTree, fcns: set<nat>, rel: set<nat>, c: nat, p: nat, bs': BbTree, rest: seq<nat>, preds: Preds,
                  d: nat, q: nat)
    requires Step(bs, fcns, rel, c, p, bs') && d != c && d in rest && d in bs
    requires rel - {c} <= bs'.Keys && Sole(bs', rel - {c}, d, q) && Out(bs', q) == [d]
    requires Known(bs, rel, [c] + rest, preds)
    ensures d in preds && Redirected(preds, rest, c, p)[d] == Some(q)
  {
    StepFacts(bs, fcns, rel, c, p, bs');
    SoleBack(bs, fcns, rel, c, p, bs', d, q);
    var q0 := if q == p then c else q;
    assert Out(bs, q0) == [d];
    assert d in [c] + rest;
    assert preds[d] == Some(q0);
    assert preds[d] == Some(c) <==> q == p;
  }

  lemma StepKeepsKnown(bs: BbTree, fcns: set<nat>, rel: set<nat>, c: nat, p: nat, bs': BbTree, rest: seq<nat>,
                       preds: Preds)
    requires Step(bs, fcns, rel, c, p, bs') && c !in rest && Known(bs, rel, [c] + rest, preds)
    requires forall d :: d in rest ==> d in bs
    ensures rel - {c} <= bs'.Keys && Known(bs', rel - {c}, rest, Redirected(preds, rest, c, p))
  {
    StepFacts(bs, fcns, rel, c, p, bs');
    var preds' := Redirected(preds, rest, c, p);
    forall d | d in rest && d in preds' && preds'[d].Some? ensures Sole(bs', rel - {c}, d, preds'[d].value) {
      assert d in [c] + rest;
      KnownForth(bs, fcns, rel, c, p, bs', rest, preds, d);
    }
    forall d: nat, q: nat | d in rest && Sole(bs', rel - {c}, d, q) && Out(bs', q) == [d]
      ensures d in preds' && preds'[d] == Some(q)
    {
      KnownBack(bs, fcns, rel, c, p, bs', rest, preds, d, q);
    }
  }

  lemma CanMergeBack(bs: BbTree, fcns: set<nat>, rel: set<nat>, c: nat, p: nat, bs': BbTree, d: nat, q: nat)
    requires Step(bs, fcns, rel, c, p, bs') && d != c && d in bs
    requires rel - {c} <= bs'.Keys && CanMerge(bs', rel - {c}, d, q)
    ensures CanMerge(bs, rel, d, if q == p then c else q)
  {
    StepFacts(bs, fcns, rel, c, p, bs');
    SoleBack(bs, fcns, rel, c, p, bs', d, q);
    SameMembers(bs[p].fcns, bs[c].fcns);
  }

  /** A block that could not be merged before a merge of others cannot be merged after it. */
  lemma StepKeepsDone(bs: BbTree, fcns: set<nat>, rel: set<nat>, c: nat, p: nat, bs': BbTree, d: nat)
    requires Step(bs, fcns, rel, c, p, bs') && d != c && d in bs
    requires forall q :: !CanMerge(bs, rel, d, q)
    ensures rel - {c} <= bs'.Keys && forall q :: !CanMerge(bs', rel - {c}, d, q)
  {
    StepFacts(bs, fcns, rel, c, p, bs');
    forall q: nat ensures !CanMerge(bs', rel - {c}, d, q) {
      if CanMerge(bs', rel - {c}, d, q) { CanMergeBack(bs, fcns, rel, c, p, bs', d, q); }
    }
  }

  lemma StepKeepsBytes(bs: BbTree, fs: FcnTable, c: nat, p: nat, bs': BbTree, f: nat, x: nat)
    requires Linked(bs, fs) && c in bs && p in bs && p != c && Merges(bs, p, c) && MergeBlocks(bs, bs', p, c) && f in fs
    ensures Covers(bs', FsMerged(bs, fs, p, c)[f], x) <==> Covers(bs, fs[f], x)
  {
    SameMembers(bs[p].fcns, bs[c].fcns);
    var fc' := FsMerged(bs, fs, p, c)[f];
    WithoutMembers(fs[f].bbs, c);
    if Covers(bs, fs[f], x) {
      var b :| b in fs[f].bbs && b in bs && b <= x < b + bs[b].size;
      var b' := if b == c then p else b;
      assert f in bs[b].fcns;
      assert b' in fc'.bbs && b' in bs' && b' <= x < b' + bs'[b'].size;
    }
    if Covers(bs', fc', x) {
      var b :| b in fc'.bbs && b in bs' && b <= x < b + bs'[b].size;
      var b0 := if b == p && c <= x then c else b;
      assert f in bs[b].fcns;
      assert b0 in fs[f].bbs && b0 in bs && b0 <= x < b0 + bs[b0].size;
    }
  }

  // ---------------------------------------------------------------- r_anal_block_automerge

  /** The blocks still to come whose predecessor is c. */
  method FixupCandidates(preds: Preds, rest: seq<nat>, c: nat) returns (cands: seq<nat>)
    ensures forall d :: d in cands <==> d in rest && d in preds && preds[d] == Some(c)
  {
    cands := [];
    for i := 0 to |rest|
      invariant forall d :: d in cands <==> d in rest[..i] && d in preds && preds[d] == Some(c)
    {
      assert rest[..i + 1] == rest[..i] + [rest[i]];
      if rest[i] in preds && preds[rest[i]] == Some(c) { cands := cands + [rest[i]]; }
    }
    assert rest[..|rest|] == rest;
  }

  method Redirect(preds: Preds, cands: seq<nat>, p: nat) returns (preds': Preds)
    requires forall d :: d in cands ==> d in preds
    ensures preds' == map d | d in preds :: if d in cands then Some(p) else preds[d]
  {
    preds' := preds;
    for i := 0 to |cands|
      invariant preds' == map d | d in preds :: if d in cands[..i] then Some(p) else preds[d]
    {
      assert cands[..i + 1] == cands[..i] + [cands[i]] && cands[i] in cands;
      preds' := preds'[cands[i] := Some(p)];
    }
    assert cands[..|cands|] == cands;
  }

  /** What the merging loop knows about the blocks it has not reached. */
  ghost predicate Pending(bs: BbTree, fcns: set<nat>, rel: set<nat>, rest: seq<nat>, preds: Preds, visited: map<nat,
                          nat>) {
    && NONE !in bs && rel <= bs.Keys && Relevant(bs, fcns, rel) && NoEmptyLoop(bs)
    && Distinct(rest) && (forall d :: d in rest ==> d in bs) && Known(bs, rel, rest, preds)
    && (forall q :: q in rel ==> q in visited && visited[q] == |Out(bs, q)|)
  }

  lemma NotMergeable(bs: BbTree, fcns: set<nat>, rel: set<nat>, c: nat, rest: seq<nat>, preds: Preds,
                     visited: map<nat, nat>)
    requires Pending(bs, fcns, rel, [c] + rest, preds, visited)
    requires c in preds && preds[c].Some? && visited[preds[c].value] == 1 ==> !Merges(bs, preds[c].value, c)
    ensures forall q: nat :: !CanMerge(bs, rel, c, q)
  {
    assert c in [c] + rest;
  }

  lemma OnlySuccessor(bs: BbTree, fcns: set<nat>, rel: set<nat>, c: nat, rest: seq<nat>, preds: Preds,
                      visited: map<nat, nat>)
    requires Pending(bs, fcns, rel, [c] + rest, preds, visited)
    requires c in preds && preds[c].Some? && visited[preds[c].value] == 1 && Merges(bs, preds[c].value, c)
    ensures CanMerge(bs, rel, c, preds[c].value) && preds[c].value != c
  {
    assert c in [c] + rest;
    var p := preds[c].value;
    assert Sole(bs, rel, c, p) && |Out(bs, p)| == 1 && Out(bs, p)[0] == c;
  }

  /** One round of the merging loop: merge c into its predecessor if that is allowed. */
  method TryMerge(an: Anal, ghost fcns: set<nat>, ghost rel: set<nat>, c: nat, rest: seq<nat>, preds: Preds,
                  visited: map<nat, nat>) returns (p: Option<nat>, preds': Preds, visited': map<nat, nat>)
    requires an.Valid() && Pending(an.bs, fcns, rel, [c] + rest, preds, visited) && c in an.bs
    requires c in preds && preds[c].Some? ==> preds[c].value in an.bs && preds[c].value in visited
    modifies an
    ensures an.Valid()
    ensures p.None? ==> an.bs == old(an.bs) && an.fs == old(an.fs) && preds' == preds && visited' == visited
    ensures p.None? ==> forall q: nat :: !CanMerge(old(an.bs), rel, c, q)
    ensures p.Some? ==>
      && Step(old(an.bs), fcns, rel, c, p.value, an.bs) && an.fs == FsMerged(old(an.bs), old(an.fs), p.value, c)
      && preds' == Redirected(preds, rest, c, p.value) && visited' == visited[p.value := |Out(an.bs, p.value)|]
  {
    p, preds', visited' := None, preds, visited;
    if c in preds && preds[c].Some? && visited[preds[c].value] == 1 {
      var pred := preds[c].value;
      var fixups := FixupCandidates(preds, rest, c);
      ghost var bs0 := an.bs;
      if Merges(bs0, pred, c) { OnlySuccessor(bs0, fcns, rel, c, rest, preds, visited); }
      else { NotMergeable(bs0, fcns, rel, c, rest, preds, visited); }
      if pred != c {  // a block with bytes does not end where it starts, so merging it with itself is refused
        var ok := Merge(an, pred, c);
        if ok {
          visited' := visited[pred := |Out(an.bs, pred)|];
          preds' := Redirect(preds, fixups, pred);
          p := Some(pred);
        }
      }
    } else {
      NotMergeable(an.bs, fcns, rel, c, rest, preds, visited);
    }
  }

  /** Blocks only disappear, and only those that were merged; the others keep their functions and
      everything outside rel0 is as it was. */
  ghost predicate Shrunk(bs0: BbTree, bs: BbTree, rel0: set<nat>, done: seq<nat>) {
    && bs.Keys <= bs0.Keys
    && (forall b :: b in bs0 && b !in bs ==> b in done)
    && (forall b :: b in bs ==> bs[b].fcns == bs0[b].fcns)
    && (forall b :: b in bs && b !in rel0 ==> bs[b] == bs0[b])
  }

  /** Functions keep exactly the blocks that still exist, and all their bytes. */
  ghost predicate SameBytes(bs0: BbTree, fs0: FcnTable, bs: BbTree, fs: FcnTable) {
    && fs.Keys == fs0.Keys
    && (forall f :: f in fs0 ==> fs[f].addr == fs0[f].addr)
    && (forall f, b: nat :: f in fs0 ==> (b in fs[f].bbs <==> b in fs0[f].bbs && b in bs))
    && (forall f, x: nat :: f in fs0 ==> (Covers(bs, fs[f], x) <==> Covers(bs0, fs0[f], x)))
  }

  /** No edge of a block in rel lost the block it led to. */
  ghost predicate NoDangling(bs0: BbTree, bs: BbTree, rel: set<nat>)
    requires rel <= bs.Keys
  {
    forall q, v :: q in rel && v in Out(bs, q) && v in bs0 ==> v in bs
  }

  /** None of those blocks can be merged into a predecessor. */
  ghost predicate Settled(bs: BbTree, rel: set<nat>, done: seq<nat>)
    requires rel <= bs.Keys
  {
    forall d, q: nat :: d in done && d in bs ==> !CanMerge(bs, rel, d, q)
  }

  lemma StepShrinks(bs0: BbTree, rel0: set<nat>, bs: BbTree, fcns: set<nat>, rel: set<nat>, c: nat, p: nat, bs': BbTree,
                    done: seq<nat>)
    requires Shrunk(bs0, bs, rel0, done) && Step(bs, fcns, rel, c, p, bs') && rel <= rel0
    ensures Shrunk(bs0, bs', rel0, done + [c])
  {
    StepFacts(bs, fcns, rel, c, p, bs');
    forall b | b in bs0 && b !in bs' ensures b in done + [c] {
      if b in bs { assert b == c; assert (done + [c])[|done|] == c; } else { assert b in done; }
    }
  }

  lemma MergedList(bs: BbTree, fs: FcnTable, c: nat, p: nat, bs': BbTree, f: nat)
    requires Linked(bs, fs) && c in bs && p in bs && p != c && Merges(bs, p, c) && MergeBlocks(bs, bs', p, c) && f in fs
    ensures forall b: nat :: b in FsMerged(bs, fs, p, c)[f].bbs <==> b in fs[f].bbs && b in bs'
  {
    SameMembers(bs[p].fcns, bs[c].fcns);
    WithoutMembers(fs[f].bbs, c);
    if c in fs[f].bbs { assert f in bs[c].fcns && f in bs[p].fcns; }
    if f in bs[p].fcns { assert c !in FsMerged(bs, fs, p, c)[f].bbs; }
  }

  lemma StepSameBytes(bs0: BbTree, fs0: FcnTable, bs: BbTree, fs: FcnTable, c: nat, p: nat, bs': BbTree)
    requires SameBytes(bs0, fs0, bs, fs) && Linked(bs, fs) && c in bs && p in bs && p != c
    requires Merges(bs, p, c) && MergeBlocks(bs, bs', p, c)
    ensures SameBytes(bs0, fs0, bs', FsMerged(bs, fs, p, c))
  {
    var fs' := FsMerged(bs, fs, p, c);
    assert fs'.Keys == fs0.Keys;
    forall f | f in fs0 ensures fs'[f].addr == fs0[f].addr { assert fs[f].addr == fs0[f].addr; }
    forall f, b: nat | f in fs0 ensures b in fs'[f].bbs <==> b in fs0[f].bbs && b in bs' {
      MergedList(bs, fs, c, p, bs', f);
      assert b in fs[f].bbs <==> b in fs0[f].bbs && b in bs;
    }
    forall f, x: nat | f in fs0 ensures Covers(bs', fs'[f], x) <==> Covers(bs0, fs0[f], x) {
      StepKeepsBytes(bs, fs, c, p, bs', f, x);
      assert Covers(bs, fs[f], x) <==> Covers(bs0, fs0[f], x);
    }
  }

  lemma StepSettled(bs: BbTree, fcns: set<nat>, rel: set<nat>, c: nat, p: nat, bs': BbTree, done: seq<nat>)
    requires Step(bs, fcns, rel, c, p, bs') && Settled(bs, rel, done)
    ensures rel - {c} <= bs'.Keys && Settled(bs', rel - {c}, done + [c])
  {
    StepFacts(bs, fcns, rel, c, p, bs');
    forall d: nat, q: nat | d in done + [c] && d in bs' ensures !CanMerge(bs', rel - {c}, d, q) {
      assert d in done;
      forall q': nat ensures !CanMerge(bs, rel, d, q') {}
      StepKeepsDone(bs, fcns, rel, c, p, bs', d);
    }
  }

  lemma Behind(c: nat, rest: seq<nat>)
    requires Distinct([c] + rest)
    ensures Distinct(rest) && c !in rest
  {
    forall i, j | 0 <= i < j < |rest| ensures rest[i] != rest[j] {
      assert ([c] + rest)[i + 1] != ([c] + rest)[j + 1];
    }
    forall i | 0 <= i < |rest| ensures rest[i] != c {
      assert ([c] + rest)[0] != ([c] + rest)[i + 1];
    }
  }

  lemma StepCounts(bs: BbTree, fcns: set<nat>, rel: set<nat>, c: nat, p: nat, bs': BbTree, visited: map<nat, nat>)
    requires Step(bs, fcns, rel, c, p, bs') && forall q :: q in rel ==> q in visited && visited[q] == |Out(bs, q)|
    ensures p in bs' && NONE !in bs' && rel - {c} <= bs'.Keys && Relevant(bs', fcns, rel - {c}) && NoEmptyLoop(bs')
    ensures forall q :: q in rel - {c} ==>
      q in visited[p := |Out(bs', p)|] && visited[p := |Out(bs', p)|][q] == |Out(bs', q)|
    ensures forall d :: d in bs && d != c ==> d in bs'
  {
    StepFacts(bs, fcns, rel, c, p, bs');
    StepKeepsLoopFree(bs, fcns, rel, c, p, bs');
  }

  lemma StepPending(bs: BbTree, fcns: set<nat>, rel: set<nat>, c: nat, p: nat, bs': BbTree, rest: seq<nat>,
                    preds: Preds,
                    visited: map<nat, nat>)
    requires Pending(bs, fcns, rel, [c] + rest, preds, visited) && Step(bs, fcns, rel, c, p, bs')
    ensures p in bs'
    ensures Pending(bs', fcns, rel - {c}, rest, Redirected(preds, rest, c, p), visited[p := |Out(bs', p)|])
  {
    Behind(c, rest);
    forall d | d in rest ensures d in bs { assert d in [c] + rest; }
    StepKeepsKnown(bs, fcns, rel, c, p, bs', rest, preds);
    StepCounts(bs, fcns, rel, c, p, bs', visited);
  }

  lemma PendingTail(bs: BbTree, fcns: set<nat>, rel: set<nat>, c: nat, rest: seq<nat>, preds: Preds,
                    visited: map<nat, nat>)
    requires Pending(bs, fcns, rel, [c] + rest, preds, visited)
    ensures Pending(bs, fcns, rel, rest, preds, visited)
  {
    Behind(c, rest);
    forall d | d in rest ensures d in [c] + rest {}
  }

  /** The functions of some blocks, and all the blocks of some functions. */
  ghost function FcnsOf(bs: BbTree, blocks: seq<nat>): set<nat> {
    set c: nat, f: nat | c in blocks && c in bs && f in bs[c].fcns :: f
  }

  ghost function InFcns(bs: BbTree, fcns: set<nat>): set<nat> {
    set q | q in bs && exists f :: f in fcns && f in bs[q].fcns
  }

  method RelevantFcns(bs: BbTree, blocks: seq<nat>) returns (fcns: set<nat>)
    requires forall c :: c in blocks ==> c in bs
    ensures fcns == FcnsOf(bs, blocks)
  {
    fcns := {};
    for i := 0 to |blocks|
      invariant fcns == FcnsOf(bs, blocks[..i])
    {
      assert blocks[..i + 1] == blocks[..i] + [blocks[i]] && blocks[i] in blocks;
      MembersIn(bs[blocks[i]].fcns);
      fcns := fcns + Members(bs[blocks[i]].fcns);
    }
    assert blocks[..|blocks|] == blocks;
  }

  lemma StartPending(bs: BbTree, fs: FcnTable, fcns: set<nat>, blocks: seq<nat>, preds: Preds, visited: map<nat, nat>)
    requires Linked(bs, fs) && fcns <= fs.Keys && NoEmptyLoop(bs)
    requires Distinct(blocks) && forall c :: c in blocks ==> c in bs
    requires visited.Keys == BlocksOf(fs, fcns) <= bs.Keys && Counted(bs, visited)
    requires Scanned(bs, visited.Keys, Members(blocks), preds)
    ensures visited.Keys == InFcns(bs, fcns)
    ensures Pending(bs, fcns, visited.Keys, blocks, preds, visited)
  {
    MembersIn(blocks);
    var rel := visited.Keys;
    forall q ensures q in rel <==> q in bs && exists f :: f in fcns && f in bs[q].fcns {
      if q in rel {
        var f :| f in fcns && q in fs[f].bbs;
        assert f in bs[q].fcns;
      }
      if q in bs && exists f :: f in fcns && f in bs[q].fcns {
        var f :| f in fcns && f in bs[q].fcns;
        assert q in fs[f].bbs;
      }
    }
    forall c: nat, p: nat | c in blocks && Sole(bs, rel, c, p) && Out(bs, p) == [c]
      ensures c in preds && preds[c] == Some(p)
    {
      assert c in Out(bs, p) && c in Members(blocks);
      assert c in preds;
      assert preds[c].Some?;
    }
  }

  /** The state of the merging loop: done is behind it, rest to come. */
  ghost predicate Merging(bs0: BbTree, fs0: FcnTable, fcns: set<nat>, rel0: set<nat>, bs: BbTree, fs: FcnTable,
                          rel: set<nat>, done: seq<nat>, rest: seq<nat>, preds: Preds, visited: map<nat, nat>) {
    && Pending(bs, fcns, rel, rest, preds, visited) && rel <= rel0
    && Shrunk(bs0, bs, rel0, done) && SameBytes(bs0, fs0, bs, fs)
    && NoDangling(bs0, bs, rel) && Settled(bs, rel, done)
  }

  lemma MergingStep(bs0: BbTree, fs0: FcnTable, fcns: set<nat>, rel0: set<nat>, bs: BbTree, fs: FcnTable, rel: set<nat>,
                    done: seq<nat>, c: nat, rest: seq<nat>, preds: Preds, visited: map<nat, nat>, p: nat, bs': BbTree)
    requires Merging(bs0, fs0, fcns, rel0, bs, fs, rel, done, [c] + rest, preds, visited) && Linked(bs, fs)
    requires Step(bs, fcns, rel, c, p, bs')
    ensures p in bs'
    ensures Merging(bs0, fs0, fcns, rel0, bs', FsMerged(bs, fs, p, c), rel - {c}, done + [c], rest,
                    Redirected(preds, rest, c, p), visited[p := |Out(bs', p)|])
  {
    StepShrinks(bs0, rel0, bs, fcns, rel, c, p, bs', done);
    StepSameBytes(bs0, fs0, bs, fs, c, p, bs');
    StepKeepsTargets(bs, fcns, rel, c, p, bs', bs0);
    StepSettled(bs, fcns, rel, c, p, bs', done);
    StepPending(bs, fcns, rel, c, p, bs', rest, preds, visited);
  }

  lemma MergingSkip(bs0: BbTree, fs0: FcnTable, fcns: set<nat>, rel0: set<nat>, bs: BbTree, fs: FcnTable, rel: set<nat>,
                    done: seq<nat>, c: nat, rest: seq<nat>, preds: Preds, visited: map<nat, nat>)
    requires Merging(bs0, fs0, fcns, rel0, bs, fs, rel, done, [c] + rest, preds, visited)
    requires forall q: nat :: !CanMerge(bs, rel, c, q)
    ensures Merging(bs0, fs0, fcns, rel0, bs, fs, rel, done + [c], rest, preds, visited)
  {
    PendingTail(bs, fcns, rel, c, rest, preds, visited);
  }

  lemma MergingReady(bs: BbTree, fcns: set<nat>, rel: set<nat>, c: nat, rest: seq<nat>, preds: Preds,
                     visited: map<nat, nat>)
    requires Pending(bs, fcns, rel, [c] + rest, preds, visited)
    ensures c in bs && (c in preds && preds[c].Some? ==> preds[c].value in bs && preds[c].value in visited)
  {
    assert c in [c] + rest;
  }

  /** What r_anal_block_automerge promises, for the functions of the blocks it was given: no edge
      loses its target; every function keeps its bytes; none of those blocks that is left could
      still be merged. */
  ghost predicate Automerged(bs: BbTree, fs: FcnTable, bs': BbTree, fs': FcnTable, blocks: seq<nat>) {
    var fcns := FcnsOf(bs, blocks);
    && Shrunk(bs, bs', InFcns(bs, fcns), blocks) && SameBytes(bs, fs, bs', fs')
    && NoDangling(bs, bs', InFcns(bs', fcns)) && Settled(bs', InFcns(bs', fcns), blocks)
  }

  lemma MergingDone(bs0: BbTree, fs0: FcnTable, bs: BbTree, fs: FcnTable, rel: set<nat>, blocks: seq<nat>, preds: Preds,
                    visited: map<nat, nat>)
    requires Merging(bs0, fs0, FcnsOf(bs0, blocks), InFcns(bs0, FcnsOf(bs0, blocks)), bs, fs, rel, blocks, [],
                     preds, visited)
    ensures NoEmptyLoop(bs) && Automerged(bs0, fs0, bs, fs, blocks)
  {
    assert rel == InFcns(bs, FcnsOf(bs0, blocks));
  }

  /** One round of the loop, with what it means for the whole run. */
  method MergeRound(an: Anal, ghost bs0: BbTree, ghost fs0: FcnTable, ghost fcns: set<nat>, ghost rel0: set<nat>,
                    ghost rel: set<nat>, ghost done: seq<nat>, c: nat, rest: seq<nat>, preds: Preds,
                    visited: map<nat, nat>)
      returns (merged: bool, preds': Preds, visited': map<nat, nat>, ghost rel': set<nat>)
    requires an.Valid() && Merging(bs0, fs0, fcns, rel0, an.bs, an.fs, rel, done, [c] + rest, preds, visited)
    modifies an
    ensures an.Valid() && Merging(bs0, fs0, fcns, rel0, an.bs, an.fs, rel', done + [c], rest, preds', visited')
    ensures an.bs.Keys == old(an.bs).Keys - (if merged then {c} else {})
  {
    ghost var bs1, fs1 := an.bs, an.fs;
    MergingReady(bs1, fcns, rel, c, rest, preds, visited);
    var p;
    p, preds', visited' := TryMerge(an, fcns, rel, c, rest, preds, visited);
    merged, rel' := p.Some?, rel;
    if merged {
      MergingStep(bs0, fs0, fcns, rel0, bs1, fs1, rel, done, c, rest, preds, visited, p.value, an.bs);
      rel' := rel - {c};
    } else {
      MergingSkip(bs0, fs0, fcns, rel0, bs1, fs1, rel, done, c, rest, preds, visited);
    }
  }

  /** The first half of r_anal_block_automerge: who precedes whom. */
  method Predecessors(bs: BbTree, fs: FcnTable, blocks: seq<nat>) returns (preds: Preds, visited: map<nat, nat>)
    requires Linked(bs, fs) && NoEmptyLoop(bs) && Distinct(blocks) && forall c :: c in blocks ==> c in bs
    ensures Merging(bs, fs, FcnsOf(bs, blocks), InFcns(bs, FcnsOf(bs, blocks)), bs, fs, visited.Keys, [], blocks,
                    preds, visited)
  {
    var fcns := RelevantFcns(bs, blocks);
    preds, visited := ScanFunctions(bs, fs, fcns, Members(blocks));
    StartPending(bs, fs, fcns, blocks, preds, visited);
  }

  method Automerge(an: Anal, blocks: seq<nat>) returns (left: seq<nat>)
    requires an.Valid() && NoEmptyLoop(an.bs) && Distinct(blocks) && forall c :: c in blocks ==> c in an.bs
    modifies an
    ensures an.Valid() && NoEmptyLoop(an.bs)
    ensures Automerged(old(an.bs), old(an.fs), an.bs, an.fs, blocks)
    ensures forall c :: c in left <==> c in blocks && c in an.bs
  {
    ghost var bs0, fs0 := an.bs, an.fs;
    ghost var fcns, rel0 := FcnsOf(bs0, blocks), InFcns(bs0, FcnsOf(bs0, blocks));
    var preds, visited := Predecessors(an.bs, an.fs, blocks);
    ghost var rel, done := visited.Keys, [];
    left := [];
    var i := 0;
    assert blocks[i..] == blocks;
    while i < |blocks|
      invariant i <= |blocks| && done == blocks[..i] && an.Valid()
      invariant Merging(bs0, fs0, fcns, rel0, an.bs, an.fs, rel, done, blocks[i..], preds, visited)
      invariant forall c :: c in left <==> c in done && c in an.bs
    {
      var c, rest := blocks[i], blocks[i + 1..];
      FirstOf(blocks, i);
      var merged;
      merged, preds, visited, rel := MergeRound(an, bs0, fs0, fcns, rel0, rel, done, c, rest, preds, visited);
      if !merged { left := left + [c]; }
      done := done + [c];
      i := i + 1;
    }
    assert done == blocks && blocks[i..] == [];
    MergingDone(bs0, fs0, an.bs, an.fs, rel, blocks, preds, visited);
  }
}
