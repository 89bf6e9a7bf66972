/** The constant analysis as a function of the expression: the interval tree with its colours and
    rotations, each interval labelled 1 if its node is tagged constant and 0 if not.  It is what
    the graph builder computes (EsilDfg); while writes stay tidy, it knows exactly what
    ConstTags.LearnAll says. */
module TagTree {
  import opened Lists
  import opened IntervalTree
  import opened RedBlack
  import opened Clearing
  import opened Lookups
  import opened ConstTags
  import Balance

  /** The tree, the stack, and whether edf->cur is set. */
  datatype State = State(tree: Tree, stack: seq<Entry>, compared: bool)

  predicate Proper(regs: Profile) { forall r :: r in regs ==> regs[r].0 <= regs[r].1 }

  function ReadTree(regs: Profile, t: Tree, it: Entry): Tree
    requires Proper(regs)
  {
    if it.Loc? && it.reg in regs then Collect(t, [Range(regs, it.reg)], 0, false).tree else t
  }

  /** An operand is constant if the read finds one part, and that is constant. */
  predicate FixedIn(regs: Profile, t: Tree, it: Entry)
    requires Proper(regs)
  {
    match it
    case Loc(r) => r in regs && Collect(t, [Range(regs, r)], 0, false).parts == [1]
    case Lit(_) => true
    case Res(fixed) => fixed
  }

  function Label(fixed: bool): nat { if fixed then 1 else 0 }

  /** An assignment: the source is read, for "op=" the destination too, and the destination is
      written.  A number is no destination, but the source is read before that is noticed. */
  function AssignTree(regs: Profile, s: State, src: Entry, dst: Entry, how: How): (State, bool)
    requires Proper(regs)
  {
    var t := ReadTree(regs, s.tree, src);
    match dst
    case Res(_) => (s, false)
    case Lit(_) => (s.(tree := t), false)
    case Loc(r) =>
      if r !in regs then (s, false) else
      var fixed := FixedIn(regs, s.tree, src) && (how.Update? ==> FixedIn(regs, t, dst));
      var u := if how.Update? then ReadTree(regs, t, dst) else t;
      (s.(tree := SetTree(u, Range(regs, r), Label(fixed)), compared := s.compared || !how.Weak?), true)
  }

  /** One word, and whether its operator returns true. */
  function Apply(regs: Profile, s: State, w: Word): (State, bool)
    requires Proper(regs)
  {
    var n := |s.stack|;
    match w
    case PushReg(r) => (s.(stack := s.stack + [Loc(r)]), true)
    case PushNum(k) => (s.(stack := s.stack + [Lit(k)]), true)
    case Bin(_) =>
      if n < 2 then (s.(stack := []), false) else
      var a, b := s.stack[n - 1], s.stack[n - 2];
      var t := ReadTree(regs, s.tree, a);
      var fixed := FixedIn(regs, s.tree, a) && FixedIn(regs, t, b);
      (s.(tree := ReadTree(regs, t, b), stack := s.stack[..n - 2] + [Res(fixed)]), true)
    case Un(_) =>
      if n < 1 then (s, false) else
      var a := s.stack[n - 1];
      (s.(tree := ReadTree(regs, s.tree, a), stack := s.stack[..n - 1] + [Res(FixedIn(regs, s.tree, a))]), true)
    case Dup => if n < 1 then (s, false) else (s.(stack := s.stack + [s.stack[n - 1]]), true)
    case Pop =>
      if n < 1 then (s, false) else
      (s.(tree := ReadTree(regs, s.tree, s.stack[n - 1]), stack := s.stack[..n - 1]), true)
    case Flag(_, arity) =>
      if n < arity then (s, false) else
      var t := if arity == 0 then s.tree else ReadTree(regs, s.tree, s.stack[n - 1]);
      var popped := s.(tree := t, stack := s.stack[..n - arity]);
      if s.compared then (popped.(stack := popped.stack + [Res(false)]), true) else (popped, false)
    case Set(how) =>
      if n < 2 then (s.(stack := []), false)
      else AssignTree(regs, s.(stack := s.stack[..n - 2]), s.stack[n - 2], s.stack[n - 1], how)
  }

  /** The whole expression; it stops at the first word that is refused. */
  function ApplyAll(regs: Profile, s: State, prog: seq<Word>): (State, bool)
    requires Proper(regs)
    decreases |prog|
  {
    if prog == [] then (s, true)
    else
      var (s', ok) := Apply(regs, s, prog[0]);
      if ok then ApplyAll(regs, s', prog[1..]) else (s', false)
  }

  const START := State(Leaf, [], false)

  /** r_anal_esil_dfg_reg_is_const on a queue: every piece must be covered by constant intervals. */
  predicate AllConst(t: Tree, q: seq<Interval>)
    requires Solid(q)
    decreases Longest(q), Count(q, Longest(q)), First(q, Longest(q))
  {
    q == [] ||
    var h := Search(t, q[0]);
    SearchQueue(t, q[0]);
    QueueShrinks(q, h.todo);
    h.part.Some? && h.part.value.node == 1 && AllConst(t, q[1..] + h.todo)
  }

  /** What the analysis answers about a register after an expression. */
  predicate Answer(regs: Profile, prog: seq<Word>, reg: string)
    requires Proper(regs)
  {
    reg in regs && AllConst(ApplyAll(regs, START, prog).0.tree, [Range(regs, reg)])
  }

  // ---------------------------------------------------------------- acceptance

  /** The builder accepts an expression exactly if its words do: the tree plays no part. */
  lemma {:induction false} AppliesIff(regs: Profile, s: State, prog: seq<Word>)
    requires Proper(regs) && WellFormed(regs, prog) && EntriesOk(regs, s.stack)
    ensures ApplyAll(regs, s, prog).1 <==> Accepts(Shapes(s.stack), s.compared, prog)
    decreases |prog|
  {
    if prog != [] {
      var (s', ok) := Apply(regs, s, prog[0]);
      ApplyShapes(regs, s, prog[0]);
      if ok { AppliesIff(regs, s', prog[1..]); }
    }
  }

  /** The word does to the shapes of the stack what Shaped says. */
  ghost predicate ApplyFits(regs: Profile, s: State, w: Word)
    requires Proper(regs) && EntriesOk(regs, s.stack)
  {
    var (s', ok) := Apply(regs, s, w);
    && (ok <==> Takes(w, Shapes(s.stack), s.compared))
    && (ok ==> EntriesOk(regs, s'.stack) && Shapes(s'.stack) == Shaped(w, Shapes(s.stack), s.compared)
               && s'.compared == (s.compared || Compares(w)))
  }

  lemma ApplyShapes(regs: Profile, s: State, w: Word)
    requires Proper(regs) && WordOk(regs, w) && EntriesOk(regs, s.stack)
    ensures ApplyFits(regs, s, w)
  {
    var n := |s.stack|;
    match w
    case PushReg(r) => ShapesCut(s.stack, n, Loc(r));
    case PushNum(k) => ShapesCut(s.stack, n, Lit(k));
    case Dup => if n >= 1 { ShapesCut(s.stack, n, s.stack[n - 1]); }
    case Pop => if n >= 1 { ShapesCut(s.stack, n - 1, Lit(0)); }
    case Set(_) => ApplyFitsSet(regs, s, w);
    case _ => ApplyFitsResult(regs, s, w);
  }

  lemma ApplyFitsSet(regs: Profile, s: State, w: Word)
    requires Proper(regs) && WordOk(regs, w) && EntriesOk(regs, s.stack) && w.Set?
    ensures ApplyFits(regs, s, w)
  {
    var n := |s.stack|;
    if n >= 2 { ShapesCut(s.stack, n - 2, Lit(0)); }
  }

  lemma ApplyFitsResult(regs: Profile, s: State, w: Word)
    requires Proper(regs) && WordOk(regs, w) && EntriesOk(regs, s.stack) && (w.Bin? || w.Un? || w.Flag?)
    ensures ApplyFits(regs, s, w)
  {
    var n, k := |s.stack|, if w.Bin? then 2 else if w.Un? then 1 else w.arity;
    if n >= k {
      var it := Apply(regs, s, w).0.stack;
      if Apply(regs, s, w).1 { ShapesCut(s.stack, n - k, it[n - k]); }
    }
  }

  // ---------------------------------------------------------------- balance

  lemma ReadBalanced(regs: Profile, t: Tree, it: Entry)
    requires Proper(regs) && Balance.Balanced(t)
    ensures Balance.Balanced(ReadTree(regs, t, it))
  {
    if it.Loc? && it.reg in regs { Balance.CollectBalanced(t, [Range(regs, it.reg)], 0, false); }
  }

  lemma ApplyBalanced(regs: Profile, s: State, w: Word)
    requires Proper(regs) && Balance.Balanced(s.tree)
    ensures Balance.Balanced(Apply(regs, s, w).0.tree)
  {
    var n := |s.stack|;
    if n >= 1 {
      var t := ReadTree(regs, s.tree, s.stack[n - 1]);
      ReadBalanced(regs, s.tree, s.stack[n - 1]);
      if n >= 2 {
        ReadBalanced(regs, t, s.stack[n - 2]);
        if w.Set? { AssignBalanced(regs, s.(stack := s.stack[..n - 2]), s.stack[n - 2], s.stack[n - 1], w.how); }
      }
    }
  }

  lemma AssignBalanced(regs: Profile, s: State, src: Entry, dst: Entry, how: How)
    requires Proper(regs) && Balance.Balanced(s.tree)
    ensures Balance.Balanced(AssignTree(regs, s, src, dst, how).0.tree)
  {
    var t := ReadTree(regs, s.tree, src);
    ReadBalanced(regs, s.tree, src);
    ReadBalanced(regs, t, dst);
    if dst.Loc? && dst.reg in regs {
      var u := if how.Update? then ReadTree(regs, t, dst) else t;
      var fixed := FixedIn(regs, s.tree, src) && (how.Update? ==> FixedIn(regs, t, dst));
      Balance.SetBalanced(u, Range(regs, dst.reg), Label(fixed));
    }
  }

  /** Whatever the expression, the tree stays a red-black tree, in order or not. */
  lemma {:induction false} ApplyAllBalanced(regs: Profile, s: State, prog: seq<Word>)
    requires Proper(regs) && Balance.Balanced(s.tree)
    ensures Balance.Balanced(ApplyAll(regs, s, prog).0.tree)
    decreases |prog|
  {
    if prog != [] {
      ApplyBalanced(regs, s, prog[0]);
      if Apply(regs, s, prog[0]).1 { ApplyAllBalanced(regs, Apply(regs, s, prog[0]).0, prog[1..]); }
    }
  }

  // ---------------------------------------------------------------- the tree knows what ConstTags says

  ghost predicate ProfileFits(w: Bases, regs: Profile) { forall r :: r in regs ==> Fits(w, Range(regs, r)) }

  ghost predicate Matches(w: Bases, s: State, k: Known) {
    && Ordered(s.tree) && AllFit(w, s.tree) && Elems(s.tree) == k.parts
    && s.stack == k.stack && s.compared == k.compared
  }

  lemma HeldAt(t: Tree, k: Kind, b: int)
    ensures Held(Elems(t), k, b) <==> At(t, k, b).Some?
  {
    AtElem(t, k, b);
  }

  lemma GapIs(t: Tree, rng: Interval, x: Interval)
    ensures Gap(Elems(t), rng, x) <==> x.kind == rng.kind && x.node == 0 && IsGap(t, rng, x.from, x.to)
  {
    forall b { HeldAt(t, rng.kind, b); }
  }

  /** A read of an ordered tree adds the gaps. */
  lemma ReadMatches(w: Bases, regs: Profile, t: Tree, it: Entry)
    requires Proper(regs) && ProfileFits(w, regs) && Ordered(t) && AllFit(w, t)
    ensures var t' := ReadTree(regs, t, it);
      Ordered(t') && AllFit(w, t') && Elems(t') == ReadEntry(regs, Elems(t), it)
  {
    if it.Loc? && it.reg in regs {
      var rng := Range(regs, it.reg);
      CollectExact(w, t, rng, 0);
      CollectElems(w, t, rng, 0);
      forall x ensures x in Elems(ReadTree(regs, t, it)) <==> x in Reading(Elems(t), rng) {
        GapIs(t, rng, x);
        ReadingIn(Elems(t), rng, x);
      }
    }
  }

  lemma CoveredParts(t: Tree, rng: Interval, g: Gathered, x: Interval)
    requires Ordered(t) && Collected(t, g.tree, rng, g.parts, Fill(g.filled, 0)) && rng.from <= rng.to
    requires x in Elems(t) && Covers(x, rng)
    ensures g.parts == [x.node]
  {
    assert OneCovers(t, rng) && In(rng, rng.kind, rng.from);
    AtUnique(t, x, rng.from);
    assert Defines(g.tree, rng, x.node);
  }

  lemma BlankParts(t: Tree, rng: Interval, g: Gathered)
    requires Collected(t, g.tree, rng, g.parts, Fill(g.filled, 0)) && |g.parts| == 1 && !OneCovers(t, rng)
    ensures g.parts == [0]
  {
    assert g.parts[0] in g.parts && Blank(t, rng);
    assert Defines(g.tree, rng, g.parts[0]);
  }

  /** ... and finds one constant part exactly if one constant interval covers the register. */
  lemma FixedMatches(w: Bases, regs: Profile, t: Tree, it: Entry)
    requires Proper(regs) && ProfileFits(w, regs) && Ordered(t) && AllFit(w, t)
    ensures FixedIn(regs, t, it) <==> FixedEntry(regs, Elems(t), it)
  {
    if it.Loc? && it.reg in regs {
      var rng := Range(regs, it.reg);
      var g := Collect(t, [rng], 0, false);
      CollectExact(w, t, rng, 0);
      if x :| x in Elems(t) && Covers(x, rng) {
        forall y | y in Elems(t) && Covers(y, rng) ensures g.parts == [y.node] { CoveredParts(t, rng, g, y); }
      } else if |g.parts| == 1 {
        BlankParts(t, rng, g);
      }
    }
  }

  lemma WriteMatches(w: Bases, t: Tree, rng: Interval, fixed: bool)
    requires Ordered(t) && AllFit(w, t) && Fits(w, rng) && AtMostOne(Elems(t), rng)
    ensures var t' := SetTree(t, rng, Label(fixed));
      Ordered(t') && AllFit(w, t') && Elems(t') == Writing(Elems(t), rng, fixed)
  {
    SetExact(w, t, rng, Label(fixed));
  }

  lemma AssignMatches(w: Bases, regs: Profile, s: State, k: Known, src: Entry, dst: Entry, how: How)
    requires Proper(regs) && ProfileFits(w, regs) && Matches(w, s, k)
    requires dst.Loc? && dst.reg in regs ==> AtMostOne(Operands(regs, k.parts, src, dst, how), Range(regs, dst.reg))
    ensures var (s', ok), (k', ok') := AssignTree(regs, s, src, dst, how), Assign(regs, k, src, dst, how);
      ok == ok' && Matches(w, s', k')
  {
    var t := ReadTree(regs, s.tree, src);
    ReadMatches(w, regs, s.tree, src);
    ReadMatches(w, regs, t, dst);
    FixedMatches(w, regs, s.tree, src);
    FixedMatches(w, regs, t, dst);
    if dst.Loc? && dst.reg in regs {
      var fixed := FixedIn(regs, s.tree, src) && (how.Update? ==> FixedIn(regs, t, dst));
      WriteMatches(w, if how.Update? then ReadTree(regs, t, dst) else t, Range(regs, dst.reg), fixed);
    }
  }

  /** One tidy word. */
  lemma ApplyMatches(w: Bases, regs: Profile, s: State, k: Known, word: Word)
    requires Proper(regs) && ProfileFits(w, regs) && Matches(w, s, k) && TidyWord(regs, k, word)
    ensures var (s', ok), (k', ok') := Apply(regs, s, word), Learn(regs, k, word);
      ok == ok' && Matches(w, s', k')
  {
    var n := |s.stack|;
    if word.Set? {
      if n >= 2 {
        AssignMatches(w, regs, s.(stack := s.stack[..n - 2]), k.(stack := k.stack[..n - 2]),
                      s.stack[n - 2], s.stack[n - 1], word.how);
      }
    } else if n >= 1 {
      var t := ReadTree(regs, s.tree, s.stack[n - 1]);
      ReadMatches(w, regs, s.tree, s.stack[n - 1]);
      FixedMatches(w, regs, s.tree, s.stack[n - 1]);
      if n >= 2 {
        ReadMatches(w, regs, t, s.stack[n - 2]);
        FixedMatches(w, regs, t, s.stack[n - 2]);
      }
    }
  }

  /** A tidy expression: the tree stays in order and stores exactly what is known. */
  lemma {:induction false} ApplyAllMatches(w: Bases, regs: Profile, s: State, k: Known, prog: seq<Word>)
    requires Proper(regs) && ProfileFits(w, regs) && Matches(w, s, k) && Tidy(regs, k, prog)
    ensures var (s', ok), (k', ok') := ApplyAll(regs, s, prog), LearnAll(regs, k, prog);
      ok == ok' && Matches(w, s', k')
    decreases |prog|
  {
    if prog != [] {
      ApplyMatches(w, regs, s, k, prog[0]);
      if Apply(regs, s, prog[0]).1 {
        ApplyAllMatches(w, regs, Apply(regs, s, prog[0]).0, Learn(regs, k, prog[0]).0, prog[1..]);
      }
    }
  }

  // ---------------------------------------------------------------- the answer

  lemma FixedAt(t: Tree, k: Kind, b: int)
    requires Ordered(t)
    ensures FixedBit(Elems(t), k, b) <==> At(t, k, b) == Some(1)
  {
    AtElem(t, k, b);
    if FixedBit(Elems(t), k, b) {
      var x :| x in Elems(t) && In(x, k, b) && x.node == 1;
      AtUnique(t, x, b);
    }
  }

  /** One lookup: the piece is constant if the interval found is, and the rest queued is ... */
  lemma HeadFixed(t: Tree, p: Interval)
    requires Ordered(t) && p.from <= p.to
    requires var h := Search(t, p);
      h.part.Some? && h.part.value.node == 1 && forall i :: 0 <= i < |h.todo| ==> AllFixed(Elems(t), h.todo[i])
    ensures AllFixed(Elems(t), p)
  {
    var h := Search(t, p);
    SearchExact(t, p);
    forall b | p.from <= b <= p.to ensures FixedBit(Elems(t), p.kind, b) {
      assert In(p, p.kind, b);
      if !In(h.part.value, p.kind, b) {
        var i :| 0 <= i < |h.todo| && In(h.todo[i], p.kind, b);
        assert AllFixed(Elems(t), h.todo[i]);
      }
    }
  }

  /** ... and only then. */
  lemma HeadFixedOnly(t: Tree, p: Interval)
    requires Ordered(t) && p.from <= p.to && AllFixed(Elems(t), p)
    ensures var h := Search(t, p);
      h.part.Some? && h.part.value.node == 1 && forall i :: 0 <= i < |h.todo| ==> AllFixed(Elems(t), h.todo[i])
  {
    var h := Search(t, p);
    SearchExact(t, p);
    SearchQueue(t, p);
    FixedAt(t, p.kind, p.from);
    assert FixedBit(Elems(t), p.kind, p.from) && In(p, p.kind, p.from);
    var x := h.part.value;
    ElemsNonEmpty(t);
    var b := if x.from < p.from then p.from else x.from;
    AtUnique(t, x, b);
    FixedAt(t, p.kind, b);
    assert FixedBit(Elems(t), p.kind, b);
    forall i | 0 <= i < |h.todo| ensures AllFixed(Elems(t), h.todo[i]) {
      assert Within(h.todo[i], p);
    }
  }

  ghost predicate QueueFixed(t: Tree, q: seq<Interval>) {
    forall i :: 0 <= i < |q| ==> AllFixed(Elems(t), q[i])
  }

  lemma QueueFixedConcat(t: Tree, a: seq<Interval>, b: seq<Interval>)
    ensures QueueFixed(t, a + b) <==> QueueFixed(t, a) && QueueFixed(t, b)
  {
    assert forall i :: 0 <= i < |a| ==> (a + b)[i] == a[i];
    assert forall i :: 0 <= i < |b| ==> (a + b)[|a| + i] == b[i];
  }

  lemma HeadQueue(t: Tree, p: Interval)
    ensures QueueFixed(t, [p]) <==> AllFixed(Elems(t), p)
  {
    assert [p][0] == p;
  }

  /** In an ordered tree the scan says yes exactly if every queued bit is constant. */
  lemma {:induction false} AllConstExact(t: Tree, q: seq<Interval>)
    requires Solid(q) && Ordered(t)
    decreases Longest(q), Count(q, Longest(q)), First(q, Longest(q))
    ensures AllConst(t, q) <==> QueueFixed(t, q)
  {
    if q != [] {
      var h := Search(t, q[0]);
      SearchQueue(t, q[0]);
      QueueShrinks(q, h.todo);
      AllConstExact(t, q[1..] + h.todo);
      assert q == [q[0]] + q[1..];
      QueueFixedConcat(t, [q[0]], q[1..]);
      QueueFixedConcat(t, q[1..], h.todo);
      HeadQueue(t, q[0]);
      if AllConst(t, q) { HeadFixed(t, q[0]); }
      if QueueFixed(t, q) { HeadFixedOnly(t, q[0]); }
    }
  }

  /** The constant analysis is sound for accepted, tidy expressions: a register called constant
      ends with one value, whatever the registers held before. */
  lemma AnswerSound(w: Bases, regs: Profile, prog: seq<Word>, reg: string)
    requires Proper(regs) && ProfileFits(w, regs) && WellFormed(regs, prog)
    requires Accepts([], false, prog) && Tidy(regs, NOTHING, prog) && Answer(regs, prog, reg)
    ensures SameFromAll(regs, prog, reg)
  {
    var t := ApplyAll(regs, START, prog).0.tree;
    assert Matches(w, START, NOTHING);
    ApplyAllMatches(w, regs, START, NOTHING, prog);
    AllConstExact(t, [Range(regs, reg)]);
    assert AllFixed(Elems(t), [Range(regs, reg)][0]);
    ConstSound(regs, prog, reg);
  }
}
