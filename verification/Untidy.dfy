/** Expressions for which the constant analysis answers wrongly: one whose last write swallows
    two intervals, and one that the builder does not accept. */
module Untidy {
  import opened Lists
  import opened IntervalTree
  import opened RedBlack
  import opened Clearing
  import opened Lookups
  import opened ConstTags
  import opened TagTree

  // ---------------------------------------------------------------- three words at a time

  predicate Pushes(w: Word) { w.PushReg? || w.PushNum? }

  function Pushed(w: Word): Entry
    requires Pushes(w)
  {
    if w.PushReg? then Loc(w.name) else Lit(w.n)
  }

  function Operated(w: Word): Operand
    requires Pushes(w)
  {
    if w.PushReg? then Name(w.name) else Value(w.n)
  }

  /** "src,dst,=" */
  function Assignment(src: Word, dst: string): seq<Word> { [src, PushReg(dst), Set(Plain)] }

  lemma ApplyAssignment(regs: Profile, t: Tree, c: bool, src: Word, dst: string, rest: seq<Word>)
    requires Proper(regs) && Pushes(src) && dst in regs
    ensures ApplyAll(regs, State(t, [], c), Assignment(src, dst) + rest)
         == ApplyAll(regs, AssignTree(regs, State(t, [], c), Pushed(src), Loc(dst), Plain).0, rest)
  {
    var p := Assignment(src, dst) + rest;
    assert p[1..][1..][1..] == rest && p[1..][0] == PushReg(dst) && p[1..][1..][0] == Set(Plain);
    var s1 := State(t, [Pushed(src)], c);
    var s2 := State(t, [Pushed(src), Loc(dst)], c);
    assert [] + [Pushed(src)] == [Pushed(src)] && [Pushed(src)] + [Loc(dst)] == s2.stack && s2.stack[..0] == [];
    assert Apply(regs, State(t, [], c), src) == (s1, true);
    assert Apply(regs, s1, PushReg(dst)) == (s2, true);
    assert ApplyAll(regs, State(t, [], c), p) == ApplyAll(regs, s1, p[1..]) == ApplyAll(regs, s2, p[1..][1..]);
    assert Apply(regs, s2, Set(Plain)) == AssignTree(regs, State(t, [], c), Pushed(src), Loc(dst), Plain);
  }

  function Overwritten(regs: Profile, m: Machine, src: Word, dst: string): Machine
    requires Pushes(src) && dst in regs
  {
    var v := Eval(regs, m.file, Operated(src));
    Machine(WriteBits(m.file, regs[dst].0, regs[dst].1, v), [], v, Eval(regs, m.file, Name(dst)))
  }

  lemma RunAssignment(regs: Profile, math: Math, m: Machine, src: Word, dst: string, rest: seq<Word>)
    requires Pushes(src) && dst in regs && m.stack == []
    ensures Run(regs, math, m, Assignment(src, dst) + rest) == Run(regs, math, Overwritten(regs, m, src, dst), rest)
  {
    var p := Assignment(src, dst) + rest;
    assert p[1..][1..][1..] == rest && p[1..][0] == PushReg(dst) && p[1..][1..][0] == Set(Plain);
    var m1 := m.(stack := [Operated(src)]);
    var m2 := m.(stack := [Operated(src), Name(dst)]);
    assert [] + [Operated(src)] == [Operated(src)] && [Operated(src)] + [Name(dst)] == m2.stack && m2.stack[..0] == [];
    assert Step(regs, math, m, src) == Some(m1);
    assert Step(regs, math, m1, PushReg(dst)) == Some(m2);
    assert Run(regs, math, m, p) == Run(regs, math, m1, p[1..]) == Run(regs, math, m2, p[1..][1..]);
    assert Step(regs, math, m2, Set(Plain)) == Some(Overwritten(regs, m, src, dst));
  }

  lemma ReadParity(f: Bits, from: int, to: int)
    requires from <= to
    ensures ReadBits(f, from, to) % 2 == if f(from) then 1 else 0
  {
  }

  // ---------------------------------------------------------------- a write that swallows two intervals

  /** Offsets of the linux-x64 register profile. */
  const X64: Profile :=
    map["rax" := (640, 703), "rbx" := (320, 383), "rcx" := (704, 767), "rdx" := (768, 831),
        "cx" := (704, 719), "ch" := (712, 719), "cl" := (704, 711)]

  /** "rdx,rcx,=,1,cx,=,rbx,ch,=,rax,rcx,=" */
  const OVERLAPS: seq<Word> := Assignment(PushReg("rdx"), "rcx") + BEHIND1
  const BEHIND1: seq<Word> := Assignment(PushNum(1), "cx") + BEHIND2
  const BEHIND2: seq<Word> := Assignment(PushReg("rbx"), "ch") + BEHIND3
  const BEHIND3: seq<Word> := Assignment(PushReg("rax"), "rcx") + []

  function I(from: int, to: int, node: nat): Interval { Interval(Reg, from, to, node) }

  function Black(l: Tree, v: Interval, r: Tree): Tree { Node(l, v, r, false) }

  function Crimson(l: Tree, v: Interval, r: Tree): Tree { Node(l, v, r, true) }

  const RDX := Black(Leaf, I(768, 831, 0), Leaf)
  const BELOW := Black(Leaf, I(320, 383, 0), Leaf)
  const CH := Black(Leaf, I(712, 719, 0), Leaf)

  /** The tree after each read and write. */
  const T1 := Black(Crimson(Leaf, I(704, 767, 0), Leaf), I(768, 831, 0), Leaf)
  const T2 := Black(Crimson(Leaf, I(704, 719, 1), Leaf), I(720, 767, 0), Crimson(Leaf, I(768, 831, 0), Leaf))
  const T3 := Black(Black(Crimson(Leaf, I(320, 383, 0), Leaf), I(704, 719, 1), Leaf), I(720, 767, 0), RDX)
  const T4 :=
    Black(Black(Crimson(Leaf, I(320, 383, 0), Leaf), I(704, 711, 1), Crimson(Leaf, I(712, 719, 0), Leaf)),
          I(720, 767, 0), RDX)
  const T5 :=
    Black(Crimson(Black(Leaf, I(320, 383, 0), Crimson(Leaf, I(640, 703, 0), Leaf)), I(704, 711, 1), CH),
          I(720, 767, 0), RDX)

  /** The last write: [640,703] takes the place of [720,767]; the piece [704,719] turns
      [704,711] up to the root and passes it by; [704,711] is never met again. */
  const U1 := Black(Crimson(BELOW, I(704, 711, 1), CH), I(640, 703, 0), RDX)
  const U2 :=
    Black(BELOW, I(704, 711, 1),
          Black(Crimson(Leaf, I(712, 719, 0), Leaf), I(640, 703, 0), Crimson(Leaf, I(768, 831, 0), Leaf)))
  const T6 :=
    Black(BELOW, I(704, 711, 1),
          Crimson(CH, I(640, 703, 0), Black(Crimson(Leaf, I(704, 767, 0), Leaf), I(768, 831, 0), Leaf)))

  lemma DrainOnce(t: Tree, p: Interval, t': Tree)
    requires p.from <= p.to && Round(t, p) == t' && RbTake(t, p).todo == []
    ensures Drain(t, [p]) == t'
  {
    assert [p][1..] + [] == [];
  }

  /** A register nothing is known about is filled as a whole. */
  lemma CollectBlank(t: Tree, p: Interval)
    requires p.from <= p.to && Search(t, p) == Hit(None, [])
    ensures Collect(t, [p], 0, false) == Gathered(RbInsert(t, p.(node := 0)), [0], true)
  {
    assert [p][1..] + [] == [];
  }

  /** A profile with these registers at these offsets. */
  ghost predicate Has64(regs: Profile) { forall r :: r in X64 ==> r in regs && regs[r] == X64[r] }

  lemma Offsets64(regs: Profile)
    requires Has64(regs)
    ensures "rax" in regs && regs["rax"] == (640, 703) && "rbx" in regs && regs["rbx"] == (320, 383)
    ensures "rcx" in regs && regs["rcx"] == (704, 767) && "rdx" in regs && regs["rdx"] == (768, 831)
    ensures "cx" in regs && regs["cx"] == (704, 719) && "ch" in regs && regs["ch"] == (712, 719)
    ensures "cl" in regs && regs["cl"] == (704, 711)
  {
    assert "rax" in X64 && "rbx" in X64 && "rcx" in X64 && "rdx" in X64 && "cx" in X64 && "ch" in X64 && "cl" in X64;
  }

  /** "src,dst,=" where src is a register nothing was known about. */
  lemma ApplyBlank(regs: Profile, t: Tree, c: bool, src: string, dst: string, t1: Tree, t2: Tree, rest: seq<Word>)
    requires Proper(regs) && src in regs && dst in regs
    requires Collect(t, [Range(regs, src)], 0, false) == Gathered(t1, [0], true)
    requires SetTree(t1, Range(regs, dst), 0) == t2
    ensures ApplyAll(regs, State(t, [], c), Assignment(PushReg(src), dst) + rest)
         == ApplyAll(regs, State(t2, [], true), rest)
  {
    ApplyAssignment(regs, t, c, PushReg(src), dst, rest);
  }

  lemma FirstWrite(regs: Profile, rest: seq<Word>)
    requires Proper(regs) && Has64(regs)
    ensures ApplyAll(regs, START, Assignment(PushReg("rdx"), "rcx") + rest)
         == ApplyAll(regs, State(T1, [], true), rest)
  {
    CollectBlank(Leaf, I(768, 831, 0));
    assert RbInsert(Leaf, I(768, 831, 0)) == RDX;
    DrainOnce(RDX, I(704, 767, 0), RDX);
    assert RbInsert(RDX, I(704, 767, 0)) == T1;
    Offsets64(regs);
    ApplyBlank(regs, Leaf, false, "rdx", "rcx", RDX, T1, rest);
  }

  lemma SecondWrite(regs: Profile, rest: seq<Word>)
    requires Proper(regs) && Has64(regs)
    ensures ApplyAll(regs, State(T1, [], true), Assignment(PushNum(1), "cx") + rest)
         == ApplyAll(regs, State(T2, [], true), rest)
  {
    var cut := Black(Crimson(Leaf, I(720, 767, 0), Leaf), I(768, 831, 0), Leaf);
    DrainOnce(T1, I(704, 719, 0), cut);
    assert RbInsert(cut, I(704, 719, 1)) == T2;
    Offsets64(regs);
    ApplyAssignment(regs, T1, true, PushNum(1), "cx", rest);
  }

  lemma ThirdWrite(regs: Profile, rest: seq<Word>)
    requires Proper(regs) && Has64(regs)
    ensures ApplyAll(regs, State(T2, [], true), Assignment(PushReg("rbx"), "ch") + rest)
         == ApplyAll(regs, State(T4, [], true), rest)
  {
    CollectBlank(T2, I(320, 383, 0));
    assert RbInsert(T2, I(320, 383, 0)) == T3;
    var cut := Black(Black(Leaf, I(320, 383, 0), Crimson(Leaf, I(704, 711, 1), Leaf)), I(720, 767, 0), RDX);
    DrainOnce(T3, I(712, 719, 0), cut);
    assert RbInsert(cut, I(712, 719, 0)) == T4;
    Offsets64(regs);
    ApplyBlank(regs, T2, true, "rbx", "ch", T3, T4, rest);
  }

  lemma LastRead()
    ensures Collect(T4, [I(640, 703, 0)], 0, false) == Gathered(T5, [0], true)
  {
    CollectBlank(T4, I(640, 703, 0));
    assert RbInsert(T4, I(640, 703, 0)) == T5;
  }

  lemma LastRounds()
    ensures RbTake(T5, I(704, 767, 0)) == Taken(U1, I(640, 703, 0), true, None, [I(704, 719, 0), I(712, 767, 0)])
    ensures RbTake(U1, I(704, 719, 0)) == Taken(U2, I(768, 831, 0), false, None, [])
  {
  }

  lemma LastClearing()
    ensures Drain(T5, [I(704, 767, 0)]) == U2
  {
    var p, q := I(704, 719, 0), I(712, 767, 0);
    LastRounds();
    assert [I(704, 767, 0)][1..] + [p, q] == [p, q] && [p, q][1..] + [] == [q];
    DrainOnce(U2, q, U2);
  }

  lemma LastInsertion()
    ensures RbInsert(U2, I(704, 767, 0)) == T6
  {
    var x := I(704, 767, 0);
    var z1 := Down(Top, true, U2.v, false, BELOW, false);
    var z2 := Down(z1, true, U2.right.v, true, CH, false);
    assert Sink(Top, U2, x) == Sink(z1, U2.right, x);
    assert Sink(z1, U2.right, x) == Sink(z2, RDX, x);
    assert Sink(z2, RDX, x) == Sink(Down(z2, false, RDX.v, false, Leaf, false), Leaf, x);
  }

  lemma LastSet()
    ensures SetTree(T5, I(704, 767, 0), 0) == T6
  {
    LastClearing();
    LastInsertion();
  }

  lemma LastWrite(regs: Profile)
    requires Proper(regs) && Has64(regs)
    ensures ApplyAll(regs, State(T4, [], true), BEHIND3) == (State(T6, [], true), true)
  {
    LastRead();
    LastSet();
    Offsets64(regs);
    ApplyBlank(regs, T4, true, "rax", "rcx", T5, T6, []);
  }

  lemma OverlapsTree(regs: Profile)
    requires Proper(regs) && Has64(regs)
    ensures ApplyAll(regs, START, OVERLAPS) == (State(T6, [], true), true)
  {
    FirstWrite(regs, BEHIND1);
    SecondWrite(regs, BEHIND2);
    ThirdWrite(regs, BEHIND3);
    LastWrite(regs);
  }

  function Initial(v: bool): Machine { Machine(b => b == 640 && v, [], 0, 0) }

  /** The machine leaves the low byte of rax in cl. */
  lemma OverlapsRun(regs: Profile, math: Math, v: bool)
    requires Proper(regs) && Has64(regs)
    ensures var r := Run(regs, math, Initial(v), OVERLAPS);
      r.Some? && Eval(regs, r.value.file, Name("cl")) % 2 == if v then 1 else 0
  {
    Offsets64(regs);
    var m0 := Initial(v);
    var m1 := Overwritten(regs, m0, PushReg("rdx"), "rcx");
    var m2 := Overwritten(regs, m1, PushNum(1), "cx");
    var m3 := Overwritten(regs, m2, PushReg("rbx"), "ch");
    var m4 := Overwritten(regs, m3, PushReg("rax"), "rcx");
    RunAssignment(regs, math, m0, PushReg("rdx"), "rcx", BEHIND1);
    RunAssignment(regs, math, m1, PushNum(1), "cx", BEHIND2);
    RunAssignment(regs, math, m2, PushReg("rbx"), "ch", BEHIND3);
    RunAssignment(regs, math, m3, PushReg("rax"), "rcx", []);
    ReadParity(m3.file, 640, 703);
    ReadParity(m4.file, 704, 711);
    assert m4.file(704) == v;
  }

  /** The build is accepted as a whole and cl is called constant, although it ends with the low
      byte that rax held at the start: [704,711] is still labelled with the constant of cx. */
  lemma OverlapsWrong(regs: Profile, math: Math)
    requires Proper(regs) && Has64(regs)
    ensures WellFormed(regs, OVERLAPS) && Accepts([], false, OVERLAPS)
    ensures Answer(regs, OVERLAPS, "cl") && !SameFromAll(regs, OVERLAPS, "cl")
  {
    Offsets64(regs);
    OverlapsTree(regs);
    OverlapsWords(regs);
    assert Shapes([]) == [];
    AppliesIff(regs, START, OVERLAPS);
    assert Search(T6, I(704, 711, 0)) == Hit(Some(I(704, 711, 1)), []);
    assert [I(704, 711, 0)][1..] + [] == [];
    OverlapsRun(regs, math, true);
    OverlapsRun(regs, math, false);
    assert FreshMachines(Initial(true), Initial(false));
    assert !SameValue(regs, math, OVERLAPS, "cl", Initial(true), Initial(false));
  }

  lemma OverlapsWords(regs: Profile)
    requires Proper(regs) && Has64(regs)
    ensures WellFormed(regs, OVERLAPS)
  {
    Offsets64(regs);
  }

  /** That last write is what makes the expression untidy. */
  lemma OverlapsUntidy(w: Bases, regs: Profile, math: Math)
    requires Proper(regs) && Has64(regs) && ProfileFits(w, regs)
    ensures !Tidy(regs, NOTHING, OVERLAPS)
  {
    OverlapsWrong(regs, math);
    if Tidy(regs, NOTHING, OVERLAPS) { AnswerSound(w, regs, OVERLAPS, "cl"); }
  }

  // ---------------------------------------------------------------- an expression that is not accepted

  const TWO: Profile := map["a" := (0, 0), "b" := (1, 1)]

  /** "1,a,:=,$z,POP,b,a,=": the weak assignment records no comparison, so the builder refuses "$z"
      and stops, although a machine goes on and overwrites a with b. */
  const STOPPING: seq<Word> :=
    [PushNum(1), PushReg("a"), Set(Weak), Flag("$z", 0), Pop, PushReg("b"), PushReg("a"), Set(Plain)]

  const STOPPED := Black(Leaf, I(0, 0, 1), Leaf)

  /** Where the builder stops: a is labelled with the constant. */
  lemma StoppedState()
    ensures ApplyAll(TWO, START, STOPPING) == (State(STOPPED, [], false), false)
  {
    var p := STOPPING;
    var s1, s2 := START.(stack := [Lit(1)]), START.(stack := [Lit(1), Loc("a")]);
    var s3 := State(STOPPED, [], false);
    DrainOnce(Leaf, I(0, 0, 0), Leaf);
    assert s2.stack[..0] == [];
    assert AssignTree(TWO, START, Lit(1), Loc("a"), Weak) == (s3, true);
    assert p[1..][1..][1..][0] == Flag("$z", 0) && p[1..][1..][0] == Set(Weak) && p[1..][0] == PushReg("a");
    assert ApplyAll(TWO, START, p) == ApplyAll(TWO, s1, p[1..]) == ApplyAll(TWO, s2, p[1..][1..]);
    assert ApplyAll(TWO, s2, p[1..][1..]) == ApplyAll(TWO, s3, p[1..][1..][1..]);
    assert s3.stack[..0] == [];
  }

  function Start(v: bool): Machine { Machine(b => b == 1 && v, [], 0, 0) }

  /** From b == v the whole expression leaves a == v. */
  lemma StoppedRun(math: Math, v: bool)
    ensures Run(TWO, math, Start(v), STOPPING).Some?
    ensures Eval(TWO, Run(TWO, math, Start(v), STOPPING).value.file, Name("a")) == if v then 1 else 0
  {
    var p, m0 := STOPPING, Start(v);
    var m1 := Step(TWO, math, m0, p[0]).value;
    var m2 := Step(TWO, math, m1, p[1]).value;
    var m3 := Step(TWO, math, m2, p[2]).value;
    var m4 := Step(TWO, math, m3, p[3]).value;
    var m5 := Step(TWO, math, m4, p[4]).value;
    var m6 := Step(TWO, math, m5, p[5]).value;
    var m7 := Step(TWO, math, m6, p[6]).value;
    assert m7.stack == [Name("b"), Name("a")] && m7.file(1) == v;
    assert ReadBits(m7.file, 1, 1) == if v then 1 else 0;
    var m8 := Step(TWO, math, m7, p[7]).value;
    assert ReadBits(m8.file, 0, 0) == if v then 1 else 0;
    Peel(math, m7, p, 7);
    Peel(math, m6, p, 6);
    Peel(math, m5, p, 5);
    Peel(math, m4, p, 4);
    Peel(math, m3, p, 3);
    Peel(math, m2, p, 2);
    Peel(math, m1, p, 1);
    Peel(math, m0, p, 0);
    assert p[8..] == [] && p[0..] == p;
  }

  lemma Peel(math: Math, m: Machine, p: seq<Word>, i: nat)
    requires i < |p| && Step(TWO, math, m, p[i]).Some?
    ensures Run(TWO, math, m, p[i..]) == Run(TWO, math, Step(TWO, math, m, p[i]).value, p[i + 1..])
  {
    assert p[i..][1..] == p[i + 1..];
  }

  /** The expression is refused, a is called constant, and it is not. */
  lemma StoppedWrong(math: Math)
    ensures !Accepts([], false, STOPPING)
    ensures Answer(TWO, STOPPING, "a") && !SameFromAll(TWO, STOPPING, "a")
  {
    StoppedState();
    assert Shapes([]) == [] && EntriesOk(TWO, []);
    AppliesIff(TWO, START, STOPPING);
    assert Search(STOPPED, I(0, 0, 0)) == Hit(Some(I(0, 0, 1)), []);
    assert [I(0, 0, 0)][1..] + [] == [];
    StoppedRun(math, true);
    StoppedRun(math, false);
    assert FreshMachines(Start(true), Start(false));
    assert !SameValue(TWO, math, STOPPING, "a", Start(true), Start(false));
  }
}
