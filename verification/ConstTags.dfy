/** What a constant tag of the ESIL data-flow graph means for register-only ESIL, and what the
    analysis knows if its interval tree is the map it stands for: which stretches of the
    register file are constant.  Two concrete runs of one expression agree on all of them. */
module ConstTags {
  import opened Lists
  import opened IntervalTree
  import opened Clearing

  /** "=", ":=" and the "op=" family. */
  datatype How = Plain | Weak | Update(op: string)

  /** One word of a register-only ESIL expression.  Flag reads the last comparison, popping one
      operand first when its arity is 1. */
  datatype Word =
    | PushReg(name: string)
    | PushNum(n: nat)
    | Set(how: How)
    | Bin(op: string)
    | Un(op: string)
    | Dup
    | Pop
    | Flag(op: string, arity: nat)

  type Profile = map<string, (int, int)>

  ghost predicate WellFormed(regs: Profile, prog: seq<Word>) {
    && (forall r :: r in regs ==> regs[r].0 <= regs[r].1)
    && (forall i :: 0 <= i < |prog| ==> WordOk(regs, prog[i]))
  }

  predicate WordOk(regs: Profile, w: Word) {
    && (w.PushReg? ==> w.name in regs)
    && (w.Flag? ==> w.arity <= 1)
  }

  // ---------------------------------------------------------------- concrete runs

  /** A register file as one arena of bits. */
  type Bits = int -> bool

  function ReadBits(f: Bits, from: int, to: int): nat
    decreases 1 + to - from
  {
    if to < from then 0 else (if f(from) then 1 else 0) + 2 * ReadBits(f, from + 1, to)
  }

  function BitOf(v: nat, i: nat): bool {
    if i == 0 then v % 2 == 1 else BitOf(v / 2, i - 1)
  }

  function WriteBits(f: Bits, from: int, to: int, v: nat): Bits {
    b => if from <= b <= to then BitOf(v, b - from) else f(b)
  }

  /** An entry of the concrete stack: ESIL pushes register names and reads them when popped. */
  datatype Operand = Name(reg: string) | Value(n: nat)

  /** The arithmetic of the operators, left open: results depend on the operands and their values. */
  datatype Math = Math(bin: (string, Operand, nat, Operand, nat) -> nat,
                       un: (string, Operand, nat) -> nat,
                       flag: (string, nat, nat, nat) -> nat)

  datatype Machine = Machine(file: Bits, stack: seq<Operand>, cur: nat, last: nat)

  function Eval(regs: Profile, f: Bits, o: Operand): nat {
    match o
    case Value(n) => n
    case Name(r) => if r in regs then ReadBits(f, regs[r].0, regs[r].1) else 0
  }

  /** One word; None when the operator returns false and the parse stops. */
  function Step(regs: Profile, math: Math, m: Machine, w: Word): Option<Machine> {
    var n := |m.stack|;
    match w
    case PushReg(r) => Some(m.(stack := m.stack + [Name(r)]))
    case PushNum(k) => Some(m.(stack := m.stack + [Value(k)]))
    case Bin(op) =>
      if n < 2 then None else
      var a, b := m.stack[n - 1], m.stack[n - 2];
      var v := math.bin(op, a, Eval(regs, m.file, a), b, Eval(regs, m.file, b));
      Some(m.(stack := m.stack[..n - 2] + [Value(v)]))
    case Un(op) =>
      if n < 1 then None else
      var a := m.stack[n - 1];
      Some(m.(stack := m.stack[..n - 1] + [Value(math.un(op, a, Eval(regs, m.file, a)))]))
    case Dup => if n < 1 then None else Some(m.(stack := m.stack + [m.stack[n - 1]]))
    case Pop => if n < 1 then None else Some(m.(stack := m.stack[..n - 1]))
    case Flag(op, arity) =>
      if n < arity then None else
      var x := if arity == 0 then 0 else Eval(regs, m.file, m.stack[n - 1]);
      Some(m.(stack := m.stack[..n - arity] + [Value(math.flag(op, m.cur, m.last, x))]))
    case Set(how) =>
      if n < 2 || m.stack[n - 1].Value? || m.stack[n - 1].reg !in regs then None else
      var dst, src := m.stack[n - 1], m.stack[n - 2];
      var was, x := Eval(regs, m.file, dst), Eval(regs, m.file, src);
      var v := if how.Update? then math.bin(how.op, dst, was, src, x) else x;
      var file := WriteBits(m.file, regs[dst.reg].0, regs[dst.reg].1, v);
      var m' := m.(file := file, stack := m.stack[..n - 2]);
      Some(if how.Weak? then m' else m'.(cur := v, last := was))
  }

  function Run(regs: Profile, math: Math, m: Machine, prog: seq<Word>): Option<Machine>
    decreases |prog|
  {
    if prog == [] then Some(m)
    else match Step(regs, math, m, prog[0])
      case None => None
      case Some(m') => Run(regs, math, m', prog[1..])
  }

  // ---------------------------------------------------------------- what is known of the registers

  /** An entry of the stack while the graph is built: a register, a number, or a result that is
      constant or not. */
  datatype Entry = Loc(reg: string) | Lit(n: nat) | Res(fixed: bool)

  /** The defined stretches of the register file, labelled 1 if constant and 0 if not, the
      stack, and whether a comparison was recorded for the flag operators. */
  datatype Known = Known(parts: set<Interval>, stack: seq<Entry>, compared: bool)

  function Range(regs: Profile, r: string): Interval
    requires r in regs
  {
    Interval(Reg, regs[r].0, regs[r].1, 0)
  }

  predicate Covers(x: Interval, rng: Interval) { x.kind == rng.kind && x.from <= rng.from && rng.to <= x.to }

  /** One constant stretch covers the whole range. */
  ghost predicate Fixed(e: set<Interval>, rng: Interval) {
    exists x :: x in e && Covers(x, rng) && x.node == 1
  }

  ghost predicate Held(e: set<Interval>, k: Kind, b: int) { exists x :: x in e && In(x, k, b) }

  /** A longest stretch of rng that nothing defines. */
  ghost predicate Gap(e: set<Interval>, rng: Interval, x: Interval) {
    && x.kind == rng.kind && x.node == 0 && rng.from <= x.from <= x.to <= rng.to
    && (forall b :: x.from <= b <= x.to ==> !Held(e, rng.kind, b))
    && (x.from == rng.from || Held(e, rng.kind, x.from - 1))
    && (x.to == rng.to || Held(e, rng.kind, x.to + 1))
  }

  /** A read defines the gaps by what the registers held at the start. */
  ghost function Reading(e: set<Interval>, rng: Interval): set<Interval> {
    e + set a, b | rng.from <= a <= rng.to && rng.from <= b <= rng.to && Gap(e, rng, Interval(rng.kind, a, b, 0))
        :: Interval(rng.kind, a, b, 0)
  }

  lemma ReadingIn(e: set<Interval>, rng: Interval, x: Interval)
    ensures x in Reading(e, rng) <==> x in e || Gap(e, rng, x)
  {
    if Gap(e, rng, x) { assert x == Interval(rng.kind, x.from, x.to, 0); }
  }

  ghost function ReadEntry(regs: Profile, e: set<Interval>, it: Entry): set<Interval> {
    if it.Loc? && it.reg in regs then Reading(e, Range(regs, it.reg)) else e
  }

  ghost predicate FixedEntry(regs: Profile, e: set<Interval>, it: Entry) {
    match it
    case Loc(r) => r in regs && Fixed(e, Range(regs, r))
    case Lit(_) => true
    case Res(fixed) => fixed
  }

  /** A write cuts the other stretches back. */
  ghost function Writing(e: set<Interval>, rng: Interval, fixed: bool): set<Interval> {
    Trimmed(e, rng) + {rng.(node := if fixed then 1 else 0)}
  }

  /** What is known before the assignment src, dst, how writes its destination. */
  ghost function Operands(regs: Profile, e: set<Interval>, src: Entry, dst: Entry, how: How): set<Interval> {
    if how.Update? then ReadEntry(regs, ReadEntry(regs, e, src), dst) else ReadEntry(regs, e, src)
  }

  /** One word of the expression, and whether its operator returns true. */
  ghost function Learn(regs: Profile, s: Known, w: Word): (Known, bool) {
    var n := |s.stack|;
    match w
    case PushReg(r) => (s.(stack := s.stack + [Loc(r)]), true)
    case PushNum(k) => (s.(stack := s.stack + [Lit(k)]), true)
    case Bin(_) =>
      if n < 2 then (s.(stack := []), false) else
      var a, b := s.stack[n - 1], s.stack[n - 2];
      var e := ReadEntry(regs, s.parts, a);
      var fixed := FixedEntry(regs, s.parts, a) && FixedEntry(regs, e, b);
      (s.(parts := ReadEntry(regs, e, b), stack := s.stack[..n - 2] + [Res(fixed)]), true)
    case Un(_) =>
      if n < 1 then (s, false) else
      var a := s.stack[n - 1];
      (s.(parts := ReadEntry(regs, s.parts, a),
          stack := s.stack[..n - 1] + [Res(FixedEntry(regs, s.parts, a))]), true)
    case Dup => if n < 1 then (s, false) else (s.(stack := s.stack + [s.stack[n - 1]]), true)
    case Pop =>
      if n < 1 then (s, false) else
      (s.(parts := ReadEntry(regs, s.parts, s.stack[n - 1]), stack := s.stack[..n - 1]), true)
    case Flag(_, arity) =>
      if n < arity then (s, false) else
      var e := if arity == 0 then s.parts else ReadEntry(regs, s.parts, s.stack[n - 1]);
      var popped := s.(parts := e, stack := s.stack[..n - arity]);
      if s.compared then (popped.(stack := popped.stack + [Res(false)]), true) else (popped, false)
    case Set(how) =>
      if n < 2 then (s.(stack := []), false)
      else Assign(regs, s.(stack := s.stack[..n - 2]), s.stack[n - 2], s.stack[n - 1], how)
  }

  ghost function Assign(regs: Profile, s: Known, src: Entry, dst: Entry, how: How): (Known, bool) {
    match dst
    case Res(_) => (s, false)
    case Lit(_) => (s.(parts := ReadEntry(regs, s.parts, src)), false)
    case Loc(r) =>
      if r !in regs then (s, false) else
      var fixed := FixedEntry(regs, s.parts, src)
                   && (how.Update? ==> FixedEntry(regs, ReadEntry(regs, s.parts, src), dst));
      var e := Operands(regs, s.parts, src, dst, how);
      (s.(parts := Writing(e, Range(regs, r), fixed), compared := s.compared || !how.Weak?), true)
  }

  /** The whole expression; it stops at the first word that is refused. */
  ghost function LearnAll(regs: Profile, s: Known, prog: seq<Word>): (Known, bool)
    decreases |prog|
  {
    if prog == [] then (s, true)
    else
      var (s', ok) := Learn(regs, s, prog[0]);
      if ok then LearnAll(regs, s', prog[1..]) else (s', false)
  }

  const NOTHING := Known({}, [], false)

  lemma {:induction false} ReadSame(f: Bits, g: Bits, from: int, to: int)
    requires forall b :: from <= b <= to ==> f(b) == g(b)
    ensures ReadBits(f, from, to) == ReadBits(g, from, to)
    decreases 1 + to - from
  {
    if from <= to { ReadSame(f, g, from + 1, to); }
  }

  // ---------------------------------------------------------------- which expressions are accepted

  datatype Shape = AReg | ANum | AResult

  /** A word finds the entries it needs, a register on top if it assigns, and a recorded
      comparison if it is a flag operator. */
  predicate Takes(w: Word, stack: seq<Shape>, compared: bool) {
    var n := |stack|;
    match w
    case Bin(_) => n >= 2
    case Un(_) => n >= 1
    case Dup => n >= 1
    case Pop => n >= 1
    case Flag(_, arity) => n >= arity && compared
    case Set(_) => n >= 2 && stack[n - 1] == AReg
    case _ => true
  }

  function Shaped(w: Word, stack: seq<Shape>, compared: bool): seq<Shape>
    requires Takes(w, stack, compared)
  {
    var n := |stack|;
    match w
    case PushReg(_) => stack + [AReg]
    case PushNum(_) => stack + [ANum]
    case Bin(_) => stack[..n - 2] + [AResult]
    case Un(_) => stack[..n - 1] + [AResult]
    case Dup => stack + [stack[n - 1]]
    case Pop => stack[..n - 1]
    case Flag(_, arity) => stack[..n - arity] + [AResult]
    case Set(_) => stack[..n - 2]
  }

  /** A strong assignment records a comparison; a weak one does not. */
  predicate Compares(w: Word) { w.Set? && !w.how.Weak? }

  /** The operators accept the whole expression. */
  predicate Accepts(stack: seq<Shape>, compared: bool, prog: seq<Word>)
    decreases |prog|
  {
    prog == [] || (Takes(prog[0], stack, compared)
                   && Accepts(Shaped(prog[0], stack, compared), compared || Compares(prog[0]), prog[1..]))
  }

  function ShapeOf(it: Entry): Shape { if it.Loc? then AReg else if it.Lit? then ANum else AResult }

  function Shapes(s: seq<Entry>): seq<Shape> { seq(|s|, i requires 0 <= i < |s| => ShapeOf(s[i])) }

  lemma ShapesCut(s: seq<Entry>, k: nat, it: Entry)
    requires k <= |s|
    ensures Shapes(s[..k]) == Shapes(s)[..k] && Shapes(s[..k] + [it]) == Shapes(s)[..k] + [ShapeOf(it)]
    ensures k == |s| ==> Shapes(s + [it]) == Shapes(s) + [ShapeOf(it)]
  {
    if k == |s| { assert s[..k] == s && Shapes(s)[..k] == Shapes(s); }
  }

  ghost predicate EntriesOk(regs: Profile, s: seq<Entry>) {
    forall i :: 0 <= i < |s| && s[i].Loc? ==> s[i].reg in regs
  }

  /** Acceptance is a matter of the words alone: what is known of the registers plays no part. */
  lemma {:induction false} LearnsIff(regs: Profile, s: Known, prog: seq<Word>)
    requires WellFormed(regs, prog) && EntriesOk(regs, s.stack)
    ensures LearnAll(regs, s, prog).1 <==> Accepts(Shapes(s.stack), s.compared, prog)
    decreases |prog|
  {
    if prog != [] {
      var (s', ok) := Learn(regs, s, prog[0]);
      ShapesAfter(regs, s, prog[0]);
      if ok { LearnsIff(regs, s', prog[1..]); }
    }
  }

  /** The word does to the shapes of the stack what Shaped says. */
  ghost predicate LearnFits(regs: Profile, s: Known, w: Word)
    requires EntriesOk(regs, s.stack)
  {
    var (s', ok) := Learn(regs, s, w);
    && (ok <==> Takes(w, Shapes(s.stack), s.compared))
    && (ok ==> EntriesOk(regs, s'.stack) && Shapes(s'.stack) == Shaped(w, Shapes(s.stack), s.compared)
               && s'.compared == (s.compared || Compares(w)))
  }

  lemma ShapesAfter(regs: Profile, s: Known, w: Word)
    requires WordOk(regs, w) && EntriesOk(regs, s.stack)
    ensures LearnFits(regs, s, w)
  {
    var n := |s.stack|;
    match w
    case PushReg(r) => ShapesCut(s.stack, n, Loc(r));
    case PushNum(k) => ShapesCut(s.stack, n, Lit(k));
    case Dup => if n >= 1 { ShapesCut(s.stack, n, s.stack[n - 1]); }
    case Pop => if n >= 1 { ShapesCut(s.stack, n - 1, Lit(0)); }
    case Set(_) => LearnFitsSet(regs, s, w);
    case _ => LearnFitsResult(regs, s, w);
  }

  lemma LearnFitsSet(regs: Profile, s: Known, w: Word)
    requires WordOk(regs, w) && EntriesOk(regs, s.stack) && w.Set?
    ensures LearnFits(regs, s, w)
  {
    var n := |s.stack|;
    if n >= 2 { ShapesCut(s.stack, n - 2, Lit(0)); }
  }

  lemma LearnFitsResult(regs: Profile, s: Known, w: Word)
    requires WordOk(regs, w) && EntriesOk(regs, s.stack) && (w.Bin? || w.Un? || w.Flag?)
    ensures LearnFits(regs, s, w)
  {
    var n, k := |s.stack|, if w.Bin? then 2 else if w.Un? then 1 else w.arity;
    if n >= k {
      var it := Learn(regs, s, w).0.stack;
      if Learn(regs, s, w).1 { ShapesCut(s.stack, n - k, it[n - k]); }
    }
  }

  // ---------------------------------------------------------------- soundness

  ghost predicate SameEntry(regs: Profile, it: Entry, a: Operand, b: Operand) {
    match it
    case Loc(r) => r in regs && a == b == Name(r)
    case Lit(n) => a == b == Value(n)
    case Res(fixed) => a.Value? && b.Value? && (fixed ==> a == b)
  }

  ghost predicate Steady(e: set<Interval>, f: Bits, g: Bits) {
    forall x, b :: x in e && x.node == 1 && In(x, Reg, b) ==> f(b) == g(b)
  }

  /** Two machines agree with what is known, hence with each other wherever it says constant. */
  ghost predicate Agree(regs: Profile, s: Known, m1: Machine, m2: Machine) {
    && |s.stack| == |m1.stack| == |m2.stack|
    && (forall i :: 0 <= i < |s.stack| ==> SameEntry(regs, s.stack[i], m1.stack[i], m2.stack[i]))
    && Steady(s.parts, m1.file, m2.file)
  }

  lemma SteadyRead(regs: Profile, e: set<Interval>, it: Entry, f: Bits, g: Bits)
    requires Steady(e, f, g)
    ensures Steady(ReadEntry(regs, e, it), f, g)
  {
    if it.Loc? && it.reg in regs {
      forall x | x in Reading(e, Range(regs, it.reg)) && x.node == 1 ensures x in e {
        ReadingIn(e, Range(regs, it.reg), x);
      }
    }
  }

  /** A constant operand has one value in both runs. */
  lemma FixedSame(regs: Profile, e: set<Interval>, it: Entry, a: Operand, b: Operand, f: Bits, g: Bits)
    requires Steady(e, f, g) && SameEntry(regs, it, a, b) && FixedEntry(regs, e, it)
    ensures a == b && Eval(regs, f, a) == Eval(regs, g, b)
  {
    if it.Loc? {
      var rng := Range(regs, it.reg);
      var x :| x in e && Covers(x, rng) && x.node == 1;
      forall b | rng.from <= b <= rng.to ensures f(b) == g(b) { assert In(x, Reg, b); }
      ReadSame(f, g, rng.from, rng.to);
    }
  }

  /** Whatever the operators accept, two machines in agreement can run, and agree again. */
  lemma LearnAgrees(regs: Profile, math: Math, s: Known, w: Word, m1: Machine, m2: Machine)
    requires Learn(regs, s, w).1 && Agree(regs, s, m1, m2) && WordOk(regs, w)
    ensures Step(regs, math, m1, w).Some? && Step(regs, math, m2, w).Some?
    ensures Agree(regs, Learn(regs, s, w).0, Step(regs, math, m1, w).value, Step(regs, math, m2, w).value)
  {
    match w
    case Set(_) => AssignAgrees(regs, math, s, w, m1, m2);
    case Bin(_) => BinAgrees(regs, math, s, w, m1, m2);
    case Un(_) => UnAgrees(regs, math, s, w, m1, m2);
    case Flag(_, _) => FlagAgrees(regs, math, s, w, m1, m2);
    case Pop => SteadyRead(regs, s.parts, s.stack[|s.stack| - 1], m1.file, m2.file);
    case _ =>
  }

  /** Replacing n entries by one result keeps the runs in agreement, if equal values are pushed
      whenever the result is called constant. */
  lemma ResultAgrees(regs: Profile, s: Known, e: set<Interval>, n: nat, fixed: bool, m1: Machine, m2: Machine,
                     v1: nat, v2: nat)
    requires Agree(regs, s, m1, m2) && n <= |s.stack| && Steady(e, m1.file, m2.file) && (fixed ==> v1 == v2)
    ensures Agree(regs, s.(parts := e, stack := s.stack[..|s.stack| - n] + [Res(fixed)]),
                  m1.(stack := m1.stack[..|s.stack| - n] + [Value(v1)]),
                  m2.(stack := m2.stack[..|s.stack| - n] + [Value(v2)]))
  {
  }

  lemma BinAgrees(regs: Profile, math: Math, s: Known, w: Word, m1: Machine, m2: Machine)
    requires Learn(regs, s, w).1 && Agree(regs, s, m1, m2) && w.Bin?
    ensures Step(regs, math, m1, w).Some? && Step(regs, math, m2, w).Some?
    ensures Agree(regs, Learn(regs, s, w).0, Step(regs, math, m1, w).value, Step(regs, math, m2, w).value)
  {
    var n := |s.stack|;
    var a, b := s.stack[n - 1], s.stack[n - 2];
    var a1, b1, a2, b2 := m1.stack[n - 1], m1.stack[n - 2], m2.stack[n - 1], m2.stack[n - 2];
    var e := ReadEntry(regs, s.parts, a);
    SteadyRead(regs, s.parts, a, m1.file, m2.file);
    SteadyRead(regs, e, b, m1.file, m2.file);
    var fixed := FixedEntry(regs, s.parts, a) && FixedEntry(regs, e, b);
    if fixed {
      FixedSame(regs, s.parts, a, a1, a2, m1.file, m2.file);
      FixedSame(regs, e, b, b1, b2, m1.file, m2.file);
    }
    ResultAgrees(regs, s, ReadEntry(regs, e, b), 2, fixed, m1, m2,
      math.bin(w.op, a1, Eval(regs, m1.file, a1), b1, Eval(regs, m1.file, b1)),
      math.bin(w.op, a2, Eval(regs, m2.file, a2), b2, Eval(regs, m2.file, b2)));
  }

  lemma UnAgrees(regs: Profile, math: Math, s: Known, w: Word, m1: Machine, m2: Machine)
    requires Learn(regs, s, w).1 && Agree(regs, s, m1, m2) && w.Un?
    ensures Step(regs, math, m1, w).Some? && Step(regs, math, m2, w).Some?
    ensures Agree(regs, Learn(regs, s, w).0, Step(regs, math, m1, w).value, Step(regs, math, m2, w).value)
  {
    var n := |s.stack|;
    var a, a1, a2 := s.stack[n - 1], m1.stack[n - 1], m2.stack[n - 1];
    SteadyRead(regs, s.parts, a, m1.file, m2.file);
    if FixedEntry(regs, s.parts, a) { FixedSame(regs, s.parts, a, a1, a2, m1.file, m2.file); }
    ResultAgrees(regs, s, ReadEntry(regs, s.parts, a), 1, FixedEntry(regs, s.parts, a), m1, m2,
      math.un(w.op, a1, Eval(regs, m1.file, a1)), math.un(w.op, a2, Eval(regs, m2.file, a2)));
  }

  lemma FlagAgrees(regs: Profile, math: Math, s: Known, w: Word, m1: Machine, m2: Machine)
    requires Learn(regs, s, w).1 && Agree(regs, s, m1, m2) && w.Flag? && w.arity <= 1
    ensures Step(regs, math, m1, w).Some? && Step(regs, math, m2, w).Some?
    ensures Agree(regs, Learn(regs, s, w).0, Step(regs, math, m1, w).value, Step(regs, math, m2, w).value)
  {
    var n := |s.stack|;
    var e := if w.arity == 0 then s.parts else ReadEntry(regs, s.parts, s.stack[n - 1]);
    if w.arity == 1 { SteadyRead(regs, s.parts, s.stack[n - 1], m1.file, m2.file); }
    var s1, s2 := Step(regs, math, m1, w).value.stack, Step(regs, math, m2, w).value.stack;
    ResultAgrees(regs, s, e, w.arity, false, m1, m2, s1[|s1| - 1].n, s2[|s2| - 1].n);
  }

  /** A write through overlapping registers: what stays constant lies outside it. */
  lemma WriteSteady(e: set<Interval>, rng: Interval, fixed: bool, f: Bits, g: Bits, v: nat, u: nat)
    requires Steady(e, f, g) && rng.kind == Reg && (fixed ==> v == u)
    ensures Steady(Writing(e, rng, fixed), WriteBits(f, rng.from, rng.to, v), WriteBits(g, rng.from, rng.to, u))
  {
    forall y, b | y in Writing(e, rng, fixed) && y.node == 1 && In(y, Reg, b)
      ensures WriteBits(f, rng.from, rng.to, v)(b) == WriteBits(g, rng.from, rng.to, u)(b)
    {
      if y in Trimmed(e, rng) {
        var x :| x in e && y in Cut(x, rng);
        CutOutside(x, rng, y, b);
      }
    }
  }

  lemma CutOutside(x: Interval, rng: Interval, y: Interval, b: int)
    requires y in Cut(x, rng) && rng.kind == Reg && In(y, Reg, b)
    ensures !(rng.from <= b <= rng.to) && In(x, Reg, b) && y.node == x.node
  {
  }

  /** What an assignment writes, given the operands and what they hold. */
  function Written(regs: Profile, math: Math, m: Machine, how: How, dst: Operand, src: Operand): nat {
    if how.Update? then math.bin(how.op, dst, Eval(regs, m.file, dst), src, Eval(regs, m.file, src))
    else Eval(regs, m.file, src)
  }

  lemma WrittenSame(regs: Profile, math: Math, s: Known, how: How, m1: Machine, m2: Machine)
    requires Agree(regs, s, m1, m2) && |s.stack| >= 2
    requires var n := |s.stack|;
      && FixedEntry(regs, s.parts, s.stack[n - 2])
      && (how.Update? ==> FixedEntry(regs, ReadEntry(regs, s.parts, s.stack[n - 2]), s.stack[n - 1]))
    ensures var n := |s.stack|;
      Written(regs, math, m1, how, m1.stack[n - 1], m1.stack[n - 2])
      == Written(regs, math, m2, how, m2.stack[n - 1], m2.stack[n - 2])
  {
    var n := |s.stack|;
    var dst, src, e := s.stack[n - 1], s.stack[n - 2], ReadEntry(regs, s.parts, s.stack[n - 2]);
    SteadyRead(regs, s.parts, src, m1.file, m2.file);
    assert SameEntry(regs, dst, m1.stack[n - 1], m2.stack[n - 1]);
    FixedSame(regs, s.parts, src, m1.stack[n - 2], m2.stack[n - 2], m1.file, m2.file);
    if how.Update? { FixedSame(regs, e, dst, m1.stack[n - 1], m2.stack[n - 1], m1.file, m2.file); }
  }

  lemma AssignAgrees(regs: Profile, math: Math, s: Known, w: Word, m1: Machine, m2: Machine)
    requires Learn(regs, s, w).1 && Agree(regs, s, m1, m2) && w.Set?
    ensures Step(regs, math, m1, w).Some? && Step(regs, math, m2, w).Some?
    ensures Agree(regs, Learn(regs, s, w).0, Step(regs, math, m1, w).value, Step(regs, math, m2, w).value)
  {
    var n := |s.stack|;
    var dst, src := s.stack[n - 1], s.stack[n - 2];
    assert SameEntry(regs, dst, m1.stack[n - 1], m2.stack[n - 1]);
    var e1, e := ReadEntry(regs, s.parts, src), Operands(regs, s.parts, src, dst, w.how);
    SteadyRead(regs, s.parts, src, m1.file, m2.file);
    SteadyRead(regs, e1, dst, m1.file, m2.file);
    var fixed := FixedEntry(regs, s.parts, src) && (w.how.Update? ==> FixedEntry(regs, e1, dst));
    if fixed { WrittenSame(regs, math, s, w.how, m1, m2); }
    WriteSteady(e, Range(regs, dst.reg), fixed, m1.file, m2.file,
                Written(regs, math, m1, w.how, m1.stack[n - 1], m1.stack[n - 2]),
                Written(regs, math, m2, w.how, m2.stack[n - 1], m2.stack[n - 2]));
  }

  /** Along an accepted expression, runs from any two register files stay in agreement. */
  lemma {:induction false} LearnAllAgrees(regs: Profile, math: Math, s: Known, prog: seq<Word>, m1: Machine,
                                          m2: Machine)
    requires WellFormed(regs, prog) && LearnAll(regs, s, prog).1 && Agree(regs, s, m1, m2)
    ensures Run(regs, math, m1, prog).Some? && Run(regs, math, m2, prog).Some?
    ensures Agree(regs, LearnAll(regs, s, prog).0, Run(regs, math, m1, prog).value, Run(regs, math, m2, prog).value)
    decreases |prog|
  {
    if prog != [] {
      var w := prog[0];
      LearnAgrees(regs, math, s, w, m1, m2);
      LearnAllAgrees(regs, math, Learn(regs, s, w).0, prog[1..],
                     Step(regs, math, m1, w).value, Step(regs, math, m2, w).value);
    }
  }

  ghost predicate FixedBit(e: set<Interval>, k: Kind, b: int) { exists x :: x in e && In(x, k, b) && x.node == 1 }

  /** Every bit of the range belongs to a constant stretch. */
  ghost predicate AllFixed(e: set<Interval>, rng: Interval) {
    forall b :: rng.from <= b <= rng.to ==> FixedBit(e, rng.kind, b)
  }

  predicate FreshMachines(m1: Machine, m2: Machine) { m1.stack == m2.stack == [] }

  ghost predicate SameValue(regs: Profile, math: Math, prog: seq<Word>, reg: string, m1: Machine, m2: Machine) {
    var r1, r2 := Run(regs, math, m1, prog), Run(regs, math, m2, prog);
    r1.Some? && r2.Some? && Eval(regs, r1.value.file, Name(reg)) == Eval(regs, r2.value.file, Name(reg))
  }

  /** Whatever the arithmetic and the registers at the start, reg ends with one value. */
  ghost predicate SameFromAll(regs: Profile, prog: seq<Word>, reg: string) {
    forall math, m1, m2 :: FreshMachines(m1, m2) ==> SameValue(regs, math, prog, reg, m1, m2)
  }

  /** Soundness: a register whose bits are all known to be constant after an accepted expression
      holds the same value whatever the registers held before. */
  lemma ConstSound(regs: Profile, prog: seq<Word>, reg: string)
    requires WellFormed(regs, prog) && reg in regs && Accepts([], false, prog)
    requires AllFixed(LearnAll(regs, NOTHING, prog).0.parts, Range(regs, reg))
    ensures SameFromAll(regs, prog, reg)
  {
    LearnsIff(regs, NOTHING, prog);
    assert Shapes([]) == [];
    var e := LearnAll(regs, NOTHING, prog).0.parts;
    forall math, m1, m2 | FreshMachines(m1, m2) ensures SameValue(regs, math, prog, reg, m1, m2) {
      LearnAllAgrees(regs, math, NOTHING, prog, m1, m2);
      var f, g := Run(regs, math, m1, prog).value.file, Run(regs, math, m2, prog).value.file;
      forall b | regs[reg].0 <= b <= regs[reg].1 ensures f(b) == g(b) {
        assert FixedBit(e, Reg, b);
      }
      ReadSame(f, g, regs[reg].0, regs[reg].1);
    }
  }

  // ---------------------------------------------------------------- which expressions keep the tree in order

  /** No write of the expression swallows two of the stretches known before it: a condition on
      the words and the profile alone. */
  ghost predicate Tidy(regs: Profile, s: Known, prog: seq<Word>)
    decreases |prog|
  {
    prog != [] ==>
      TidyWord(regs, s, prog[0]) && (Learn(regs, s, prog[0]).1 ==> Tidy(regs, Learn(regs, s, prog[0]).0, prog[1..]))
  }

  ghost predicate TidyWord(regs: Profile, s: Known, w: Word) {
    var n := |s.stack|;
    w.Set? && n >= 2 && s.stack[n - 1].Loc? && s.stack[n - 1].reg in regs ==>
      AtMostOne(Operands(regs, s.parts, s.stack[n - 2], s.stack[n - 1], w.how), Range(regs, s.stack[n - 1].reg))
  }
}
