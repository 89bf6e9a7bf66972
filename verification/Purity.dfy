/** Whether a function touches data outside itself: the search over the call graph
    (libr/anal/fcn.c:478-530, 3127-3136). */
module Purity {
  import opened Lists

  /** R_ANAL_REF_TYPE_MASK of a reference. */
  datatype Kind = Call | Code | Icod | Data | Other

  /** A reference of a function; to is the function around its address, if there is one. */
  datatype Ref = Ref(kind: Kind, to: Option<nat>)

  type Program = map<nat, seq<Ref>>

  /** is_pure of every function, and the functions in the table of checked ones. */
  datatype Marks = Marks(pure: map<nat, bool>, checked: set<nat>)

  predicate Leads(p: Program, r: Ref) {
    (r.kind == Call || r.kind == Code || r.kind == Icod) && r.to.Some? && r.to.value in p
  }

  ghost predicate Calls(p: Program, f: nat, c: nat) {
    f in p && exists i :: 0 <= i < |p[f]| && Leads(p, p[f][i]) && p[f][i].to.value == c
  }

  predicate HasData(p: Program, f: nat) {
    f in p && exists i :: 0 <= i < |p[f]| && p[f][i].kind == Data
  }

  ghost predicate Chain(p: Program, s: seq<nat>) {
    s != [] && forall i :: 0 < i < |s| ==> Calls(p, s[i - 1], s[i])
  }

  /** The specification: some function reached by calls has a data reference. */
  ghost predicate Impure(p: Program, f: nat) {
    exists s :: Chain(p, s) && s[0] == f && HasData(p, s[|s| - 1])
  }

  lemma ImpureItself(p: Program, f: nat)
    requires HasData(p, f)
    ensures Impure(p, f)
  {
    assert Chain(p, [f]);
  }

  lemma ImpureCaller(p: Program, f: nat, c: nat)
    requires Calls(p, f, c) && Impure(p, c)
    ensures Impure(p, f)
  {
    var s :| Chain(p, s) && s[0] == c && HasData(p, s[|s| - 1]);
    var t := [f] + s;
    assert forall i :: 0 < i < |t| ==> t[i] == s[i - 1];
    assert Chain(p, t);
  }

  lemma {:induction false} ClosedChain(p: Program, set_: set<nat>, s: seq<nat>, i: nat)
    requires Chain(p, s) && i < |s| && s[0] in set_
    requires forall f, c :: f in set_ && Calls(p, f, c) ==> c in set_
    ensures s[i] in set_
  {
    if i > 0 {
      ClosedChain(p, set_, s, i - 1);
      assert Calls(p, s[i - 1], s[i]);
    }
  }

  // ---------------------------------------------------------------- the search

  ghost predicate Total(p: Program, m: Marks) {
    m.pure.Keys == p.Keys && m.checked <= p.Keys
  }

  function Mark(m: Marks, f: nat, b: bool): Marks { m.(pure := m.pure[f := b]) }

  /** check_purity, and its loop over the references of f from index i on. */
  function Check(p: Program, m: Marks, f: nat): (r: Marks)
    requires Total(p, m) && f in p && f !in m.checked
    ensures Total(p, r) && m.checked + {f} <= r.checked
    decreases p.Keys - m.checked, 0, 0
  {
    CheckRefs(p, Mark(m, f, true).(checked := m.checked + {f}), f, 0)
  }

  function CheckRefs(p: Program, m: Marks, f: nat, i: nat): (r: Marks)
    requires Total(p, m) && f in m.checked && i <= |p[f]|
    ensures Total(p, r) && m.checked <= r.checked
    decreases p.Keys - m.checked, 1, |p[f]| - i
  {
    if i == |p[f]| then m
    else if p[f][i].kind == Data then Mark(m, f, false)
    else if Leads(p, p[f][i]) then
      var c := p[f][i].to.value;
      var m' := if c in m.checked then m else Check(p, m, c);
      if !m'.pure[c] then Mark(m', f, false) else CheckRefs(p, m', f, i + 1)
    else CheckRefs(p, m, f, i + 1)
  }

  class Analysis {
    const p: Program
    var m: Marks

    ghost predicate Valid()
      reads this
    {
      Total(p, m)
    }

    method CheckPurity(f: nat)
      requires Valid() && f in p && f !in m.checked
      modifies this
      ensures Valid() && m == Check(p, old(m), f)
      decreases p.Keys - m.checked
    {
      m := m.(pure := m.pure[f := true], checked := m.checked + {f});
      ghost var m0 := m;
      for i := 0 to |p[f]|
        invariant Valid() && m0.checked <= m.checked
        invariant CheckRefs(p, m, f, i) == CheckRefs(p, m0, f, 0)
      {
        var ref := p[f][i];
        match ref.kind
        case Data =>
          m := m.(pure := m.pure[f := false]);
          return;
        case Other =>
        case _ =>
          if ref.to.Some? && ref.to.value in p {
            var called := ref.to.value;
            if called !in m.checked { CheckPurity(called); }
            if !m.pure[called] {
              m := m.(pure := m.pure[f := false]);
              return;
            }
          }
      }
    }

    /** r_anal_function_purity.  On a changed function the answer is exact; otherwise it is what the
        last search left. */
    method FunctionPurity(f: nat, hasChanged: bool) returns (pure: bool)
      requires Valid() && f in p
      modifies this
      ensures Valid()
      ensures hasChanged ==> m == Check(p, old(m).(checked := {}), f) && (pure <==> !Impure(p, f))
      ensures !hasChanged ==> m == old(m) && pure == old(m.pure[f])
    {
      if hasChanged {
        m := m.(checked := {});
        CheckExact(p, m, f);
        CheckPurity(f);
      }
      pure := m.pure[f];
    }
  }

  // ---------------------------------------------------------------- the search is exact for its root

  /** Every negative mark is right. */
  ghost predicate NegativesRight(p: Program, m: Marks)
    requires Total(p, m)
  {
    forall v :: v in m.checked && !m.pure[v] ==> Impure(p, v)
  }

  /** The newly checked functions touch no data, are marked pure, and call only checked functions
      marked pure. */
  ghost predicate AllPure(p: Program, m: Marks, m': Marks)
    requires Total(p, m) && Total(p, m')
  {
    forall v :: v in m'.checked && v !in m.checked ==>
      m'.pure[v] && !HasData(p, v) && forall c :: Calls(p, v, c) ==> c in m'.checked && m'.pure[c]
  }

  ghost predicate Untouched(p: Program, m: Marks, m': Marks)
    requires Total(p, m) && Total(p, m')
  {
    m.checked <= m'.checked && forall v :: v in m.checked ==> m'.pure[v] == m.pure[v]
  }

  lemma CheckOk(p: Program, m: Marks, f: nat)
    requires Total(p, m) && f in p && f !in m.checked && NegativesRight(p, m)
    ensures var r := Check(p, m, f);
            NegativesRight(p, r) && Untouched(p, m, r) && f in r.checked && (r.pure[f] ==> AllPure(p, m, r))
    decreases p.Keys - m.checked, 0, 0
  {
    var m1 := Mark(m, f, true).(checked := m.checked + {f});
    RefsOk(p, m, m1, f, 0);
  }

  /** m is the state when f was entered, m1 the state before its reference i. */
  ghost predicate Under(p: Program, m: Marks, m1: Marks, f: nat, i: nat)
    requires Total(p, m) && Total(p, m1)
  {
    && f in p && i <= |p[f]| && f in m1.checked && f !in m.checked && Untouched(p, m, m1) && m1.pure[f]
    && (forall v :: v in m1.checked && v !in m.checked && v != f ==>
          m1.pure[v] && !HasData(p, v) && forall c :: Calls(p, v, c) ==> c in m1.checked && m1.pure[c])
    && (forall j :: 0 <= j < i ==> p[f][j].kind != Data)
    && (forall j :: 0 <= j < i && Leads(p, p[f][j]) ==> p[f][j].to.value in m1.checked && m1.pure[p[f][j].to.value])
  }

  lemma UnderNext(p: Program, m: Marks, m1: Marks, m2: Marks, f: nat, i: nat, c: nat)
    requires Total(p, m) && Total(p, m1) && Total(p, m2) && Under(p, m, m1, f, i) && i < |p[f]|
    requires Leads(p, p[f][i]) && p[f][i].to.value == c && c in m2.checked && m2.pure[c]
    requires Untouched(p, m1, m2) && AllPure(p, m1, m2)
    ensures Under(p, m, m2, f, i + 1)
  {
  }

  lemma RefsOk(p: Program, m: Marks, m1: Marks, f: nat, i: nat)
    requires Total(p, m) && Total(p, m1) && NegativesRight(p, m1) && Under(p, m, m1, f, i)
    ensures var r := CheckRefs(p, m1, f, i);
            NegativesRight(p, r) && Untouched(p, m, r) && f in r.checked && (r.pure[f] ==> AllPure(p, m, r))
    decreases p.Keys - m1.checked, 1, |p[f]| - i
  {
    if i == |p[f]| {
    } else if p[f][i].kind == Data {
      assert HasData(p, f);
      ImpureItself(p, f);
    } else if Leads(p, p[f][i]) {
      var c := p[f][i].to.value;
      assert Calls(p, f, c);
      var m2 := m1;
      if c !in m1.checked {
        CheckOk(p, m1, c);
        m2 := Check(p, m1, c);
      }
      if !m2.pure[c] {
        ImpureCaller(p, f, c);
      } else {
        UnderNext(p, m, m1, m2, f, i, c);
        RefsOk(p, m, m2, f, i + 1);
      }
    } else {
      RefsOk(p, m, m1, f, i + 1);
    }
  }

  /** On an empty table the mark of the root is exact, cycles or not. */
  lemma CheckExact(p: Program, m: Marks, f: nat)
    requires Total(p, m) && f in p && m.checked == {}
    ensures f in Check(p, m, f).pure && (Check(p, m, f).pure[f] <==> !Impure(p, f))
  {
    CheckOk(p, m, f);
    var r := Check(p, m, f);
    if r.pure[f] && Impure(p, f) {
      var s :| Chain(p, s) && s[0] == f && HasData(p, s[|s| - 1]);
      ClosedChain(p, r.checked, s, |s| - 1);
    }
  }

  /** A cycle of 1 and 2, where 1 reads data after it calls 2. */
  const CYCLE: Program := map[1 := [Ref(Call, Some(2)), Ref(Data, None)], 2 := [Ref(Call, Some(1))]]

  lemma CycleIsImpure()
    ensures Impure(CYCLE, 1) && Impure(CYCLE, 2)
  {
    assert CYCLE[1][1].kind == Data && HasData(CYCLE, 1);
    assert Leads(CYCLE, CYCLE[2][0]) && Calls(CYCLE, 2, 1);
    ImpureItself(CYCLE, 1);
    ImpureCaller(CYCLE, 2, 1);
  }

  /** Only the root is exact: a search from 1 leaves 2 marked pure. */
  lemma InnerStaysOptimistic()
    ensures Check(CYCLE, Marks(map[1 := false, 2 := false], {}), 1).pure == map[1 := false, 2 := true]
    ensures Impure(CYCLE, 2)
  {
    CycleIsImpure();
    var m := Marks(map[1 := false, 2 := false], {});
    var m0 := Marks(map[1 := true, 2 := false], {1});
    var m1 := Marks(map[1 := true, 2 := true], {1, 2});
    assert CheckRefs(CYCLE, m1, 2, 1) == m1;
    assert CheckRefs(CYCLE, m1, 2, 0) == m1;
    assert Check(CYCLE, m0, 2) == m1;
    assert CheckRefs(CYCLE, m1, 1, 1).pure == map[1 := false, 2 := true];
    assert CheckRefs(CYCLE, m0, 1, 0) == CheckRefs(CYCLE, m1, 1, 1);
    assert Mark(m, 1, true).(checked := m.checked + {1}) == m0;
  }
}
