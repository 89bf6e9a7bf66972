/** Where a calling convention puts an argument: registers, explicit stack slots and open tails
    (libr/anal/cc.c:203-367, 504-572, 859-885, 951-1024). */
module CallConv {
  import opened Lists

  const MAXARG: nat := 16
  const MAX_HOMES: nat := 8

  /** A register, "^N", "^-N", and the open tails "^" and "^-". */
  datatype Place = Reg(id: nat) | Slot(n: nat) | RevSlot(n: nat) | Tail | RevTail

  /** A dynamic convention: the homes of each explicit argument ("_" is None), and the tail.  A
      static profile: its cc.argN entries, cc.argn and cc.revarg. */
  datatype Conv =
    | Dyn(args: seq<seq<Option<Place>>>, tail: Option<Place>)
    | Static(named: map<nat, Place>, argn: Option<Place>, revarg: bool)

  predicate Stack(l: Option<Place>) { l.Some? && !l.value.Reg? }
  predicate Open(l: Option<Place>) { l.Some? && (l.value.Tail? || l.value.RevTail?) }
  predicate Fixed(l: Option<Place>) { l.Some? && (l.value.Slot? || l.value.RevSlot?) }

  function Index(l: Option<Place>): nat
    requires Fixed(l)
  {
    l.value.n
  }

  /** Explicit arguments are below the cap. */
  predicate Bounded(cv: Conv) {
    match cv
    case Dyn(args, _) => |args| <= MAXARG && forall i :: 0 <= i < |args| ==> |args[i]| <= MAX_HOMES
    case Static(named, _, _) => forall k :: k in named ==> k < MAXARG
  }

  /** r_anal_cc_argloc. */
  function ArgLoc(cv: Conv, n: nat, home: nat, argc: int): Option<Place> {
    match cv
    case Dyn(args, tail) =>
      if n < |args| then if home < |args[n]| then args[n][home] else None
      else if home == 0 then tail else None
    case Static(named, argn, revarg) =>
      if home > 0 then None
      else if argc > 0 && revarg then
        if n >= argc then None else if argc - n - 1 in named then Some(named[argc - n - 1]) else argn
      else if n in named then Some(named[n]) else argn
  }

  // ---------------------------------------------------------------- the counts, without any cap

  /** How many arguments from lo on live on the stack. */
  function After(cv: Conv, lo: nat, argc: int): nat
    decreases argc - lo
  {
    if lo >= argc then 0 else (if Stack(ArgLoc(cv, lo, 0, argc)) then 1 else 0) + After(cv, lo + 1, argc)
  }

  function Max(a: nat, b: nat): nat { if a < b then b else a }

  /** One past the highest explicit slot among the first homes of argument i. */
  function HomeSlots(cv: Conv, i: nat, homes: nat, argc: int): nat {
    if homes == 0 then 0 else
      var l := ArgLoc(cv, i, homes - 1, argc);
      Max(HomeSlots(cv, i, homes - 1, argc), if Fixed(l) then Index(l) + 1 else 0)
  }

  function Slots(cv: Conv, n: nat, argc: int): nat {
    if n == 0 then 0 else Max(Slots(cv, n - 1, argc), HomeSlots(cv, n - 1, MAX_HOMES, argc))
  }

  /** How many of the first n arguments live in the open tail. */
  function Tails(cv: Conv, n: nat, argc: int): nat {
    if n == 0 then 0 else Tails(cv, n - 1, argc) + if Open(ArgLoc(cv, n - 1, 0, argc)) then 1 else 0
  }

  datatype ArgSlot = Nowhere | InReg(id: nat) | OnStack(off: nat, isFixed: bool)

  /** The specification of r_anal_cc_argslot: an argument in the reverse tail lies above all stack
      arguments behind it; one in the forward tail lies above the explicit slots and the tail
      arguments before it. */
  function Spec(cv: Conv, n: nat, argc: int, word: nat, shadow: nat, ra: nat): ArgSlot {
    match ArgLoc(cv, n, 0, argc)
    case None => Nowhere
    case Some(Reg(id)) => InReg(id)
    case Some(Slot(k)) => OnStack(k * word + ra, true)
    case Some(RevSlot(k)) => OnStack(k * word + ra, true)
    case Some(RevTail) => if argc < 0 then Nowhere else OnStack(TailOffset(Below(cv, n, argc), word, shadow, ra), false)
    case Some(Tail) => OnStack(TailOffset(Below(cv, n, argc), word, shadow, ra), false)
  }

  /** How many slots lie below an argument of the open tail. */
  function Below(cv: Conv, n: nat, argc: int): nat {
    if ArgLoc(cv, n, 0, argc) == Some(RevTail) then After(cv, n + 1, argc)
    else Slots(cv, n, argc) + Tails(cv, n, argc)
  }

  function TailOffset(below: nat, word: nat, shadow: nat, ra: nat): nat {
    below * word + shadow + ra
  }

  // ---------------------------------------------------------------- r_anal_cc_argslot

  /** The scan for a reverse tail: only the last MAXARG arguments are looked up one by one. */
  function CappedAfter(cv: Conv, n: nat, argc: int): nat {
    var first := if n + 1 > argc - MAXARG then n + 1 else argc - MAXARG;
    After(cv, first, argc) + if first > n + 1 && Stack(ArgLoc(cv, n + 1, 0, argc)) then first - (n + 1) else 0
  }

  method ScanReverse(cv: Conv, n: nat, argc: int) returns (after: nat)
    ensures after == CappedAfter(cv, n, argc)
  {
    after := 0;
    var first: nat := if n + 1 > argc - MAXARG then n + 1 else argc - MAXARG;
    var i := first;
    while i < argc
      invariant first <= i && after + After(cv, i, argc) == After(cv, first, argc)
    {
      if Stack(ArgLoc(cv, i, 0, argc)) { after := after + 1; }
      i := i + 1;
    }
    if first > n + 1 {
      if Stack(ArgLoc(cv, n + 1, 0, argc)) { after := after + (first - (n + 1)); }
    }
  }

  /** The scan for a forward tail: only the first MAXARG arguments are looked up. */
  method ScanForward(cv: Conv, n: nat, argc: int) returns (slots: nat, tails: nat)
    ensures n <= MAXARG ==> slots == Slots(cv, n, argc) && tails == Tails(cv, n, argc)
    ensures n > MAXARG ==> slots == Slots(cv, MAXARG, argc) && tails == Tails(cv, MAXARG, argc) + (n - MAXARG)
  {
    slots, tails := 0, 0;
    var scan := if n < MAXARG then n else MAXARG;
    var homes := if cv.Dyn? then MAX_HOMES else 1;
    for i := 0 to scan
      invariant slots == Slots(cv, i, argc) && tails == Tails(cv, i, argc)
    {
      ghost var before := slots;
      var home := 0;
      while home < homes
        invariant home <= homes && slots == Max(before, HomeSlots(cv, i, home, argc))
        invariant tails == Tails(cv, if home == 0 then i else i + 1, argc)
      {
        var l := ArgLoc(cv, i, home, argc);
        if Stack(l) {
          if Fixed(l) { slots := Max(slots, Index(l) + 1); }
          else if home == 0 { tails := tails + 1; }
        }
        home := home + 1;
      }
      if cv.Static? { StaticHomes(cv, i, MAX_HOMES, argc); }
    }
    tails := tails + (n - scan);
  }

  /** A static profile has one home per argument. */
  lemma {:induction false} StaticHomes(cv: Conv, i: nat, homes: nat, argc: int)
    requires cv.Static? && homes > 0
    ensures HomeSlots(cv, i, homes, argc) == HomeSlots(cv, i, 1, argc)
  {
    if homes > 1 { StaticHomes(cv, i, homes - 1, argc); }
  }

  /** What the capped scans count. */
  function CappedBelow(cv: Conv, n: nat, argc: int): nat {
    if ArgLoc(cv, n, 0, argc) == Some(RevTail) then CappedAfter(cv, n, argc)
    else if n <= MAXARG then Slots(cv, n, argc) + Tails(cv, n, argc)
    else Slots(cv, MAXARG, argc) + Tails(cv, MAXARG, argc) + (n - MAXARG)
  }

  method CountBelow(cv: Conv, n: nat, argc: int) returns (below: nat)
    requires Open(ArgLoc(cv, n, 0, argc))
    ensures below == CappedBelow(cv, n, argc)
  {
    if ArgLoc(cv, n, 0, argc).value.RevTail? {
      below := ScanReverse(cv, n, argc);
    } else {
      var slots, tails := ScanForward(cv, n, argc);
      below := slots + tails;
    }
  }

  method FindSlot(cv: Conv, n: nat, argc: int, word: nat, shadow: nat, ra: nat) returns (r: ArgSlot)
    requires Bounded(cv)
    ensures Settled(cv) || !Open(ArgLoc(cv, n, 0, argc)) ==> r == Spec(cv, n, argc, word, shadow, ra)
    ensures Open(ArgLoc(cv, n, 0, argc)) ==>
      r == if ArgLoc(cv, n, 0, argc).value.RevTail? && argc < 0 then Nowhere
           else OnStack(TailOffset(CappedBelow(cv, n, argc), word, shadow, ra), false)
  {
    var place := ArgLoc(cv, n, 0, argc);
    if place.None? { return Nowhere; }
    if place.value.Reg? { return InReg(place.value.id); }
    if Fixed(place) { return OnStack(Index(place) * word + ra, true); }
    if place.value.RevTail? && argc < 0 { return Nowhere; }
    var below := CountBelow(cv, n, argc);
    if Settled(cv) { ScansExact(cv, n, argc); }
    r := OnStack(TailOffset(below, word, shadow, ra), false);
  }

  // ---------------------------------------------------------------- the capped scans are exact

  /** Explicit indices are contiguous and explicit places are never open tails. */
  predicate Settled(cv: Conv) {
    match cv
    case Dyn(args, _) => forall i :: 0 <= i < |args| && |args[i]| > 0 ==> !Open(args[i][0])
    case Static(named, _, _) =>
      && (forall k :: k in named ==> !Open(Some(named[k])))
      && (forall k :: k in named && k > 0 ==> k - 1 in named)
  }

  lemma {:induction false} NamedBelow(cv: Conv, k: nat, j: nat)
    requires cv.Static? && Settled(cv) && k in cv.named && j <= k
    ensures j in cv.named
    decreases k - j
  {
    if j < k { NamedBelow(cv, k - 1, j); }
  }

  lemma {:induction false} AfterSplit(cv: Conv, lo: nat, mid: nat, argc: int, on: bool)
    requires lo <= mid && mid <= argc
    requires forall i :: lo <= i < mid ==> Stack(ArgLoc(cv, i, 0, argc)) == on
    ensures After(cv, lo, argc) == (if on then mid - lo else 0) + After(cv, mid, argc)
    decreases mid - lo
  {
    if lo < mid { AfterSplit(cv, lo + 1, mid, argc, on); }
  }

  lemma ReverseScanExact(cv: Conv, n: nat, argc: int)
    requires Bounded(cv) && Settled(cv) && ArgLoc(cv, n, 0, argc) == Some(RevTail)
    ensures CappedAfter(cv, n, argc) == After(cv, n + 1, argc)
  {
    if n + 1 <= argc - MAXARG {
      var first := argc - MAXARG;
      forall i | n + 1 <= i < first
        ensures Stack(ArgLoc(cv, i, 0, argc)) == Stack(ArgLoc(cv, n + 1, 0, argc))
      {
        if cv.Static? && !cv.revarg {
          if i in cv.named { NamedBelow(cv, i, n); }
        }
      }
      AfterSplit(cv, n + 1, first, argc, Stack(ArgLoc(cv, n + 1, 0, argc)));
    }
  }

  lemma {:induction false} ForwardScanExact(cv: Conv, n: nat, argc: int)
    requires Bounded(cv) && Settled(cv) && ArgLoc(cv, n, 0, argc) == Some(Tail) && n > MAXARG
    ensures Slots(cv, n, argc) == Slots(cv, MAXARG, argc)
    ensures Tails(cv, n, argc) == Tails(cv, MAXARG, argc) + (n - MAXARG)
  {
    TailAbove(cv, n, argc, n - 1);
    NoSlotsIn(cv, n - 1, MAX_HOMES, argc);
    if n > MAXARG + 1 { ForwardScanExact(cv, n - 1, argc); }
  }

  /** The caps change nothing for a settled convention, however many arguments there are. */
  lemma ScansExact(cv: Conv, n: nat, argc: int)
    requires Bounded(cv) && Settled(cv) && Open(ArgLoc(cv, n, 0, argc))
    ensures CappedBelow(cv, n, argc) == Below(cv, n, argc)
  {
    if ArgLoc(cv, n, 0, argc).value.RevTail? { ReverseScanExact(cv, n, argc); }
    else if n > MAXARG { ForwardScanExact(cv, n, argc); }
  }

  /** All arguments from the cap to an argument in the forward tail are in the tail too. */
  lemma TailAbove(cv: Conv, n: nat, argc: int, i: nat)
    requires Bounded(cv) && Settled(cv) && ArgLoc(cv, n, 0, argc) == Some(Tail) && MAXARG <= i <= n
    ensures ArgLoc(cv, i, 0, argc) == Some(Tail)
    ensures forall home: nat :: home > 0 ==> ArgLoc(cv, i, home, argc) == None
  {
    if cv.Static? && cv.revarg && argc > 0 && argc - i - 1 in cv.named {
      NamedBelow(cv, argc - i - 1, argc - n - 1);
    }
  }

  lemma {:induction false} NoSlotsIn(cv: Conv, i: nat, homes: nat, argc: int)
    requires forall home: nat :: home < homes ==> !Fixed(ArgLoc(cv, i, home, argc))
    ensures HomeSlots(cv, i, homes, argc) == 0
  {
    if homes > 0 { NoSlotsIn(cv, i, homes - 1, argc); }
  }

  // ---------------------------------------------------------------- when the reverse scan is exact

  /** Behind an argument in the reverse tail, all are on the stack, or none is. */
  ghost predicate Uniform(cv: Conv) {
    forall j: nat, i: nat :: ArgLoc(cv, j, 0, 0) == Some(RevTail) && j < i ==>
      Stack(ArgLoc(cv, i, 0, 0)) == Stack(ArgLoc(cv, j + 1, 0, 0))
  }

  ghost predicate ReverseAlwaysExact(cv: Conv) {
    forall n: nat, argc: int :: ArgLoc(cv, n, 0, argc) == Some(RevTail) ==>
      CappedAfter(cv, n, argc) == After(cv, n + 1, argc)
  }

  /** The argument count plays no role unless a static profile reverses its arguments. */
  predicate Plain(cv: Conv) { cv.Dyn? || !cv.revarg }

  lemma UniformIsExact(cv: Conv, n: nat, argc: int)
    requires Plain(cv) && Uniform(cv) && ArgLoc(cv, n, 0, argc) == Some(RevTail)
    ensures CappedAfter(cv, n, argc) == After(cv, n + 1, argc)
  {
    assert ArgLoc(cv, n, 0, argc) == ArgLoc(cv, n, 0, 0);
    if n + 1 <= argc - MAXARG {
      var on := Stack(ArgLoc(cv, n + 1, 0, argc));
      forall i: nat | n + 1 <= i < argc - MAXARG ensures Stack(ArgLoc(cv, i, 0, argc)) == on {
        assert Stack(ArgLoc(cv, i, 0, 0)) == Stack(ArgLoc(cv, n + 1, 0, 0));
      }
      AfterSplit(cv, n + 1, argc - MAXARG, argc, on);
    }
  }

  /** How many of the arguments in [lo, hi) are on the stack, read off a longer count. */
  lemma {:induction false} AfterCut(cv: Conv, lo: nat, hi: nat, argc: int)
    requires Plain(cv) && lo <= hi <= argc
    ensures After(cv, lo, argc) == After(cv, lo, hi) + After(cv, hi, argc) && After(cv, lo, hi) <= hi - lo
    decreases hi - lo
  {
    if lo < hi { AfterCut(cv, lo + 1, hi, argc); }
  }

  lemma ExactIsUniform(cv: Conv, j: nat, i: nat)
    requires Plain(cv) && ReverseAlwaysExact(cv) && ArgLoc(cv, j, 0, 0) == Some(RevTail) && j < i
    ensures Stack(ArgLoc(cv, i, 0, 0)) == Stack(ArgLoc(cv, j + 1, 0, 0))
  {
    var argc := i + 1 + MAXARG;
    assert ArgLoc(cv, j, 0, argc) == Some(RevTail);
    assert CappedAfter(cv, j, argc) == After(cv, j + 1, argc);
    if i > j + 1 {
      AfterCut(cv, j + 1, i + 1, argc);
      AfterCut(cv, j + 1, i, i + 1);
      assert After(cv, i, i + 1) == (if Stack(ArgLoc(cv, i, 0, i + 1)) then 1 else 0) + After(cv, i + 1, i + 1);
      assert ArgLoc(cv, j + 1, 0, argc) == ArgLoc(cv, j + 1, 0, 0) && ArgLoc(cv, i, 0, i + 1) == ArgLoc(cv, i, 0, 0);
    }
  }

  /** The capped reverse scan of a convention that is not reversed itself is exact for all argument
      numbers and counts if and only if the convention is uniform. */
  lemma ReverseExactIff(cv: Conv)
    requires Plain(cv)
    ensures ReverseAlwaysExact(cv) <==> Uniform(cv)
  {
    if Uniform(cv) {
      forall n: nat, argc: int | ArgLoc(cv, n, 0, argc) == Some(RevTail)
        ensures CappedAfter(cv, n, argc) == After(cv, n + 1, argc)
      {
        UniformIsExact(cv, n, argc);
      }
    }
    if ReverseAlwaysExact(cv) {
      forall j: nat, i: nat | ArgLoc(cv, j, 0, 0) == Some(RevTail) && j < i
        ensures Stack(ArgLoc(cv, i, 0, 0)) == Stack(ArgLoc(cv, j + 1, 0, 0))
      {
        ExactIsUniform(cv, j, i);
      }
    }
  }

  // ---------------------------------------------------------------- slots do not overlap

  lemma {:induction false} BelowGrows(cv: Conv, n: nat, m: nat, argc: int)
    requires n < m && Open(ArgLoc(cv, n, 0, argc))
    ensures Slots(cv, n, argc) <= Slots(cv, m, argc) && Tails(cv, n, argc) + 1 <= Tails(cv, m, argc)
    decreases m
  {
    if n + 1 < m { BelowGrows(cv, n, m - 1, argc); }
  }

  lemma {:induction false} AfterShrinks(cv: Conv, n: nat, m: nat, argc: int)
    requires n <= m
    ensures After(cv, m, argc) <= After(cv, n, argc)
    decreases m - n
  {
    if n < m && n < argc { AfterShrinks(cv, n + 1, m, argc); }
  }

  lemma OffsetsApart(a: nat, b: nat, word: nat, shadow: nat, ra: nat)
    requires a < b
    ensures TailOffset(a, word, shadow, ra) + word <= TailOffset(b, word, shadow, ra)
  {
    assert (a + 1) * word <= b * word;
  }

  /** Two arguments in the forward tail: the later one lies a whole slot above. */
  lemma ForwardApart(cv: Conv, n: nat, m: nat, argc: int, word: nat, shadow: nat, ra: nat)
    requires n < m && ArgLoc(cv, n, 0, argc) == Some(Tail) && ArgLoc(cv, m, 0, argc) == Some(Tail)
    ensures Spec(cv, n, argc, word, shadow, ra).off + word <= Spec(cv, m, argc, word, shadow, ra).off
  {
    BelowGrows(cv, n, m, argc);
    OffsetsApart(Below(cv, n, argc), Below(cv, m, argc), word, shadow, ra);
  }

  /** Two arguments in the reverse tail: the earlier one lies a whole slot above. */
  lemma ReverseApart(cv: Conv, n: nat, m: nat, argc: nat, word: nat, shadow: nat, ra: nat)
    requires n < m < argc && ArgLoc(cv, n, 0, argc) == Some(RevTail) && ArgLoc(cv, m, 0, argc) == Some(RevTail)
    ensures Spec(cv, m, argc, word, shadow, ra).off + word <= Spec(cv, n, argc, word, shadow, ra).off
  {
    AfterShrinks(cv, n + 1, m, argc);
    OffsetsApart(Below(cv, m, argc), Below(cv, n, argc), word, shadow, ra);
  }

  lemma {:induction false} SlotsAbove(cv: Conv, n: nat, argc: int, i: nat, homes: nat, home: nat)
    requires i < n && home < homes && homes <= MAX_HOMES && Fixed(ArgLoc(cv, i, home, argc))
    ensures Index(ArgLoc(cv, i, home, argc)) < HomeSlots(cv, i, homes, argc)
    ensures homes == MAX_HOMES ==> Index(ArgLoc(cv, i, home, argc)) < Slots(cv, n, argc)
    decreases n, homes
  {
    if home < homes - 1 { SlotsAbove(cv, n, argc, i, homes - 1, home); }
    if homes == MAX_HOMES && i < n - 1 { SlotsAbove(cv, n - 1, argc, i, homes, home); }
  }

  /** Unless a static profile reverses the arguments, one in the forward tail lies above every
      explicit slot of every argument. */
  lemma TailAboveHomes(cv: Conv, n: nat, argc: int, i: nat, home: nat, word: nat, shadow: nat, ra: nat)
    requires Bounded(cv) && Settled(cv) && ArgLoc(cv, n, 0, argc) == Some(Tail)
    requires (Plain(cv) || argc <= 0) && Fixed(ArgLoc(cv, i, home, argc))
    ensures Index(ArgLoc(cv, i, home, argc)) * word + ra + word <= Spec(cv, n, argc, word, shadow, ra).off
  {
    HomesBefore(cv, n, argc, i, home);
    var k := Index(ArgLoc(cv, i, home, argc));
    SlotsAbove(cv, n, argc, i, MAX_HOMES, home);
    OffsetsApart(k, Below(cv, n, argc), word, 0, ra);
    assert TailOffset(k, word, 0, ra) == k * word + ra;
  }

  lemma HomesBefore(cv: Conv, n: nat, argc: int, i: nat, home: nat)
    requires Bounded(cv) && Settled(cv) && ArgLoc(cv, n, 0, argc) == Some(Tail)
    requires (Plain(cv) || argc <= 0) && Fixed(ArgLoc(cv, i, home, argc))
    ensures i < n && home < MAX_HOMES
  {
    if cv.Static? && i in cv.named && n < i { NamedBelow(cv, i, n); }
  }

  /** A reversed static profile with a forward tail does let them meet: with arg0 = stack2 and
      argn = stack, the third and the last of five arguments share a slot. */
  lemma ReversedTailMeetsHome(word: nat, ra: nat)
    ensures var cv := Static(map[0 := Slot(2)], Some(Tail), true);
            Bounded(cv) && Settled(cv)
            && Spec(cv, 2, 5, word, 0, ra).OnStack? && Spec(cv, 4, 5, word, 0, ra).OnStack?
            && Spec(cv, 2, 5, word, 0, ra).off == Spec(cv, 4, 5, word, 0, ra).off
  {
    var cv := Static(map[0 := Slot(2)], Some(Tail), true);
    assert ArgLoc(cv, 0, 0, 5) == ArgLoc(cv, 1, 0, 5) == ArgLoc(cv, 2, 0, 5) == Some(Tail);
    NoSlotsIn(cv, 0, MAX_HOMES, 5);
    NoSlotsIn(cv, 1, MAX_HOMES, 5);
    assert Slots(cv, 1, 5) == 0 && Tails(cv, 1, 5) == 1;
    assert Slots(cv, 2, 5) == 0 && Tails(cv, 2, 5) == 2;
  }

  /** A static profile with m explicit arguments, reversed, and a forward tail for the others. */
  ghost predicate ReversedWith(cv: Conv, m: nat) {
    && cv.Static? && cv.revarg && cv.argn == Some(Tail) && Settled(cv)
    && forall k: nat :: k in cv.named <==> k < m
  }

  /** Its tail holds the first arguments, all but the last m. */
  lemma {:induction false} ReversedTail(cv: Conv, m: nat, argc: nat, n: nat)
    requires ReversedWith(cv, m) && n < argc
    ensures ArgLoc(cv, n, 0, argc) == Some(Tail) <==> n + m < argc
    ensures n + m < argc ==> Slots(cv, n, argc) == 0 && Tails(cv, n, argc) == n
  {
    if n > 0 && n + m < argc {
      ReversedTail(cv, m, argc, n - 1);
      NoSlotsIn(cv, n - 1, MAX_HOMES, argc);
    }
  }

  predicate Overlap(a: nat, b: nat, word: nat) { a < b + word && b < a + word }

  /** The slot s lies below or above all places of the tail. */
  predicate ClearOf(s: nat, tails: nat, word: nat, shadow: nat) {
    (s + 1) * word <= shadow || s * word >= shadow + tails * word
  }

  ghost predicate TailMisses(cv: Conv, argc: nat, s: nat, word: nat, shadow: nat, ra: nat) {
    forall n: nat :: n < argc && ArgLoc(cv, n, 0, argc) == Some(Tail) ==>
      !Overlap(Spec(cv, n, argc, word, shadow, ra).off, s * word + ra, word)
  }

  /** When the tail of such a profile meets no explicit slot s: exactly if nothing is in the tail,
      or the slot lies in the shadow area, or above the whole tail. */
  lemma TailMissesIff(cv: Conv, m: nat, argc: nat, s: nat, word: nat, shadow: nat, ra: nat)
    requires ReversedWith(cv, m) && argc > 0 && word > 0
    ensures TailMisses(cv, argc, s, word, shadow, ra) <==> argc <= m || ClearOf(s, argc - m, word, shadow)
  {
    if argc <= m {
      forall n: nat | n < argc ensures ArgLoc(cv, n, 0, argc) != Some(Tail) { ReversedTail(cv, m, argc, n); }
    } else if ClearOf(s, argc - m, word, shadow) {
      forall n: nat | n < argc && ArgLoc(cv, n, 0, argc) == Some(Tail)
        ensures !Overlap(Spec(cv, n, argc, word, shadow, ra).off, s * word + ra, word)
      {
        TailPlace(cv, m, argc, n, word, shadow, ra);
        OutsideTail(s, n, argc - m, word, shadow);
      }
    } else {
      var n := InsideTail(s, argc - m, word, shadow);
      ReversedTail(cv, m, argc, n);
      TailPlace(cv, m, argc, n, word, shadow, ra);
      assert Overlap(Spec(cv, n, argc, word, shadow, ra).off, s * word + ra, word);
    }
  }

  lemma TailPlace(cv: Conv, m: nat, argc: nat, n: nat, word: nat, shadow: nat, ra: nat)
    requires ReversedWith(cv, m) && n < argc && ArgLoc(cv, n, 0, argc) == Some(Tail)
    ensures n + m < argc && Spec(cv, n, argc, word, shadow, ra).off == n * word + shadow + ra
  {
    ReversedTail(cv, m, argc, n);
  }

  lemma OutsideTail(s: nat, n: nat, tails: nat, word: nat, shadow: nat)
    requires n < tails && ClearOf(s, tails, word, shadow)
    ensures s * word + word <= n * word + shadow || n * word + shadow + word <= s * word
  {
    assert (n + 1) * word <= tails * word;
    assert (s + 1) * word == s * word + word && (n + 1) * word == n * word + word;
  }

  lemma MulOrder(a: nat, b: nat, word: nat)
    requires a <= b
    ensures a * word <= b * word
  {
  }

  lemma InsideTail(s: nat, tails: nat, word: nat, shadow: nat) returns (n: nat)
    requires tails > 0 && word > 0 && !ClearOf(s, tails, word, shadow)
    ensures n < tails && n * word + shadow < s * word + word && s * word < n * word + shadow + word
  {
    assert (s + 1) * word == s * word + word;
    if s * word < shadow {
      n := 0;
    } else {
      var d := s * word - shadow;
      n := d / word;
      assert n * word <= d < n * word + word;
      if tails <= n {
        MulOrder(tails, n, word);
        assert false;
      }
    }
  }

  /** Over all arguments: tail and explicit slots of such a profile stay apart exactly if every
      explicit slot does. */
  lemma ReversedApartIff(cv: Conv, m: nat, argc: nat, word: nat, shadow: nat, ra: nat)
    requires ReversedWith(cv, m) && argc > 0 && word > 0
    ensures (forall i: nat :: i < argc && Fixed(ArgLoc(cv, i, 0, argc)) ==>
               TailMisses(cv, argc, Index(ArgLoc(cv, i, 0, argc)), word, shadow, ra))
       <==> argc <= m || forall i: nat :: i < argc && Fixed(ArgLoc(cv, i, 0, argc)) ==>
                           ClearOf(Index(ArgLoc(cv, i, 0, argc)), argc - m, word, shadow)
  {
    forall i: nat | i < argc && Fixed(ArgLoc(cv, i, 0, argc))
      ensures TailMisses(cv, argc, Index(ArgLoc(cv, i, 0, argc)), word, shadow, ra)
         <==> argc <= m || ClearOf(Index(ArgLoc(cv, i, 0, argc)), argc - m, word, shadow)
    {
      TailMissesIff(cv, m, argc, Index(ArgLoc(cv, i, 0, argc)), word, shadow, ra);
    }
  }

  /** With an open tail as the first of several homes the cap does show: in "^-'r0,r1,^-" with 20
      arguments, the first and the fourth get the same slot. */
  lemma OpenHomeOverlaps(word: nat, shadow: nat, ra: nat)
    ensures var cv := Dyn([[Some(RevTail), Some(Reg(0))], [Some(Reg(1))]], Some(RevTail));
            Bounded(cv) && !Settled(cv) && !Uniform(cv) && CappedBelow(cv, 0, 20) == CappedBelow(cv, 3, 20) == 16
            && Below(cv, 0, 20) == 18
  {
    var cv := Dyn([[Some(RevTail), Some(Reg(0))], [Some(Reg(1))]], Some(RevTail));
    assert cv.args[0][0] == Some(RevTail) && Open(cv.args[0][0]);
    assert ArgLoc(cv, 0, 0, 0) == Some(RevTail) && Stack(ArgLoc(cv, 2, 0, 0)) && !Stack(ArgLoc(cv, 1, 0, 0));
    AfterSplit(cv, 4, 20, 20, true);
    AfterSplit(cv, 2, 20, 20, true);
    AfterSplit(cv, 1, 2, 20, false);
  }

  // ---------------------------------------------------------------- building a dynamic convention

  type Homes = seq<Option<Place>>

  /** dyncc_set_indexed_seq: count indices from base on, up or down, or nothing. */
  method IndexedSeq(base: nat, count: nat, down: bool) returns (r: Option<seq<nat>>)
    ensures r.Some? <==> 0 < count <= MAXARG && (down ==> base >= count - 1)
    ensures r.Some? ==> |r.value| == count
    ensures r.Some? ==> forall i :: 0 <= i < count ==> r.value[i] == if down then base - i else base + i
  {
    if count <= 0 || count > MAXARG || (down && base < count - 1) { return None; }
    var locs := [];
    for i := 0 to count
      invariant |locs| == i && forall j :: 0 <= j < i ==> locs[j] == if down then base - j else base + j
    {
      locs := locs + [if down then base - i else base + i];
    }
    r := Some(locs);
  }

  /** One element of the argument list: for each of its homes, a sequence of places of the same
      length; only a single place can be an open tail. */
  ghost predicate Group(g: seq<Homes>) {
    forall h :: 0 <= h < |g| ==> |g[h]| > 1 ==> forall i :: 0 <= i < |g[h]| ==> !Open(g[h][i])
  }

  predicate Homogeneous(g: seq<Homes>) {
    0 < |g| <= MAX_HOMES && 0 < |g[0]| && forall h :: 0 <= h < |g| ==> |g[h]| == |g[0]|
  }

  function Column(g: seq<Homes>, i: nat): Homes
    requires Homogeneous(g) && i < |g[0]|
  {
    seq(|g|, h requires 0 <= h < |g| => g[h][i])
  }

  /** dyncc_parse_homes, on the sequences already parsed: argument i gets the i-th of each. */
  method ParseHomes(g: seq<Homes>) returns (r: Option<seq<Homes>>)
    ensures r.Some? <==> Homogeneous(g)
    ensures r.Some? ==> |r.value| == |g[0]| && forall i :: 0 <= i < |g[0]| ==> r.value[i] == Column(g, i)
  {
    var count := -1;
    var n := 0;
    while n < |g|
      invariant n <= |g| && n <= MAX_HOMES && (count < 0 <==> n == 0)
      invariant n > 0 ==> count == |g[0]| && forall h :: 0 <= h < n ==> |g[h]| == |g[0]|
    {
      if n >= MAX_HOMES { return None; }
      if count < 0 { count := |g[n]|; } else if count != |g[n]| { return None; }
      n := n + 1;
    }
    if n < 1 || count < 1 { return None; }
    var homes := [];
    for i := 0 to count
      invariant |homes| == i && forall j :: 0 <= j < i ==> homes[j] == Column(g, j)
    {
      homes := homes + [Column(g, i)];
    }
    r := Some(homes);
  }

  function Columns(g: seq<Homes>): seq<Homes> {
    if Homogeneous(g) then seq(|g[0]|, i requires 0 <= i < |g[0]| => Column(g, i)) else []
  }

  /** A lone "^" or "^-". */
  predicate Lone(g: seq<Homes>) { |g| == 1 && |g[0]| == 1 && Open(g[0][0]) }

  /** The explicit arguments of a list of elements. */
  function Explicit(groups: seq<seq<Homes>>): seq<Homes> {
    if groups == [] then [] else
      Explicit(groups[..|groups| - 1]) + if Lone(groups[|groups| - 1]) then [] else Columns(groups[|groups| - 1])
  }

  /** What the argument list has to look like. */
  ghost predicate Acceptable(groups: seq<seq<Homes>>) {
    && (forall k :: 0 <= k < |groups| ==> Homogeneous(groups[k]) && (Lone(groups[k]) ==> k == |groups| - 1))
    && |Explicit(groups)| <= MAXARG
  }

  lemma {:induction false} ExplicitGrows(groups: seq<seq<Homes>>, k: nat)
    requires k <= |groups|
    ensures |Explicit(groups[..k])| <= |Explicit(groups)|
  {
    if k < |groups| {
      assert groups[..|groups| - 1][..k] == groups[..k];
      ExplicitGrows(groups[..|groups| - 1], k);
    } else {
      assert groups[..k] == groups;
    }
  }

  /** No element with several homes starts with an open tail. */
  ghost predicate TailsAlone(groups: seq<seq<Homes>>) {
    forall k :: 0 <= k < |groups| && |groups[k]| > 1 && |groups[k][0]| > 0 ==> !Open(groups[k][0][0])
  }

  lemma ColumnsOf(g: seq<Homes>)
    requires Homogeneous(g)
    ensures var hs := Columns(g);
            && |hs| == |g[0]| && (forall i :: 0 <= i < |hs| ==> hs[i] == Column(g, i))
            && (forall i :: 0 <= i < |hs| ==> |hs[i]| == |g| && hs[i][0] == g[0][i])
            && (|hs| == 1 && |hs[0]| == 1 && Open(hs[0][0]) <==> Lone(g))
  {
    assert Columns(g)[0] == Column(g, 0);
  }

  function TailOf(groups: seq<seq<Homes>>): Option<Place> {
    if groups != [] && Lone(groups[|groups| - 1]) then groups[|groups| - 1][0][0] else None
  }

  /** The loop has read these elements. */
  ghost predicate Parsed(read: seq<seq<Homes>>, args: seq<Homes>, tail: Option<Place>) {
    && args == Explicit(read) && tail == TailOf(read) && Acceptable(read)
    && forall i :: 0 <= i < |args| ==> |args[i]| <= MAX_HOMES
  }

  lemma ParsedStep(read: seq<seq<Homes>>, args: seq<Homes>, g: seq<Homes>)
    requires Parsed(read, args, None) && Homogeneous(g) && |args + if Lone(g) then [] else Columns(g)| <= MAXARG
    ensures Parsed(read + [g], args + (if Lone(g) then [] else Columns(g)), if Lone(g) then g[0][0] else None)
  {
    var read' := read + [g];
    assert read'[..|read|] == read;
    ColumnsOf(g);
    forall k | 0 <= k < |read'| ensures Homogeneous(read'[k]) && (Lone(read'[k]) ==> k == |read'| - 1) {
      if k < |read| { assert read'[k] == read[k]; }
    }
  }

  lemma {:induction false} ExplicitSettled(groups: seq<seq<Homes>>)
    requires forall k :: 0 <= k < |groups| ==> Group(groups[k]) && Homogeneous(groups[k])
    requires TailsAlone(groups)
    ensures forall i :: 0 <= i < |Explicit(groups)| && |Explicit(groups)[i]| > 0 ==> !Open(Explicit(groups)[i][0])
  {
    if groups != [] {
      var g := groups[|groups| - 1];
      ExplicitSettled(groups[..|groups| - 1]);
      ColumnsOf(g);
      forall i | 0 <= i < |Columns(g)| && !Lone(g) ensures !Open(Columns(g)[i][0]) {
        assert Columns(g)[i][0] == g[0][i];
        if |g[0]| > 1 { assert !Open(g[0][i]); }
      }
    }
  }

  /** dyncc_parse_homed_list for arguments.  It accepts exactly the well-formed lists; the result
      is bounded, and settled if no element with several homes starts with an open tail. */
  method ParseArgs(groups: seq<seq<Homes>>) returns (r: Option<Conv>)
    requires forall k :: 0 <= k < |groups| ==> Group(groups[k])
    ensures r.Some? <==> Acceptable(groups)
    ensures r.Some? ==> r.value == Dyn(Explicit(groups), TailOf(groups)) && Bounded(r.value)
    ensures r.Some? && TailsAlone(groups) ==> Settled(r.value)
  {
    var args: seq<Homes>, tail := [], None;
    var k := 0;
    while k < |groups|
      invariant k <= |groups| && Parsed(groups[..k], args, tail)
    {
      ghost var read := groups[..k];
      var g := groups[k];
      assert groups[..k + 1] == read + [g];
      ExplicitGrows(groups, k + 1);
      if tail.Some? {
        assert Lone(read[k - 1]) && read[k - 1] == groups[k - 1];
        return None;
      }
      var homes := ParseHomes(g);
      if homes.None? { return None; }
      var hs := homes.value;
      ColumnsOf(g);
      assert hs == Columns(g);
      if |hs| == 1 && |hs[0]| == 1 && Open(hs[0][0]) {
        if k + 1 < |groups| { return None; }
        ParsedStep(read, args, g);
        tail := hs[0][0];
        assert args + [] == args;
      } else {
        assert (read + [g])[..k] == read;
        if |args| + |hs| > MAXARG { return None; }
        ParsedStep(read, args, g);
        args := args + hs;
      }
      k := k + 1;
    }
    assert groups[..k] == groups;
    r := Some(Dyn(args, tail));
    if TailsAlone(groups) { ExplicitSettled(groups); }
  }
}
