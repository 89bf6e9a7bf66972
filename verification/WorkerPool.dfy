/** The test runner's worker pool (binr/r2r/r2r.c:701-719, 1093-1196).  All shared fields are only
    touched under state->lock; taking it, what happens under it, and running a test are the steps,
    and the steps of all threads interleave freely. */
module WorkerPool {
  import opened Lists

  datatype Outcome = Ok | Failed | Broken | Fixed

  /** A test is its index in the database. */
  datatype Result = Result(test: nat, skipped: bool, outcome: Outcome)

  /** Where a worker is. */
  datatype Worker =
    | Fresh                     // started, waiting for the lock
    | Top                       // at the head of its loop, with the lock
    | Running(test: nat)        // without the lock
    | Ran(r: Result)            // waiting for the lock again
    | Reporting(r: Result)      // with the lock
    | Stopped

  /** Where r2r_run_workers is; signalled: the condition has been signalled (or woke up on its own)
      since it began to wait. */
  datatype Main = Starting | Checking | Waiting(signalled: bool) | Joining | Finished | Aborted

  datatype Lock = Free | ByMain | ByWorker(w: nat)

  datatype State = State(queue: seq<nat>, results: seq<Result>, counters: map<Outcome, nat>, skCount: nat,
                         pathLeft: map<nat, nat>, completed: seq<nat>, workers: seq<Worker>, main: Main, lock: Lock)

  /** The loaded tests, each given by the path of its file, and the number of workers asked for. */
  datatype Setup = Setup(paths: seq<nat>, count: nat, log: bool)

  datatype Action =
    | StartWorker | StartFails | AllStarted
    | Enter(w: nat) | Pop(w: nat) | Stop(w: nat)
    | RunTest(w: nat, skipped: bool, outcome: Outcome) | Relock(w: nat) | Report(w: nat)
    | Check | Spurious | Wake | Join

  // ---------------------------------------------------------------- counting

  /** What is counted: one test, the tests of one path, or all tests. */
  datatype Key = Id(t: nat) | Path(p: nat) | Any

  function Has(c: Setup, t: nat, k: Key): nat {
    match k
    case Id(u) => if t == u then 1 else 0
    case Path(p) => if t < |c.paths| && c.paths[t] == p then 1 else 0
    case Any => 1
  }

  function Count(c: Setup, ids: seq<nat>, k: Key): nat {
    if ids == [] then 0 else Count(c, ids[..|ids| - 1], k) + Has(c, ids[|ids| - 1], k)
  }

  function CountResults(rs: seq<Result>, o: Outcome): nat {
    if rs == [] then 0 else
      CountResults(rs[..|rs| - 1], o) + if !rs[|rs| - 1].skipped && rs[|rs| - 1].outcome == o then 1 else 0
  }

  function CountSkipped(rs: seq<Result>): nat {
    if rs == [] then 0 else CountSkipped(rs[..|rs| - 1]) + if rs[|rs| - 1].skipped then 1 else 0
  }

  lemma {:induction false} CountsSum(rs: seq<Result>)
    ensures CountResults(rs, Ok) + CountResults(rs, Failed) + CountResults(rs, Broken) + CountResults(rs, Fixed)
            + CountSkipped(rs) == |rs|
  {
    if rs != [] { CountsSum(rs[..|rs| - 1]); }
  }

  /** All tests, in the order of the database. */
  function Ids(n: nat): seq<nat> {
    seq(n, i requires 0 <= i < n => i)
  }

  /** What r2r_setup_log_mode leaves: how many tests each path has. */
  ghost predicate Tallied(c: Setup, queue: seq<nat>, left: map<nat, nat>) {
    && (forall p :: p in left ==> left[p] == Count(c, queue, Path(p)) > 0)
    && (forall p :: p !in left ==> Count(c, queue, Path(p)) == 0)
  }

  lemma TallyStep(c: Setup, queue: seq<nat>, left: map<nat, nat>, t: nat)
    requires Tallied(c, queue, left) && t < |c.paths|
    ensures Tallied(c, queue + [t], left[c.paths[t] := (if c.paths[t] in left then left[c.paths[t]] else 0) + 1])
  {
    assert (queue + [t])[..|queue|] == queue;
  }

  method SetupLogMode(c: Setup, queue: seq<nat>) returns (left: map<nat, nat>, total: nat)
    requires forall i :: 0 <= i < |queue| ==> queue[i] < |c.paths|
    ensures Tallied(c, queue, left) && total == |left|
  {
    left, total := map[], 0;
    var i := 0;
    while i < |queue|
      invariant i <= |queue| && total == |left| && Tallied(c, queue[..i], left)
    {
      var path := c.paths[queue[i]];
      assert queue[..i + 1] == queue[..i] + [queue[i]];
      TallyStep(c, queue[..i], left, queue[i]);
      if path !in left {
        left := left[path := 0];
        total := total + 1;
      }
      left := left[path := left[path] + 1];
      i := i + 1;
    }
    assert queue[..i] == queue;
  }

  // ---------------------------------------------------------------- the steps

  const UT64_MAX: nat := 0xFFFF_FFFF_FFFF_FFFF
  const ZEROS: map<Outcome, nat> := map[Ok := 0, Failed := 0, Broken := 0, Fixed := 0]

  /** The path table at the start; without log mode there is none. */
  ghost predicate LeftOk(c: Setup, left: map<nat, nat>) {
    if c.log then Tallied(c, Ids(|c.paths|), left) else left == map[]
  }

  /** r2r_run_workers has just taken the lock. */
  function Initial(c: Setup, left: map<nat, nat>): State {
    State(Ids(|c.paths|), [], ZEROS, 0, left, [], [], Starting, ByMain)
  }

  function Set(s: State, w: nat, pc: Worker): State
    requires w < |s.workers|
  {
    s.(workers := s.workers[w := pc])
  }

  /** Under the lock: store the result, count it, and count down its path. */
  function Store(c: Setup, s: State, r: Result): State {
    var s1 := s.(results := s.results + [r]);
    var s2 := if r.skipped then s1.(skCount := s1.skCount + 1)
              else
                var seen := if r.outcome in s1.counters then s1.counters[r.outcome] else 0;
                s1.(counters := s1.counters[r.outcome := seen + 1]);
    if r.test < |c.paths| && c.paths[r.test] in s2.pathLeft then
      var path := c.paths[r.test];
      var count := if s2.pathLeft[path] == 0 then UT64_MAX else s2.pathLeft[path] - 1;
      s2.(pathLeft := s2.pathLeft[path := count],
          completed := if count == 0 then s2.completed + [path] else s2.completed)
    else s2
  }

  /** r_th_cond_signal: only the main thread ever waits. */
  function Signal(s: State): State {
    if s.main.Waiting? then s.(main := Waiting(true)) else s
  }

  function WorkerStep(c: Setup, s: State, w: nat, a: Action): Option<State>
    requires w < |s.workers|
  {
    var pc := s.workers[w];
    match a
    case Enter(_) =>
      if pc == Fresh && s.lock == Free then Some(Set(s, w, Top).(lock := ByWorker(w))) else None
    case Pop(_) =>
      if pc == Top && s.queue != []
      then Some(Set(s, w, Running(s.queue[|s.queue| - 1])).(queue := s.queue[..|s.queue| - 1], lock := Free)) else None
    case Stop(_) =>
      if pc == Top && s.queue == [] then Some(Set(s, w, Stopped).(lock := Free)) else None
    case RunTest(_, skipped, o) =>
      if pc.Running? then Some(Set(s, w, Ran(Result(pc.test, skipped, o)))) else None
    case Relock(_) =>
      if pc.Ran? && s.lock == Free then Some(Set(s, w, Reporting(pc.r)).(lock := ByWorker(w))) else None
    case Report(_) =>
      if pc.Reporting? then Some(Signal(Store(c, Set(s, w, Top), pc.r))) else None
    case _ => None
  }

  function MainStep(c: Setup, s: State, a: Action): Option<State> {
    match a
    case StartWorker =>
      if s.main == Starting && |s.workers| < c.count then Some(s.(workers := s.workers + [Fresh])) else None
    case StartFails =>
      if s.main == Starting && |s.workers| < c.count then Some(s.(main := Aborted, lock := Free)) else None
    case AllStarted =>
      if s.main == Starting && |s.workers| >= c.count then Some(s.(main := Checking)) else None
    case Check =>
      if s.main == Checking
      then Some(s.(main := if |s.results| == |c.paths| then Joining else Waiting(false), lock := Free)) else None
    case Spurious => if s.main == Waiting(false) then Some(s.(main := Waiting(true))) else None
    case Wake => if s.main == Waiting(true) && s.lock == Free then Some(s.(main := Checking, lock := ByMain)) else None
    case Join =>
      if s.main == Joining && (forall w :: 0 <= w < |s.workers| ==> s.workers[w] == Stopped) then
        Some(s.(main := Finished))
      else None
    case _ => None
  }

  function Step(c: Setup, s: State, a: Action): Option<State> {
    if a.Enter? || a.Pop? || a.Stop? || a.RunTest? || a.Relock? || a.Report?
    then if a.w < |s.workers| then WorkerStep(c, s, a.w, a) else None
    else MainStep(c, s, a)
  }

  function Run(c: Setup, left: map<nat, nat>, actions: seq<Action>): Option<State> {
    if actions == [] then Some(Initial(c, left)) else
      var s := Run(c, left, actions[..|actions| - 1]);
      if s.None? then None else Step(c, s.value, actions[|actions| - 1])
  }

  // ---------------------------------------------------------------- what always holds

  /** The test a worker has in hand. */
  function Held(c: Setup, pc: Worker, k: Key): nat {
    match pc
    case Running(t) => Has(c, t, k)
    case Ran(r) => Has(c, r.test, k)
    case Reporting(r) => Has(c, r.test, k)
    case _ => 0
  }

  function InFlight(c: Setup, ws: seq<Worker>, k: Key): nat {
    if ws == [] then 0 else InFlight(c, ws[..|ws| - 1], k) + Held(c, ws[|ws| - 1], k)
  }

  function Reported(c: Setup, rs: seq<Result>, k: Key): nat {
    if rs == [] then 0 else Reported(c, rs[..|rs| - 1], k) + Has(c, rs[|rs| - 1].test, k)
  }

  /** Queued, in flight and finished tests are together exactly the loaded ones, however counted. */
  ghost predicate TestsOk(c: Setup, s: State) {
    forall k: Key ::
      Count(c, s.queue, k) + InFlight(c, s.workers, k) + Reported(c, s.results, k) == Count(c, Ids(|c.paths|), k)
  }

  ghost predicate CountsOk(s: State) {
    && (forall o: Outcome :: o in s.counters && s.counters[o] == CountResults(s.results, o))
    && s.skCount == CountSkipped(s.results)
  }

  /** A path's count is the number of its tests not finished yet; the path is completed, once, when
      that is none. */
  ghost predicate PathsOk(c: Setup, s: State) {
    && (forall p :: p in s.pathLeft <==> c.log && Count(c, Ids(|c.paths|), Path(p)) > 0)
    && (forall p :: p in s.pathLeft ==>
          s.pathLeft[p] == Count(c, s.queue, Path(p)) + InFlight(c, s.workers, Path(p)))
    && (forall p :: p in s.completed <==> p in s.pathLeft && s.pathLeft[p] == 0)
    && (forall i, j :: 0 <= i < j < |s.completed| ==> s.completed[i] != s.completed[j])
  }

  predicate HasLock(pc: Worker) { pc.Top? || pc.Reporting? }

  ghost predicate LockOk(c: Setup, s: State) {
    && (s.lock == ByMain <==> s.main.Starting? || s.main.Checking?)
    && (forall w :: 0 <= w < |s.workers| ==> (HasLock(s.workers[w]) <==> s.lock == ByWorker(w)))
    && (s.lock.ByWorker? ==> s.lock.w < |s.workers|)
    && (forall w :: 0 <= w < |s.workers| && s.workers[w] == Stopped ==> s.queue == [])
    && (!s.main.Starting? && !s.main.Aborted? ==> |s.workers| >= c.count)
    && |s.workers| <= c.count
  }

  /** The main thread sleeps unsignalled only while results are missing, and leaves its loop only
      with all of them. */
  ghost predicate MainOk(c: Setup, s: State) {
    && (s.main == Waiting(false) ==> |s.results| < |c.paths|)
    && (s.main == Joining || s.main == Finished ==> |s.results| == |c.paths|)
  }

  ghost predicate Inv(c: Setup, s: State) {
    TestsOk(c, s) && CountsOk(s) && PathsOk(c, s) && LockOk(c, s) && MainOk(c, s)
  }

  lemma {:induction false} InFlightSet(c: Setup, ws: seq<Worker>, w: nat, pc: Worker, k: Key)
    requires w < |ws|
    ensures InFlight(c, ws[w := pc], k) + Held(c, ws[w], k) == InFlight(c, ws, k) + Held(c, pc, k)
  {
    if w == |ws| - 1 {
      assert ws[w := pc][..w] == ws[..w];
    } else {
      assert ws[w := pc][..|ws| - 1] == ws[..|ws| - 1][w := pc];
      InFlightSet(c, ws[..|ws| - 1], w, pc, k);
    }
  }

  lemma InFlightSetAll(c: Setup, ws: seq<Worker>, w: nat, pc: Worker)
    requires w < |ws|
    ensures forall k: Key :: InFlight(c, ws[w := pc], k) + Held(c, ws[w], k) == InFlight(c, ws, k) + Held(c, pc, k)
  {
    forall k: Key ensures InFlight(c, ws[w := pc], k) + Held(c, ws[w], k) == InFlight(c, ws, k) + Held(c, pc, k) {
      InFlightSet(c, ws, w, pc, k);
    }
  }

  lemma {:induction false} CountIds(c: Setup, n: nat, t: nat)
    ensures Count(c, Ids(n), Id(t)) == if t < n then 1 else 0
    ensures Count(c, Ids(n), Any) == n
  {
    if n > 0 {
      assert Ids(n)[..n - 1] == Ids(n - 1);
      CountIds(c, n - 1, t);
    }
  }

  lemma {:induction false} CountLength(c: Setup, ids: seq<nat>, rs: seq<Result>)
    ensures Count(c, ids, Any) == |ids| && Reported(c, rs, Any) == |rs|
    decreases |ids| + |rs|
  {
    if ids != [] { CountLength(c, ids[..|ids| - 1], rs); } else if rs != [] { CountLength(c, ids, rs[..|rs| - 1]); }
  }

  lemma {:induction false} HeldIsLoaded(c: Setup, s: State, w: nat, t: nat)
    requires TestsOk(c, s) && w < |s.workers| && Held(c, s.workers[w], Id(t)) > 0
    ensures t < |c.paths|
  {
    InFlightSet(c, s.workers, w, Top, Id(t));
    CountIds(c, |c.paths|, t);
  }

  /** Workers that only change places with the same test in hand. */
  lemma MoveKeeps(c: Setup, s: State, s': State, w: nat, pc: Worker)
    requires TestsOk(c, s) && PathsOk(c, s) && w < |s.workers|
    requires forall k: Key :: Held(c, s.workers[w], k) == Held(c, pc, k)
    requires s' == Set(s, w, pc).(lock := s'.lock)
    ensures TestsOk(c, s') && PathsOk(c, s')
  {
    InFlightSetAll(c, s.workers, w, pc);
  }

  lemma PopKeeps(c: Setup, s: State, s': State, w: nat)
    requires TestsOk(c, s) && PathsOk(c, s) && w < |s.workers| && s.workers[w] == Top && s.queue != []
    requires s' == Set(s, w, Running(s.queue[|s.queue| - 1])).(queue := s.queue[..|s.queue| - 1], lock := Free)
    ensures TestsOk(c, s') && PathsOk(c, s')
  {
    InFlightSetAll(c, s.workers, w, Running(s.queue[|s.queue| - 1]));
  }

  lemma StoredCounts(c: Setup, s: State, s': State, r: Result)
    requires CountsOk(s) && s'.results == s.results + [r]
    requires s'.skCount == s.skCount + if r.skipped then 1 else 0
    requires forall o: Outcome :: o in s.counters && o in s'.counters
    requires forall o: Outcome :: s'.counters[o] == s.counters[o] + if !r.skipped && o == r.outcome then 1 else 0
    ensures CountsOk(s')
  {
    assert s'.results[..|s.results|] == s.results;
  }

  lemma StoredTests(c: Setup, s: State, s': State, w: nat, r: Result)
    requires TestsOk(c, s) && w < |s.workers| && s.workers[w] == Reporting(r)
    requires s'.queue == s.queue && s'.workers == s.workers[w := Top] && s'.results == s.results + [r]
    ensures TestsOk(c, s')
  {
    InFlightSetAll(c, s.workers, w, Top);
    assert s'.results[..|s.results|] == s.results;
  }

  /** Only the reported test leaves its worker's hands. */
  lemma HandsAfter(c: Setup, s: State, s': State, w: nat, r: Result)
    requires TestsOk(c, s) && w < |s.workers| && s.workers[w] == Reporting(r) && s'.workers == s.workers[w := Top]
    ensures r.test < |c.paths|
    ensures InFlight(c, s'.workers, Path(c.paths[r.test])) + 1 == InFlight(c, s.workers, Path(c.paths[r.test]))
    ensures forall p :: p != c.paths[r.test] ==> InFlight(c, s'.workers, Path(p)) == InFlight(c, s.workers, Path(p))
  {
    HeldIsLoaded(c, s, w, r.test);
    InFlightSetAll(c, s.workers, w, Top);
    forall p | p != c.paths[r.test] ensures Held(c, s.workers[w], Path(p)) == 0 {}
  }

  lemma StoredPaths(c: Setup, s: State, s': State, w: nat, r: Result)
    requires TestsOk(c, s) && PathsOk(c, s) && w < |s.workers| && s.workers[w] == Reporting(r)
    requires s'.queue == s.queue && s'.workers == s.workers[w := Top]
    requires (s'.pathLeft, s'.completed) == (Store(c, s, r).pathLeft, Store(c, s, r).completed)
    ensures PathsOk(c, s')
  {
    HandsAfter(c, s, s', w, r);
    var path := c.paths[r.test];
    if path in s.pathLeft { assert s.pathLeft[path] > 0 && path !in s.completed; }
  }

  lemma StoreFields(c: Setup, s: State, w: nat, r: Result)
    requires w < |s.workers|
    ensures var s' := Signal(Store(c, Set(s, w, Top), r));
            && s'.queue == s.queue && s'.workers == s.workers[w := Top] && s'.results == s.results + [r]
            && s'.skCount == s.skCount + (if r.skipped then 1 else 0)
            && s'.counters == (if r.skipped then s.counters else
                 s.counters[r.outcome := (if r.outcome in s.counters then s.counters[r.outcome] else 0) + 1])
            && s'.pathLeft == Store(c, s, r).pathLeft && s'.completed == Store(c, s, r).completed
  {
  }

  lemma ReportKeeps(c: Setup, s: State, w: nat, r: Result, s': State)
    requires TestsOk(c, s) && CountsOk(s) && PathsOk(c, s) && w < |s.workers| && s.workers[w] == Reporting(r)
    requires s' == Signal(Store(c, Set(s, w, Top), r))
    ensures TestsOk(c, s') && CountsOk(s') && PathsOk(c, s')
  {
    StoreFields(c, s, w, r);
    StoredTests(c, s, s', w, r);
    StoredCounts(c, s, s', r);
    StoredPaths(c, s, s', w, r);
  }

  lemma WorkerKeepsLock(c: Setup, s: State, w: nat, a: Action)
    requires LockOk(c, s) && w < |s.workers| && WorkerStep(c, s, w, a).Some?
    ensures LockOk(c, WorkerStep(c, s, w, a).value)
  {
  }

  lemma MainKeepsLock(c: Setup, s: State, a: Action)
    requires LockOk(c, s) && MainStep(c, s, a).Some?
    ensures LockOk(c, MainStep(c, s, a).value)
  {
  }

  lemma LockKeeps(c: Setup, s: State, a: Action)
    requires LockOk(c, s) && Step(c, s, a).Some?
    ensures LockOk(c, Step(c, s, a).value)
  {
    if a.Enter? || a.Pop? || a.Stop? || a.RunTest? || a.Relock? || a.Report? { WorkerKeepsLock(c, s, a.w, a); }
    else { MainKeepsLock(c, s, a); }
  }

  lemma ResultsBounded(c: Setup, s: State)
    requires TestsOk(c, s)
    ensures |s.queue| + InFlight(c, s.workers, Any) + |s.results| == |c.paths|
  {
    CountIds(c, |c.paths|, 0);
    CountLength(c, s.queue, s.results);
  }

  lemma MainKeeps(c: Setup, s: State, a: Action)
    requires MainOk(c, s) && LockOk(c, s) && TestsOk(c, s) && Step(c, s, a).Some?
    ensures MainOk(c, Step(c, s, a).value)
  {
    ResultsBounded(c, s);
    if a.Report? { InFlightSet(c, s.workers, a.w, Top, Any); }
  }

  lemma StepKeeps(c: Setup, s: State, a: Action)
    requires Inv(c, s) && Step(c, s, a).Some?
    ensures Inv(c, Step(c, s, a).value)
  {
    LockKeeps(c, s, a);
    MainKeeps(c, s, a);
    var s' := Step(c, s, a).value;
    if a.Pop? { PopKeeps(c, s, s', a.w); }
    else if a.Report? { ReportKeeps(c, s, a.w, s.workers[a.w].r, s'); }
    else if a.Enter? || a.Stop? || a.RunTest? || a.Relock? { MoveKeeps(c, s, s', a.w, s'.workers[a.w]); }
    else if a.StartWorker? { assert s'.workers[..|s.workers|] == s.workers; }
  }

  lemma StartsOk(c: Setup, left: map<nat, nat>)
    requires LeftOk(c, left)
    ensures Inv(c, Initial(c, left))
  {
    forall o: Outcome ensures o in ZEROS && ZEROS[o] == 0 {
      assert o == Ok || o == Failed || o == Broken || o == Fixed;
    }
  }

  lemma {:induction false} RunKeeps(c: Setup, left: map<nat, nat>, actions: seq<Action>)
    requires LeftOk(c, left) && Run(c, left, actions).Some?
    ensures Inv(c, Run(c, left, actions).value)
  {
    if actions == [] {
      StartsOk(c, left);
    } else {
      RunKeeps(c, left, actions[..|actions| - 1]);
      StepKeeps(c, Run(c, left, actions[..|actions| - 1]).value, actions[|actions| - 1]);
    }
  }

  // ---------------------------------------------------------------- the promises, for every interleaving

  /** Every loaded test is in exactly one place: queued, with one worker, or among the results. */
  lemma EveryTestOnce(c: Setup, left: map<nat, nat>, actions: seq<Action>, t: nat)
    requires LeftOk(c, left) && Run(c, left, actions).Some?
    ensures var s := Run(c, left, actions).value;
            Count(c, s.queue, Id(t)) + InFlight(c, s.workers, Id(t)) + Reported(c, s.results, Id(t)) ==
            if t < |c.paths| then 1 else 0
  {
    RunKeeps(c, left, actions);
    CountIds(c, |c.paths|, t);
  }

  /** The four counters and the skips add up to the results. */
  lemma CountersAddUp(c: Setup, left: map<nat, nat>, actions: seq<Action>)
    requires LeftOk(c, left) && Run(c, left, actions).Some?
    ensures var s := Run(c, left, actions).value;
            && Ok in s.counters && Failed in s.counters && Broken in s.counters && Fixed in s.counters
            && s.counters[Ok] + s.counters[Failed] + s.counters[Broken] + s.counters[Fixed] + s.skCount == |s.results|
  {
    RunKeeps(c, left, actions);
    CountsSum(Run(c, left, actions).value.results);
  }

  /** In log mode a path enters completed_paths once, and exactly when none of its tests is queued
      or in flight any more. */
  lemma PathsCompleteOnce(c: Setup, left: map<nat, nat>, actions: seq<Action>, p: nat)
    requires LeftOk(c, left) && Run(c, left, actions).Some? && c.log && Count(c, Ids(|c.paths|), Path(p)) > 0
    ensures var s := Run(c, left, actions).value;
            && (p in s.completed <==> Reported(c, s.results, Path(p)) == Count(c, Ids(|c.paths|), Path(p)))
            && forall i, j :: 0 <= i < j < |s.completed| ==> s.completed[i] != s.completed[j]
  {
    RunKeeps(c, left, actions);
  }

  /** r2r_run_workers returns only with the results of all tests. */
  lemma FinishedMeansAll(c: Setup, left: map<nat, nat>, actions: seq<Action>)
    requires LeftOk(c, left) && Run(c, left, actions).Some? && Run(c, left, actions).value.main == Finished
    ensures |Run(c, left, actions).value.results| == |c.paths|
    ensures forall t :: 0 <= t < |c.paths| ==> Reported(c, Run(c, left, actions).value.results, Id(t)) == 1
  {
    RunKeeps(c, left, actions);
    var s := Run(c, left, actions).value;
    ResultsBounded(c, s);
    forall t | 0 <= t < |c.paths| ensures Reported(c, s.results, Id(t)) == 1 {
      CountIds(c, |c.paths|, t);
      NoneInFlight(c, s.workers, Id(t));
    }
  }

  lemma {:induction false} NoneInFlight(c: Setup, ws: seq<Worker>, k: Key)
    ensures InFlight(c, ws, k) <= InFlight(c, ws, Any)
  {
    if ws != [] { NoneInFlight(c, ws[..|ws| - 1], k); }
  }

  // ---------------------------------------------------------------- no missed wake-up

  /** How many more steps a worker can take before it has to take another test. */
  function Weight(pc: Worker): nat {
    match pc
    case Fresh => 2
    case Top => 1
    case Running(_) => 4
    case Ran(_) => 3
    case Reporting(_) => 2
    case Stopped => 0
  }

  function Weights(ws: seq<Worker>): nat {
    if ws == [] then 0 else Weights(ws[..|ws| - 1]) + Weight(ws[|ws| - 1])
  }

  /** What is left to do for the workers, started and not. */
  function Work(c: Setup, s: State): nat {
    4 * |s.queue| + Weights(s.workers) + if |s.workers| < c.count then 3 * (c.count - |s.workers|) else 0
  }

  /** How far the main thread is from its end or its sleep. */
  function Rank(main: Main): nat {
    match main
    case Starting => 4
    case Checking => 2
    case Waiting(signalled) => if signalled then 3 else 1
    case Joining => 1
    case Finished => 0
    case Aborted => 0
  }

  lemma {:induction false} WeightsSet(ws: seq<Worker>, w: nat, pc: Worker)
    requires w < |ws|
    ensures Weights(ws[w := pc]) + Weight(ws[w]) == Weights(ws) + Weight(pc)
  {
    if w == |ws| - 1 {
      assert ws[w := pc][..w] == ws[..w];
    } else {
      assert ws[w := pc][..|ws| - 1] == ws[..|ws| - 1][w := pc];
      WeightsSet(ws[..|ws| - 1], w, pc);
    }
  }

  /** Every step but a spurious wake-up brings the run closer to its end: it takes away work, or
      leaves the work alone and moves the main thread on. */
  lemma StepsRunOut(c: Setup, s: State, a: Action)
    requires Step(c, s, a).Some? && a != Spurious && |s.workers| <= c.count
    ensures Work(c, Step(c, s, a).value) < Work(c, s) ||
            (Work(c, Step(c, s, a).value) == Work(c, s) && Rank(Step(c, s, a).value.main) < Rank(s.main))
  {
    if a.Enter? || a.Pop? || a.Stop? || a.RunTest? || a.Relock? || a.Report? {
      WorkerStepWorks(c, s, a);
    } else if a.StartWorker? {
      assert Step(c, s, a).value.workers[..|s.workers|] == s.workers;
    }
  }

  lemma WorkerStepWorks(c: Setup, s: State, a: Action)
    requires a.Enter? || a.Pop? || a.Stop? || a.RunTest? || a.Relock? || a.Report?
    requires Step(c, s, a).Some?
    ensures Work(c, Step(c, s, a).value) < Work(c, s)
  {
    var s' := Step(c, s, a).value;
    WeightsSet(s.workers, a.w, s'.workers[a.w]);
    assert s'.workers == s.workers[a.w := s'.workers[a.w]];
  }

  ghost predicate CanMove(c: Setup, s: State) {
    exists a: Action :: a != Spurious && Step(c, s, a).Some?
  }

  lemma {:induction false} SomeoneHolds(c: Setup, ws: seq<Worker>) returns (w: nat)
    requires InFlight(c, ws, Any) > 0
    ensures w < |ws| && Held(c, ws[w], Any) > 0
  {
    if Held(c, ws[|ws| - 1], Any) > 0 { w := |ws| - 1; } else { w := SomeoneHolds(c, ws[..|ws| - 1]); }
  }

  /** A worker that is not stopped, or the holder of the lock, can take a step. */
  lemma WorkerCanMove(c: Setup, s: State, w: nat)
    requires LockOk(c, s) && w < |s.workers| && s.workers[w] != Stopped && s.lock != ByMain
    ensures CanMove(c, s)
  {
    var v: nat := if s.lock.ByWorker? then s.lock.w else w;
    var a := match s.workers[v]
      case Fresh => Enter(v)
      case Top => if s.queue == [] then Stop(v) else Pop(v)
      case Running(_) => RunTest(v, false, Ok)
      case Ran(_) => Relock(v)
      case _ => Report(v);
    assert Step(c, s, a).Some?;
  }

  /** While the main thread sleeps, the missing results are on their way. */
  lemma WakeUpComes(c: Setup, s: State)
    requires Inv(c, s) && c.count > 0 && s.main.Waiting?
    ensures CanMove(c, s)
  {
    ResultsBounded(c, s);
    if s.main.signalled && s.lock == Free {
      assert Step(c, s, Wake).Some?;
    } else if s.lock.ByWorker? {
      WorkerCanMove(c, s, s.lock.w);
    } else if InFlight(c, s.workers, Any) > 0 {
      var w := SomeoneHolds(c, s.workers);
      WorkerCanMove(c, s, w);
    } else {
      assert s.queue != [] && s.workers[0] != Stopped;
      WorkerCanMove(c, s, 0);
    }
  }

  /** With at least one worker, nothing ever hangs: until r2r_run_workers returns, some thread can
      take a step that is not a spurious wake-up.  Together with StepsRunOut: every run with
      finitely many spurious wake-ups reaches the end, so no wake-up is missed. */
  lemma NeverStuck(c: Setup, left: map<nat, nat>, actions: seq<Action>)
    requires LeftOk(c, left) && Run(c, left, actions).Some? && c.count > 0
    requires Run(c, left, actions).value.main != Finished && Run(c, left, actions).value.main != Aborted
    ensures CanMove(c, Run(c, left, actions).value)
  {
    RunKeeps(c, left, actions);
    var s := Run(c, left, actions).value;
    match s.main
    case Starting =>
      var a := if |s.workers| < c.count then StartWorker else AllStarted;
      assert Step(c, s, a).Some?;
    case Checking =>
      assert Step(c, s, Check).Some?;
    case Waiting(_) =>
      WakeUpComes(c, s);
    case Joining =>
      if forall w :: 0 <= w < |s.workers| ==> s.workers[w] == Stopped {
        assert Step(c, s, Join).Some?;
      } else {
        var w :| 0 <= w < |s.workers| && s.workers[w] != Stopped;
        WorkerCanMove(c, s, w);
      }
  }

  /** Without workers and with a test to run, the main thread sleeps and nobody will wake it. */
  lemma StuckWithoutWorkers(c: Setup, left: map<nat, nat>)
    requires LeftOk(c, left) && c.count == 0 && |c.paths| > 0
    ensures var s := Run(c, left, [AllStarted, Check]);
            s.Some? && s.value.main == Waiting(false) && !CanMove(c, s.value)
  {
    assert [AllStarted, Check][..1] == [AllStarted];
    assert [AllStarted][..0] == [];
    assert Run(c, left, [AllStarted]) == Some(Initial(c, left).(main := Checking));
  }
}
