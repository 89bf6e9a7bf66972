/** Who learns that a child has exited: the SIGCHLD thread or the thread that waits for it
    (binr/r2r/run.c:494-623, 744-881, 883-989, 1024-1060).  Every lock-protected access, system
    call and pipe operation is one step; the steps of all threads interleave freely. */
module Subprocess {
  import opened Lists

  /** A wait status: WIFEXITED, WIFSIGNALED, or neither. */
  datatype Wstat = Exited(code: nat) | Signaled(sig: nat) | Other

  /** The exit status subprocess_set_status derives from it. */
  function Decode(w: Wstat): int {
    if w.Exited? then w.code else -1
  }

  /** The child, as the kernel knows it. */
  datatype Child = Unborn | Running | Zombie(w: Wstat) | Reaped(w: Wstat)

  /** Where the thread that owns a record is. */
  datatype Owner =
    | Starting                  // r2r_subprocess_start has the mutex and a record, no child yet
    | Spawned                   // the child exists, the record is not in the vector yet
    | Pushed                    // the record is in the vector, the mutex still held
    | Ready                     // between calls
    | Waiting(dead: bool)       // in the loop of r2r_subprocess_wait, with its child_dead
    | TryGone                   // subprocess_try_wait got ECHILD
    | TryGot(w: Wstat)          // subprocess_try_wait reaped the child
    | Done(ok: bool)            // r2r_subprocess_wait returned
    | Freeing                   // r2r_subprocess_free has the mutex
    | Removed                   // the record left the vector, the mutex still held
    | Loose                     // the mutex is released, the record not freed yet
    | Freed

  /** A record, with the child it stands for; records counts the calls of subprocess_set_status. */
  datatype Proc = Proc(child: Child, statusSet: bool, ret: int, killpipe: bool, pc: Owner, records: nat)

  /** Where the SIGCHLD thread is: waiting for a byte, waiting for the mutex, or at an index of the
      vector; found is its flag. */
  datatype Sig =
    | Idle
    | Wanting
    | At(i: nat, found: bool)
    | Looked(i: nat, found: bool)             // subprocess_notify_wait saw no status
    | Got(i: nat, found: bool, w: Wstat)      // it reaped the child
    | Told(i: nat, found: bool)               // it recorded the status

  datatype Mutex = Free | BySig | ByProc(p: nat)

  /** signal: SIGCHLD is pending; bytes: what handle_sigchld wrote and nobody read yet. */
  datatype State = State(procs: map<nat, Proc>, vector: seq<nat>, mutex: Mutex, sig: Sig, signal: bool, bytes: nat)

  const START := State(map[], [], Free, Idle, false, 0)
  const PIPE: nat := 65536

  datatype Action =
    | Begin(p: nat) | Spawn(p: nat) | SpawnFails(p: nat) | Push(p: nat) | Started(p: nat)
    | Exit(p: nat, w: Wstat) | Deliver
    | SigRead | SigLock | SigCheck | SigWait | SigRecord | SigTell | SigUnlock
    | WaitBegin(p: nat) | WaitKillpipe(p: nat) | WaitTry(p: nat)
    | WaitGone(p: nat) | WaitRecord(p: nat) | WaitEnd(p: nat)
    | FreeBegin(p: nat) | FreeRemove(p: nat) | FreeUnlock(p: nat) | FreeRecord(p: nat)

  // ---------------------------------------------------------------- the steps

  function Put(s: State, p: nat, q: Proc): State {
    s.(procs := s.procs[p := q])
  }

  function Move(s: State, p: nat, pc: Owner): State
    requires p in s.procs
  {
    Put(s, p, s.procs[p].(pc := pc))
  }

  /** subprocess_set_status. */
  function Record(q: Proc, w: Wstat): Proc {
    q.(ret := Decode(w), statusSet := true, records := q.records + 1)
  }

  predicate AtPc(s: State, p: nat, pc: Owner) {
    p in s.procs && s.procs[p].pc == pc
  }

  /** The owner is outside all calls. */
  predicate Outside(s: State, p: nat) {
    p in s.procs && (s.procs[p].pc == Ready || s.procs[p].pc.Done?)
  }

  function StartStep(s: State, a: Action): Option<State> {
    match a
    case Begin(p) =>
      if p !in s.procs && s.mutex == Free
      then Some(Put(s, p, Proc(Unborn, false, -1, false, Starting, 0)).(mutex := ByProc(p))) else None
    case Spawn(p) =>
      if AtPc(s, p, Starting) then Some(Put(s, p, s.procs[p].(child := Running, pc := Spawned))) else None
    case SpawnFails(p) =>
      if AtPc(s, p, Starting) then Some(Move(s, p, Freed).(mutex := Free)) else None
    case Push(p) =>
      if AtPc(s, p, Spawned) then Some(Move(s, p, Pushed).(vector := s.vector + [p])) else None
    case Started(p) =>
      if AtPc(s, p, Pushed) then Some(Move(s, p, Ready).(mutex := Free)) else None
    case _ => None
  }

  function ChildStep(s: State, a: Action): Option<State> {
    match a
    case Exit(p, w) =>
      if p in s.procs && s.procs[p].child == Running
      then Some(Put(s, p, s.procs[p].(child := Zombie(w))).(signal := true)) else None
    case Deliver =>
      if s.signal then Some(s.(signal := false, bytes := if s.bytes < PIPE then s.bytes + 1 else s.bytes)) else None
    case _ => None
  }

  function SigStep(s: State, a: Action): Option<State> {
    match a
    case SigRead =>
      if s.sig == Idle && s.bytes > 0 then Some(s.(sig := Wanting, bytes := s.bytes - 1)) else None
    case SigLock =>
      if s.sig == Wanting && s.mutex == Free then Some(s.(sig := At(0, false), mutex := BySig)) else None
    case SigCheck =>
      if s.sig.At? && s.sig.i < |s.vector| && s.vector[s.sig.i] in s.procs
      then Some(s.(sig := if s.procs[s.vector[s.sig.i]].statusSet then At(s.sig.i + 1, s.sig.found)
                          else Looked(s.sig.i, s.sig.found))) else None
    case SigWait =>
      if s.sig.Looked? && s.sig.i < |s.vector| && s.vector[s.sig.i] in s.procs then
        var p := s.vector[s.sig.i];
        var q := s.procs[p];
        if q.child.Zombie?
        then Some(Put(s, p, q.(child := Reaped(q.child.w))).(sig := Got(s.sig.i, s.sig.found, q.child.w)))
        else Some(s.(sig := At(s.sig.i + 1, s.sig.found)))
      else None
    case SigRecord =>
      if s.sig.Got? && s.sig.i < |s.vector| && s.vector[s.sig.i] in s.procs then
        var p := s.vector[s.sig.i];
        Some(Put(s, p, Record(s.procs[p], s.sig.w)).(sig := Told(s.sig.i, s.sig.found)))
      else None
    case SigTell =>
      if s.sig.Told? && s.sig.i < |s.vector| && s.vector[s.sig.i] in s.procs then
        var p := s.vector[s.sig.i];
        Some(Put(s, p, s.procs[p].(killpipe := true)).(sig := At(s.sig.i + 1, true)))
      else None
    case SigUnlock =>
      if s.sig.At? && s.sig.i >= |s.vector|
      then Some(s.(sig := if s.sig.found then Wanting else Idle, mutex := Free)) else None
    case _ => None
  }

  function WaitStep(s: State, a: Action): Option<State> {
    match a
    case WaitBegin(p) => if Outside(s, p) then Some(Move(s, p, Waiting(false))) else None
    case WaitKillpipe(p) =>
      if AtPc(s, p, Waiting(false)) && s.procs[p].killpipe then Some(Move(s, p, Waiting(true))) else None
    case WaitTry(p) =>
      if AtPc(s, p, Waiting(false)) then
        var q := s.procs[p];
        match q.child
        case Zombie(w) => Some(Put(s, p, q.(child := Reaped(w), pc := TryGot(w))))
        case Reaped(_) => Some(Move(s, p, TryGone))
        case _ => Some(s)
      else None
    case WaitGone(p) => if AtPc(s, p, TryGone) then Some(Move(s, p, Waiting(s.procs[p].statusSet))) else None
    case WaitRecord(p) =>
      if p in s.procs && s.procs[p].pc.TryGot?
      then Some(Put(s, p, Record(s.procs[p], s.procs[p].pc.w).(pc := Waiting(true)))) else None
    case WaitEnd(p) =>
      if p in s.procs && s.procs[p].pc.Waiting? then Some(Move(s, p, Done(s.procs[p].pc.dead))) else None
    case _ => None
  }

  function FreeStep(s: State, a: Action): Option<State> {
    match a
    case FreeBegin(p) =>
      if Outside(s, p) && s.mutex == Free then Some(Move(s, p, Freeing).(mutex := ByProc(p))) else None
    case FreeRemove(p) =>
      if AtPc(s, p, Freeing) then Some(Move(s, p, Removed).(vector := Without(s.vector, p))) else None
    case FreeUnlock(p) => if AtPc(s, p, Removed) then Some(Move(s, p, Loose).(mutex := Free)) else None
    case FreeRecord(p) => if AtPc(s, p, Loose) then Some(Move(s, p, Freed)) else None
    case _ => None
  }

  predicate Waits(a: Action) {
    a.WaitBegin? || a.WaitKillpipe? || a.WaitTry? || a.WaitGone? || a.WaitRecord? || a.WaitEnd?
  }

  /** The state after an action, if it can happen. */
  function Step(s: State, a: Action): Option<State> {
    if a.Begin? || a.Spawn? || a.SpawnFails? || a.Push? || a.Started? then StartStep(s, a)
    else if a.Exit? || a.Deliver? then ChildStep(s, a)
    else if Waits(a) then WaitStep(s, a)
    else if a.FreeBegin? || a.FreeRemove? || a.FreeUnlock? || a.FreeRecord? then FreeStep(s, a)
    else SigStep(s, a)
  }

  function Run(actions: seq<Action>): Option<State> {
    if actions == [] then Some(START) else
      var s := Run(actions[..|actions| - 1]);
      if s.None? then None else Step(s.value, actions[|actions| - 1])
  }

  // ---------------------------------------------------------------- what always holds

  predicate Listed(pc: Owner) {
    !(pc.Starting? || pc.Spawned? || pc.Removed? || pc.Loose? || pc.Freed?)
  }

  predicate Holding(pc: Owner) {
    pc.Starting? || pc.Spawned? || pc.Pushed? || pc.Freeing? || pc.Removed?
  }

  predicate Scanning(sig: Sig) { sig.At? || sig.Looked? || sig.Got? || sig.Told? }

  /** The SIGCHLD thread has the child's status in hand, and has not recorded it. */
  predicate SigHas(s: State, p: nat) {
    s.sig.Got? && s.sig.i < |s.vector| && s.vector[s.sig.i] == p
  }

  /** A status is recorded once, by the one waitpid that got it. */
  ghost predicate ProcOk(s: State, p: nat)
    requires p in s.procs
  {
    var q := s.procs[p];
    && (q.statusSet ==> q.child.Reaped? && q.ret == Decode(q.child.w) && q.records == 1)
    && (!q.statusSet ==> q.records == 0 && q.ret == -1 && !q.killpipe)
    && (q.child.Reaped? && !q.statusSet ==> (SigHas(s, p) && s.sig.w == q.child.w) || q.pc == TryGot(q.child.w))
    && (q.pc.TryGot? ==> q.child == Reaped(q.pc.w) && !q.statusSet && !SigHas(s, p))
    && (SigHas(s, p) ==> q.child == Reaped(s.sig.w) && !q.statusSet)
    && ((q.pc == Waiting(true) || q.pc == Done(true)) ==> q.statusSet)
    && (q.pc.Starting? ==> q.child == Unborn)
  }

  ghost predicate MutexOk(s: State) {
    && (s.mutex == BySig <==> Scanning(s.sig))
    && (forall p :: p in s.procs ==> (Holding(s.procs[p].pc) <==> s.mutex == ByProc(p)))
  }

  ghost predicate VectorOk(s: State) {
    && Distinct(s.vector)
    && (forall p :: p in s.vector ==> p in s.procs)
    && (forall p :: p in s.procs ==> (Listed(s.procs[p].pc) <==> p in s.vector))
    && (s.sig.At? ==> s.sig.i <= |s.vector|)
    && (s.sig.Looked? || s.sig.Got? || s.sig.Told? ==> s.sig.i < |s.vector|)
    && (s.sig.Told? ==> s.vector[s.sig.i] in s.procs && s.procs[s.vector[s.sig.i]].statusSet)
  }

  /** The SIGCHLD thread will still look at this record. */
  ghost predicate WillLook(s: State, p: nat) {
    || s.signal || s.bytes > 0 || s.sig == Wanting
    || (Scanning(s.sig) && (s.sig.found || s.sig.Got? || s.sig.Told?))
    || ((s.sig.At? || s.sig.Looked?) && exists j :: s.sig.i <= j < |s.vector| && s.vector[j] == p)
  }

  ghost predicate NoneLost(s: State) {
    forall p ::
      p in s.procs && s.procs[p].child.Zombie? && (Listed(s.procs[p].pc) || s.procs[p].pc.Spawned?) ==> WillLook(s, p)
  }

  ghost predicate Inv(s: State) {
    MutexOk(s) && VectorOk(s) && (forall p :: p in s.procs ==> ProcOk(s, p)) && NoneLost(s)
  }

  /** A step on one record that moves neither the mutex nor the vector. */
  lemma OneRecord(s: State, p: nat, q: Proc)
    requires Inv(s) && p in s.procs && ProcOk(Put(s, p, q), p)
    requires Listed(q.pc) == Listed(s.procs[p].pc) && Holding(q.pc) == Holding(s.procs[p].pc)
    requires q.child.Zombie? ==> s.procs[p].child.Zombie? && (q.pc.Spawned? ==> s.procs[p].pc.Spawned?)
    requires s.procs[p].statusSet ==> q.statusSet
    ensures Inv(Put(s, p, q))
  {
    var s' := Put(s, p, q);
    assert MutexOk(s') && VectorOk(s');
    forall r | r in s'.procs ensures ProcOk(s', r) { assert r != p ==> ProcOk(s, r); }
    forall r | r in s'.procs && s'.procs[r].child.Zombie? && (Listed(s'.procs[r].pc) || s'.procs[r].pc.Spawned?)
      ensures WillLook(s', r)
    {
      assert WillLook(s, r);
    }
  }

  lemma WaitKeeps(s: State, a: Action)
    requires Inv(s) && WaitStep(s, a).Some?
    ensures Inv(WaitStep(s, a).value)
  {
    var s' := WaitStep(s, a).value;
    assert ProcOk(s, a.p);
    OneRecord(s, a.p, s'.procs[a.p]);
    assert s' == Put(s, a.p, s'.procs[a.p]);
  }

  lemma ChildKeeps(s: State, a: Action)
    requires Inv(s) && ChildStep(s, a).Some?
    ensures Inv(ChildStep(s, a).value)
  {
  }

  lemma StartKeepsTables(s: State, a: Action)
    requires MutexOk(s) && VectorOk(s) && StartStep(s, a).Some?
    ensures MutexOk(StartStep(s, a).value) && VectorOk(StartStep(s, a).value)
  {
  }

  lemma StartKeeps(s: State, a: Action)
    requires Inv(s) && StartStep(s, a).Some?
    ensures Inv(StartStep(s, a).value)
  {
    StartKeepsTables(s, a);
    var s' := StartStep(s, a).value;
    forall r | r in s'.procs ensures ProcOk(s', r) { if r in s.procs { assert ProcOk(s, r); } }
    forall r | r in s'.procs && s'.procs[r].child.Zombie? && (Listed(s'.procs[r].pc) || s'.procs[r].pc.Spawned?)
      ensures WillLook(s', r)
    {
      assert WillLook(s, r);
    }
  }

  lemma FreeKeepsTables(s: State, a: Action)
    requires MutexOk(s) && VectorOk(s) && FreeStep(s, a).Some?
    ensures MutexOk(FreeStep(s, a).value) && VectorOk(FreeStep(s, a).value)
  {
    if a.FreeRemove? { WithoutMembers(s.vector, a.p); }
  }

  lemma FreeKeeps(s: State, a: Action)
    requires Inv(s) && FreeStep(s, a).Some?
    ensures Inv(FreeStep(s, a).value)
  {
    FreeKeepsTables(s, a);
    var s' := FreeStep(s, a).value;
    assert !Scanning(s.sig) || a.FreeRecord?;
    forall r | r in s'.procs ensures ProcOk(s', r) { assert ProcOk(s, r); }
    forall r | r in s'.procs && s'.procs[r].child.Zombie? && (Listed(s'.procs[r].pc) || s'.procs[r].pc.Spawned?)
      ensures WillLook(s', r)
    {
      assert WillLook(s, r);
    }
  }

  lemma SigKeepsTables(s: State, a: Action)
    requires MutexOk(s) && VectorOk(s) && SigStep(s, a).Some?
    ensures MutexOk(SigStep(s, a).value) && VectorOk(SigStep(s, a).value)
  {
  }

  lemma SigKeepsProcs(s: State, a: Action)
    requires MutexOk(s) && VectorOk(s) && (forall p :: p in s.procs ==> ProcOk(s, p)) && SigStep(s, a).Some?
    ensures forall p :: p in SigStep(s, a).value.procs ==> ProcOk(SigStep(s, a).value, p)
  {
    var s' := SigStep(s, a).value;
    forall r | r in s'.procs ensures ProcOk(s', r) { assert ProcOk(s, r); }
  }

  lemma SigKeepsLook(s: State, a: Action)
    requires Inv(s) && SigStep(s, a).Some?
    ensures NoneLost(SigStep(s, a).value)
  {
    var s' := SigStep(s, a).value;
    forall r | r in s'.procs && s'.procs[r].child.Zombie? && (Listed(s'.procs[r].pc) || s'.procs[r].pc.Spawned?)
      ensures WillLook(s', r)
    {
      assert WillLook(s, r) && ProcOk(s, r);
    }
  }

  lemma SigKeeps(s: State, a: Action)
    requires Inv(s) && SigStep(s, a).Some?
    ensures Inv(SigStep(s, a).value)
  {
    SigKeepsTables(s, a);
    SigKeepsProcs(s, a);
    SigKeepsLook(s, a);
  }

  lemma StepKeeps(s: State, a: Action)
    requires Inv(s) && Step(s, a).Some?
    ensures Inv(Step(s, a).value)
  {
    if a.Begin? || a.Spawn? || a.SpawnFails? || a.Push? || a.Started? { StartKeeps(s, a); }
    else if a.Exit? || a.Deliver? { ChildKeeps(s, a); }
    else if Waits(a) { WaitKeeps(s, a); }
    else if a.FreeBegin? || a.FreeRemove? || a.FreeUnlock? || a.FreeRecord? { FreeKeeps(s, a); }
    else { SigKeeps(s, a); }
  }

  lemma {:induction false} RunKeeps(actions: seq<Action>)
    requires Run(actions).Some?
    ensures Inv(Run(actions).value)
  {
    if actions != [] {
      RunKeeps(actions[..|actions| - 1]);
      StepKeeps(Run(actions[..|actions| - 1]).value, actions[|actions| - 1]);
    }
  }

  // ---------------------------------------------------------------- the promises, for every interleaving

  /** A child's status is recorded at most once, and it is the one its only successful waitpid got. */
  lemma RecordedOnce(actions: seq<Action>, p: nat)
    requires Run(actions).Some? && p in Run(actions).value.procs
    ensures var q := Run(actions).value.procs[p];
            && q.records <= 1 && (q.records == 1 <==> q.statusSet)
            && (q.statusSet ==> q.child.Reaped? && q.ret == Decode(q.child.w))
  {
    RunKeeps(actions);
    assert ProcOk(Run(actions).value, p);
  }

  /** When r2r_subprocess_wait has returned true, the status is there. */
  lemma WaitTellsTheTruth(actions: seq<Action>, p: nat)
    requires Run(actions).Some? && AtPc(Run(actions).value, p, Done(true))
    ensures var q := Run(actions).value.procs[p];
            q.statusSet && q.child.Reaped? && q.ret == Decode(q.child.w)
  {
    RunKeeps(actions);
    assert ProcOk(Run(actions).value, p);
  }

  /** While the SIGCHLD thread goes through the vector it holds the mutex, and no record in the
      vector, nor the one it is at, is freed or about to be. */
  lemma SigchldTouchesLiveRecords(actions: seq<Action>)
    requires Run(actions).Some? && Scanning(Run(actions).value.sig)
    ensures var s := Run(actions).value;
            && s.mutex == BySig
            && (forall p :: p in s.vector ==> p in s.procs && Listed(s.procs[p].pc) && !s.procs[p].pc.Freeing?)
            && (!s.sig.At? ==> s.sig.i < |s.vector|)
  {
    RunKeeps(actions);
  }

  /** No exit is missed: when the SIGCHLD thread has nothing left to do, no child of a record in
      the vector is waiting to be reaped. */
  lemma NoExitMissed(actions: seq<Action>, p: nat)
    requires Run(actions).Some? && p in Run(actions).value.vector
    requires var s := Run(actions).value; s.sig == Idle && s.bytes == 0 && !s.signal
    ensures p in Run(actions).value.procs && !Run(actions).value.procs[p].child.Zombie?
  {
    RunKeeps(actions);
    var s := Run(actions).value;
    assert Listed(s.procs[p].pc);
    assert !WillLook(s, p);
  }

  /** A recorded status of p is still there. */
  predicate StillRecorded(s: State, s': State, p: nat) {
    p in s.procs && s.procs[p].statusSet ==> p in s'.procs && s'.procs[p].statusSet && s'.procs[p].ret == s.procs[p].ret
  }

  lemma StartKeepsStatus(s: State, a: Action, p: nat)
    requires Inv(s) && StartStep(s, a).Some?
    ensures StillRecorded(s, StartStep(s, a).value, p)
  {
  }

  lemma SigKeepsStatus(s: State, a: Action, p: nat)
    requires Inv(s) && SigStep(s, a).Some?
    ensures StillRecorded(s, SigStep(s, a).value, p)
  {
    if p in s.procs { assert ProcOk(s, p); }
  }

  lemma WaitKeepsStatus(s: State, a: Action, p: nat)
    requires Inv(s) && WaitStep(s, a).Some?
    ensures StillRecorded(s, WaitStep(s, a).value, p)
  {
    if p in s.procs { assert ProcOk(s, p); }
  }

  /** Once recorded, a status stays what it is. */
  lemma StatusStays(actions: seq<Action>, a: Action, p: nat)
    requires Run(actions).Some? && Step(Run(actions).value, a).Some?
    ensures StillRecorded(Run(actions).value, Step(Run(actions).value, a).value, p)
  {
    RunKeeps(actions);
    var s := Run(actions).value;
    if a.Begin? || a.Spawn? || a.SpawnFails? || a.Push? || a.Started? { StartKeepsStatus(s, a, p); }
    else if Waits(a) { WaitKeepsStatus(s, a, p); }
    else if !(a.Exit? || a.Deliver? || a.FreeBegin? || a.FreeRemove? || a.FreeUnlock? || a.FreeRecord?) {
      SigKeepsStatus(s, a, p);
    }
  }
}
