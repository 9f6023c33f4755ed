/** The single-writer lock and the daemon's stale-lock recovery as interleaved steps
    (crates/acetone-cli/src/serve.rs, crates/acetone-graph/src/lock.rs).

    Every system call is its own step: creating the lock file with `O_EXCL`, writing the pid and then the rest of
    the holder line, reading it back, probing the pid, comparing start times, unlinking. Processes start, crash and
    exit at any time and the kernel may reuse a dead process's pid. */
module WriterLock {
  import opened Wrappers

  /** A process incarnation is never reused; its pid may be. */
  type Proc = nat

  datatype Info = Info(pid: nat, start: Option<nat>, alive: bool, daemon: bool)

  /** One write operation: a thread of a process. */
  datatype Agent = Agent(proc: Proc, thread: nat)

  /** The holder line; `start` is absent where the platform exposes no start time. */
  datatype Record = Record(pid: nat, start: Option<nat>)

  /** `owner` is the agent that created the file; `holder` is its text, `None` while empty or unparseable. */
  datatype LockFile = LockFile(owner: Agent, holder: Option<Record>)

  /** Where an operation stands; `runs` counts how often the wrapped operation has been run.
      `seen` is the owner of the file a recovery read. */
  datatype Pc =
    | Ready(runs: nat)
    | Created(runs: nat)
    | Holding(runs: nat)
    | Refused(runs: nat)
    | Reading(runs: nat)
    | Judging(runs: nat, rec: Record, seen: Agent)
    | Probed(runs: nat, rec: Record, seen: Agent)
    | Condemned(runs: nat, rec: Record, seen: Agent)
    | Finished(runs: nat)

  datatype State = State(
    procs: map<Proc, Info>,
    agents: map<Agent, Pc>,
    file: Option<LockFile>,
    mutex: map<Proc, nat>,
    daemon: Option<Proc>)

  datatype Step =
    | Launch(p: Proc, pid: nat, start: Option<nat>, daemon: bool)
    | Spawn(a: Agent)
    | TryCreate(a: Agent)
    | WritePid(a: Agent)
    | WriteHolder(a: Agent, written: bool)
    | Release(a: Agent)
    | GiveUp(a: Agent)
    | LockMutex(a: Agent)
    | ReadFile(a: Agent)
    | Probe(a: Agent)
    | Compare(a: Agent)
    | Unlink(a: Agent)
    | Die(p: Proc)

  predicate Live(s: State, a: Agent) {
    a.proc in s.procs && s.procs[a.proc].alive
  }

  predicate At(s: State, a: Agent) {
    a in s.agents && Live(s, a)
  }

  predicate InSection(pc: Pc) { pc.Created? || pc.Holding? }

  predicate Recovering(pc: Pc) { pc.Reading? || pc.Judging? || pc.Probed? || pc.Condemned? }

  /** Past the read: the verdict rests on the file owned by `seen`. */
  predicate HasRead(pc: Pc) { pc.Judging? || pc.Probed? || pc.Condemned? }

  ghost predicate PidLive(s: State, pid: nat) {
    exists p :: p in s.procs && s.procs[p].alive && s.procs[p].pid == pid
  }

  /** A live process has the recorded pid and a start time that contradicts the recorded one. */
  ghost predicate PidReused(s: State, rec: Record) {
    exists p :: p in s.procs && s.procs[p].alive && s.procs[p].pid == rec.pid
                && rec.start.Some? && s.procs[p].start.Some? && rec.start != s.procs[p].start
  }

  ghost predicate Enabled(s: State, step: Step) {
    match step
    case Launch(p, pid, _, daemon) => p !in s.procs && !PidLive(s, pid) && (daemon ==> s.daemon.None?)
    case Spawn(a) => a !in s.agents && Live(s, a)
    case TryCreate(a) => At(s, a) && s.agents[a].Ready?
    case WritePid(a) => At(s, a) && s.agents[a].Created?
    case WriteHolder(a, _) => At(s, a) && s.agents[a].Created?
    case Release(a) => At(s, a) && s.agents[a].Holding?
    case GiveUp(a) => At(s, a) && (s.agents[a].Refused? || Recovering(s.agents[a]))
    case LockMutex(a) =>
      At(s, a) && s.agents[a].Refused? && s.agents[a].runs == 1 && s.procs[a.proc].daemon && a.proc !in s.mutex
    case ReadFile(a) => At(s, a) && s.agents[a].Reading?
    case Probe(a) => At(s, a) && s.agents[a].Judging?
    case Compare(a) => At(s, a) && s.agents[a].Probed?
    case Unlink(a) => At(s, a) && s.agents[a].Condemned?
    case Die(p) => p in s.procs && s.procs[p].alive
  }

  function Move(s: State, a: Agent, pc: Pc): State {
    s.(agents := s.agents[a := pc])
  }

  /** End of `recover_stale_writer_lock`: the mutex guard drops. */
  function Leave(s: State, a: Agent, pc: Pc): State {
    Move(s, a, pc).(mutex := s.mutex - {a.proc})
  }

  /** A write through the handle of the file `a` created, which may have been unlinked since. */
  function Inscribe(s: State, a: Agent, rec: Record): State {
    if s.file.Some? && s.file.value.owner == a then s.(file := Some(LockFile(a, Some(rec)))) else s
  }

  ghost function Next(s: State, step: Step): State
    requires Enabled(s, step)
  {
    match step
    case Launch(p, pid, start, daemon) =>
      s.(procs := s.procs[p := Info(pid, start, true, daemon)], daemon := if daemon then Some(p) else s.daemon)
    case Spawn(a) => Move(s, a, Ready(0))
    case TryCreate(a) =>
      var runs := s.agents[a].runs + 1;
      if s.file.None? then Move(s, a, Created(runs)).(file := Some(LockFile(a, None))) else Move(s, a, Refused(runs))
    case WritePid(a) => Inscribe(s, a, Record(s.procs[a.proc].pid, None))
    case WriteHolder(a, written) =>
      var moved := Move(s, a, Holding(s.agents[a].runs));
      if written then Inscribe(moved, a, Record(s.procs[a.proc].pid, s.procs[a.proc].start)) else moved
    case Release(a) => Move(s, a, Finished(s.agents[a].runs)).(file := None)
    case GiveUp(a) =>
      if s.agents[a].Refused? then Move(s, a, Finished(s.agents[a].runs)) else Leave(s, a, Finished(s.agents[a].runs))
    case LockMutex(a) => Move(s, a, Reading(s.agents[a].runs)).(mutex := s.mutex[a.proc := a.thread])
    case ReadFile(a) =>
      var runs := s.agents[a].runs;
      if s.file.None? then Leave(s, a, Ready(runs))
      else if s.file.value.holder.None? then Leave(s, a, Finished(runs))
      else Move(s, a, Judging(runs, s.file.value.holder.value, s.file.value.owner))
    case Probe(a) =>
      var pc := s.agents[a];
      Move(s, a, if PidLive(s, pc.rec.pid) then Probed(pc.runs, pc.rec, pc.seen)
          else Condemned(pc.runs, pc.rec, pc.seen))
    case Compare(a) =>
      var pc := s.agents[a];
      if PidReused(s, pc.rec) then Move(s, a, Condemned(pc.runs, pc.rec, pc.seen)) else Leave(s, a, Finished(pc.runs))
    case Unlink(a) => Leave(s, a, Ready(s.agents[a].runs)).(file := None)
    case Die(p) =>
      s.(procs := s.procs[p := s.procs[p].(alive := false)],
         mutex := s.mutex - {p},
         daemon := if s.daemon == Some(p) then None else s.daemon)
  }

  // ----- the invariant -----

  /** Process table: live pids are distinct; the kernel-held daemon lock names the one live daemon. */
  ghost predicate ProcsOk(s: State) {
    && (forall p, q ::
          && p in s.procs && q in s.procs && s.procs[p].alive && s.procs[q].alive
          && s.procs[p].pid == s.procs[q].pid ==>
            p == q)
    && (forall p :: p in s.procs && s.procs[p].alive && s.procs[p].daemon ==> s.daemon == Some(p))
    && (s.daemon.Some? ==> s.daemon.value in s.procs && s.procs[s.daemon.value].alive)
    && (forall a :: a in s.agents ==> a.proc in s.procs)
  }

  /** The line, whole or cut off after the pid, is about this process. */
  predicate Names(rec: Record, info: Info) { rec.pid == info.pid && (rec.start.None? || rec.start == info.start) }

  /** The lock file and the critical section belong together. */
  ghost predicate FileOk(s: State) {
    && (s.file.Some? ==> s.file.value.owner in s.agents
                         && (Live(s, s.file.value.owner) ==> InSection(s.agents[s.file.value.owner]))
                         && !s.agents[s.file.value.owner].Finished?)
    && (s.file.Some? && s.file.value.holder.Some? && s.file.value.owner.proc in s.procs ==>
          Names(s.file.value.holder.value, s.procs[s.file.value.owner.proc]))
    && (forall a :: At(s, a) && InSection(s.agents[a]) ==> s.file.Some? && s.file.value.owner == a)
  }

  /** A recovery holds its process's mutex and knows whose file it read. */
  ghost predicate RecoveryOk(s: State) {
    forall a :: At(s, a) && Recovering(s.agents[a]) ==>
      && s.procs[a.proc].daemon && a.proc in s.mutex && s.mutex[a.proc] == a.thread
      && (HasRead(s.agents[a]) ==> SeenOk(s, s.agents[a]))
  }

  ghost predicate SeenOk(s: State, pc: Pc)
    requires HasRead(pc)
  {
    && pc.seen in s.agents && pc.seen.proc in s.procs
    && Names(pc.rec, s.procs[pc.seen.proc])
    && (s.agents[pc.seen].Finished? || (s.file.Some? && s.file.value.owner == pc.seen))
    && (pc.Condemned? ==> !s.procs[pc.seen.proc].alive)
  }

  ghost predicate Inv(s: State) { ProcsOk(s) && FileOk(s) && RecoveryOk(s) }

  function Initial(): State { State(map[], map[], None, map[], None) }

  lemma OneRecovery(s: State, a: Agent, b: Agent)
    requires Inv(s) && At(s, a) && At(s, b) && Recovering(s.agents[a]) && Recovering(s.agents[b])
    ensures a == b
  {
  }

  /** The verdict on a live holder is never "dead". */
  lemma LiveHolderIsSeen(s: State, h: Agent, rec: Record)
    requires ProcsOk(s) && Live(s, h) && Names(rec, s.procs[h.proc])
    ensures PidLive(s, rec.pid) && !PidReused(s, rec)
  {
  }

  /** The window: the holder whose line was read has released since, and a live writer has the file now. */
  ghost predicate Breach(s: State, a: Agent) {
    && At(s, a) && s.agents[a].Condemned? && s.agents[a].seen in s.agents
    && s.agents[s.agents[a].seen].Finished?
    && s.file.Some? && Live(s, s.file.value.owner)
  }

  /** Exactly then does an unlink take a live writer's lock. */
  lemma BreachExactly(s: State, a: Agent)
    requires Inv(s) && Enabled(s, Unlink(a))
    ensures s.file.Some? && Live(s, s.file.value.owner) <==> Breach(s, a)
  {
  }

  // ----- each step keeps the invariant -----

  lemma KeepProcs(s: State, t: State)
    requires ProcsOk(s) && t.procs == s.procs && t.daemon == s.daemon
    requires forall a :: a in t.agents ==> a in s.agents || Live(s, a)
    ensures ProcsOk(t)
  {
  }

  /** A step that moves one agent outside the critical section and leaves the file alone. */
  lemma KeepFile(s: State, t: State, a: Agent, pc: Pc)
    requires FileOk(s) && Live(s, a)
    requires t.procs == s.procs && t.file == s.file && t.agents == s.agents[a := pc]
    requires !InSection(pc) && (a in s.agents ==> !InSection(s.agents[a]))
    ensures FileOk(t)
  {
    assert s.file.Some? ==> s.file.value.owner != a;
    forall b | At(t, b) && InSection(t.agents[b]) ensures t.file.Some? && t.file.value.owner == b {
      assert At(s, b) && InSection(s.agents[b]);
    }
  }

  /** Recoveries other than `a`'s are untouched by a step of `a` that leaves their file or ends it. */
  lemma KeepRecovery(s: State, t: State, a: Agent, pc: Pc)
    requires Inv(s) && Live(s, a)
    requires t.procs == s.procs && t.agents == s.agents[a := pc]
    requires a in s.agents && (s.agents[a].Finished? ==> pc.Finished?)
    requires forall p :: p != a.proc ==> (p in t.mutex <==> p in s.mutex) && (p in s.mutex ==> t.mutex[p] == s.mutex[p])
    requires a.proc in s.mutex ==> t.mutex == s.mutex || s.mutex[a.proc] == a.thread
    requires t.file == s.file ||
             (s.file.Some? ==>
                s.file.value.owner == a && (pc.Finished? || (t.file.Some? && t.file.value.owner == a)))
    requires Recovering(pc) ==> s.procs[a.proc].daemon && a.proc in t.mutex && t.mutex[a.proc] == a.thread
    requires HasRead(pc) ==> SeenOk(t, pc)
    ensures RecoveryOk(t)
  {
    forall b | At(t, b) && Recovering(t.agents[b]) && b != a
      ensures s.procs[b.proc].daemon && b.proc in t.mutex && t.mutex[b.proc] == b.thread
      ensures HasRead(t.agents[b]) ==> SeenOk(t, t.agents[b])
    {
      assert At(s, b) && Recovering(s.agents[b]);
    }
  }

  lemma LaunchKeeps(s: State, p: Proc, pid: nat, start: Option<nat>, daemon: bool)
    requires Inv(s) && Enabled(s, Launch(p, pid, start, daemon))
    ensures Inv(Next(s, Launch(p, pid, start, daemon)))
  {
    var t := Next(s, Launch(p, pid, start, daemon));
    assert forall a :: a in s.agents ==> a.proc != p;
    assert forall a :: At(t, a) ==> At(s, a);
    forall a | At(t, a) && Recovering(t.agents[a])
      ensures s.procs[a.proc].daemon && a.proc in t.mutex && t.mutex[a.proc] == a.thread
      ensures HasRead(t.agents[a]) ==> SeenOk(t, t.agents[a])
    {
      assert At(s, a);
    }
  }

  lemma DieKeeps(s: State, p: Proc)
    requires Inv(s) && Enabled(s, Die(p))
    ensures Inv(Next(s, Die(p)))
  {
    var t := Next(s, Die(p));
    assert forall a :: At(t, a) ==> At(s, a) && a.proc != p;
    forall a | At(t, a) && Recovering(t.agents[a])
      ensures t.procs[a.proc].daemon && a.proc in t.mutex && t.mutex[a.proc] == a.thread
      ensures HasRead(t.agents[a]) ==> SeenOk(t, t.agents[a])
    {
      assert At(s, a);
    }
  }

  lemma SpawnKeeps(s: State, a: Agent)
    requires Inv(s) && Enabled(s, Spawn(a))
    ensures Inv(Next(s, Spawn(a)))
  {
    var t := Next(s, Spawn(a));
    KeepProcs(s, t);
    KeepFile(s, t, a, Ready(0));
    forall b | At(t, b) && Recovering(t.agents[b])
      ensures s.procs[b.proc].daemon && b.proc in t.mutex && t.mutex[b.proc] == b.thread
      ensures HasRead(t.agents[b]) ==> SeenOk(t, t.agents[b])
    {
      assert At(s, b);
    }
  }

  lemma TryCreateKeeps(s: State, a: Agent)
    requires Inv(s) && Enabled(s, TryCreate(a))
    ensures Inv(Next(s, TryCreate(a)))
  {
    var t := Next(s, TryCreate(a));
    KeepProcs(s, t);
    KeepRecovery(s, t, a, t.agents[a]);
    if s.file.Some? { KeepFile(s, t, a, t.agents[a]); }
  }

  lemma WritePidKeeps(s: State, a: Agent)
    requires Inv(s) && Enabled(s, WritePid(a))
    ensures Inv(Next(s, WritePid(a)))
  {
    var t := Next(s, WritePid(a));
    assert s.file.value.owner == a && t.agents == s.agents[a := s.agents[a]];
    KeepProcs(s, t);
    KeepRecovery(s, t, a, t.agents[a]);
    assert forall b :: At(t, b) && InSection(t.agents[b]) ==> At(s, b) && InSection(s.agents[b]);
  }

  lemma WriteHolderKeeps(s: State, a: Agent, written: bool)
    requires Inv(s) && Enabled(s, WriteHolder(a, written))
    ensures Inv(Next(s, WriteHolder(a, written)))
  {
    var t := Next(s, WriteHolder(a, written));
    KeepProcs(s, t);
    assert s.file.value.owner == a;
    KeepRecovery(s, t, a, t.agents[a]);
    assert forall b :: At(t, b) && InSection(t.agents[b]) ==> At(s, b) && InSection(s.agents[b]);
  }

  lemma ReleaseKeeps(s: State, a: Agent)
    requires Inv(s) && Enabled(s, Release(a))
    ensures Inv(Next(s, Release(a)))
  {
    var t := Next(s, Release(a));
    KeepProcs(s, t);
    assert s.file.value.owner == a;
    KeepRecovery(s, t, a, t.agents[a]);
    forall b | At(t, b) ensures !InSection(t.agents[b]) {
      if b != a { assert At(s, b); }
    }
  }

  lemma GiveUpKeeps(s: State, a: Agent)
    requires Inv(s) && Enabled(s, GiveUp(a))
    ensures Inv(Next(s, GiveUp(a)))
  {
    var t := Next(s, GiveUp(a));
    KeepProcs(s, t);
    KeepFile(s, t, a, t.agents[a]);
    KeepRecovery(s, t, a, t.agents[a]);
  }

  lemma LockMutexKeeps(s: State, a: Agent)
    requires Inv(s) && Enabled(s, LockMutex(a))
    ensures Inv(Next(s, LockMutex(a)))
  {
    var t := Next(s, LockMutex(a));
    KeepProcs(s, t);
    KeepFile(s, t, a, t.agents[a]);
    KeepRecovery(s, t, a, t.agents[a]);
  }

  lemma ReadFileKeeps(s: State, a: Agent)
    requires Inv(s) && Enabled(s, ReadFile(a))
    ensures Inv(Next(s, ReadFile(a)))
  {
    var t := Next(s, ReadFile(a));
    KeepProcs(s, t);
    KeepFile(s, t, a, t.agents[a]);
    KeepRecovery(s, t, a, t.agents[a]);
  }

  lemma ProbeKeeps(s: State, a: Agent)
    requires Inv(s) && Enabled(s, Probe(a))
    ensures Inv(Next(s, Probe(a)))
  {
    var t := Next(s, Probe(a));
    var h := s.agents[a].seen;
    if Live(s, h) { LiveHolderIsSeen(s, h, s.agents[a].rec); }
    KeepProcs(s, t);
    KeepFile(s, t, a, t.agents[a]);
    KeepRecovery(s, t, a, t.agents[a]);
  }

  lemma CompareKeeps(s: State, a: Agent)
    requires Inv(s) && Enabled(s, Compare(a))
    ensures Inv(Next(s, Compare(a)))
  {
    var t := Next(s, Compare(a));
    var h := s.agents[a].seen;
    if Live(s, h) { LiveHolderIsSeen(s, h, s.agents[a].rec); }
    KeepProcs(s, t);
    KeepFile(s, t, a, t.agents[a]);
    KeepRecovery(s, t, a, t.agents[a]);
  }

  lemma UnlinkKeeps(s: State, a: Agent)
    requires Inv(s) && Enabled(s, Unlink(a)) && !Breach(s, a)
    ensures Inv(Next(s, Unlink(a)))
  {
    var t := Next(s, Unlink(a));
    BreachExactly(s, a);
    KeepProcs(s, t);
    forall b | At(t, b) ensures !InSection(t.agents[b]) && !Recovering(t.agents[b]) {
      if b != a {
        assert At(s, b);
        if Recovering(s.agents[b]) { OneRecovery(s, a, b); }
      }
    }
  }

  /** Every step keeps the invariant, an unlink inside the window excepted. */
  lemma StepKeeps(s: State, step: Step)
    requires Inv(s) && Enabled(s, step) && !(step.Unlink? && Breach(s, step.a))
    ensures Inv(Next(s, step))
  {
    match step
    case Launch(p, pid, start, daemon) => LaunchKeeps(s, p, pid, start, daemon);
    case Spawn(a) => SpawnKeeps(s, a);
    case TryCreate(a) => TryCreateKeeps(s, a);
    case WritePid(a) => WritePidKeeps(s, a);
    case WriteHolder(a, written) => WriteHolderKeeps(s, a, written);
    case Release(a) => ReleaseKeeps(s, a);
    case GiveUp(a) => GiveUpKeeps(s, a);
    case LockMutex(a) => LockMutexKeeps(s, a);
    case ReadFile(a) => ReadFileKeeps(s, a);
    case Probe(a) => ProbeKeeps(s, a);
    case Compare(a) => CompareKeeps(s, a);
    case Unlink(a) => UnlinkKeeps(s, a);
    case Die(p) => DieKeeps(s, p);
  }

  // ----- whole runs -----

  datatype Run = Begin | Then(before: Run, step: Step)

  ghost function End(r: Run): State
    requires Valid(r)
    decreases r, 1
  {
    match r case Begin => Initial() case Then(q, step) => Next(End(q), step)
  }

  /** Any interleaving of enabled steps. */
  ghost predicate Valid(r: Run)
    decreases r, 0
  {
    r.Then? ==> Valid(r.before) && Enabled(End(r.before), r.step)
  }

  /** The step removes the lock file of a live writer other than the one acting. */
  ghost predicate TakesLiveLock(s: State, step: Step)
    requires Enabled(s, step)
  {
    && s.file.Some? && Live(s, s.file.value.owner) && !step.Die?
    && (Next(s, step).file.None? || Next(s, step).file.value.owner != s.file.value.owner)
    && step != Release(s.file.value.owner)
  }

  ghost predicate NeverTakes(r: Run)
    requires Valid(r)
  {
    r.Then? ==> NeverTakes(r.before) && !TakesLiveLock(End(r.before), r.step)
  }

  ghost predicate NeverBreaches(r: Run)
    requires Valid(r)
  {
    r.Then? ==> NeverBreaches(r.before) && !(r.step.Unlink? && Breach(End(r.before), r.step.a))
  }

  lemma {:induction false} UnbreachedRunKeepsInv(r: Run)
    requires Valid(r) && NeverBreaches(r)
    ensures Inv(End(r))
  {
    if r.Then? {
      UnbreachedRunKeepsInv(r.before);
      StepKeeps(End(r.before), r.step);
    }
  }

  lemma TakingIsBreaching(s: State, step: Step)
    requires Inv(s) && Enabled(s, step)
    ensures TakesLiveLock(s, step) <==> step.Unlink? && Breach(s, step.a)
  {
    match step
    case Unlink(a) => BreachExactly(s, a);
    case Release(a) => assert s.file.value.owner == a;
    case _ =>
  }

  /** In every interleaving, a live writer's lock is taken exactly when some recovery's holder released
      between the recovery's read and its unlink and a live writer had recreated the file. */
  lemma {:induction false} LocksAreTakenOnlyInTheWindow(r: Run)
    requires Valid(r)
    ensures NeverTakes(r) <==> NeverBreaches(r)
  {
    if r.Then? {
      LocksAreTakenOnlyInTheWindow(r.before);
      if NeverBreaches(r.before) {
        UnbreachedRunKeepsInv(r.before);
        TakingIsBreaching(End(r.before), r.step);
      }
    }
  }

  ghost predicate Exclusive(s: State) {
    forall a, b :: At(s, a) && At(s, b) && InSection(s.agents[a]) && InSection(s.agents[b]) ==> a == b
  }

  /** The holder a recovery has read has not released: checkable at every state of the run. */
  ghost predicate Calm(s: State) {
    forall a :: At(s, a) && HasRead(s.agents[a]) && s.agents[a].seen in s.agents ==>
        !s.agents[s.agents[a].seen].Finished?
  }

  ghost predicate AlwaysCalm(r: Run)
    requires Valid(r)
  {
    Calm(End(r)) && (r.Then? ==> AlwaysCalm(r.before))
  }

  lemma {:induction false} CalmRunsAreUnbreached(r: Run)
    requires Valid(r) && AlwaysCalm(r)
    ensures NeverBreaches(r)
  {
    if r.Then? { CalmRunsAreUnbreached(r.before); }
  }

  /** In every run that never unlinks inside the window, crashes, restarts and pid reuse included: one live writer at a
      time, and only its holder removes a live lock. */
  lemma UnbreachedRunsAreExclusive(r: Run)
    requires Valid(r) && NeverBreaches(r)
    ensures Exclusive(End(r)) && NeverTakes(r)
  {
    UnbreachedRunKeepsInv(r);
    LocksAreTakenOnlyInTheWindow(r);
  }

  /** In particular when no holder releases between a recovery's read and its unlink. */
  lemma CalmRunsAreExclusive(r: Run)
    requires Valid(r) && AlwaysCalm(r)
    ensures Exclusive(End(r)) && NeverTakes(r)
  {
    CalmRunsAreUnbreached(r);
    UnbreachedRunsAreExclusive(r);
  }

  /** Exclusion holds now and whoever next tries to create the file. */
  ghost predicate Safe(s: State) {
    Exclusive(s) && forall a :: Enabled(s, TryCreate(a)) ==> Exclusive(Next(s, TryCreate(a)))
  }

  ghost predicate AlwaysSafe(r: Run)
    requires Valid(r)
  {
    Safe(End(r)) && (r.Then? ==> AlwaysSafe(r.before))
  }

  /** After an unlink inside the window its own retry makes a second live writer. */
  lemma BreachEndsExclusion(s: State, a: Agent)
    requires Inv(s) && Enabled(s, Unlink(a)) && Breach(s, a)
    ensures !Safe(Next(s, Unlink(a)))
  {
    var t, w := Next(s, Unlink(a)), s.file.value.owner;
    assert At(t, w) && InSection(t.agents[w]) && w != a;
    var u := Next(t, TryCreate(a));
    assert At(u, w) && InSection(u.agents[w]) && At(u, a) && InSection(u.agents[a]);
  }

  /** Mutual exclusion, exactly: every state of a run and every creation attempted from it keeps to one live writer if
      and only if no recovery unlinks inside the window. */
  lemma {:induction false} ExclusiveExactly(r: Run)
    requires Valid(r)
    ensures NeverBreaches(r) <==> AlwaysSafe(r)
  {
    if r.Then? { ExclusiveExactly(r.before); }
    if NeverBreaches(r) {
      UnbreachedRunIsSafe(r);
    } else if NeverBreaches(r.before) {
      UnbreachedRunKeepsInv(r.before);
      BreachEndsExclusion(End(r.before), r.step.a);
    }
  }

  lemma UnbreachedRunIsSafe(r: Run)
    requires Valid(r) && NeverBreaches(r)
    ensures Safe(End(r))
  {
    UnbreachedRunsAreExclusive(r);
    forall a | Enabled(End(r), TryCreate(a)) ensures Exclusive(Next(End(r), TryCreate(a))) {
      UnbreachedRunsAreExclusive(Then(r, TryCreate(a)));
    }
  }

  // ----- at most two runs of the wrapped operation -----

  ghost predicate Bounded(s: State) {
    forall a :: a in s.agents ==>
      s.agents[a].runs <= 2 && (s.agents[a].Ready? || Recovering(s.agents[a]) ==> s.agents[a].runs <= 1)
  }

  lemma BoundedStep(s: State, step: Step)
    requires Bounded(s) && Enabled(s, step)
    ensures Bounded(Next(s, step))
  {
    var t := Next(s, step);
    forall a | a in t.agents
      ensures t.agents[a].runs <= 2 && (t.agents[a].Ready? || Recovering(t.agents[a]) ==> t.agents[a].runs <= 1)
    {
      if a in s.agents && t.agents[a] == s.agents[a] {
      } else {
        assert !step.Launch? && !step.Die? && step.a == a;
      }
    }
  }

  /** In every run whatsoever, each wrapped operation runs at most twice. */
  lemma {:induction false} AtMostTwoRuns(r: Run, a: Agent)
    requires Valid(r) && a in End(r).agents
    ensures End(r).agents[a].runs <= 2
  {
    AlwaysBounded(r);
  }

  lemma {:induction false} AlwaysBounded(r: Run)
    requires Valid(r)
    ensures Bounded(End(r))
  {
    if r.Then? {
      AlwaysBounded(r.before);
      BoundedStep(End(r.before), r.step);
    }
  }

  // ----- a stale lock is recovered -----

  /** The steps are enabled one after another and end in `t`. */
  ghost predicate Leads(s: State, steps: seq<Step>, t: State)
    decreases |steps|
  {
    if steps == [] then s == t else Enabled(s, steps[0]) && Leads(Next(s, steps[0]), steps[1..], t)
  }

  lemma LeadsOne(s: State, step: Step, rest: seq<Step>, t: State)
    requires Enabled(s, step) && Leads(Next(s, step), rest, t)
    ensures Leads(s, [step] + rest, t)
  {
    assert ([step] + rest)[1..] == rest;
  }

  lemma LeadsTwo(s: State, first: Step, second: Step, rest: seq<Step>, u: State, t: State)
    requires Enabled(s, first) && Enabled(Next(s, first), second) && Next(Next(s, first), second) == u
    requires Leads(u, rest, t)
    ensures Leads(s, [first, second] + rest, t)
  {
    LeadsOne(Next(s, first), second, rest, t);
    LeadsOne(s, first, [second] + rest, t);
    assert [first] + ([second] + rest) == [first, second] + rest;
  }

  /** A daemon thread refused by a recorded lock, with its process's mutex free. */
  ghost predicate Contender(s: State, a: Agent) {
    && Inv(s) && At(s, a) && s.agents[a] == Refused(1) && s.procs[a.proc].daemon && a.proc !in s.mutex
    && s.file.Some? && s.file.value.holder.Some?
  }

  /** The state once the lock has been read and judged so far. */
  function During(s: State, a: Agent, pc: Pc): State {
    s.(agents := s.agents[a := pc], mutex := s.mutex[a.proc := a.thread])
  }

  lemma ReadsHolder(s: State, a: Agent, rest: seq<Step>, t: State)
    requires Contender(s, a)
    requires Leads(During(s, a, Judging(1, s.file.value.holder.value, s.file.value.owner)), rest, t)
    ensures Leads(s, [LockMutex(a), ReadFile(a)] + rest, t)
  {
    var s1 := Next(s, LockMutex(a));
    var u := During(s, a, Judging(1, s.file.value.holder.value, s.file.value.owner));
    assert Next(s1, ReadFile(a)).agents == u.agents;
    LeadsTwo(s, LockMutex(a), ReadFile(a), rest, u, t);
  }

  /** The outcome of a takeover: the lock is the contender's, nothing else has changed. */
  function TakenOver(s: State, a: Agent): State {
    s.(agents := s.agents[a := Created(2)], file := Some(LockFile(a, None)))
  }

  lemma CondemnedIsTaken(s: State, a: Agent, rec: Record, seen: Agent)
    requires Live(s, a) && a in s.agents && a.proc !in s.mutex
    ensures Leads(During(s, a, Condemned(1, rec, seen)), [Unlink(a), TryCreate(a)], TakenOver(s, a))
  {
    var d := During(s, a, Condemned(1, rec, seen));
    assert Next(d, Unlink(a)).mutex == s.mutex;
    var u := Next(Next(d, Unlink(a)), TryCreate(a));
    assert u.agents == TakenOver(s, a).agents;
    assert Leads(u, [], TakenOver(s, a));
    LeadsTwo(d, Unlink(a), TryCreate(a), [], u, TakenOver(s, a));
    assert [Unlink(a), TryCreate(a)] + [] == [Unlink(a), TryCreate(a)];
  }

  /** A contender takes over a dead writer's lock in five uninterrupted steps. */
  lemma StaleLockIsTakenOver(s: State, a: Agent)
    requires Contender(s, a) && !PidLive(s, s.file.value.holder.value.pid)
    ensures Leads(s, [LockMutex(a), ReadFile(a)] + ([Probe(a)] + [Unlink(a), TryCreate(a)]), TakenOver(s, a))
  {
    var rec, seen := s.file.value.holder.value, s.file.value.owner;
    var d := During(s, a, Judging(1, rec, seen));
    assert !PidLive(d, rec.pid);
    assert Next(d, Probe(a)).agents == s.agents[a := Condemned(1, rec, seen)];
    CondemnedIsTaken(s, a, rec, seen);
    LeadsOne(d, Probe(a), [Unlink(a), TryCreate(a)], TakenOver(s, a));
    ReadsHolder(s, a, [Probe(a)] + [Unlink(a), TryCreate(a)], TakenOver(s, a));
  }

  /** A lock whose recorded pid now belongs to a process that started at another time is taken over too, one comparison
      later. */
  lemma ReusedPidIsTakenOver(s: State, a: Agent, p: Proc)
    requires Contender(s, a) && p in s.procs && s.procs[p].alive && s.procs[p].pid == s.file.value.holder.value.pid
    requires var rec := s.file.value.holder.value;
             rec.start.Some? && s.procs[p].start.Some? && s.procs[p].start.value != rec.start.value
    ensures Leads(s, [LockMutex(a), ReadFile(a)] + ([Probe(a), Compare(a)] + [Unlink(a), TryCreate(a)]),
        TakenOver(s, a))
  {
    var rec, seen := s.file.value.holder.value, s.file.value.owner;
    var d := During(s, a, Judging(1, rec, seen));
    ProbedAlive(s, a, rec, seen, p);
    var e := During(s, a, Probed(1, rec, seen));
    assert PidReused(e, rec);
    assert Next(e, Compare(a)).agents == s.agents[a := Condemned(1, rec, seen)];
    CondemnedIsTaken(s, a, rec, seen);
    LeadsTwo(d, Probe(a), Compare(a), [Unlink(a), TryCreate(a)], Next(e, Compare(a)), TakenOver(s, a));
    ReadsHolder(s, a, [Probe(a), Compare(a)] + [Unlink(a), TryCreate(a)], TakenOver(s, a));
  }

  lemma ProbedAlive(s: State, a: Agent, rec: Record, seen: Agent, p: Proc)
    requires Live(s, a) && p in s.procs && s.procs[p].alive && s.procs[p].pid == rec.pid
    ensures var d := During(s, a, Judging(1, rec, seen));
            Enabled(d, Probe(a)) && Next(d, Probe(a)) == During(s, a, Probed(1, rec, seen))
  {
    var d := During(s, a, Judging(1, rec, seen));
    assert PidLive(d, rec.pid);
    assert Next(d, Probe(a)).agents == s.agents[a := Probed(1, rec, seen)];
  }

  /** A live writer's recorded lock is left alone: the recovery ends and the operation reports the lock. */
  lemma LiveLockIsRespected(s: State, a: Agent)
    requires Contender(s, a) && Live(s, s.file.value.owner)
    ensures Leads(s, [LockMutex(a), ReadFile(a)] + [Probe(a), Compare(a)], s.(agents := s.agents[a := Finished(1)]))
  {
    var rec, seen := s.file.value.holder.value, s.file.value.owner;
    var t := s.(agents := s.agents[a := Finished(1)]);
    LiveHolderIsSeen(s, seen, rec);
    var d := During(s, a, Judging(1, rec, seen));
    ProbedAlive(s, a, rec, seen, seen.proc);
    var e := During(s, a, Probed(1, rec, seen));
    assert !PidReused(e, rec);
    assert Next(e, Compare(a)).agents == t.agents && Next(e, Compare(a)).mutex == t.mutex;
    LeadsTwo(d, Probe(a), Compare(a), [], t, t);
    assert [Probe(a), Compare(a)] + [] == [Probe(a), Compare(a)];
    ReadsHolder(s, a, [Probe(a), Compare(a)], t);
  }

  /** A writer that finds no lock file takes the lock, records itself, and leaves no file behind; one that finds a file
      is refused. */
  lemma WriterTakesAndReturns(s: State, a: Agent)
    requires At(s, a) && s.agents[a] == Ready(0)
    ensures s.file.Some? ==> Leads(s, [TryCreate(a)], s.(agents := s.agents[a := Refused(1)]))
    ensures s.file.None? ==>
              var rec := Record(s.procs[a.proc].pid, s.procs[a.proc].start);
              var held := s.(agents := s.agents[a := Holding(1)], file := Some(LockFile(a, Some(rec))));
              && Leads(s, [TryCreate(a), WriteHolder(a, true)], held)
              && Leads(held, [Release(a)], s.(agents := s.agents[a := Finished(1)]))
  {
    if s.file.Some? {
      LeadsOne(s, TryCreate(a), [], s.(agents := s.agents[a := Refused(1)]));
    } else {
      var rec := Record(s.procs[a.proc].pid, s.procs[a.proc].start);
      var held := s.(agents := s.agents[a := Holding(1)], file := Some(LockFile(a, Some(rec))));
      var u := Next(Next(s, TryCreate(a)), WriteHolder(a, true));
      assert u.agents == held.agents;
      LeadsTwo(s, TryCreate(a), WriteHolder(a, true), [], u, held);
      assert [TryCreate(a), WriteHolder(a, true)] + [] == [TryCreate(a), WriteHolder(a, true)];
      var t := s.(agents := s.agents[a := Finished(1)]);
      assert Next(held, Release(a)).agents == t.agents;
      LeadsOne(held, Release(a), [], t);
    }
  }

  // ----- the window is real -----

  /** One daemon, a writer that finishes and exits, and a second writer. */
  function Cast(): map<Proc, Info> {
    map[0 := Info(10, None, true, true), 1 := Info(11, None, true, false), 2 := Info(12, None, true, false)]
  }

  const D := Agent(0, 0)
  const H := Agent(1, 0)
  const W := Agent(2, 0)

  lemma Staged() returns (r: Run)
    ensures Valid(r)
    ensures End(r) == State(Cast(), map[D := Ready(0), H := Ready(0), W := Ready(0)], None, map[], Some(0))
  {
    var r1 := Then(Begin, Launch(0, 10, None, true));
    assert Valid(r1) && End(r1).procs == map[0 := Info(10, None, true, true)];
    var r2 := Then(r1, Launch(1, 11, None, false));
    assert Valid(r2) && End(r2).procs == map[0 := Info(10, None, true, true), 1 := Info(11, None, true, false)];
    var r3 := Then(r2, Launch(2, 12, None, false));
    assert Valid(r3) && End(r3).procs == Cast();
    var r4 := Then(r3, Spawn(D));
    assert Valid(r4);
    var r5 := Then(r4, Spawn(H));
    assert Valid(r5);
    r := Then(r5, Spawn(W));
  }

  const LINE := LockFile(H, Some(Record(11, None)))

  lemma FirstWriterHolds() returns (r: Run)
    ensures Valid(r)
    ensures End(r) == State(Cast(), map[D := Ready(0), H := Holding(1), W := Ready(0)], Some(LINE), map[], Some(0))
  {
    var r0 := Staged();
    var r1 := Then(r0, TryCreate(H));
    assert Valid(r1);
    assert End(r1) == State(Cast(), map[D := Ready(0), H := Created(1), W := Ready(0)], Some(LockFile(H, None)),
        map[], Some(0));
    r := Then(r1, WriteHolder(H, true));
  }

  lemma ReadBeforeRelease() returns (r: Run)
    ensures Valid(r)
    ensures End(r) == State(Cast(), map[D := Judging(1, Record(11, None), H), H := Holding(1), W := Ready(0)],
                            Some(LINE), map[0 := 0], Some(0))
  {
    var r2 := FirstWriterHolds();
    var r3 := Then(r2, TryCreate(D));
    assert Valid(r3);
    assert End(r3) == State(Cast(), map[D := Refused(1), H := Holding(1), W := Ready(0)], Some(LINE), map[], Some(0));
    var r4 := Then(r3, LockMutex(D));
    assert Valid(r4);
    assert End(r4) == State(Cast(), map[D := Reading(1), H := Holding(1), W := Ready(0)], Some(LINE), map[0 := 0],
        Some(0));
    r := Then(r4, ReadFile(D));
  }

  function Departed(): map<Proc, Info> { Cast()[1 := Info(11, None, false, false)] }

  lemma FirstWriterLeaves() returns (r: Run)
    ensures Valid(r)
    ensures End(r) == State(Departed(), map[D := Judging(1, Record(11, None), H), H := Finished(1), W := Ready(0)],
                            None, map[0 := 0], Some(0))
  {
    var r0 := ReadBeforeRelease();
    var r1 := Then(r0, Release(H));
    assert Valid(r1);
    assert End(r1) == State(Cast(), map[D := Judging(1, Record(11, None), H), H := Finished(1), W := Ready(0)],
                            None, map[0 := 0], Some(0));
    r := Then(r1, Die(1));
  }

  lemma SecondWriterHolds() returns (r: Run)
    ensures Valid(r)
    ensures End(r) == State(Departed(), map[D := Judging(1, Record(11, None), H), H := Finished(1), W := Holding(1)],
                            Some(LockFile(W, Some(Record(12, None)))), map[0 := 0], Some(0))
  {
    var r2 := FirstWriterLeaves();
    var r3 := Then(r2, TryCreate(W));
    assert Valid(r3);
    assert End(r3) == State(Departed(), map[D := Judging(1, Record(11, None), H), H := Finished(1), W := Created(1)],
                            Some(LockFile(W, None)), map[0 := 0], Some(0));
    r := Then(r3, WriteHolder(W, true));
  }

  lemma HolderIsCondemned() returns (r: Run)
    ensures Valid(r)
    ensures End(r) == State(Departed(), map[D := Condemned(1, Record(11, None), H), H := Finished(1), W := Holding(1)],
                            Some(LockFile(W, Some(Record(12, None)))), map[0 := 0], Some(0))
  {
    var r0 := SecondWriterHolds();
    assert !PidLive(End(r0), 11);
    r := Then(r0, Probe(D));
    assert Valid(r);
  }

  lemma UnlinkTakesTheWrongLock() returns (r: Run)
    ensures Valid(r) && !NeverTakes(r)
    ensures End(r) == State(Departed(), map[D := Ready(1), H := Finished(1), W := Holding(1)], None, map[], Some(0))
  {
    var r1 := HolderIsCondemned();
    r := Then(r1, Unlink(D));
    assert Valid(r) && TakesLiveLock(End(r1), Unlink(D));
  }

  /** A run that breaks exclusion: the holder releases and exits between the recovery's read and its
      probe, and the unlink removes the next writer's live lock. */
  lemma WindowBreaksExclusion() returns (r: Run)
    ensures Valid(r) && !NeverTakes(r) && !Exclusive(End(r))
  {
    var r2 := UnlinkTakesTheWrongLock();
    r := Then(r2, TryCreate(D));
    assert Valid(r) && End(r).agents[D] == Created(2) && End(r).agents[W] == Holding(1);
    assert At(End(r), D) && At(End(r), W);
  }
}
