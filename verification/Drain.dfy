/** The daemon's counting semaphores, accept loop, request loops and SIGTERM drain as interleaved
    steps (crates/acetone-cli/src/serve.rs). */
module Drain {
  import opened Wrappers

  /** The accept thread. `Returned` is the top of an iteration, before the drain flag is read;
      `Passed` has read it clear; `Permitted` holds a connection permit not yet moved into a handler. */
  datatype Acceptor =
    | Blocked
    | Returned(accepted: bool)
    | Passed(accepted: bool)
    | Permitted
    | Draining
    | Exited(early: bool)

  /** A connection handler, live from the spawn until its connection permit drops. */
  datatype Phase =
    | Idle        // between requests, before `read_frame`
    | Reading     // inside `read_frame`
    | Pending     // a request is read; no query permit yet
    | Executing   // holds a query permit
    | Served      // answered; about to read the drain flag

  /** `readsAfter` and `servedAfter` count reads begun and requests answered with the flag set. */
  datatype Handler = Handler(phase: Phase, readsAfter: nat, servedAfter: nat)

  type Conn = nat

  datatype State = State(
    acceptor: Acceptor,
    flag: bool,
    connFree: nat,
    queryFree: nat,
    handlers: map<Conn, Handler>,
    spawnedAfter: nat)

  datatype Limits = Limits(connections: nat, queries: nat)

  datatype Step =
    | Signal
    | AcceptReturns(accepted: bool)
    | CheckTop
    | CheckError
    | TryPermit
    | SpawnHandler(c: Conn, spawned: bool)
    | Poll(deadline: bool)
    | BeginRead(c: Conn)
    | RequestArrives(c: Conn)
    | TakeQueryPermit(c: Conn)
    | AnswerUnknown(c: Conn)
    | FinishRequest(c: Conn)
    | CheckFlag(c: Conn)
    | HandlerEnds(c: Conn)

  predicate In(s: State, c: Conn, phase: Phase) {
    c in s.handlers && s.handlers[c].phase == phase
  }

  predicate Enabled(s: State, step: Step) {
    match step
    case Signal => true
    case AcceptReturns(_) => s.acceptor.Blocked?
    case CheckTop => s.acceptor.Returned?
    case CheckError => s.acceptor == Passed(false)
    case TryPermit => s.acceptor == Passed(true)
    case SpawnHandler(c, _) => s.acceptor.Permitted? && c !in s.handlers
    case Poll(_) => s.acceptor.Draining?
    case BeginRead(c) => In(s, c, Idle)
    case RequestArrives(c) => In(s, c, Reading)
    case TakeQueryPermit(c) => In(s, c, Pending) && s.queryFree > 0
    case AnswerUnknown(c) => In(s, c, Pending)
    case FinishRequest(c) => In(s, c, Executing)
    case CheckFlag(c) => In(s, c, Served)
    case HandlerEnds(c) => c in s.handlers
  }

  function Enter(s: State, c: Conn, phase: Phase): State
    requires c in s.handlers
  {
    s.(handlers := s.handlers[c := s.handlers[c].(phase := phase)])
  }

  /** A request has been answered. */
  function Answer(s: State, c: Conn): State
    requires c in s.handlers
  {
    var h := s.handlers[c];
    s.(handlers := s.handlers[c := Handler(Served, h.readsAfter, h.servedAfter + if s.flag then 1 else 0)])
  }

  /** The handler returns: its connection permit drops, and a held query permit with it. */
  function Close(s: State, c: Conn): State
    requires c in s.handlers
  {
    s.(handlers := s.handlers - {c}, connFree := s.connFree + 1,
       queryFree := s.queryFree + if s.handlers[c].phase.Executing? then 1 else 0)
  }

  function Next(limits: Limits, s: State, step: Step): State
    requires Enabled(s, step)
  {
    match step
    case Signal => s.(flag := true)
    case AcceptReturns(accepted) => s.(acceptor := Returned(accepted))
    case CheckTop => s.(acceptor := if s.flag then Draining else Passed(s.acceptor.accepted))
    case CheckError => s.(acceptor := if s.flag then Draining else Blocked)
    case TryPermit =>
      if s.connFree == 0 then s.(acceptor := Blocked) else s.(acceptor := Permitted, connFree := s.connFree - 1)
    case SpawnHandler(c, spawned) =>
      if spawned
      then s.(acceptor := Blocked, handlers := s.handlers[c := Handler(Idle, 0, 0)],
              spawnedAfter := s.spawnedAfter + if s.flag then 1 else 0)
      else s.(acceptor := Blocked, connFree := s.connFree + 1)
    case Poll(deadline) =>
      if limits.connections <= s.connFree then s.(acceptor := Exited(true))
      else if deadline then s.(acceptor := Exited(false))
      else s
    case BeginRead(c) =>
      var h := s.handlers[c];
      s.(handlers := s.handlers[c := Handler(Reading, h.readsAfter + (if s.flag then 1 else 0), h.servedAfter)])
    case RequestArrives(c) => Enter(s, c, Pending)
    case TakeQueryPermit(c) => Enter(s, c, Executing).(queryFree := s.queryFree - 1)
    case AnswerUnknown(c) => Answer(s, c)
    case FinishRequest(c) => Answer(s, c).(queryFree := s.queryFree + 1)
    case CheckFlag(c) => if s.flag then Close(s, c) else Enter(s, c, Idle)
    case HandlerEnds(c) => Close(s, c)
  }

  /** Both limits are positive: the connection cap is a constant and a zero query limit is refused. */
  function Initial(limits: Limits): State
    requires limits.connections > 0 && limits.queries > 0
  {
    State(Blocked, false, limits.connections, limits.queries, map[], 0)
  }

  // ----- the invariant -----

  ghost function Running(s: State): set<Conn> {
    set c | c in s.handlers && s.handlers[c].phase.Executing?
  }

  ghost predicate PermitsOk(limits: Limits, s: State) {
    && s.connFree + |s.handlers| + (if s.acceptor.Permitted? then 1 else 0) == limits.connections
    && s.queryFree + |Running(s)| == limits.queries
  }

  /** Permits still committed by the acceptor before it saw the flag. */
  ghost predicate AcceptorOk(s: State) {
    && (!s.flag ==> s.spawnedAfter == 0)
    && s.spawnedAfter <= 1
    && (s.spawnedAfter == 1 ==> !s.acceptor.Passed? && !s.acceptor.Permitted?)
    && (s.acceptor.Draining? || s.acceptor.Exited? ==> s.flag)
    && (s.acceptor == Exited(true) ==> s.handlers == map[])
  }

  ghost predicate HandlerOk(flag: bool, h: Handler) {
    && h.readsAfter <= 1 && h.servedAfter <= 1
    && (!flag ==> h.readsAfter == 0 && h.servedAfter == 0)
    && (h.servedAfter == 1 ==> h.phase.Served?)
    && (h.readsAfter == 1 ==> !h.phase.Idle?)
  }

  ghost predicate HandlersOk(s: State) {
    forall c :: c in s.handlers ==> HandlerOk(s.flag, s.handlers[c])
  }

  ghost predicate Inv(limits: Limits, s: State) { PermitsOk(limits, s) && AcceptorOk(s) && HandlersOk(s) }

  lemma RunningAfter(s: State, c: Conn, h: Handler)
    requires c in s.handlers
    ensures var t := s.(handlers := s.handlers[c := h]);
            && |t.handlers| == |s.handlers|
            && |Running(t)| == |Running(s)| - (if s.handlers[c].phase.Executing? then 1 else 0)
                                            + (if h.phase.Executing? then 1 else 0)
  {
    var t := s.(handlers := s.handlers[c := h]);
    assert t.handlers.Keys == s.handlers.Keys;
    assert |t.handlers.Keys| == |t.handlers| && |s.handlers.Keys| == |s.handlers|;
    var others := Running(s) - {c};
    assert Running(s) == if s.handlers[c].phase.Executing? then others + {c} else others;
    assert Running(t) == if h.phase.Executing? then others + {c} else others;
  }

  lemma RunningWithout(s: State, c: Conn)
    requires c in s.handlers
    ensures var t := s.(handlers := s.handlers - {c});
            && |t.handlers| == |s.handlers| - 1
            && |Running(t)| == |Running(s)| - (if s.handlers[c].phase.Executing? then 1 else 0)
  {
    var t := s.(handlers := s.handlers - {c});
    assert t.handlers.Keys == s.handlers.Keys - {c};
    assert |t.handlers.Keys| == |t.handlers| && |s.handlers.Keys| == |s.handlers|;
    assert Running(t) == Running(s) - {c};
  }

  lemma RunningWith(s: State, c: Conn, h: Handler)
    requires c !in s.handlers && !h.phase.Executing?
    ensures var t := s.(handlers := s.handlers[c := h]);
            |t.handlers| == |s.handlers| + 1 && Running(t) == Running(s)
  {
    var t := s.(handlers := s.handlers[c := h]);
    assert t.handlers.Keys == s.handlers.Keys + {c};
    assert |t.handlers.Keys| == |t.handlers| && |s.handlers.Keys| == |s.handlers|;
  }

  lemma CloseKeeps(limits: Limits, s: State, c: Conn)
    requires Inv(limits, s) && c in s.handlers
    ensures Inv(limits, Close(s, c))
  {
    RunningWithout(s, c);
    assert Running(Close(s, c)) == Running(s.(handlers := s.handlers - {c}));
  }

  /** A step that changes one handler and, perhaps, the query permits. */
  lemma EnterKeeps(limits: Limits, s: State, c: Conn, h: Handler, queryFree: nat)
    requires Inv(limits, s) && c in s.handlers && HandlerOk(s.flag, h)
    requires queryFree == s.queryFree + (if s.handlers[c].phase.Executing? then 1
        else 0) - (if h.phase.Executing? then 1 else 0)
    ensures Inv(limits, s.(handlers := s.handlers[c := h], queryFree := queryFree))
  {
    RunningAfter(s, c, h);
    var t := s.(handlers := s.handlers[c := h], queryFree := queryFree);
    assert Running(t) == Running(s.(handlers := s.handlers[c := h]));
  }

  lemma AcceptorKeeps(limits: Limits, s: State, step: Step)
    requires Inv(limits, s) && Enabled(s, step)
    requires step.Signal? || step.AcceptReturns? || step.CheckTop? || step.CheckError? || step.TryPermit? || step.Poll?
    ensures Inv(limits, Next(limits, s, step))
  {
    assert Running(Next(limits, s, step)) == Running(s);
    assert |s.handlers| == 0 ==> s.handlers == map[];
  }

  lemma SpawnKeeps(limits: Limits, s: State, c: Conn, spawned: bool)
    requires Inv(limits, s) && Enabled(s, SpawnHandler(c, spawned))
    ensures Inv(limits, Next(limits, s, SpawnHandler(c, spawned)))
  {
    var t := Next(limits, s, SpawnHandler(c, spawned));
    if spawned {
      RunningWith(s, c, Handler(Idle, 0, 0));
      assert Running(t) == Running(s.(handlers := s.handlers[c := Handler(Idle, 0, 0)]));
    } else {
      assert Running(t) == Running(s);
    }
  }

  lemma StepKeeps(limits: Limits, s: State, step: Step)
    requires Inv(limits, s) && Enabled(s, step)
    ensures Inv(limits, Next(limits, s, step))
  {
    match step
    case SpawnHandler(c, spawned) => SpawnKeeps(limits, s, c, spawned);
    case BeginRead(c) =>
      EnterKeeps(limits, s, c, Next(limits, s, step).handlers[c], s.queryFree);
    case RequestArrives(c) => EnterKeeps(limits, s, c, Next(limits, s, step).handlers[c], s.queryFree);
    case TakeQueryPermit(c) => EnterKeeps(limits, s, c, Next(limits, s, step).handlers[c], s.queryFree - 1);
    case AnswerUnknown(c) => EnterKeeps(limits, s, c, Next(limits, s, step).handlers[c], s.queryFree);
    case FinishRequest(c) => EnterKeeps(limits, s, c, Next(limits, s, step).handlers[c], s.queryFree + 1);
    case CheckFlag(c) =>
      if s.flag {
        CloseKeeps(limits, s, c);
      } else {
        EnterKeeps(limits, s, c, Next(limits, s, step).handlers[c], s.queryFree);
      }
    case HandlerEnds(c) => CloseKeeps(limits, s, c);
    case _ => AcceptorKeeps(limits, s, step);
  }

  // ----- every run -----

  datatype Run = Begin | Then(before: Run, step: Step)

  function End(limits: Limits, r: Run): State
    requires limits.connections > 0 && limits.queries > 0 && Valid(limits, r)
    decreases r, 1
  {
    match r case Begin => Initial(limits) case Then(q, step) => Next(limits, End(limits, q), step)
  }

  predicate Valid(limits: Limits, r: Run)
    requires limits.connections > 0 && limits.queries > 0
    decreases r, 0
  {
    r.Then? ==> Valid(limits, r.before) && Enabled(End(limits, r.before), r.step)
  }

  lemma {:induction false} RunKeepsInv(limits: Limits, r: Run)
    requires limits.connections > 0 && limits.queries > 0 && Valid(limits, r)
    ensures Inv(limits, End(limits, r))
  {
    match r
    case Begin => assert Running(Initial(limits)) == {};
    case Then(q, step) =>
      RunKeepsInv(limits, q);
      StepKeeps(limits, End(limits, q), step);
  }

  /** In every interleaving: permits are conserved; no more requests execute than allowed; the drain ends
      early only with no handler live; at most one handler is spawned after the flag; and no connection
      begins more than one read, or answers more than one request, after it. */
  lemma EveryRunIsSafe(limits: Limits, r: Run)
    requires limits.connections > 0 && limits.queries > 0 && Valid(limits, r)
    ensures var s := End(limits, r);
            && s.connFree + |s.handlers| + (if s.acceptor.Permitted? then 1 else 0) == limits.connections
            && |Running(s)| <= limits.queries
            && (s.acceptor == Exited(true) ==> s.handlers == map[])
            && s.spawnedAfter <= 1
            && forall c :: c in s.handlers ==> s.handlers[c].readsAfter <= 1 && s.handlers[c].servedAfter <= 1
  {
    RunKeepsInv(limits, r);
  }

  predicate Stopped(s: State) { s.acceptor.Draining? || s.acceptor.Exited? }

  /** `r` continues `q`. */
  predicate Extends(r: Run, q: Run) { r == q || (r.Then? && Extends(r.before, q)) }

  /** Once the drain has begun no handler is ever spawned again: every later state has only handlers that were live
      then. */
  lemma {:induction false} NoSpawnWhileDraining(limits: Limits, r: Run, q: Run)
    requires limits.connections > 0 && limits.queries > 0 && Valid(limits, r) && Extends(r, q)
    ensures Valid(limits, q)
    ensures Stopped(End(limits, q)) ==>
              Stopped(End(limits, r)) && End(limits, r).handlers.Keys <= End(limits, q).handlers.Keys
  {
    if r != q { NoSpawnWhileDraining(limits, r.before, q); }
  }

  // ----- what the steps achieve -----

  /** Where every connection and every request of a run went. */
  datatype Tally = Tally(
    accepted: nat, refused: nat, dropped: nat, spawned: nat, unspawned: nat, ended: nat,
    arrived: nat, answered: nat, abandoned: nat)

  predicate InHand(h: Handler) { h.phase.Pending? || h.phase.Executing? }

  /** `refused` finds no permit, `dropped` sees the flag first, `abandoned` ends with a request in hand. */
  function Counted(t: Tally, s: State, step: Step): Tally {
    match step
    case AcceptReturns(accepted) => t.(accepted := t.accepted + if accepted then 1 else 0)
    case CheckTop => t.(dropped := t.dropped + if s.flag && s.acceptor == Returned(true) then 1 else 0)
    case TryPermit => t.(refused := t.refused + if s.connFree == 0 then 1 else 0)
    case SpawnHandler(_, true) => t.(spawned := t.spawned + 1)
    case SpawnHandler(_, false) => t.(unspawned := t.unspawned + 1)
    case RequestArrives(_) => t.(arrived := t.arrived + 1)
    case AnswerUnknown(_) => t.(answered := t.answered + 1)
    case FinishRequest(_) => t.(answered := t.answered + 1)
    case CheckFlag(_) => t.(ended := t.ended + if s.flag then 1 else 0)
    case HandlerEnds(c) =>
      t.(ended := t.ended + 1,
         abandoned := t.abandoned + if c in s.handlers && InHand(s.handlers[c]) then 1 else 0)
    case _ => t
  }

  function TallyOf(limits: Limits, r: Run): Tally
    requires limits.connections > 0 && limits.queries > 0 && Valid(limits, r)
  {
    match r
    case Begin => Tally(0, 0, 0, 0, 0, 0, 0, 0, 0)
    case Then(q, step) => Counted(TallyOf(limits, q), End(limits, q), step)
  }

  ghost function Busy(s: State): set<Conn> { set c | c in s.handlers && InHand(s.handlers[c]) }

  /** A connection the acceptor has in hand. */
  function AtDoor(a: Acceptor): nat { if a == Returned(true) || a == Passed(true) || a.Permitted? then 1 else 0 }

  ghost predicate Accounted(t: Tally, s: State) {
    && t.accepted == t.refused + t.dropped + t.spawned + t.unspawned + AtDoor(s.acceptor)
    && t.spawned == t.ended + |s.handlers|
    && t.arrived == t.answered + t.abandoned + |Busy(s)|
  }

  lemma BusyAfter(s: State, c: Conn, h: Handler)
    requires c in s.handlers
    ensures var t := s.(handlers := s.handlers[c := h]);
            && |t.handlers| == |s.handlers|
            && |Busy(t)| == |Busy(s)| - (if InHand(s.handlers[c]) then 1 else 0) + (if InHand(h) then 1 else 0)
  {
    var t := s.(handlers := s.handlers[c := h]);
    assert t.handlers.Keys == s.handlers.Keys;
    assert |t.handlers.Keys| == |t.handlers| && |s.handlers.Keys| == |s.handlers|;
    var others := Busy(s) - {c};
    assert Busy(s) == if InHand(s.handlers[c]) then others + {c} else others;
    assert Busy(t) == if InHand(h) then others + {c} else others;
  }

  lemma BusyWithout(s: State, c: Conn)
    requires c in s.handlers
    ensures |Close(s, c).handlers| == |s.handlers| - 1
    ensures |Busy(Close(s, c))| == |Busy(s)| - if InHand(s.handlers[c]) then 1 else 0
  {
    var t := Close(s, c);
    assert t.handlers.Keys == s.handlers.Keys - {c};
    assert |t.handlers.Keys| == |t.handlers| && |s.handlers.Keys| == |s.handlers|;
    assert Busy(t) == Busy(s) - {c};
  }

  lemma BusyWith(s: State, c: Conn, t: State)
    requires c !in s.handlers && t.handlers == s.handlers[c := Handler(Idle, 0, 0)]
    ensures |t.handlers| == |s.handlers| + 1 && |Busy(t)| == |Busy(s)|
  {
    assert t.handlers.Keys == s.handlers.Keys + {c};
    assert |t.handlers.Keys| == |t.handlers| && |s.handlers.Keys| == |s.handlers|;
    assert Busy(t) == Busy(s);
  }

  /** The connection a step is about, and the handler it leaves. */
  lemma ChangedKeeps(limits: Limits, t: Tally, s: State, step: Step, c: Conn)
    requires Accounted(t, s) && Enabled(s, step) && c in s.handlers
    requires step == BeginRead(c) || step == RequestArrives(c) || step == TakeQueryPermit(c) || step == AnswerUnknown(c)
          || step == FinishRequest(c) || (step == CheckFlag(c) && !s.flag)
    ensures Accounted(Counted(t, s, step), Next(limits, s, step))
  {
    var u := Next(limits, s, step);
    var h := u.handlers[c];
    BusyAfter(s, c, h);
    assert u.handlers == s.handlers[c := h];
    assert Busy(u) == Busy(s.(handlers := s.handlers[c := h]));
  }

  lemma CountKeeps(limits: Limits, t: Tally, s: State, step: Step)
    requires Accounted(t, s) && Enabled(s, step)
    ensures Accounted(Counted(t, s, step), Next(limits, s, step))
  {
    var u := Next(limits, s, step);
    match step
    case SpawnHandler(c, true) => BusyWith(s, c, u);
    case BeginRead(c) => ChangedKeeps(limits, t, s, step, c);
    case RequestArrives(c) => ChangedKeeps(limits, t, s, step, c);
    case TakeQueryPermit(c) => ChangedKeeps(limits, t, s, step, c);
    case AnswerUnknown(c) => ChangedKeeps(limits, t, s, step, c);
    case FinishRequest(c) => ChangedKeeps(limits, t, s, step, c);
    case CheckFlag(c) => if s.flag { BusyWithout(s, c); } else { ChangedKeeps(limits, t, s, step, c); }
    case HandlerEnds(c) => BusyWithout(s, c);
    case _ => assert Busy(u) == Busy(s);
  }

  /** In every interleaving each accepted connection was refused for want of a permit, dropped by the drain, given a
      handler, or lost to a failed spawn, unless it is still at the door; each handler ended or is live; and each
      request was answered, abandoned with its connection, or is in hand. */
  lemma {:induction false} EverythingIsAccounted(limits: Limits, r: Run)
    requires limits.connections > 0 && limits.queries > 0 && Valid(limits, r)
    ensures Accounted(TallyOf(limits, r), End(limits, r))
  {
    match r
    case Begin => assert Busy(Initial(limits)) == {};
    case Then(q, step) =>
      EverythingIsAccounted(limits, q);
      CountKeeps(limits, TallyOf(limits, q), End(limits, q), step);
  }

  /** The state after some steps, or `None` once one of them is not enabled. */
  function Steps(limits: Limits, s: State, steps: seq<Step>): Option<State>
    decreases |steps|
  {
    if steps == [] then Some(s)
    else if !Enabled(s, steps[0]) then None
    else Steps(limits, Next(limits, s, steps[0]), steps[1..])
  }

  /** With the flag clear, an accepted connection gets a handler and a permit exactly when a permit is free; otherwise
      the acceptor is back where it was. */
  lemma ConnectionIsServed(limits: Limits, s: State, c: Conn)
    requires s.acceptor.Blocked? && !s.flag && c !in s.handlers
    ensures s.connFree > 0 ==>
              Steps(limits, s, [AcceptReturns(true), CheckTop, TryPermit, SpawnHandler(c, true)]) ==
              Some(s.(connFree := s.connFree - 1, handlers := s.handlers[c := Handler(Idle, 0, 0)]))
    ensures s.connFree == 0 ==> Steps(limits, s, [AcceptReturns(true), CheckTop, TryPermit]) == Some(s)
  {
    var d := Next(limits, s, AcceptReturns(true));
    var e := Next(limits, d, CheckTop);
    var f := Next(limits, e, TryPermit);
    if s.connFree > 0 {
      var g := Next(limits, f, SpawnHandler(c, true));
      StepsOne(limits, f, SpawnHandler(c, true), []);
      StepsOne(limits, e, TryPermit, [SpawnHandler(c, true)]);
      StepsOne(limits, d, CheckTop, [TryPermit, SpawnHandler(c, true)]);
      StepsOne(limits, s, AcceptReturns(true), [CheckTop, TryPermit, SpawnHandler(c, true)]);
    } else {
      StepsOne(limits, e, TryPermit, []);
      StepsOne(limits, d, CheckTop, [TryPermit]);
      StepsOne(limits, s, AcceptReturns(true), [CheckTop, TryPermit]);
    }
  }

  lemma StepsOne(limits: Limits, s: State, step: Step, rest: seq<Step>)
    requires Enabled(s, step)
    ensures Steps(limits, s, [step] + rest) == Steps(limits, Next(limits, s, step), rest)
  {
    assert ([step] + rest)[1..] == rest;
  }

  /** A request that finds a query permit free is answered, and the permit comes back. */
  lemma RequestIsServed(limits: Limits, s: State, c: Conn)
    requires In(s, c, Idle) && s.queryFree > 0
    ensures var h, late := s.handlers[c], if s.flag then 1 else 0;
            Steps(limits, s, [BeginRead(c), RequestArrives(c), TakeQueryPermit(c), FinishRequest(c)]) ==
            Some(s.(handlers := s.handlers[c := Handler(Served, h.readsAfter + late, h.servedAfter + late)]))
  {
    var d := Next(limits, s, BeginRead(c));
    var e := Next(limits, d, RequestArrives(c));
    var f := Next(limits, e, TakeQueryPermit(c));
    StepsOne(limits, f, FinishRequest(c), []);
    StepsOne(limits, e, TakeQueryPermit(c), [FinishRequest(c)]);
    StepsOne(limits, d, RequestArrives(c), [TakeQueryPermit(c), FinishRequest(c)]);
    StepsOne(limits, s, BeginRead(c), [RequestArrives(c), TakeQueryPermit(c), FinishRequest(c)]);
    var g := Next(limits, f, FinishRequest(c));
    assert g.handlers == s.handlers[c := g.handlers[c]];
  }

  /** A handler that has answered goes back for the next request, or closes once the flag is set. */
  lemma AfterAnswer(limits: Limits, s: State, c: Conn)
    requires In(s, c, Served)
    ensures !s.flag ==> In(Next(limits, s, CheckFlag(c)), c, Idle)
    ensures s.flag ==> Next(limits, s, CheckFlag(c)) == s.(handlers := s.handlers - {c}, connFree := s.connFree + 1)
  {
  }

  /** `q` continues `r` without a failed drain and without abandoning a request. */
  ghost predicate Continues(limits: Limits, q: Run, r: Run)
    requires limits.connections > 0 && limits.queries > 0 && Valid(limits, r)
  {
    && Extends(q, r) && Valid(limits, q)
    && TallyOf(limits, q).abandoned == TallyOf(limits, r).abandoned
    && (End(limits, r).flag ==> End(limits, q).flag)
  }

  lemma OneStep(limits: Limits, r: Run, step: Step) returns (q: Run)
    requires limits.connections > 0 && limits.queries > 0 && Valid(limits, r) && Enabled(End(limits, r), step)
    requires step.HandlerEnds? ==> !InHand(End(limits, r).handlers[step.c])
    ensures Continues(limits, q, r) && End(limits, q) == Next(limits, End(limits, r), step)
  {
    q := Then(r, step);
    assert Extends(q, r) by { assert Extends(r, r); }
  }

  lemma {:induction false} ExtendsTrans(r: Run, q: Run, p: Run)
    requires Extends(r, q) && Extends(q, p)
    ensures Extends(r, p)
  {
    if r != q { ExtendsTrans(r.before, q, p); }
  }

  lemma ContinuesTrans(limits: Limits, r: Run, q: Run, p: Run)
    requires limits.connections > 0 && limits.queries > 0 && Valid(limits, p)
    requires Continues(limits, q, p) && Continues(limits, r, q)
    ensures Continues(limits, r, p)
  {
    ExtendsTrans(r, q, p);
  }

  /** While draining, a handler in the middle of a request finishes it and closes. */
  lemma FinishOne(limits: Limits, r: Run, c: Conn) returns (q: Run)
    requires limits.connections > 0 && limits.queries > 0 && Valid(limits, r)
    requires End(limits, r).flag && In(End(limits, r), c, Executing)
    ensures Continues(limits, q, r) && End(limits, q) == Close(End(limits, r), c)
  {
    var d := OneStep(limits, r, FinishRequest(c));
    q := OneStep(limits, d, CheckFlag(c));
    ContinuesTrans(limits, q, d, r);
    assert End(limits, q).handlers == End(limits, r).handlers - {c};
  }

  lemma CloseIdle(limits: Limits, r: Run, c: Conn) returns (q: Run)
    requires limits.connections > 0 && limits.queries > 0 && Valid(limits, r)
    requires End(limits, r).flag && c in End(limits, r).handlers && !InHand(End(limits, r).handlers[c])
    ensures Continues(limits, q, r) && End(limits, q) == Close(End(limits, r), c)
  {
    q := OneStep(limits, r, HandlerEnds(c));
  }

  lemma FinishPending(limits: Limits, r: Run, c: Conn) returns (q: Run)
    requires limits.connections > 0 && limits.queries > 0 && Valid(limits, r)
    requires End(limits, r).flag && In(End(limits, r), c, Pending) && End(limits, r).queryFree > 0
    ensures Continues(limits, q, r) && End(limits, q) == Close(End(limits, r), c)
  {
    var d := OneStep(limits, r, TakeQueryPermit(c));
    q := FinishOne(limits, d, c);
    ContinuesTrans(limits, q, d, r);
    assert End(limits, q).handlers == End(limits, r).handlers - {c};
  }

  /** Some handler can always close: one that executes, or, with every query permit free, any other. */
  lemma CloseOne(limits: Limits, r: Run) returns (q: Run, c: Conn)
    requires limits.connections > 0 && limits.queries > 0 && Valid(limits, r)
    requires End(limits, r).flag && End(limits, r).handlers != map[]
    ensures Continues(limits, q, r) && c in End(limits, r).handlers && End(limits, q) == Close(End(limits, r), c)
  {
    var s := End(limits, r);
    RunKeepsInv(limits, r);
    if Running(s) != {} {
      c :| c in Running(s);
      q := FinishOne(limits, r, c);
    } else {
      c :| c in s.handlers;
      if s.handlers[c].phase.Pending? { q := FinishPending(limits, r, c); } else { q := CloseIdle(limits, r, c); }
    }
  }

  lemma {:induction false} CloseAll(limits: Limits, r: Run) returns (q: Run)
    requires limits.connections > 0 && limits.queries > 0 && Valid(limits, r)
    requires End(limits, r).flag && End(limits, r).acceptor.Draining?
    ensures Continues(limits, q, r) && End(limits, q).acceptor.Draining? && End(limits, q).handlers == map[]
    decreases |End(limits, r).handlers|
  {
    if End(limits, r).handlers == map[] {
      q := r;
    } else {
      var d, c := CloseOne(limits, r);
      BusyWithout(End(limits, r), c);
      q := CloseAll(limits, d);
      ContinuesTrans(limits, q, d, r);
    }
  }

  /** Once the last handler has closed, the next poll ends the drain early, deadline or not. */
  lemma LastPoll(limits: Limits, s: State, deadline: bool)
    requires Inv(limits, s) && s.acceptor.Draining?
    ensures Next(limits, s, Poll(deadline)).acceptor == Exited(true) <==> s.handlers == map[]
    ensures s.handlers == map[] ==> s.connFree == limits.connections && s.queryFree == limits.queries
    ensures s.handlers != map[] && !deadline ==> Next(limits, s, Poll(deadline)) == s
  {
    assert |s.handlers| == 0 <==> s.handlers == map[];
    if s.handlers == map[] { assert Running(s) == {}; }
  }

  /** Once the flag is set the acceptor waits again only past a connection it had already let through: neither a wake-up
      nor an accept error sends it back to waiting. */
  lemma NeverStranded(limits: Limits, s: State, step: Step)
    requires Enabled(s, step) && s.flag && !s.acceptor.Blocked? && Next(limits, s, step).acceptor.Blocked?
    ensures (s.acceptor == Passed(true) && step.TryPermit? && s.connFree == 0) || s.acceptor.Permitted?
  {
  }

  lemma {:induction false} Beyond(cs: set<Conn>) returns (b: Conn)
    ensures forall c :: c in cs ==> c < b
    decreases |cs|
  {
    b := 0;
    if c :| c in cs {
      var d := Beyond(cs - {c});
      b := if c < d then d else c + 1;
      assert forall x :: x in cs ==> x == c || x in cs - {c};
    }
  }

  /** The acceptor sees a flag that is set. */
  lemma ReachDrain(limits: Limits, r: Run) returns (q: Run)
    requires limits.connections > 0 && limits.queries > 0 && Valid(limits, r)
    requires End(limits, r).flag && !End(limits, r).acceptor.Exited?
    ensures Continues(limits, q, r) && End(limits, q).acceptor.Draining?
    decreases match End(limits, r).acceptor
              case Passed(_) => 4 case Permitted => 3 case Blocked => 2 case Returned(_) => 1 case _ => 0
  {
    var s := End(limits, r);
    if s.acceptor.Draining? { return r; }
    var unused := Beyond(s.handlers.Keys);
    var step := match s.acceptor
      case Blocked => AcceptReturns(false)
      case Returned(_) => CheckTop
      case Passed(accepted) => if accepted then TryPermit else CheckError
      case _ => SpawnHandler(unused, false);
    var d := OneStep(limits, r, step);
    q := ReachDrain(limits, d);
    ContinuesTrans(limits, q, d, r);
  }

  /** Whatever has happened, a daemon that has not exited can still drain: the signal, the requests in hand
      answered, the other connections closed, and the early exit with every permit back. */
  lemma DrainCompletes(limits: Limits, r: Run) returns (q: Run)
    requires limits.connections > 0 && limits.queries > 0 && Valid(limits, r) && !End(limits, r).acceptor.Exited?
    ensures Extends(q, r) && Valid(limits, q) && TallyOf(limits, q).abandoned == TallyOf(limits, r).abandoned
    ensures var s := End(limits, q);
            s.acceptor == Exited(true) && s.handlers == map[] && s.connFree == limits.connections
                && s.queryFree == limits.queries
  {
    var d := OneStep(limits, r, Signal);
    var e := ReachDrain(limits, d);
    ContinuesTrans(limits, e, d, r);
    var f := CloseAll(limits, e);
    ContinuesTrans(limits, f, e, r);
    RunKeepsInv(limits, f);
    LastPoll(limits, End(limits, f), false);
    q := OneStep(limits, f, Poll(false));
    ContinuesTrans(limits, q, f, r);
  }
}
