/**
 CSemaphore as an interleaving: any number of threads, each at some line of wait, of the timed
 wait, or of signal.  The mutex serialises the lines inside; a thread in pthread_cond_wait has
 given it up, and has to take it again once it has been woken, by a signal or for no reason.
 */
module Semaphore {
  import opened Wrappers

  /** Where a thread is in wait() or wait(int). */
  datatype Line =
    | Lock                        // waiting for the mutex
    | Enter                       // m_waiters_count ++
    | Test                        // while / if ( m_count == 0 )
    | Asleep                      // in the condition's queue
    | Woken(timedOut: bool)       // out of the queue, waiting for the mutex
    | Leave(timedOut: bool)       // m_waiters_count --
    | Take                        // m_count --
    | Unlock

  /** Where a thread is in signal(). */
  datatype SignalLine = SigLock | Notify | Raise | SigUnlock

  datatype Pc = Idle | Wait(timed: bool, at: Line) | Signal(line: SignalLine)

  /** m_count, m_waiters_count, and who has the mutex. */
  datatype State = State(pcs: seq<Pc>, count: int, waiters: int, owner: Option<nat>)

  datatype Action =
    | CallWait(t: nat, timed: bool)
    | CallSignal(t: nat)
    | Acquire(t: nat)
    | Advance(t: nat)
    | SignalCond(t: nat, wake: set<nat>)
    | Spurious(t: nat)
    | Timeout(t: nat)

  /** Between taking the mutex and giving it up. */
  predicate Holding(pc: Pc) {
    match pc
    case Idle => false
    case Wait(_, at) => at.Enter? || at.Test? || at.Leave? || at.Take? || at.Unlock?
    case Signal(line) => line != SigLock
  }

  predicate WantsMutex(pc: Pc) {
    match pc
    case Idle => false
    case Wait(_, at) => at.Lock? || at.Woken?
    case Signal(line) => line == SigLock
  }

  predicate IsAsleep(pc: Pc) {
    pc.Wait? && pc.at.Asleep?
  }

  function Sleepers(pcs: seq<Pc>): set<nat> {
    set t: nat | t < |pcs| && IsAsleep(pcs[t])
  }

  /** pthread_cond_signal wakes at least one of the sleepers, if there are any. */
  predicate MayWake(s: State, wake: set<nat>) {
    if s.waiters > 0 then wake <= Sleepers(s.pcs) && (wake == {} ==> Sleepers(s.pcs) == {}) else wake == {}
  }

  predicate Enabled(s: State, a: Action) {
    && a.t < |s.pcs|
    && var pc := s.pcs[a.t];
    match a
    case CallWait(_, _) => pc.Idle?
    case CallSignal(_) => pc.Idle?
    case Acquire(_) => WantsMutex(pc) && s.owner == None
    case Advance(_) => Holding(pc) && pc != Signal(Notify)
    case SignalCond(_, wake) => pc == Signal(Notify) && MayWake(s, wake)
    case Spurious(_) => IsAsleep(pc)
    case Timeout(_) => IsAsleep(pc) && pc.timed
  }

  function Woke(pcs: seq<Pc>, wake: set<nat>): (r: seq<Pc>)
    ensures |r| == |pcs|
  {
    seq(|pcs|,
        i requires 0 <= i < |pcs| => if i in wake && IsAsleep(pcs[i]) then pcs[i].(at := Woken(false)) else pcs[i])
  }

  /** The line after taking the mutex: wait() tests again, wait(int) does not. */
  function Acquired(pc: Pc): Pc
    requires WantsMutex(pc)
  {
    match pc
    case Wait(timed, Lock) => Wait(timed, Enter)
    case Wait(timed, Woken(timedOut)) => if timed then Wait(timed, Leave(timedOut)) else Wait(timed, Test)
    case Signal(_) => Signal(Notify)
  }

  function Next(s: State, a: Action): (s': State)
    requires Enabled(s, a)
    ensures |s'.pcs| == |s.pcs|
  {
    var pc := s.pcs[a.t];
    match a
    case CallWait(t, timed) => s.(pcs := s.pcs[t := Wait(timed, Lock)])
    case CallSignal(t) => s.(pcs := s.pcs[t := Signal(SigLock)])
    case Acquire(t) => s.(pcs := s.pcs[t := Acquired(pc)], owner := Some(t))
    case SignalCond(t, wake) => s.(pcs := Woke(s.pcs, wake)[t := Signal(Raise)])
    case Spurious(t) => s.(pcs := s.pcs[t := pc.(at := Woken(false))])
    case Timeout(t) => s.(pcs := s.pcs[t := pc.(at := Woken(true))])
    case Advance(t) =>
      match pc
      case Signal(Raise) => s.(pcs := s.pcs[t := Signal(SigUnlock)], count := s.count + 1)
      case Signal(SigUnlock) => s.(pcs := s.pcs[t := Idle], owner := None)
      case Wait(timed, Enter) => s.(pcs := s.pcs[t := Wait(timed, Test)], waiters := s.waiters + 1)
      case Wait(timed, Test) =>
        if s.count == 0 then s.(pcs := s.pcs[t := Wait(timed, Asleep)], owner := None)
        else s.(pcs := s.pcs[t := Wait(timed, Leave(false))])
      case Wait(timed, Leave(timedOut)) =>
        s.(pcs := s.pcs[t := Wait(timed, if timedOut then Unlock else Take)], waiters := s.waiters - 1)
      case Wait(timed, Take) => s.(pcs := s.pcs[t := Wait(timed, Unlock)], count := s.count - 1)
      case Wait(timed, Unlock) => s.(pcs := s.pcs[t := Idle], owner := None)
  }

  /**
   Which runs are considered: of `threads` threads the first `waiting` may call a wait, the timed
   one only if `timed`; every thread may signal; sleepers may wake spuriously only if `spurious`.
   */
  datatype Config = Config(threads: nat, waiting: nat, timed: bool, spurious: bool)

  predicate Allowed(cfg: Config, a: Action) {
    match a
    case CallWait(t, timed) => t < cfg.waiting && (timed ==> cfg.timed)
    case Spurious(_) => cfg.spurious
    case _ => true
  }

  function Initial(cfg: Config, size: nat): State {
    State(seq(cfg.threads, _ => Idle), size, 0, None)
  }

  /** The state after a run, if every action of it is allowed and possible. */
  function After(cfg: Config, size: nat, run: seq<Action>): (s: Option<State>)
    ensures s.Some? ==> |s.value.pcs| == cfg.threads
  {
    if run == [] then Some(Initial(cfg, size))
    else
      var a := run[|run| - 1];
      match After(cfg, size, run[..|run| - 1])
      case None => None
      case Some(s) => if Allowed(cfg, a) && Enabled(s, a) then Some(Next(s, a)) else None
  }

  // ------------------------------------------------------------------------------------------
  // Counting threads
  // ------------------------------------------------------------------------------------------

  function Tally(pcs: seq<Pc>, weight: Pc -> nat): nat {
    if pcs == [] then 0 else Tally(pcs[..|pcs| - 1], weight) + weight(pcs[|pcs| - 1])
  }

  lemma {:induction false} TallyUpdate(pcs: seq<Pc>, t: nat, pc: Pc, weight: Pc -> nat)
    requires t < |pcs|
    ensures Tally(pcs[t := pc], weight) == Tally(pcs, weight) - weight(pcs[t]) + weight(pc)
  {
    var front := pcs[..|pcs| - 1];
    if t == |pcs| - 1 {
      assert pcs[t := pc][..t] == front;
    } else {
      assert pcs[t := pc][..|pcs| - 1] == front[t := pc];
      TallyUpdate(front, t, pc, weight);
    }
  }

  lemma {:induction false} TallyPointwise(p: seq<Pc>, q: seq<Pc>, weight: Pc -> nat)
    requires |p| == |q| && forall i | 0 <= i < |p| :: weight(p[i]) <= weight(q[i])
    ensures Tally(p, weight) <= Tally(q, weight)
    ensures (exists i | 0 <= i < |p| :: weight(p[i]) < weight(q[i])) ==> Tally(p, weight) < Tally(q, weight)
  {
    if p != [] {
      var p', q' := p[..|p| - 1], q[..|q| - 1];
      assert forall i | 0 <= i < |p'| :: p'[i] == p[i] && q'[i] == q[i];
      TallyPointwise(p', q', weight);
    }
  }

  lemma {:induction false} TallyAtLeast(pcs: seq<Pc>, t: nat, weight: Pc -> nat)
    requires t < |pcs|
    ensures Tally(pcs, weight) >= weight(pcs[t])
  {
    if t < |pcs| - 1 {
      TallyAtLeast(pcs[..|pcs| - 1], t, weight);
    }
  }

  // ------------------------------------------------------------------------------------------
  // The invariant
  // ------------------------------------------------------------------------------------------

  /** Counted in m_waiters_count. */
  function Inside(pc: Pc): nat {
    if pc.Wait? && (pc.at.Test? || pc.at.Asleep? || pc.at.Woken? || pc.at.Leave?) then 1 else 0
  }

  /** On the way out of wait(): woken and not resumed, or holding the mutex before the decrement. */
  function Awake(pc: Pc): nat {
    if pc.Wait? && (pc.at.Test? || pc.at.Woken? || pc.at.Leave? || pc.at.Take?) then 1 else 0
  }

  /** A signal that has woken its sleeper but not yet raised the count. */
  function Raising(pc: Pc): nat {
    if pc == Signal(Raise) then 1 else 0
  }

  function WokenNotResumed(pc: Pc): nat {
    if pc.Wait? && pc.at.Woken? then 1 else 0
  }

  ghost predicate MutexHeldRight(s: State) {
    && (forall t: nat | t < |s.pcs| :: Holding(s.pcs[t]) <==> s.owner == Some(t))
    && (s.owner.Some? ==> s.owner.value < |s.pcs|)
  }

  ghost predicate Counted(s: State) {
    s.waiters == Tally(s.pcs, Inside)
  }

  ghost predicate Untimed(s: State) {
    forall t: nat | t < |s.pcs| && s.pcs[t].Wait? ::
      !s.pcs[t].timed && (s.pcs[t].at.Woken? || s.pcs[t].at.Leave? ==> !s.pcs[t].at.timedOut)
  }

  /** A thread past the test holds a count of its own. */
  ghost predicate Justified(s: State) {
    && s.count >= 0
    && forall t: nat | t < |s.pcs| && s.pcs[t].Wait? && (s.pcs[t].at.Leave? || s.pcs[t].at.Take?) :: s.count > 0
  }

  /** Whenever someone sleeps, every count is spoken for by a thread that is awake. */
  ghost predicate NoneLost(s: State) {
    Sleepers(s.pcs) != {} ==> s.count + Tally(s.pcs, Raising) <= Tally(s.pcs, Awake)
  }

  ghost predicate Invariant(s: State) {
    MutexHeldRight(s) && Counted(s) && Untimed(s) && Justified(s) && NoneLost(s)
  }

  lemma {:induction false} MutexKept(s: State, a: Action)
    requires Enabled(s, a) && MutexHeldRight(s)
    ensures MutexHeldRight(Next(s, a))
  {}

  lemma {:induction false} WokeSame(pcs: seq<Pc>, wake: set<nat>, weight: Pc -> nat)
    requires forall timed: bool :: weight(Wait(timed, Asleep)) == weight(Wait(timed, Woken(false)))
    ensures Tally(Woke(pcs, wake), weight) == Tally(pcs, weight)
  {
    var q := Woke(pcs, wake);
    assert forall i | 0 <= i < |pcs| :: weight(pcs[i]) == weight(q[i]);
    TallyPointwise(pcs, q, weight);
    TallyPointwise(q, pcs, weight);
  }

  lemma {:induction false} WokeAwake(pcs: seq<Pc>, wake: set<nat>)
    ensures Tally(Woke(pcs, wake), Awake) >= Tally(pcs, Awake)
    ensures wake * Sleepers(pcs) != {} ==> Tally(Woke(pcs, wake), Awake) > Tally(pcs, Awake)
  {
    var q := Woke(pcs, wake);
    TallyPointwise(pcs, q, Awake);
    if wake * Sleepers(pcs) != {} {
      var t :| t in wake * Sleepers(pcs);
      assert Awake(pcs[t]) < Awake(q[t]);
    }
  }

  lemma {:induction false} CountedKept(s: State, a: Action)
    requires Enabled(s, a) && Counted(s)
    ensures Counted(Next(s, a))
  {
    hide Tally;
    var pcs := if a.SignalCond? then Woke(s.pcs, a.wake) else s.pcs;
    TallyUpdate(pcs, a.t, Next(s, a).pcs[a.t], Inside);
    if a.SignalCond? {
      WokeSame(s.pcs, a.wake, Inside);
    }
  }

  lemma {:induction false} UntimedKept(s: State, a: Action)
    requires Enabled(s, a) && Untimed(s) && !(a.CallWait? && a.timed)
    ensures Untimed(Next(s, a))
  {}

  lemma {:induction false} JustifiedKept(s: State, a: Action)
    requires Enabled(s, a) && MutexHeldRight(s) && Untimed(s) && Justified(s)
    ensures Justified(Next(s, a))
  {}

  /** A new sleeper finds no count; everybody else's step keeps the balance. */
  lemma {:induction false} NoneLostKept(s: State, a: Action)
    requires Enabled(s, a) && Invariant(s)
    ensures NoneLost(Next(s, a))
  {
    hide Tally;
    var r, t := Next(s, a), a.t;
    var pcs := if a.SignalCond? then Woke(s.pcs, a.wake) else s.pcs;
    TallyUpdate(pcs, t, r.pcs[t], Raising);
    TallyUpdate(pcs, t, r.pcs[t], Awake);
    if a.SignalCond? {
      WokeSame(s.pcs, a.wake, Raising);
      WokeAwake(s.pcs, a.wake);
      SleepersInside(s);
      assert Sleepers(r.pcs) <= Sleepers(s.pcs);
    } else if s.pcs[t].Wait? && s.pcs[t].at == Test && s.count == 0 {
      NobodyRaises(s, t);
    } else {
      assert Sleepers(r.pcs) <= Sleepers(s.pcs);
    }
  }

  /** A sleeper is counted, so the signal does look at the condition. */
  lemma {:induction false} SleepersInside(s: State)
    requires s.waiters == Tally(s.pcs, Inside)
    ensures Sleepers(s.pcs) != {} ==> s.waiters > 0
  {
    if Sleepers(s.pcs) != {} {
      var t :| t in Sleepers(s.pcs);
      TallyAtLeast(s.pcs, t, Inside);
    }
  }

  /** While one thread holds the mutex for a wait, no signal is half done. */
  lemma {:induction false} NobodyRaises(s: State, t: nat)
    requires MutexHeldRight(s) && t < |s.pcs| && s.pcs[t].Wait? && Holding(s.pcs[t])
    ensures Tally(s.pcs, Raising) == 0
  {
    NoWeight(s.pcs, Raising);
  }

  lemma {:induction false} NoWeight(pcs: seq<Pc>, weight: Pc -> nat)
    requires forall i | 0 <= i < |pcs| :: weight(pcs[i]) == 0
    ensures Tally(pcs, weight) == 0
  {
    if pcs != [] {
      NoWeight(pcs[..|pcs| - 1], weight);
    }
  }

  /** Every run of untimed waits and signals keeps the invariant, spurious wakeups or not. */
  lemma {:induction false} RunInvariant(cfg: Config, size: nat, run: seq<Action>)
    requires !cfg.timed && After(cfg, size, run).Some?
    ensures Invariant(After(cfg, size, run).value)
  {
    hide MutexHeldRight, Counted, Untimed, Justified, NoneLost, Enabled, Next;
    if run == [] {
      InitialHolds(cfg, size);
    } else {
      var front, a := run[..|run| - 1], run[|run| - 1];
      RunInvariant(cfg, size, front);
      var s := After(cfg, size, front).value;
      MutexKept(s, a);
      CountedKept(s, a);
      UntimedKept(s, a);
      JustifiedKept(s, a);
      NoneLostKept(s, a);
    }
  }

  lemma {:induction false} InitialHolds(cfg: Config, size: nat)
    ensures Invariant(Initial(cfg, size))
  {
    NoWeight(Initial(cfg, size).pcs, Inside);
  }

  // ------------------------------------------------------------------------------------------
  // Counting calls
  // ------------------------------------------------------------------------------------------

  function Number(run: seq<Action>, kind: Action -> bool): nat {
    if run == [] then 0 else Number(run[..|run| - 1], kind) + if kind(run[|run| - 1]) then 1 else 0
  }

  predicate IsSignal(a: Action) {
    a.CallSignal?
  }

  predicate IsWait(a: Action) {
    a.CallWait?
  }

  predicate IsTimeout(a: Action) {
    a.Timeout?
  }

  /** In signal(), and not past the increment. */
  function BeforeRaise(pc: Pc): nat {
    if pc.Signal? && pc.line != SigUnlock then 1 else 0
  }

  /** In wait(), not timed out, and not past the decrement. */
  function BeforeTake(pc: Pc): nat {
    if pc.Wait? && pc.at != Unlock && pc.at != Woken(true) && pc.at != Leave(true) then 1 else 0
  }

  /** The calls of signal() that have raised the count. */
  function Signals(run: seq<Action>, s: State): int {
    Number(run, IsSignal) - Tally(s.pcs, BeforeRaise)
  }

  /** The calls of wait() and wait(int) that have taken from the count: neither timed out nor still on their way. */
  function CompletedWaits(run: seq<Action>, s: State): int {
    Number(run, IsWait) - Number(run, IsTimeout) - Tally(s.pcs, BeforeTake)
  }

  function Unit(b: bool): int {
    if b then 1 else 0
  }

  /** Only a timed wait times out. */
  ghost predicate TimedOutRight(s: State) {
    forall t: nat | t < |s.pcs| && s.pcs[t].Wait? && (s.pcs[t].at == Woken(true) || s.pcs[t].at == Leave(true)) ::
      s.pcs[t].timed
  }

  lemma {:induction false} TimedOutKept(s: State, a: Action)
    requires Enabled(s, a) && TimedOutRight(s)
    ensures TimedOutRight(Next(s, a))
  {}

  lemma {:induction false} CountMoves(s: State, a: Action)
    requires Enabled(s, a) && TimedOutRight(s)
    ensures var r := Next(s, a);
            var raised := Unit(IsSignal(a)) - (Tally(r.pcs, BeforeRaise) - Tally(s.pcs, BeforeRaise));
            var taken := Unit(IsWait(a)) - Unit(IsTimeout(a)) - (Tally(r.pcs, BeforeTake) - Tally(s.pcs, BeforeTake));
            r.count == s.count + raised - taken
  {
    hide Tally, Sleepers;
    var pcs := if a.SignalCond? then Woke(s.pcs, a.wake) else s.pcs;
    TallyUpdate(pcs, a.t, Next(s, a).pcs[a.t], BeforeRaise);
    TallyUpdate(pcs, a.t, Next(s, a).pcs[a.t], BeforeTake);
    if a.SignalCond? {
      WokeSame(s.pcs, a.wake, BeforeRaise);
      WokeSame(s.pcs, a.wake, BeforeTake);
    }
  }

  /** On every run, timed or not, the count is the initial size plus the signals less the completed waits. */
  lemma {:induction false} CountIsBalance(cfg: Config, size: nat, run: seq<Action>)
    requires After(cfg, size, run).Some?
    ensures var s := After(cfg, size, run).value;
            s.count == size + Signals(run, s) - CompletedWaits(run, s) && TimedOutRight(s)
  {
    hide Tally, Enabled, Next;
    if run == [] {
      NoWeight(Initial(cfg, size).pcs, BeforeRaise);
      NoWeight(Initial(cfg, size).pcs, BeforeTake);
    } else {
      var front, a := run[..|run| - 1], run[|run| - 1];
      CountIsBalance(cfg, size, front);
      CountMoves(After(cfg, size, front).value, a);
      TimedOutKept(After(cfg, size, front).value, a);
    }
  }

  // ------------------------------------------------------------------------------------------
  // No lost wakeup
  // ------------------------------------------------------------------------------------------

  /**
   With untimed waits, on every run: the count is the initial size plus signals less completed
   waits and never negative; m_waiters_count is the number of threads inside; and whenever the
   mutex is free and a thread sleeps, every count belongs to a woken thread that has yet to run.
   */
  lemma {:induction false} NoLostWakeup(cfg: Config, size: nat, run: seq<Action>)
    requires !cfg.timed && After(cfg, size, run).Some?
    ensures var s := After(cfg, size, run).value;
            && 0 <= s.count == size + Signals(run, s) - CompletedWaits(run, s)
            && s.waiters == Tally(s.pcs, Inside)
            && (s.owner == None && Sleepers(s.pcs) != {} ==> s.count <= Tally(s.pcs, WokenNotResumed))
  {
    hide Tally, Signals, CompletedWaits;
    RunInvariant(cfg, size, run);
    CountIsBalance(cfg, size, run);
    var s := After(cfg, size, run).value;
    if s.owner == None {
      assert forall t: nat | t < |s.pcs| :: !Holding(s.pcs[t]);
      SameTally(s.pcs, Awake, WokenNotResumed);
    }
  }

  lemma {:induction false} SameTally(pcs: seq<Pc>, v: Pc -> nat, w: Pc -> nat)
    requires forall i | 0 <= i < |pcs| :: v(pcs[i]) == w(pcs[i])
    ensures Tally(pcs, v) == Tally(pcs, w)
  {
    if pcs != [] {
      SameTally(pcs[..|pcs| - 1], v, w);
    }
  }

  /** Steps the threads inside wait and signal can take without a new call, timeout or spurious wakeup. */
  predicate Internal(a: Action) {
    a.Acquire? || a.Advance? || a.SignalCond?
  }

  ghost predicate AtRest(s: State) {
    forall a: Action :: Internal(a) ==> !Enabled(s, a)
  }

  lemma HolderCanRun(s: State, t: nat) returns (a: Action)
    requires t < |s.pcs| && Holding(s.pcs[t])
    ensures Internal(a) && Enabled(s, a)
  {
    if s.pcs[t] == Signal(Notify) {
      a := SignalCond(t, if s.waiters > 0 then Sleepers(s.pcs) else {});
    } else {
      a := Advance(t);
    }
  }

  /** At rest everybody has returned or sleeps, and nobody sleeps on a count. */
  lemma {:induction false} RestMeansServed(cfg: Config, size: nat, run: seq<Action>)
    requires !cfg.timed && After(cfg, size, run).Some? && AtRest(After(cfg, size, run).value)
    ensures var s := After(cfg, size, run).value;
            && (forall t: nat | t < |s.pcs| :: s.pcs[t].Idle? || IsAsleep(s.pcs[t]))
            && (Sleepers(s.pcs) != {} ==> s.count == 0)
  {
    hide Tally, Sleepers;
    var s := After(cfg, size, run).value;
    RunInvariant(cfg, size, run);
    NoLostWakeup(cfg, size, run);
    forall t: nat | t < |s.pcs|
      ensures !Holding(s.pcs[t])
    {
      if Holding(s.pcs[t]) {
        var a := HolderCanRun(s, t);
      }
    }
    assert s.owner == None;
    forall t: nat | t < |s.pcs|
      ensures s.pcs[t].Idle? || IsAsleep(s.pcs[t])
    {
      assert !Enabled(s, Acquire(t));
    }
    NoWeight(s.pcs, WokenNotResumed);
  }

  function AsleepHere(pc: Pc): nat {
    if IsAsleep(pc) then 1 else 0
  }

  /** No thread of an untimed run times out. */
  lemma {:induction false} NoTimeouts(cfg: Config, size: nat, run: seq<Action>)
    requires !cfg.timed && After(cfg, size, run).Some?
    ensures Number(run, IsTimeout) == 0
  {
    if run != [] {
      hide MutexHeldRight, Counted, Justified, NoneLost;
      NoTimeouts(cfg, size, run[..|run| - 1]);
      RunInvariant(cfg, size, run[..|run| - 1]);
    }
  }

  /**
   What the semaphore is for: at rest as many waits have been served as the initial size and the
   signals allow, and all others sleep.
   */
  lemma {:induction false} RestServes(cfg: Config, size: nat, run: seq<Action>)
    requires !cfg.timed && After(cfg, size, run).Some? && AtRest(After(cfg, size, run).value)
    ensures var s, waits, supply := After(cfg, size, run).value, Number(run, IsWait), size + Number(run, IsSignal);
            && CompletedWaits(run, s) == (if waits < supply then waits else supply)
            && Tally(s.pcs, AsleepHere) == (if waits < supply then 0 else waits - supply)
            && s.count == (if waits < supply then supply - waits else 0)
  {
    var s := After(cfg, size, run).value;
    RestMeansServed(cfg, size, run);
    NoLostWakeup(cfg, size, run);
    NoTimeouts(cfg, size, run);
    NoWeight(s.pcs, BeforeRaise);
    SameTally(s.pcs, BeforeTake, AsleepHere);
    if Sleepers(s.pcs) == {} {
      forall t: nat | t < |s.pcs|
        ensures !IsAsleep(s.pcs[t])
      {
        assert t !in Sleepers(s.pcs);
      }
      NoWeight(s.pcs, AsleepHere);
    } else {
      var t :| t in Sleepers(s.pcs);
      TallyAtLeast(s.pcs, t, AsleepHere);
    }
    hide After, Tally, Number, AtRest;
  }

  // ------------------------------------------------------------------------------------------
  // Every execution comes to rest
  // ------------------------------------------------------------------------------------------

  /** Signals that may still wake somebody. */
  function Pending(pc: Pc): nat {
    if pc.Signal? && (pc.line == SigLock || pc.line == Notify) then 1 else 0
  }

  /** Lines left to run before a thread sleeps or returns. */
  function LinesLeft(pc: Pc): nat {
    match pc
    case Idle => 0
    case Wait(_, at) =>
      (match at
       case Lock => 6 case Enter => 5 case Test => 4 case Asleep => 0
       case Woken(_) => 5 case Leave(_) => 3 case Take => 2 case Unlock => 1)
    case Signal(line) =>
      (match line case SigLock => 4 case Notify => 3 case Raise => 2 case SigUnlock => 1)
  }

  /** Without new calls, timeouts and spurious wakeups the work left shrinks with every step. */
  lemma {:induction false} WorkShrinks(s: State, a: Action)
    requires Enabled(s, a) && Internal(a)
    ensures var before, after := Tally(s.pcs, Pending), Tally(Next(s, a).pcs, Pending);
            after < before || (after == before && Tally(Next(s, a).pcs, LinesLeft) < Tally(s.pcs, LinesLeft))
  {
    hide Tally, Sleepers;
    var pcs := if a.SignalCond? then Woke(s.pcs, a.wake) else s.pcs;
    TallyUpdate(pcs, a.t, Next(s, a).pcs[a.t], Pending);
    TallyUpdate(pcs, a.t, Next(s, a).pcs[a.t], LinesLeft);
    if a.SignalCond? {
      WokeSame(s.pcs, a.wake, Pending);
    }
  }

  /** From any state the threads inside can run until the system is at rest. */
  lemma {:induction false} ComesToRest(cfg: Config, size: nat, run: seq<Action>) returns (rest: seq<Action>)
    requires After(cfg, size, run).Some?
    ensures run <= rest && After(cfg, size, rest).Some? && AtRest(After(cfg, size, rest).value)
    ensures forall i | |run| <= i < |rest| :: Internal(rest[i])
    decreases Tally(After(cfg, size, run).value.pcs, Pending), Tally(After(cfg, size, run).value.pcs, LinesLeft)
  {
    hide Tally, Enabled, Next;
    var s := After(cfg, size, run).value;
    if a: Action :| Internal(a) && Enabled(s, a) {
      Extend(cfg, size, run, a);
      WorkShrinks(s, a);
      rest := ComesToRest(cfg, size, run + [a]);
      assert rest[|run|] == (run + [a])[|run|];
      assert run <= run + [a];
    } else {
      rest := run;
    }
  }

  lemma {:induction false} Extend(cfg: Config, size: nat, run: seq<Action>, a: Action)
    requires After(cfg, size, run).Some? && Allowed(cfg, a) && Enabled(After(cfg, size, run).value, a)
    ensures After(cfg, size, run + [a]) == Some(Next(After(cfg, size, run).value, a))
  {
    hide Enabled, Next;
    assert (run + [a])[..|run|] == run;
  }

  // ------------------------------------------------------------------------------------------
  // The timed wait
  // ------------------------------------------------------------------------------------------

  /** Only thread 0 waits, and what it has been woken for has not been taken by anyone else. */
  ghost predicate LoneWaiter(s: State) {
    && MutexHeldRight(s) && s.count >= 0
    && (forall t: nat | 0 < t < |s.pcs| :: !s.pcs[t].Wait?)
    && (|s.pcs| > 0 && s.pcs[0].Wait? ==>
          match s.pcs[0].at
          case Woken(timedOut) => !timedOut ==> s.count + Tally(s.pcs, Raising) >= 1
          case Leave(timedOut) => !timedOut ==> s.count >= 1
          case Take => s.count >= 1
          case _ => true)
  }

  lemma {:induction false} LoneWaiterKept(s: State, a: Action)
    requires Enabled(s, a) && LoneWaiter(s) && !a.Spurious? && (a.CallWait? ==> a.t == 0)
    ensures LoneWaiter(Next(s, a))
  {
    hide Tally;
    var pcs := if a.SignalCond? then Woke(s.pcs, a.wake) else s.pcs;
    MutexKept(s, a);
    TallyUpdate(pcs, a.t, Next(s, a).pcs[a.t], Raising);
    if a.SignalCond? {
      WokeSame(s.pcs, a.wake, Raising);
    }
    if s.owner == None {
      NoWeight(s.pcs, Raising);
    }
  }

  lemma {:induction false} LoneWaiterRun(cfg: Config, size: nat, run: seq<Action>)
    requires cfg.waiting <= 1 && !cfg.spurious && After(cfg, size, run).Some?
    ensures LoneWaiter(After(cfg, size, run).value)
  {
    hide LoneWaiter, Enabled, Next;
    if run == [] {
      LoneWaiterInitial(cfg, size);
    } else {
      LoneWaiterRun(cfg, size, run[..|run| - 1]);
      LoneWaiterKept(After(cfg, size, run[..|run| - 1]).value, run[|run| - 1]);
    }
  }

  lemma LoneWaiterInitial(cfg: Config, size: nat)
    ensures LoneWaiter(Initial(cfg, size))
  {}

  /** `big` is `small` with more threads, all of them idle. */
  ghost predicate Embeds(small: State, big: State) {
    && |small.pcs| <= |big.pcs| && big.pcs[..|small.pcs|] == small.pcs
    && (forall t | |small.pcs| <= t < |big.pcs| :: big.pcs[t].Idle?)
    && big.(pcs := small.pcs) == small
  }

  lemma {:induction false} EmbedsNext(small: State, big: State, a: Action)
    requires Embeds(small, big) && Enabled(small, a)
    ensures Enabled(big, a) && Embeds(Next(small, a), Next(big, a))
  {
    assert Sleepers(big.pcs) == Sleepers(small.pcs);
    assert forall t: nat | t < |small.pcs| :: big.pcs[t] == small.pcs[t];
    var n := |small.pcs|;
    assert forall t: nat | t < n :: Next(big, a).pcs[t] == Next(small, a).pcs[t];
  }

  /** A run of a few threads is a run of more. */
  lemma {:induction false} MoreThreads(few: Config, cfg: Config, run: seq<Action>)
    requires few.threads <= cfg.threads && few.waiting <= cfg.waiting
    requires (few.timed ==> cfg.timed) && (few.spurious ==> cfg.spurious)
    requires After(few, 0, run).Some?
    ensures After(cfg, 0, run).Some? && Embeds(After(few, 0, run).value, After(cfg, 0, run).value)
  {
    hide Enabled, Next;
    if run != [] {
      var front := run[..|run| - 1];
      MoreThreads(few, cfg, front);
      EmbedsNext(After(few, 0, front).value, After(cfg, 0, front).value, run[|run| - 1]);
    }
  }

  /** The state after a run of one or two threads, spelled out. */
  lemma {:induction false} Then(cfg: Config, run: seq<Action>, s: State, a: Action, s': State)
    requires After(cfg, 0, run) == Some(s) && Allowed(cfg, a) && Enabled(s, a) && Next(s, a) == s'
    ensures After(cfg, 0, run + [a]) == Some(s')
  {
    Extend(cfg, 0, run, a);
  }

  const ALONE := Config(1, 1, true, true)

  function One(pc: Pc, count: int, waiters: int, owner: Option<nat>): State {
    State([pc], count, waiters, owner)
  }

  /** The timed waiter goes to sleep. */
  lemma {:induction false} SleepAlone() returns (run: seq<Action>)
    ensures After(ALONE, 0, run) == Some(One(Wait(true, Asleep), 0, 1, None))
  {
    hide After, Sleepers;
    StartsIdle(ALONE, [Idle]);
    Then(ALONE, [], One(Idle, 0, 0, None), CallWait(0, true), One(Wait(true, Lock), 0, 0, None));
    run := [] + [CallWait(0, true)];
    Then(ALONE, run, One(Wait(true, Lock), 0, 0, None), Acquire(0), One(Wait(true, Enter), 0, 0, Some(0)));
    run := run + [Acquire(0)];
    Then(ALONE, run, One(Wait(true, Enter), 0, 0, Some(0)), Advance(0), One(Wait(true, Test), 0, 1, Some(0)));
    run := run + [Advance(0)];
    Then(ALONE, run, One(Wait(true, Test), 0, 1, Some(0)), Advance(0), One(Wait(true, Asleep), 0, 1, None));
    run := run + [Advance(0)];
  }

  /** A spurious wakeup passes for a signal: one timed waiter is enough for a negative count. */
  lemma {:induction false} SpuriousGoesNegative() returns (run: seq<Action>)
    ensures After(ALONE, 0, run) == Some(One(Wait(true, Unlock), -1, 0, Some(0)))
  {
    hide After, Sleepers;
    run := SleepAlone();
    Then(ALONE, run, One(Wait(true, Asleep), 0, 1, None), Spurious(0), One(Wait(true, Woken(false)), 0, 1, None));
    run := run + [Spurious(0)];
    Then(ALONE, run, One(Wait(true, Woken(false)), 0, 1, None), Acquire(0),
         One(Wait(true, Leave(false)), 0, 1, Some(0)));
    run := run + [Acquire(0)];
    Then(ALONE, run, One(Wait(true, Leave(false)), 0, 1, Some(0)), Advance(0),
         One(Wait(true, Take), 0, 0, Some(0)));
    run := run + [Advance(0)];
    Then(ALONE, run, One(Wait(true, Take), 0, 0, Some(0)), Advance(0), One(Wait(true, Unlock), -1, 0, Some(0)));
    run := run + [Advance(0)];
  }

  /** A count below zero holds nobody back: the next wait takes one more that is not there. */
  lemma {:induction false} GoesFurtherDown() returns (run: seq<Action>)
    ensures After(ALONE, 0, run) == Some(One(Wait(true, Unlock), -2, 0, Some(0)))
  {
    hide After, Sleepers;
    run := SpuriousGoesNegative();
    Then(ALONE, run, One(Wait(true, Unlock), -1, 0, Some(0)), Advance(0), One(Idle, -1, 0, None));
    run := run + [Advance(0)];
    Then(ALONE, run, One(Idle, -1, 0, None), CallWait(0, true), One(Wait(true, Lock), -1, 0, None));
    run := run + [CallWait(0, true)];
    Then(ALONE, run, One(Wait(true, Lock), -1, 0, None), Acquire(0), One(Wait(true, Enter), -1, 0, Some(0)));
    run := run + [Acquire(0)];
    Then(ALONE, run, One(Wait(true, Enter), -1, 0, Some(0)), Advance(0), One(Wait(true, Test), -1, 1, Some(0)));
    run := run + [Advance(0)];
    Then(ALONE, run, One(Wait(true, Test), -1, 1, Some(0)), Advance(0), One(Wait(true, Leave(false)), -1, 1, Some(0)));
    run := run + [Advance(0)];
    Then(ALONE, run, One(Wait(true, Leave(false)), -1, 1, Some(0)), Advance(0), One(Wait(true, Take), -1, 0, Some(0)));
    run := run + [Advance(0)];
    Then(ALONE, run, One(Wait(true, Take), -1, 0, Some(0)), Advance(0), One(Wait(true, Unlock), -2, 0, Some(0)));
    run := run + [Advance(0)];
  }

  lemma StartsIdle(cfg: Config, pcs: seq<Pc>)
    requires |pcs| == cfg.threads && forall t | 0 <= t < |pcs| :: pcs[t] == Idle
    ensures After(cfg, 0, []) == Some(State(pcs, 0, 0, None))
  {
    assert pcs == seq(cfg.threads, _ => Idle);
  }

  const PAIR := Config(2, 2, true, false)

  function Two(first: Pc, second: Pc, count: int, waiters: int, owner: Option<nat>): State {
    State([first, second], count, waiters, owner)
  }

  /** The timed waiter goes to sleep, and the other thread signals it. */
  lemma {:induction false} SleepAndSignal() returns (run: seq<Action>)
    ensures After(PAIR, 0, run) == Some(Two(Wait(true, Woken(false)), Idle, 1, 1, None))
  {
    hide After;
    StartsIdle(PAIR, [Idle, Idle]);
    Then(PAIR, [], Two(Idle, Idle, 0, 0, None), CallWait(0, true), Two(Wait(true, Lock), Idle, 0, 0, None));
    run := [] + [CallWait(0, true)];
    Then(PAIR, run, Two(Wait(true, Lock), Idle, 0, 0, None), Acquire(0),
         Two(Wait(true, Enter), Idle, 0, 0, Some(0)));
    run := run + [Acquire(0)];
    Then(PAIR, run, Two(Wait(true, Enter), Idle, 0, 0, Some(0)), Advance(0),
         Two(Wait(true, Test), Idle, 0, 1, Some(0)));
    run := run + [Advance(0)];
    var asleep := Wait(true, Asleep);
    Then(PAIR, run, Two(Wait(true, Test), Idle, 0, 1, Some(0)), Advance(0), Two(asleep, Idle, 0, 1, None));
    run := run + [Advance(0)];
    Then(PAIR, run, Two(asleep, Idle, 0, 1, None), CallSignal(1), Two(asleep, Signal(SigLock), 0, 1, None));
    run := run + [CallSignal(1)];
    Then(PAIR, run, Two(asleep, Signal(SigLock), 0, 1, None), Acquire(1),
         Two(asleep, Signal(Notify), 0, 1, Some(1)));
    run := run + [Acquire(1)];
    var woken := Wait(true, Woken(false));
    SignalWakesFirst(Two(asleep, Signal(Notify), 0, 1, Some(1)), Two(woken, Signal(Raise), 0, 1, Some(1)));
    Then(PAIR, run, Two(asleep, Signal(Notify), 0, 1, Some(1)), SignalCond(1, {0}),
         Two(woken, Signal(Raise), 0, 1, Some(1)));
    run := run + [SignalCond(1, {0})];
    Then(PAIR, run, Two(woken, Signal(Raise), 0, 1, Some(1)), Advance(1),
         Two(woken, Signal(SigUnlock), 1, 1, Some(1)));
    run := run + [Advance(1)];
    Then(PAIR, run, Two(woken, Signal(SigUnlock), 1, 1, Some(1)), Advance(1), Two(woken, Idle, 1, 1, None));
    run := run + [Advance(1)];
  }

  lemma SignalWakesFirst(s: State, s': State)
    requires |s.pcs| == 2 && s.waiters > 0 && IsAsleep(s.pcs[0]) && s.pcs[1] == Signal(Notify)
    requires s' == s.(pcs := [s.pcs[0].(at := Woken(false)), Signal(Raise)])
    ensures Enabled(s, SignalCond(1, {0})) && Next(s, SignalCond(1, {0})) == s'
  {
    assert Next(s, SignalCond(1, {0})).pcs == s'.pcs;
  }

  /**
   Before the waiter runs again, the other thread waits and takes the count: the waiter takes one
   that is not there.
   */
  lemma {:induction false} StolenGoesNegative() returns (run: seq<Action>)
    ensures After(PAIR, 0, run) == Some(Two(Wait(true, Unlock), Idle, -1, 0, Some(0)))
  {
    hide After, Sleepers;
    var woken := Wait(true, Woken(false));
    run := SleepAndSignal();
    Then(PAIR, run, Two(woken, Idle, 1, 1, None), CallWait(1, false),
         Two(woken, Wait(false, Lock), 1, 1, None));
    run := run + [CallWait(1, false)];
    Then(PAIR, run, Two(woken, Wait(false, Lock), 1, 1, None), Acquire(1),
         Two(woken, Wait(false, Enter), 1, 1, Some(1)));
    run := run + [Acquire(1)];
    Then(PAIR, run, Two(woken, Wait(false, Enter), 1, 1, Some(1)), Advance(1),
         Two(woken, Wait(false, Test), 1, 2, Some(1)));
    run := run + [Advance(1)];
    Then(PAIR, run, Two(woken, Wait(false, Test), 1, 2, Some(1)), Advance(1),
         Two(woken, Wait(false, Leave(false)), 1, 2, Some(1)));
    run := run + [Advance(1)];
    Then(PAIR, run, Two(woken, Wait(false, Leave(false)), 1, 2, Some(1)), Advance(1),
         Two(woken, Wait(false, Take), 1, 1, Some(1)));
    run := run + [Advance(1)];
    Then(PAIR, run, Two(woken, Wait(false, Take), 1, 1, Some(1)), Advance(1),
         Two(woken, Wait(false, Unlock), 0, 1, Some(1)));
    run := run + [Advance(1)];
    Then(PAIR, run, Two(woken, Wait(false, Unlock), 0, 1, Some(1)), Advance(1),
         Two(woken, Idle, 0, 1, None));
    run := run + [Advance(1)];
    Then(PAIR, run, Two(woken, Idle, 0, 1, None), Acquire(0),
         Two(Wait(true, Leave(false)), Idle, 0, 1, Some(0)));
    run := run + [Acquire(0)];
    Then(PAIR, run, Two(Wait(true, Leave(false)), Idle, 0, 1, Some(0)), Advance(0),
         Two(Wait(true, Take), Idle, 0, 0, Some(0)));
    run := run + [Advance(0)];
    Then(PAIR, run, Two(Wait(true, Take), Idle, 0, 0, Some(0)), Advance(0),
         Two(Wait(true, Unlock), Idle, -1, 0, Some(0)));
    run := run + [Advance(0)];
  }

  ghost predicate NeverNegative(cfg: Config) {
    forall size: nat, run: seq<Action> :: After(cfg, size, run).Some? ==> After(cfg, size, run).value.count >= 0
  }

  /**
   The count can never become negative exactly when nobody uses the timed wait, or nobody waits,
   or a single thread waits and no wakeup is spurious.
   */
  lemma {:induction false} NonNegativeExactly(cfg: Config)
    requires cfg.waiting <= cfg.threads
    ensures NeverNegative(cfg) <==> !cfg.timed || cfg.waiting == 0 || (cfg.waiting == 1 && !cfg.spurious)
  {
    hide Tally;
    if !cfg.timed {
      forall size: nat, run: seq<Action> | After(cfg, size, run).Some?
        ensures After(cfg, size, run).value.count >= 0
      {
        RunInvariant(cfg, size, run);
      }
    } else if cfg.waiting == 0 || (cfg.waiting == 1 && !cfg.spurious) {
      forall size: nat, run: seq<Action> | After(cfg, size, run).Some?
        ensures After(cfg, size, run).value.count >= 0
      {
        if cfg.waiting == 0 {
          NobodyWaits(cfg, size, run);
        } else {
          LoneWaiterRun(cfg, size, run);
        }
      }
    } else if cfg.waiting >= 2 {
      var run := StolenGoesNegative();
      MoreThreads(PAIR, cfg, run);
    } else {
      var run := SpuriousGoesNegative();
      MoreThreads(ALONE, cfg, run);
    }
  }

  lemma {:induction false} NobodyWaits(cfg: Config, size: nat, run: seq<Action>)
    requires cfg.waiting == 0 && After(cfg, size, run).Some?
    ensures var s := After(cfg, size, run).value; s.count >= 0 && forall t: nat | t < |s.pcs| :: !s.pcs[t].Wait?
  {
    if run != [] {
      NobodyWaits(cfg, size, run[..|run| - 1]);
    }
  }
}
