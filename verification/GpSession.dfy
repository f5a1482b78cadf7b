/**
 The life of a GlobalPlatform session object: TEEC_OpenSession, TEEC_InvokeCommand and
 TEEC_CloseSession share the closing of the mc session and the unmapping of the TCI page with
 _TEEC_CallTA, and any of them may fail at any point.
 */
module GpSession {
  import opened Wrappers

  /** The calls below that matter: mmap, munmap, a successful mcOpenGPTA, and mcCloseSession. */
  datatype Call = Mmap(page: nat) | Munmap(page: nat) | McOpen(id: nat) | McClose(id: nat)

  /**
   session->imp: the handle names an mc session once one has been opened.  `log` is every call made,
   `used` the names given out.
   */
  datatype State = State(active: bool, tci: Option<nat>, handle: Option<nat>, log: seq<Call>, used: nat)

  const ZEROED := State(false, None, None, [], 0)

  /**
   How _TEEC_CallTA goes: the operation cannot be set up, or the trusted application answers, or it
   or the way to it fails.
   */
  datatype Outcome = SetupFails | Answered | Communication | TargetDead

  datatype Request =
    | Open(arguments: bool, mmapOk: bool, openOk: bool, ta: Outcome, taSuccess: bool)
    | Invoke(ta: Outcome)
    | Close(ta: Outcome)

  function Log(s: State, c: Call): State {
    s.(log := s.log + [c])
  }

  /** mcCloseSession, whatever it returns. */
  function CloseMc(s: State): State {
    if s.handle.Some? then Log(s, McClose(s.handle.value)) else s
  }

  function DropTci(s: State): State {
    if s.tci.Some? then Log(s, Munmap(s.tci.value)).(tci := None) else s
  }

  /** _TEEC_CallTA: a broken session is closed on the spot, one whose operation was not even set up is left alone. */
  function CallTA(s: State, ta: Outcome): (bool, State) {
    match ta
    case SetupFails => (false, s)
    case Answered => (true, s)
    case _ => (false, DropTci(CloseMc(s).(active := false)))
  }

  /** The label `error` in TEEC_OpenSession. */
  function OpenError(s: State): State {
    DropTci(if s.active then CloseMc(s).(active := false) else s)
  }

  function OpenSession(s: State, arguments: bool, mmapOk: bool, openOk: bool, ta: Outcome, taSuccess: bool)
    : (bool, State) {
    if !arguments then (false, s)
    else
      var s1 := s.(active := false, tci := None);
      if !mmapOk then (false, s1)
      else
        var s2 := Log(s1, Mmap(s1.used)).(tci := Some(s1.used), handle := None, used := s1.used + 1);
        if !openOk then (false, OpenError(s2))
        else
          var s3 := Log(s2, McOpen(s2.used)).(active := true, handle := Some(s2.used), used := s2.used + 1);
          var (ok, s4) := CallTA(s3, ta);
          if ok && taSuccess then (true, s4) else (false, OpenError(s4))
  }

  function InvokeCommand(s: State, ta: Outcome): State {
    if s.active then CallTA(s, ta).1 else s
  }

  /** With no operation there is nothing to set up. */
  function CloseSession(s: State, ta: Outcome): State {
    var s1 := if s.active && !ta.SetupFails? then CallTA(s, ta).1 else s;
    var s2 := if s1.active then CloseMc(s1) else s1;
    DropTci(s2).(active := false)
  }

  function Step(s: State, r: Request): State {
    match r
    case Open(arguments, mmapOk, openOk, ta, taSuccess) => OpenSession(s, arguments, mmapOk, openOk, ta, taSuccess).1
    case Invoke(ta) => InvokeCommand(s, ta)
    case Close(ta) => CloseSession(s, ta)
  }

  function After(history: seq<Request>): State {
    if history == [] then ZEROED else Step(After(history[..|history| - 1]), history[|history| - 1])
  }

  // ------------------------------------------------------------------------------------------
  // Counting
  // ------------------------------------------------------------------------------------------

  function Opened(log: seq<Call>): multiset<nat> {
    if log == [] then multiset{}
    else Opened(log[..|log| - 1]) + if log[|log| - 1].McOpen? then multiset{log[|log| - 1].id} else multiset{}
  }

  function Closed(log: seq<Call>): multiset<nat> {
    if log == [] then multiset{}
    else Closed(log[..|log| - 1]) + if log[|log| - 1].McClose? then multiset{log[|log| - 1].id} else multiset{}
  }

  function Mapped(log: seq<Call>): multiset<nat> {
    if log == [] then multiset{}
    else Mapped(log[..|log| - 1]) + if log[|log| - 1].Mmap? then multiset{log[|log| - 1].page} else multiset{}
  }

  function Unmapped(log: seq<Call>): multiset<nat> {
    if log == [] then multiset{}
    else Unmapped(log[..|log| - 1]) + if log[|log| - 1].Munmap? then multiset{log[|log| - 1].page} else multiset{}
  }

  /** One element, or none. */
  function Bag(o: Option<nat>): multiset<nat> {
    if o.Some? then multiset{o.value} else multiset{}
  }

  lemma LogCounts(s: State, c: Call)
    ensures var l, l' := s.log, Log(s, c).log;
            && Opened(l') == Opened(l) + Bag(if c.McOpen? then Some(c.id) else None)
            && Closed(l') == Closed(l) + Bag(if c.McClose? then Some(c.id) else None)
            && Mapped(l') == Mapped(l) + Bag(if c.Mmap? then Some(c.page) else None)
            && Unmapped(l') == Unmapped(l) + Bag(if c.Munmap? then Some(c.page) else None)
  {
    assert (s.log + [c])[..|s.log|] == s.log;
  }

  // ------------------------------------------------------------------------------------------
  // The balance
  // ------------------------------------------------------------------------------------------

  /** The mc session an object still owes a close, and the page it still owes an munmap. */
  function LiveSession(s: State): Option<nat> {
    if s.active then s.handle else None
  }

  /** Opening an object that is still active forgets what it holds. */
  predicate Reopens(s: State, r: Request) {
    r.Open? && r.arguments && s.active
  }

  function LostSessions(history: seq<Request>): multiset<nat> {
    if history == [] then multiset{}
    else
      var s, r := After(history[..|history| - 1]), history[|history| - 1];
      LostSessions(history[..|history| - 1]) + if Reopens(s, r) then Bag(s.handle) else multiset{}
  }

  function LostPages(history: seq<Request>): multiset<nat> {
    if history == [] then multiset{}
    else
      var s, r := After(history[..|history| - 1]), history[|history| - 1];
      LostPages(history[..|history| - 1]) + if Reopens(s, r) then Bag(s.tci) else multiset{}
  }

  /** Between calls an object is active exactly when it has a page, and then it has an mc session. */
  predicate AtRest(s: State) {
    (s.active <==> s.tci.Some?) && (s.active ==> s.handle.Some?)
  }

  /** Names are given out once. */
  ghost predicate Fresh(s: State) {
    && (forall n | n in Opened(s.log) :: n < s.used && Opened(s.log)[n] == 1)
    && (forall n | n in Mapped(s.log) :: n < s.used && Mapped(s.log)[n] == 1)
  }

  /** `sessions` and `pages` have been lost; the rest of what was opened and mapped is closed and unmapped, or live. */
  ghost predicate Balanced(s: State, sessions: multiset<nat>, pages: multiset<nat>) {
    && Opened(s.log) == Closed(s.log) + Bag(LiveSession(s)) + sessions
    && Mapped(s.log) == Unmapped(s.log) + Bag(s.tci) + pages
  }

  ghost predicate Good(s: State, sessions: multiset<nat>, pages: multiset<nat>) {
    Balanced(s, sessions, pages) && Fresh(s) && (s.active ==> s.handle.Some?)
  }

  lemma {:induction false} ClosingKeeps(s: State, sessions: multiset<nat>, pages: multiset<nat>)
    requires Good(s, sessions, pages) && s.active
    ensures Good(CloseMc(s).(active := false), sessions, pages)
  {
    hide Opened, Closed, Mapped, Unmapped;
    LogCounts(s, McClose(s.handle.value));
  }

  lemma {:induction false} DroppingKeeps(s: State, sessions: multiset<nat>, pages: multiset<nat>)
    requires Good(s, sessions, pages)
    ensures Good(DropTci(s), sessions, pages) && DropTci(s).active == s.active && DropTci(s).tci == None
  {
    hide Opened, Closed, Mapped, Unmapped;
    if s.tci.Some? {
      LogCounts(s, Munmap(s.tci.value));
    }
  }

  function Forgotten(s: State): State {
    s.(active := false, tci := None)
  }

  lemma ForgettingKeeps(s: State, sessions: multiset<nat>, pages: multiset<nat>)
    requires Good(s, sessions, pages)
    ensures Good(Forgotten(s), sessions + Bag(LiveSession(s)), pages + Bag(s.tci))
  {
    hide Opened, Closed, Mapped, Unmapped;
  }

  function WithPage(s: State): State {
    Log(s, Mmap(s.used)).(tci := Some(s.used), handle := None, used := s.used + 1)
  }

  lemma {:induction false} MappingKeeps(s: State, sessions: multiset<nat>, pages: multiset<nat>)
    requires Good(s, sessions, pages) && !s.active && s.tci == None
    ensures Good(WithPage(s), sessions, pages)
  {
    hide Opened, Closed, Mapped, Unmapped;
    LogCounts(s, Mmap(s.used));
  }

  function WithSession(s: State): State {
    Log(s, McOpen(s.used)).(active := true, handle := Some(s.used), used := s.used + 1)
  }

  lemma {:induction false} OpeningKeeps(s: State, sessions: multiset<nat>, pages: multiset<nat>)
    requires Good(s, sessions, pages) && !s.active
    ensures Good(WithSession(s), sessions, pages)
  {
    hide Opened, Closed, Mapped, Unmapped;
    LogCounts(s, McOpen(s.used));
  }

  lemma {:induction false} CallTAKeeps(s: State, ta: Outcome, sessions: multiset<nat>, pages: multiset<nat>)
    requires Good(s, sessions, pages) && s.active && s.tci.Some?
    ensures var (ok, r) := CallTA(s, ta);
            AtRest(r) && Good(r, sessions, pages) && r.active == (ta.SetupFails? || ta.Answered?) && (ok ==> r.active)
  {
    HandleOfActive(s, sessions, pages);
    ClosingKeeps(s, sessions, pages);
    DroppingKeeps(CloseMc(s).(active := false), sessions, pages);
    hide Good, DropTci;
  }

  lemma HandleOfActive(s: State, sessions: multiset<nat>, pages: multiset<nat>)
    requires Good(s, sessions, pages)
    ensures s.active ==> s.handle.Some?
  {
    hide Balanced, Fresh;
  }

  lemma {:induction false} ErrorKeeps(s: State, sessions: multiset<nat>, pages: multiset<nat>)
    requires Good(s, sessions, pages)
    ensures var r := OpenError(s); AtRest(r) && !r.active && Good(r, sessions, pages)
  {
    hide Good, DropTci, CloseMc;
    if s.active {
      ClosingKeeps(s, sessions, pages);
    }
    DroppingKeeps(if s.active then CloseMc(s).(active := false) else s, sessions, pages);
  }

  lemma {:induction false} OpenKeeps(s: State, r: Request, sessions: multiset<nat>, pages: multiset<nat>)
    requires r.Open? && r.arguments && AtRest(s) && Good(s, sessions, pages)
    ensures AtRest(Step(s, r)) && Good(Step(s, r), sessions + Bag(LiveSession(s)), pages + Bag(s.tci))
  {
    hide Good, CallTA, OpenError, Bag, LiveSession;
    var ss, ps := sessions + Bag(LiveSession(s)), pages + Bag(s.tci);
    ForgettingKeeps(s, sessions, pages);
    if r.mmapOk {
      MappingKeeps(Forgotten(s), ss, ps);
      var s2 := WithPage(Forgotten(s));
      if !r.openOk {
        ErrorKeeps(s2, ss, ps);
      } else {
        OpeningKeeps(s2, ss, ps);
        CallTAKeeps(WithSession(s2), r.ta, ss, ps);
        ErrorKeeps(CallTA(WithSession(s2), r.ta).1, ss, ps);
      }
    }
  }

  lemma {:induction false} CloseKeeps(s: State, ta: Outcome, sessions: multiset<nat>, pages: multiset<nat>)
    requires AtRest(s) && Good(s, sessions, pages)
    ensures var s' := CloseSession(s, ta); AtRest(s') && !s'.active && Good(s', sessions, pages)
  {
    var s1 := if s.active && !ta.SetupFails? then CallTA(s, ta).1 else s;
    assert CloseSession(s, ta) == DropTci(if s1.active then CloseMc(s1).(active := false) else s1);
    hide Good, CallTA, DropTci, CloseMc, CloseSession;
    if s.active {
      CallTAKeeps(s, ta, sessions, pages);
    }
    if s1.active {
      ClosingKeeps(s1, sessions, pages);
    }
    DroppingKeeps(if s1.active then CloseMc(s1).(active := false) else s1, sessions, pages);
  }

  /**
   Over every history: an active object has a page and an mc session; every mc session opened is
   closed once, or live, or was lost by opening the object again; and so for the pages.
   */
  lemma {:induction false} Balance(history: seq<Request>)
    ensures var s := After(history);
            AtRest(s) && Good(s, LostSessions(history), LostPages(history))
  {
    hide Good, CallTA, OpenSession, CloseSession, Bag;
    if history == [] {
      NothingYet();
    } else {
      var front, r := history[..|history| - 1], history[|history| - 1];
      Balance(front);
      var s, sessions, pages := After(front), LostSessions(front), LostPages(front);
      match r
      case Open(arguments, _, _, _, _) =>
        if arguments {
          OpenKeeps(s, r, sessions, pages);
        } else {
          BadArguments(s, r);
        }
        NothingLost(s, sessions, pages);
      case Invoke(ta) =>
        if s.active {
          CallTAKeeps(s, ta, sessions, pages);
        }
        NothingLost(s, sessions, pages);
      case Close(ta) =>
        CloseKeeps(s, ta, sessions, pages);
        NothingLost(s, sessions, pages);
    }
  }

  lemma BadArguments(s: State, r: Request)
    requires r.Open? && !r.arguments
    ensures Step(s, r) == s
  {}

  lemma NothingLost(s: State, sessions: multiset<nat>, pages: multiset<nat>)
    ensures !s.active ==> sessions + Bag(LiveSession(s)) == sessions && (s.tci.None? ==> pages + Bag(s.tci) == pages)
    ensures sessions + multiset{} == sessions && pages + multiset{} == pages
  {}

  lemma NothingYet()
    ensures AtRest(ZEROED) && Good(ZEROED, multiset{}, multiset{})
  {}

  /** The mc session of an active object has been opened, and close has not been called on it. */
  lemma {:induction false} ActiveIsOpen(history: seq<Request>)
    requires After(history).active
    ensures var s := After(history);
            s.tci.Some? && s.handle.Some? && s.handle.value in Opened(s.log) && s.handle.value !in Closed(s.log)
            && s.tci.value in Mapped(s.log) && s.tci.value !in Unmapped(s.log)
  {
    hide Opened, Closed, Mapped, Unmapped;
    Balance(history);
    var s := After(history);
    var h, p := s.handle.value, s.tci.value;
    assert Opened(s.log)[h] == Closed(s.log)[h] + 1 + LostSessions(history)[h];
    assert Mapped(s.log)[p] == Unmapped(s.log)[p] + 1 + LostPages(history)[p];
  }

  /** Nobody opens an object that is still active. */
  predicate NeverReopens(history: seq<Request>) {
    history == [] ||
    (NeverReopens(history[..|history| - 1]) && !Reopens(After(history[..|history| - 1]), history[|history| - 1]))
  }

  lemma {:induction false} LostExactly(history: seq<Request>)
    ensures LostSessions(history) == multiset{} <==> NeverReopens(history)
    ensures LostPages(history) == multiset{} <==> NeverReopens(history)
  {
    hide Opened, Closed, Mapped, Unmapped, Step;
    if history != [] {
      var front := history[..|history| - 1];
      LostExactly(front);
      Balance(front);
      var s, r := After(front), history[|history| - 1];
      if Reopens(s, r) {
        assert LostSessions(history)[s.handle.value] > 0 && LostPages(history)[s.tci.value] > 0;
      } else {
        assert LostSessions(history) == LostSessions(front) && LostPages(history) == LostPages(front);
      }
    }
  }

  /**
   Once an object is inactive (its opening failed, a command found it broken, or it was closed),
   each mc session has had exactly one close and each page exactly one munmap, if and only if the
   object was never opened while active.
   */
  lemma {:induction false} CleanExactly(history: seq<Request>)
    requires !After(history).active
    ensures var log := After(history).log;
            && (Opened(log) == Closed(log) <==> NeverReopens(history))
            && (Mapped(log) == Unmapped(log) <==> NeverReopens(history))
            && forall n | n in Closed(log) :: Closed(log)[n] == 1
  {
    hide Opened, Closed, Mapped, Unmapped, After;
    Balance(history);
    LostExactly(history);
    var log := After(history).log;
    SumIsNothing(Opened(log), Closed(log), LostSessions(history));
    SumIsNothing(Mapped(log), Unmapped(log), LostPages(history));
    forall n | n in Closed(log)
      ensures Closed(log)[n] == 1
    {
      assert Opened(log)[n] == Closed(log)[n] + LostSessions(history)[n];
    }
  }

  lemma SumIsNothing(whole: multiset<nat>, part: multiset<nat>, rest: multiset<nat>)
    requires whole == part + multiset{} + rest
    ensures whole == part <==> rest == multiset{}
  {
    if whole == part {
      assert forall n :: whole[n] == part[n] + rest[n];
    }
  }

  // ------------------------------------------------------------------------------------------
  // What each request does
  // ------------------------------------------------------------------------------------------

  /** Everything goes well: page, mc session, the way to the application, and the application's own answer. */
  predicate Succeeds(r: Request) {
    r.Open? && r.arguments && r.mmapOk && r.openOk && r.ta.Answered? && r.taSuccess
  }

  /** The calls an opening makes: what it has acquired is given back, in reverse, unless it succeeds. */
  function OpeningCalls(r: Request, used: nat): seq<Call>
    requires r.Open?
  {
    if !r.arguments || !r.mmapOk then []
    else if !r.openOk then [Mmap(used), Munmap(used)]
    else if Succeeds(r) then [Mmap(used), McOpen(used + 1)]
    else [Mmap(used), McOpen(used + 1), McClose(used + 1), Munmap(used)]
  }

  /** Opening succeeds, and leaves the object active, exactly if everything goes well; else it gives everything back. */
  lemma {:induction false} OpenExactly(s: State, r: Request)
    requires r.Open?
    ensures var (ok, s') := OpenSession(s, r.arguments, r.mmapOk, r.openOk, r.ta, r.taSuccess);
            && s' == Step(s, r)
            && (!r.arguments ==> s' == s)
            && (ok <==> Succeeds(r)) && (r.arguments ==> (s'.active <==> Succeeds(r)))
            && s'.log == s.log + OpeningCalls(r, s.used)
            && (ok ==> s'.tci == Some(s.used) && s'.handle == Some(s.used + 1))
            && (r.arguments && !ok ==> s'.tci == None)
  {
    if !r.arguments {
      assert s.log + [] == s.log;
    } else if r.mmapOk && !r.openOk {
      assert s.log + [Mmap(s.used)] + [Munmap(s.used)] == s.log + [Mmap(s.used), Munmap(s.used)];
    } else if r.mmapOk {
      var acquired := s.log + [Mmap(s.used)] + [McOpen(s.used + 1)];
      assert acquired == s.log + [Mmap(s.used), McOpen(s.used + 1)];
      assert acquired + [McClose(s.used + 1)] + [Munmap(s.used)]
          == s.log + [Mmap(s.used), McOpen(s.used + 1), McClose(s.used + 1), Munmap(s.used)];
    }
  }

  /** The calls that give back what an active object has. */
  function GivingBack(s: State): seq<Call>
    requires s.active ==> s.handle.Some? && s.tci.Some?
  {
    if s.active then [McClose(s.handle.value), Munmap(s.tci.value)] else []
  }

  /**
   After any history a command leaves an active object active exactly if it cannot be set up or the
   application answers; if not, and on closing, what the object has is given back, the mc session
   first.  An inactive object is left alone.
   */
  lemma {:induction false} InvokeAndCloseExactly(history: seq<Request>, ta: Outcome)
    ensures var s := After(history);
            && (s.active ==> s.handle.Some? && s.tci.Some?)
            && var (invoked, closed) := (Step(s, Invoke(ta)), Step(s, Close(ta)));
            && (if !s.active || ta.SetupFails? || ta.Answered? then invoked == s
                else !invoked.active && invoked.tci == None && invoked.log == s.log + GivingBack(s))
            && !closed.active && closed.tci == None && closed.log == s.log + GivingBack(s)
  {
    hide Good, After;
    Balance(history);
    var s := After(history);
    if s.active {
      assert s.log + [McClose(s.handle.value)] + [Munmap(s.tci.value)] == s.log + GivingBack(s);
    } else {
      assert s.log + [] == s.log;
    }
  }

  /**
   After any history an opening with its arguments right ends active exactly if everything goes well;
   a close never does.
   */
  lemma {:induction false} FailureAndCloseEndIt(history: seq<Request>, r: Request)
    ensures r.Open? && r.arguments ==> (After(history + [r]).active <==> Succeeds(r))
    ensures r.Close? ==> !After(history + [r]).active
  {
    assert (history + [r])[..|history|] == history;
    if r.Open? && r.arguments {
      OpenExactly(After(history), r);
    } else if r.Close? {
      InvokeAndCloseExactly(history, r.ta);
    }
    hide Step, OpenSession, CloseSession;
  }

  /** Opened twice and closed once: the first mc session is never closed, the first page never unmapped. */
  lemma {:induction false} OpenedTwice()
    ensures var open := Open(true, true, true, Answered, true);
            var log := After([open, open, Close(Answered)]).log;
            Opened(log) != Closed(log) && Mapped(log) != Unmapped(log)
  {
    var open, close := Open(true, true, true, Answered, true), Close(Answered);
    var once, twice, history := [open], [open, open], [open, open, close];
    assert [] + [open] == once && once + [open] == twice && twice + [close] == history;
    assert once[..0] == [] && twice[..1] == once && history[..2] == twice;
    OpenExactly(ZEROED, open);
    InvokeAndCloseExactly(twice, Answered);
    assert Reopens(After(once), open);
    hide Opened, Closed, Mapped, Unmapped, Step, OpenSession;
    CleanExactly(history);
  }

  // ------------------------------------------------------------------------------------------
  // The object
  // ------------------------------------------------------------------------------------------

  class SessionObject {
    var active: bool
    var tci: Option<nat>
    var handle: Option<nat>
    ghost var log: seq<Call>
    var used: nat

    ghost function View(): State
      reads this
    {
      State(active, tci, handle, log, used)
    }

    constructor ()
      ensures View() == ZEROED
    {
      active, tci, handle, log, used := false, None, None, [], 0;
    }

    method McCloseSession()
      modifies this`log
      ensures View() == CloseMc(old(View()))
    {
      if handle.Some? {
        log := log + [McClose(handle.value)];
      }
    }

    method UnmapTci()
      modifies this`log, this`tci
      ensures View() == DropTci(old(View()))
    {
      if tci.Some? {
        log := log + [Munmap(tci.value)];
        tci := None;
      }
    }

    method CallTrustedApp(ta: Outcome) returns (ok: bool)
      requires tci.Some?
      modifies this
      ensures (ok, View()) == CallTA(old(View()), ta)
    {
      if ta.SetupFails? {
        return false;
      }
      if ta != Answered {
        McCloseSession();
        active := false;
        UnmapTci();
        return false;
      }
      return true;
    }

    /** The label `error` in TEEC_OpenSession. */
    method Error()
      modifies this
      ensures View() == OpenError(old(View()))
    {
      if active {
        McCloseSession();
        active := false;
      }
      UnmapTci();
    }

    method Open(arguments: bool, mmapOk: bool, openOk: bool, ta: Outcome, taSuccess: bool) returns (ok: bool)
      modifies this
      ensures (ok, View()) == OpenSession(old(View()), arguments, mmapOk, openOk, ta, taSuccess)
    {
      hide OpenError, CallTA;
      if !arguments {
        return false;
      }
      active := false;
      tci := None;
      if !mmapOk {
        return false;
      }
      log := log + [Mmap(used)];
      tci, used := Some(used), used + 1;
      handle := None;
      label Body: {
        if !openOk {
          break Body;
        }
        log := log + [McOpen(used)];
        handle, used := Some(used), used + 1;
        active := true;
        ok := CallTrustedApp(ta);
        if !ok {
          break Body;
        }
        if !taSuccess {
          break Body;
        }
        return true;
      }
      Error();
      return false;
    }

    method Invoke(ta: Outcome)
      requires active ==> tci.Some?
      modifies this
      ensures View() == InvokeCommand(old(View()), ta)
    {
      if !active {
        return;
      }
      var _ := CallTrustedApp(ta);
    }

    method Close(ta: Outcome)
      requires active ==> tci.Some?
      modifies this
      ensures View() == CloseSession(old(View()), ta)
    {
      if active {
        if !ta.SetupFails? {
          var _ := CallTrustedApp(ta);
        }
        if active {
          McCloseSession();
        }
      }
      UnmapTci();
      active := false;
    }
  }
}
