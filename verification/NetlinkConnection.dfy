/**
 A netlink connection turns one message at a time into a byte stream: handleMessage takes over
 the message buffer and signals a semaphore, readData waits on it, copies the next bytes, and
 signals again while bytes remain or frees the buffer when none do.  One reader.
 */
module NetlinkConnection {
  import opened Wrappers
  import opened Words

  /** A message buffer; `id` tells the buffers of a connection apart. */
  datatype Message = Message(id: nat, payload: seq<byte>)

  /**
   dataMsg, dataStart (as an offset into the payload), dataLen and the count of the semaphore
   dataLeft.  `received` counts messages and `freed` lists the buffers freed so far.
   */
  datatype State = State(dataMsg: Option<Message>, dataStart: nat, dataLen: nat, dataLeft: int, received: nat,
                         freed: seq<nat>)

  const FRESH := State(None, 0, 0, 0, 0, [])

  /** How pthread_cond_timedwait ends when the reader finds the count at zero. */
  datatype Wakeup = TimesOut | Spurious

  datatype Event = Arrive(payload: seq<byte>) | Read(len: nat, wakeup: Wakeup)

  /** What readData returns: None for -2. */
  type Got = Option<seq<byte>>

  function HandleMessage(s: State, payload: seq<byte>): State {
    s.(dataMsg := Some(Message(s.received, payload)), dataLen := |payload|, dataStart := 0,
       dataLeft := s.dataLeft + 1, received := s.received + 1)
  }

  /** CSemaphore::wait(int) for a single reader: the count is not looked at again after waking. */
  function WaitFor(s: State, wakeup: Wakeup): (bool, State) {
    if s.dataLeft == 0 && wakeup.TimesOut? then (false, s) else (true, s.(dataLeft := s.dataLeft - 1))
  }

  predicate Consistent(s: State) {
    s.dataLen > 0 ==> s.dataMsg.Some? && s.dataStart + s.dataLen == |s.dataMsg.value.payload|
  }

  function Held(s: State): seq<nat> {
    if s.dataMsg.Some? then [s.dataMsg.value.id] else []
  }

  function Drop(s: State): State {
    s.(dataStart := 0, dataMsg := None, freed := s.freed + Held(s))
  }

  function Consumed(s: State, n: nat): State
    requires n <= s.dataLen
  {
    var rest := s.(dataLen := s.dataLen - n, dataStart := s.dataStart + n);
    if rest.dataLen == 0 then Drop(rest) else rest.(dataLeft := rest.dataLeft + 1)
  }

  function ReadData(s: State, len: nat, wakeup: Wakeup): (Got, State)
    requires Consistent(s)
  {
    var (woken, w) := WaitFor(s, wakeup);
    if !woken || w.dataLen == 0 then (None, w)
    else
      var n := if len > w.dataLen then w.dataLen else len;
      var copied := w.dataMsg.value.payload[w.dataStart..w.dataStart + n];
      (Some(copied), Consumed(w, n))
  }

  function Step(s: State, e: Event): (r: State)
    requires Consistent(s)
    ensures Consistent(r)
  {
    match e
    case Arrive(payload) => HandleMessage(s, payload)
    case Read(len, wakeup) => ReadData(s, len, wakeup).1
  }

  function After(events: seq<Event>): (s: State)
    ensures Consistent(s)
  {
    if events == [] then FRESH else Step(After(events[..|events| - 1]), events[|events| - 1])
  }

  function In(e: Event): seq<byte> {
    if e.Arrive? then e.payload else []
  }

  function Out(s: State, e: Event): seq<byte>
    requires Consistent(s)
  {
    if e.Arrive? then [] else var got := ReadData(s, e.len, e.wakeup).0; if got.Some? then got.value else []
  }

  /** Everything that arrived, and everything that was read, as byte streams. */
  function Arrived(events: seq<Event>): seq<byte> {
    if events == [] then [] else Arrived(events[..|events| - 1]) + In(events[|events| - 1])
  }

  function Output(events: seq<Event>): seq<byte> {
    if events == [] then []
    else Output(events[..|events| - 1]) + Out(After(events[..|events| - 1]), events[|events| - 1])
  }

  // ------------------------------------------------------------------------------------------
  // The stream
  // ------------------------------------------------------------------------------------------

  function Remaining(s: State): seq<byte>
    requires Consistent(s)
  {
    if s.dataLen == 0 then [] else s.dataMsg.value.payload[s.dataStart..]
  }

  function Range(n: nat): seq<nat> {
    seq(n, i => i)
  }

  /** The count is one exactly when bytes remain; a buffer is held exactly then; all others are freed, once each. */
  ghost predicate Good(s: State) {
    && Consistent(s)
    && s.dataLeft == (if s.dataLen > 0 then 1 else 0)
    && (s.dataMsg.Some? <==> s.dataLen > 0)
    && (s.dataMsg.Some? ==> s.received > 0 && s.dataMsg.value.id == s.received - 1)
    && s.freed == Range(if s.dataMsg.Some? then s.received - 1 else s.received)
  }

  /** A message has bytes and comes when the last one is drained; the reader only wakes when signalled. */
  predicate Disciplined(s: State, e: Event) {
    match e
    case Arrive(payload) => payload != [] && s.dataLen == 0
    case Read(_, wakeup) => s.dataLeft == 0 ==> wakeup.TimesOut?
  }

  lemma RangeSnoc(n: nat)
    ensures Range(n) + [n] == Range(n + 1)
  {}

  /** From a good state the discipline is exactly what keeps it good. */
  lemma {:induction false} GoodExactly(s: State, e: Event)
    requires Good(s)
    ensures Good(Step(s, e)) <==> Disciplined(s, e)
  {
    RangeSnoc(s.received);
    if s.received > 0 {
      RangeSnoc(s.received - 1);
    }
  }

  lemma ReadDataIs(s: State, len: nat, wakeup: Wakeup)
    requires Consistent(s)
    ensures var (woken, w) := WaitFor(s, wakeup);
            if !woken || w.dataLen == 0 then ReadData(s, len, wakeup) == (None, w)
            else
              var n := if len > w.dataLen then w.dataLen else len;
              && w.dataMsg.Some?
              && ReadData(s, len, wakeup)
                 == (Some(w.dataMsg.value.payload[w.dataStart..w.dataStart + n]), Consumed(w, n))
  {
    hide Consumed;
  }

  /** A read delivers the next bytes, as many as asked for or as are left. */
  lemma {:induction false} ReadDelivers(s: State, len: nat, wakeup: Wakeup)
    requires Good(s) && Disciplined(s, Read(len, wakeup))
    ensures var (got, r) := ReadData(s, len, wakeup);
            if Remaining(s) == [] then got == None && r == s
            else
              var n := if len > |Remaining(s)| then |Remaining(s)| else len;
              got == Some(Remaining(s)[..n]) && Remaining(r) == Remaining(s)[n..]
  {
    if s.dataLen > 0 {
      var payload := s.dataMsg.value.payload;
      var n := if len > s.dataLen then s.dataLen else len;
      assert payload[s.dataStart..][..n] == payload[s.dataStart..s.dataStart + n];
      assert payload[s.dataStart..][n..] == payload[s.dataStart + n..];
    }
  }

  predicate AllDisciplined(events: seq<Event>) {
    events == [] ||
    (AllDisciplined(events[..|events| - 1]) && Disciplined(After(events[..|events| - 1]), events[|events| - 1]))
  }

  lemma {:induction false} StreamKept(s: State, e: Event, arrived: seq<byte>, output: seq<byte>)
    requires Good(s) && Disciplined(s, e) && arrived == output + Remaining(s)
    ensures arrived + In(e) == (output + Out(s, e)) + Remaining(Step(s, e))
  {
    hide ReadData, HandleMessage, Good, Disciplined, Remaining;
    match e
    case Arrive(payload) =>
      ArrivalRemains(s, payload);
    case Read(len, wakeup) =>
      ReadDelivers(s, len, wakeup);
  }

  /**
   On every disciplined run what has been read, followed by what remains, is what has arrived;
   the semaphore and the buffer are as Good says.
   */
  lemma {:induction false} StreamRefinement(events: seq<Event>)
    requires AllDisciplined(events)
    ensures Good(After(events))
    ensures Arrived(events) == Output(events) + Remaining(After(events))
  {
    hide Step, Good, Disciplined, Remaining, In, Out;
    if events == [] {
      FreshIsGood();
    } else {
      var front, e := events[..|events| - 1], events[|events| - 1];
      StreamRefinement(front);
      GoodExactly(After(front), e);
      StreamKept(After(front), e, Arrived(front), Output(front));
    }
  }

  lemma FreshIsGood()
    ensures Good(FRESH) && Remaining(FRESH) == []
  {}

  lemma ArrivalRemains(s: State, payload: seq<byte>)
    requires Good(s) && Disciplined(s, Arrive(payload))
    ensures Remaining(s) == [] && Remaining(HandleMessage(s, payload)) == payload
  {}

  // ------------------------------------------------------------------------------------------
  // Every run, disciplined or not
  // ------------------------------------------------------------------------------------------

  /** No message arrives while bytes of another are unread. */
  predicate NeverOvertakes(events: seq<Event>) {
    events == [] || (NeverOvertakes(events[..|events| - 1])
                     && (events[|events| - 1].Arrive? ==> After(events[..|events| - 1]).dataLen == 0))
  }

  /** No message arrives while a buffer is held, be it an empty one. */
  predicate NeverOverwrites(events: seq<Event>) {
    events == [] || (NeverOverwrites(events[..|events| - 1])
                     && (events[|events| - 1].Arrive? ==> After(events[..|events| - 1]).dataMsg.None?))
  }

  /** The buffers held when another message arrived. */
  function Overwritten(events: seq<Event>): (ids: seq<nat>)
    ensures ids == [] <==> NeverOverwrites(events)
  {
    if events == [] then []
    else
      var lost := if events[|events| - 1].Arrive? then Held(After(events[..|events| - 1])) else [];
      Overwritten(events[..|events| - 1]) + lost
  }

  lemma Cut(payload: seq<byte>, i: nat, n: nat)
    requires i + n <= |payload|
    ensures payload[i..i + n] + payload[i + n..] == payload[i..]
  {}

  lemma ConsumedRemains(s: State, n: nat)
    requires Consistent(s) && 0 < s.dataLen && n <= s.dataLen
    ensures Remaining(s) == s.dataMsg.value.payload[s.dataStart..s.dataStart + n] + Remaining(Consumed(s, n))
  {
    Cut(s.dataMsg.value.payload, s.dataStart, n);
  }

  /** Whatever the count of the semaphore, a read divides what remained. */
  lemma {:induction false} ReadDivides(s: State, len: nat, wakeup: Wakeup)
    requires Consistent(s)
    ensures Out(s, Read(len, wakeup)) + Remaining(Step(s, Read(len, wakeup))) == Remaining(s)
  {
    var (woken, w) := WaitFor(s, wakeup);
    if woken && w.dataLen > 0 {
      ConsumedRemains(w, if len > w.dataLen then w.dataLen else len);
    }
    hide Consumed;
  }

  /** And at most it moves the buffer held to those freed. */
  lemma {:induction false} ReadFrees(s: State, len: nat, wakeup: Wakeup)
    requires Consistent(s)
    ensures var r := Step(s, Read(len, wakeup));
            && r.received == s.received
            && ((r.freed == s.freed && Held(r) == Held(s)) || (r.freed == s.freed + Held(s) && Held(r) == []))
  {}

  lemma ArrivalReplaces(s: State, payload: seq<byte>)
    requires Consistent(s)
    ensures var r := Step(s, Arrive(payload));
            Remaining(r) == payload && Held(r) == [s.received] && r.received == s.received + 1 && r.freed == s.freed
  {}

  /**
   What has been read, followed by what remains, is what has arrived exactly when no message overtook
   unread bytes.
   */
  lemma {:induction false} StreamExactly(events: seq<Event>)
    ensures Arrived(events) == Output(events) + Remaining(After(events)) <==> NeverOvertakes(events)
    ensures |Arrived(events)| >= |Output(events)| + |Remaining(After(events))|
    ensures |Arrived(events)| == |Output(events)| + |Remaining(After(events))| ==> NeverOvertakes(events)
  {
    hide Step, ReadData, HandleMessage;
    if events != [] {
      var front, e := events[..|events| - 1], events[|events| - 1];
      StreamExactly(front);
      var s := After(front);
      match e
      case Arrive(payload) =>
        ArrivalReplaces(s, payload);
      case Read(len, wakeup) =>
        ReadDivides(s, len, wakeup);
        assert Output(front) + Remaining(s) == Output(events) + Remaining(After(events));
    }
  }

  function Ids(n: nat): multiset<nat> {
    multiset(Range(n))
  }

  function FreedIn(s: State): multiset<nat> {
    multiset(s.freed)
  }

  function HeldIn(s: State): multiset<nat> {
    multiset(Held(s))
  }

  function LostIn(events: seq<Event>): multiset<nat> {
    multiset(Overwritten(events))
  }

  lemma IdsSnoc(n: nat)
    ensures Ids(n + 1) == Ids(n) + multiset([n])
  {
    RangeSnoc(n);
    hide Range;
    assert Range(n + 1) == Range(n) + [n];
  }

  lemma LostSnoc(events: seq<Event>)
    requires events != []
    ensures var front := events[..|events| - 1];
            LostIn(events)
            == if events[|events| - 1].Arrive? then LostIn(front) + HeldIn(After(front)) else LostIn(front)
  {
    hide After, Held, NeverOverwrites;
    var front := events[..|events| - 1];
    if events[|events| - 1].Arrive? {
      assert Overwritten(events) == Overwritten(front) + Held(After(front));
    } else {
      assert Overwritten(events) == Overwritten(front);
    }
  }

  lemma ArrivalAccounts(s: State, payload: seq<byte>)
    requires Consistent(s)
    ensures var r := Step(s, Arrive(payload));
            && r.received == s.received + 1 && FreedIn(r) == FreedIn(s)
            && Ids(r.received) == Ids(s.received) + HeldIn(r)
  {
    hide Step, Held, Ids;
    ArrivalReplaces(s, payload);
    IdsSnoc(s.received);
  }

  lemma ReadAccounts(s: State, len: nat, wakeup: Wakeup)
    requires Consistent(s)
    ensures var r := Step(s, Read(len, wakeup));
            r.received == s.received && FreedIn(r) + HeldIn(r) == FreedIn(s) + HeldIn(s)
  {
    hide Step, Held;
    ReadFrees(s, len, wakeup);
  }

  /** Every buffer received is freed, held, or was overwritten while held: one of these, once. */
  lemma {:induction false} Accounting(events: seq<Event>)
    ensures var s := After(events); Ids(s.received) == FreedIn(s) + HeldIn(s) + LostIn(events)
  {
    if events != [] {
      hide Step, Ids, FreedIn, HeldIn, LostIn;
      var front := events[..|events| - 1];
      Accounting(front);
      LostSnoc(events);
      match events[|events| - 1]
      case Arrive(payload) => ArrivalAccounts(After(front), payload);
      case Read(len, wakeup) => ReadAccounts(After(front), len, wakeup);
    }
  }

  /**
   The destructor frees what is held.  The buffers never freed are exactly the overwritten ones,
   so every buffer is freed exactly once exactly when no message arrives while one is held.
   */
  lemma {:induction false} FreedOnceExactly(events: seq<Event>)
    ensures var freed, all := Drop(After(events)).freed, Range(After(events).received);
            && multiset(all) == multiset(freed) + multiset(Overwritten(events))
            && (multiset(freed) == multiset(all) <==> NeverOverwrites(events))
  {
    hide Overwritten, NeverOverwrites, After;
    Accounting(events);
    var s, lost := After(events), Overwritten(events);
    assert multiset(Drop(s).freed) == multiset(s.freed) + multiset(Held(s));
    assert lost != [] ==> lost[0] in multiset(lost);
  }

  /**
   Discipline is enough, and more than enough: an empty message with nothing after it, or a spurious
   wakeup, loses no buffer.
   */
  lemma {:induction false} DisciplinedNeverOverwrites(events: seq<Event>)
    requires AllDisciplined(events)
    ensures NeverOverwrites(events) && NeverOvertakes(events)
  {
    hide Step, Good;
    if events != [] {
      DisciplinedNeverOverwrites(events[..|events| - 1]);
      StreamRefinement(events[..|events| - 1]);
      GoodHolds(After(events[..|events| - 1]));
    }
  }

  lemma GoodHolds(s: State)
    requires Good(s)
    ensures s.dataMsg.None? <==> s.dataLen == 0
  {}

  lemma OnlyArrival(payload: seq<byte>)
    ensures After([Arrive(payload)]) == HandleMessage(FRESH, payload)
  {
    assert [Arrive(payload)][..0] == [];
  }

  lemma ArrivalAfter(events: seq<Event>, payload: seq<byte>)
    requires After(events).dataLen > 0 && After(events).dataMsg.Some?
    ensures !NeverOvertakes(events + [Arrive(payload)]) && !NeverOverwrites(events + [Arrive(payload)])
  {
    assert (events + [Arrive(payload)])[..|events|] == events;
    hide After;
  }

  /** Two messages in a row: the first buffer is never freed, and its bytes are never read. */
  lemma {:induction false} SecondOvertakes(first: seq<byte>, second: seq<byte>)
    requires first != []
    ensures var run := [Arrive(first)] + [Arrive(second)];
            && multiset(Drop(After(run)).freed) != multiset(Range(After(run).received))
            && Arrived(run) != Output(run) + Remaining(After(run))
  {
    hide After, Arrived, Output, Remaining, Drop, Range, NeverOvertakes, NeverOverwrites;
    OnlyArrival(first);
    ArrivalAfter([Arrive(first)], second);
    FreedOnceExactly([Arrive(first)] + [Arrive(second)]);
    StreamExactly([Arrive(first)] + [Arrive(second)]);
  }

  // ------------------------------------------------------------------------------------------
  // The count
  // ------------------------------------------------------------------------------------------

  /** How an event moves the count away from the number of messages to be read, which is one or none. */
  function Drift(s: State, e: Event): int {
    match e
    case Arrive(payload) => (if payload == [] then 1 else 0) + (if s.dataLen > 0 then 1 else 0)
    case Read(_, wakeup) => if WaitFor(s, wakeup).0 && s.dataLen == 0 then -1 else 0
  }

  /**
   The empty messages, and those that overtake unread bytes, less the reads that get past the wait
   with nothing to be read.
   */
  function Drifted(events: seq<Event>): int {
    if events == [] then 0
    else Drifted(events[..|events| - 1]) + Drift(After(events[..|events| - 1]), events[|events| - 1])
  }

  function Unread(s: State): int {
    if s.dataLen > 0 then 1 else 0
  }

  lemma DriftOf(s: State, e: Event)
    requires Consistent(s)
    ensures Step(s, e).dataLeft - Unread(Step(s, e)) == s.dataLeft - Unread(s) + Drift(s, e)
  {}

  /** On every run the count of the semaphore is off by what has drifted. */
  lemma {:induction false} CountExactly(events: seq<Event>)
    ensures After(events).dataLeft == Unread(After(events)) + Drifted(events)
  {
    if events != [] {
      hide Step, Drift, Unread;
      CountExactly(events[..|events| - 1]);
      DriftOf(After(events[..|events| - 1]), events[|events| - 1]);
    }
  }

  /** Bytes that have arrived can be missed by a read that waits, exactly when the drift is minus one. */
  lemma {:induction false} StallsExactly(events: seq<Event>, len: nat)
    requires Remaining(After(events)) != []
    ensures ReadData(After(events), len, TimesOut).0 == None <==> Drifted(events) == -1
  {
    CountExactly(events);
    hide After, Drifted, Consumed;
  }

  /** With nothing to be read, a read waits for the next message exactly when nothing has drifted. */
  lemma {:induction false} WaitsExactly(events: seq<Event>)
    requires Remaining(After(events)) == []
    ensures !WaitFor(After(events), TimesOut).0 <==> Drifted(events) == 0
  {
    CountExactly(events);
    RemainingIsUnread(After(events));
    hide After, Drifted;
  }

  lemma RemainingIsUnread(s: State)
    requires Consistent(s)
    ensures Remaining(s) == [] <==> s.dataLen == 0
  {}

  /** A spurious wakeup drives the count below zero, so the next message is signalled to nobody. */
  lemma {:induction false} SpuriousWakeupStalls(payload: seq<byte>, len: nat)
    requires payload != []
    ensures var s := After([Read(len, Spurious), Arrive(payload)]);
            && Remaining(s) == payload && s.dataLeft == 0 && ReadData(s, len, TimesOut).0 == None
  {
    var first := [Read(len, Spurious)];
    assert [Read(len, Spurious), Arrive(payload)][..1] == first;
    assert first[..0] == [];
    assert After(first) == FRESH.(dataLeft := -1);
  }

  // ------------------------------------------------------------------------------------------
  // The class
  // ------------------------------------------------------------------------------------------

  class Connection {
    var dataMsg: Option<Message>
    var dataStart: nat
    var dataLen: nat
    var dataLeft: int
    ghost var received: nat
    ghost var freed: seq<nat>

    ghost function View(): State
      reads this
    {
      State(dataMsg, dataStart, dataLen, dataLeft, received, freed)
    }

    constructor ()
      ensures View() == FRESH
    {
      dataMsg, dataStart, dataLen, dataLeft := None, 0, 0, 0;
      received, freed := 0, [];
    }

    /** Takes over the buffer `nlh`, which the caller has numbered. */
    method Handle(nlh: Message)
      requires nlh.id == received
      modifies this
      ensures View() == HandleMessage(old(View()), nlh.payload)
    {
      dataMsg := Some(nlh);
      dataLen := |nlh.payload|;
      dataStart := 0;
      received := received + 1;
      dataLeft := dataLeft + 1;
    }

    method Wait(wakeup: Wakeup) returns (ok: bool)
      modifies this`dataLeft
      ensures (ok, View()) == WaitFor(old(View()), wakeup)
    {
      var rc := 0;
      if dataLeft == 0 {
        rc := if wakeup.TimesOut? then 1 else 0;
      }
      if rc == 0 {
        dataLeft := dataLeft - 1;
      }
      return rc == 0;
    }

    method Free()
      modifies this`freed
      ensures freed == old(freed) + if dataMsg.Some? then [dataMsg.value.id] else []
    {
      freed := freed + if dataMsg.Some? then [dataMsg.value.id] else [];
    }

    /** memcpy out of the message. */
    static method Copy(buffer: array<byte>, payload: seq<byte>, start: nat, n: nat)
      requires start + n <= |payload| && n <= buffer.Length
      modifies buffer
      ensures buffer[..] == payload[start..start + n] + old(buffer[..])[n..]
    {
      for i := 0 to n
        invariant forall j | 0 <= j < i :: buffer[j] == payload[start + j]
        invariant forall j | i <= j < buffer.Length :: buffer[j] == old(buffer[j])
      {
        buffer[i] := payload[start + i];
      }
    }

    /** readData: the bytes go to the start of the caller's buffer, the rest of which is untouched. */
    method Read(buffer: array<byte>, len: nat, wakeup: Wakeup) returns (ret: int)
      requires Consistent(View()) && len <= buffer.Length
      modifies this, buffer
      ensures var (got, r) := ReadData(old(View()), len, wakeup);
              && View() == r
              && (if got.None? then ret == -2 && buffer[..] == old(buffer[..])
                  else 0 <= ret == |got.value| <= buffer.Length && buffer[..] == got.value + old(buffer[..])[ret..])
    {
      hide Consumed, WaitFor, ReadData;
      ReadDataIs(View(), len, wakeup);
      var ok := Wait(wakeup);
      if !ok {
        return -2;
      }
      if dataLen <= 0 {
        return -2;
      }
      var payload := dataMsg.value.payload;
      if len > dataLen {
        ret := dataLen;
        Copy(buffer, payload, dataStart, dataLen);
      } else {
        ret := len;
        Copy(buffer, payload, dataStart, len);
      }
      Consume(ret);
    }

    /** The end of readData: frees the drained buffer, or leaves the rest for the next read. */
    method Consume(n: nat)
      requires n <= dataLen
      modifies this
      ensures View() == Consumed(old(View()), n)
    {
      dataStart, dataLen := dataStart + n, dataLen - n;
      if dataLen == 0 {
        dataStart := 0;
        Free();
        dataMsg := None;
      } else {
        dataLeft := dataLeft + 1;
      }
    }

    /** The destructor. */
    method Destroy()
      modifies this
      ensures View() == Drop(old(View()))
    {
      Free();
      dataStart, dataMsg := 0, None;
    }
  }
}
