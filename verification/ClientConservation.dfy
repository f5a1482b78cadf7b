/**
 Conservation of the kernel's registrations over every sequence of calls with every possible
 failure.
 */
module ClientConservation {
  import opened Wrappers
  import opened ClientTables

  // ------------------------------------------------------------------------------------------
  // Calls and runs
  // ------------------------------------------------------------------------------------------

  datatype Call =
    | OpenDeviceCall(id: nat)
    | CloseDeviceCall(id: nat)
    | OpenSessionCall(kind: OpenKind, given: bool, id: nat, tci: nat, len: nat)
    | CloseSessionCall(handle: Option<Handle>)
    | NotifyCall(handle: Option<Handle>)
    | MallocWsmCall(id: nat, len: nat, given: bool)
    | FreeWsmCall(id: nat, wsm: nat)
    | MapCall(handle: Option<Handle>, buf: nat, bufLen: nat, given: bool)
    | UnmapCall(handle: Option<Handle>, buf: nat, info: Option<MapInfo>)

  function Apply(c: Client, call: Call, a: Answers): Client {
    match call
    case OpenDeviceCall(id) => OpenDevice(c, id, a).1
    case CloseDeviceCall(id) => CloseDevice(c, id, a).1
    case OpenSessionCall(kind, given, id, tci, len) => OpenSession(c, kind, given, id, tci, len, a).2
    case CloseSessionCall(handle) => CloseSession(c, handle, a).1
    case NotifyCall(handle) => Notify(c, handle, a).1
    case MallocWsmCall(id, len, given) => MallocWsm(c, id, len, given, a).2
    case FreeWsmCall(id, wsm) => FreeWsm(c, id, wsm, a).1
    case MapCall(handle, buf, bufLen, given) => Map(c, handle, buf, bufLen, given, a).2
    case UnmapCall(handle, buf, info) => Unmap(c, handle, buf, info, a).2
  }

  datatype Event = Event(call: Call, answers: Answers)

  function After(events: seq<Event>): Client {
    if events == [] then EMPTY
    else Apply(After(events[..|events| - 1]), events[|events| - 1].call, events[|events| - 1].answers)
  }

  // ------------------------------------------------------------------------------------------
  // The invariant
  // ------------------------------------------------------------------------------------------

  /** Every held handle is registered, and is held by one descriptor only. */
  ghost predicate Owned(c: Client) {
    Held(c) <= multiset(c.registered) && 0 !in c.registered
  }

  ghost predicate DistinctIds(c: Client) {
    forall i, j | 0 <= i < j < |c.devices| :: c.devices[i].deviceId != c.devices[j].deviceId
  }

  ghost predicate DistinctAddresses(bufs: seq<Bulk>) {
    forall i, j | 0 <= i < j < |bufs| :: bufs[i].virtAddr != bufs[j].virtAddr
  }

  ghost predicate SessionsGood(ss: seq<Session>) {
    forall j | 0 <= j < |ss| :: DistinctAddresses(ss[j].bulkBufs)
  }

  ghost predicate AddressesOnce(c: Client) {
    forall i | 0 <= i < |c.devices| :: SessionsGood(c.devices[i].sessions)
  }

  ghost predicate Invariant(c: Client) {
    Owned(c) && DistinctIds(c) && AddressesOnce(c)
  }

  /** Registered, and in no descriptor: nothing will ever unregister it. */
  function Orphans(c: Client): set<nat> {
    set h | h in c.registered && h !in Held(c)
  }

  // ------------------------------------------------------------------------------------------
  // What becomes orphaned
  // ------------------------------------------------------------------------------------------

  /** The kernel registers a.handle during the call. */
  predicate RegistersIn(c: Client, call: Call, a: Answers) {
    match call
    case OpenSessionCall(kind, given, id, tci, len) =>
      && OpenArguments(kind, given, tci, len) && DeviceIndex(c, id) < |c.devices|
      && TciOf(c, c.devices[DeviceIndex(c, id)], kind, tci, len, a).Mapped?
    case MapCall(handle, buf, _, given) =>
      && handle.Some? && given && buf != 0 && Registers(c, a)
      && Resolve(c, handle.value).At? && !IsMapped(SessionAt(c, Resolve(c, handle.value)), buf)
    case _ => false
  }

  function OpenFails(c: Client, call: Call, a: Answers): bool
    requires call.OpenSessionCall?
  {
    OpenSession(c, call.kind, call.given, call.id, call.tci, call.len, a).0 != OK
  }

  function Registering(c: Client, call: Call, a: Answers): multiset<nat> {
    if RegistersIn(c, call, a) then multiset{a.handle} else multiset{}
  }

  /**
   The handles a call orphans: that of the TCI, when a session fails to open after registering
   it; and every handle that goes from the tables while the kernel refuses to unregister it.
   */
  function Lost(c: Client, call: Call, a: Answers): set<nat> {
    if call.OpenSessionCall? then
      if RegistersIn(c, call, a) && OpenFails(c, call, a) then {a.handle} else {}
    else
      set h | h in Held(c) + Registering(c, call, a) && h !in Held(Apply(c, call, a)) && h in a.refused
  }

  function AllLost(events: seq<Event>): set<nat> {
    if events == [] then {}
    else
      var front, e := events[..|events| - 1], events[|events| - 1];
      AllLost(front) + Lost(After(front), e.call, e.answers)
  }

  // ------------------------------------------------------------------------------------------
  // The elementary changes
  // ------------------------------------------------------------------------------------------

  lemma {:induction false} Dropping(c: Client, r: Client, dropped: multiset<nat>, refused: set<nat>)
    requires Owned(c) && Held(c) == Held(r) + dropped
    requires r.registered == Unregistered(c.registered, dropped, refused)
    ensures Owned(r)
    ensures Orphans(r) == Orphans(c) + set h | h in Held(c) && h !in Held(r) && h in refused
  {
    hide Held;
    assert forall h :: Held(c)[h] <= multiset(c.registered)[h] <= 1;
    assert forall h :: Held(c)[h] == Held(r)[h] + dropped[h];
    forall h
      ensures Held(r)[h] <= multiset(r.registered)[h]
      ensures h in Held(c) && h !in Held(r) <==> h in dropped
    {}
  }

  lemma {:induction false} Adding(c: Client, r: Client, h: nat)
    requires Owned(c) && Held(r) == Held(c) + multiset{h}
    requires h != 0 && h !in c.registered && r.registered == c.registered + {h}
    ensures Owned(r) && Orphans(r) == Orphans(c)
  {
    hide Held;
    HeldIsRegistered(c);
    assert multiset(r.registered) == multiset(c.registered) + multiset{h};
  }

  lemma {:induction false} Losing(c: Client, r: Client, h: nat)
    requires Owned(c) && Held(r) == Held(c)
    requires h != 0 && h !in c.registered && r.registered == c.registered + {h}
    ensures Owned(r) && Orphans(r) == Orphans(c) + {h}
  {
    hide Held;
    HeldIsRegistered(c);
    assert multiset(r.registered) == multiset(c.registered) + multiset{h};
  }

  lemma HeldIsRegistered(c: Client)
    requires Owned(c)
    ensures forall h | h in Held(c) :: h in c.registered
  {
    hide Held;
    forall h | h in Held(c)
      ensures h in c.registered
    {
      assert multiset(c.registered)[h] > 0;
    }
  }

  /** Replacing a part of a sum. */
  lemma {:induction false} Exchange(whole: multiset<nat>, whole': multiset<nat>, part: multiset<nat>,
                                    part': multiset<nat>, gone: multiset<nat>, come: multiset<nat>)
    requires whole' + part == whole + part' && part' + gone == part + come
    ensures whole' + gone == whole + come
  {
    forall h
      ensures (whole' + gone)[h] == (whole + come)[h]
    {
      assert (whole' + part)[h] == (whole + part')[h] && (part' + gone)[h] == (part + come)[h];
    }
  }

  lemma {:induction false} HeldWithSession(c: Client, i: nat, j: nat, s: Session)
    requires i < |c.devices| && j < |c.devices[i].sessions|
    ensures Held(WithSession(c, i, j, s)) + SessionHolds(c.devices[i].sessions[j]) == Held(c) + SessionHolds(s)
  {
    hide Sum;
    var d := c.devices[i];
    var d' := d.(sessions := d.sessions[j := s]);
    SumUpdate(d.sessions, j, s, SessionHolds);
    SumUpdate(c.devices, i, d', DeviceHolds);
    Exchange(Held(c), Held(WithSession(c, i, j, s)), DeviceHolds(d), DeviceHolds(d'),
             SessionHolds(d.sessions[j]), SessionHolds(s));
  }

  lemma {:induction false} DeviceRemoved(c: Client, id: nat, a: Answers)
    requires Invariant(c)
    ensures var r := RemoveDevice(c, id, a);
            && Invariant(r)
            && Orphans(r) == Orphans(c) + set h | h in Held(c) && h !in Held(r) && h in a.refused
  {
    hide Sum;
    var i := DeviceIndex(c, id);
    if i < |c.devices| {
      SumWithout(c.devices, i, DeviceHolds);
      Dropping(c, RemoveDevice(c, id, a), DeviceHolds(c.devices[i]), a.refused);
    }
  }

  lemma {:induction false} SessionRemoved(c: Client, i: nat, j: nat, a: Answers)
    requires Invariant(c) && i < |c.devices| && j < |c.devices[i].sessions|
    ensures var r := RemoveSession(c, i, j, a);
            && Invariant(r)
            && Orphans(r) == Orphans(c) + set h | h in Held(c) && h !in Held(r) && h in a.refused
  {
    hide Sum;
    var d, r := c.devices[i], RemoveSession(c, i, j, a);
    var d' := r.devices[i];
    SumWithout(d.sessions, j, SessionHolds);
    SumUpdate(c.devices, i, d', DeviceHolds);
    Exchange(Held(c), Held(r), DeviceHolds(d), DeviceHolds(d'), SessionHolds(d.sessions[j]), multiset{});
    Dropping(c, r, SessionHolds(d.sessions[j]), a.refused);
    SessionsGoodWithout(d.sessions, j);
  }

  lemma SessionsGoodWithout(ss: seq<Session>, j: nat)
    requires SessionsGood(ss) && j < |ss|
    ensures SessionsGood(Without(ss, j))
  {
    hide DistinctAddresses;
  }

  lemma DistinctWithout(bufs: seq<Bulk>, k: nat)
    requires DistinctAddresses(bufs) && k < |bufs|
    ensures DistinctAddresses(Without(bufs, k))
  {}

  lemma DistinctAppend(bufs: seq<Bulk>, b: Bulk)
    requires DistinctAddresses(bufs) && IndexOf(bufs, AtVirtual(b.virtAddr)) == |bufs|
    ensures DistinctAddresses(bufs + [b])
  {
    forall i | 0 <= i < |bufs|
      ensures bufs[i].virtAddr != b.virtAddr
    {
      assert !AtVirtual(b.virtAddr)(bufs[i]);
    }
  }

  lemma GoodWithDevice(c: Client, i: nat, d: Device)
    requires DistinctIds(c) && AddressesOnce(c) && i < |c.devices|
    requires d.deviceId == c.devices[i].deviceId && SessionsGood(d.sessions)
    ensures DistinctIds(WithDevice(c, i, d)) && AddressesOnce(WithDevice(c, i, d))
  {
    hide SessionsGood;
  }

  lemma GoodWithSession(c: Client, i: nat, j: nat, s: Session)
    requires DistinctIds(c) && AddressesOnce(c) && DistinctAddresses(s.bulkBufs)
    requires i < |c.devices| && j < |c.devices[i].sessions|
    ensures DistinctIds(WithSession(c, i, j, s)) && AddressesOnce(WithSession(c, i, j, s))
  {
    hide DistinctAddresses;
    assert SessionsGood(c.devices[i].sessions);
    GoodWithDevice(c, i, c.devices[i].(sessions := c.devices[i].sessions[j := s]));
  }

  lemma {:induction false} BufRemoved(c: Client, i: nat, j: nat, buf: nat, a: Answers)
    requires Invariant(c) && i < |c.devices| && j < |c.devices[i].sessions|
    ensures var r := RemoveBulkBuf(c, i, j, buf, a).1;
            && Invariant(r)
            && Orphans(r) == Orphans(c) + set h | h in Held(c) && h !in Held(r) && h in a.refused
  {
    hide Sum, DistinctAddresses;
    var s := c.devices[i].sessions[j];
    var k := IndexOf(s.bulkBufs, AtVirtual(buf));
    if k < |s.bulkBufs| {
      var s', h, r := s.(bulkBufs := Without(s.bulkBufs, k)), s.bulkBufs[k].handle, RemoveBulkBuf(c, i, j, buf, a).1;
      assert SessionsGood(c.devices[i].sessions);
      DistinctWithout(s.bulkBufs, k);
      GoodWithSession(c, i, j, s');
      SumWithout(s.bulkBufs, k, HandleOf);
      HeldWithSession(c, i, j, s');
      Exchange(Held(c), Held(WithSession(c, i, j, s')), SessionHolds(s), SessionHolds(s'), multiset{h}, multiset{});
      assert r.registered == Unregistered(c.registered, multiset{h}, a.refused);
      Dropping(c, r, multiset{h}, a.refused);
    }
  }

  lemma {:induction false} BufAdded(c: Client, i: nat, j: nat, b: Bulk)
    requires Invariant(c) && i < |c.devices| && j < |c.devices[i].sessions|
    requires b.handle != 0 && b.handle !in c.registered
    requires !IsMapped(c.devices[i].sessions[j], b.virtAddr)
    ensures var r := AddBulkBuf(c, i, j, b);
            Invariant(r) && Orphans(r) == Orphans(c) && Held(r) == Held(c) + multiset{b.handle}
  {
    hide Sum, DistinctAddresses;
    var s := c.devices[i].sessions[j];
    var s' := s.(bulkBufs := s.bulkBufs + [b]);
    assert SessionsGood(c.devices[i].sessions);
    DistinctAppend(s.bulkBufs, b);
    GoodWithSession(c, i, j, s');
    SumAppend(s.bulkBufs, b, HandleOf);
    HeldWithSession(c, i, j, s');
    Exchange(Held(c), Held(WithSession(c, i, j, s')), SessionHolds(s), SessionHolds(s'), multiset{},
             multiset{b.handle});
    Adding(c, AddBulkBuf(c, i, j, b), b.handle);
  }

  // ------------------------------------------------------------------------------------------
  // Each call
  // ------------------------------------------------------------------------------------------

  ghost predicate Conserves(c: Client, call: Call, a: Answers) {
    var r := Apply(c, call, a);
    Invariant(r) && Orphans(r) == Orphans(c) + Lost(c, call, a) && Orphans(c) !! Lost(c, call, a)
  }

  /** Only registered handles go, to where Lost says. */
  lemma {:induction false} OnlyDrops(c: Client, call: Call, a: Answers)
    requires Owned(c) && !RegistersIn(c, call, a) && !call.OpenSessionCall?
    requires var r := Apply(c, call, a);
             Invariant(r) && Orphans(r) == Orphans(c) + set h | h in Held(c) && h !in Held(r) && h in a.refused
    ensures Conserves(c, call, a)
  {
    hide Held, RegistersIn, Apply, Invariant;
  }

  /** A change that concerns no handle. */
  lemma {:induction false} Unconcerned(c: Client, call: Call, a: Answers)
    requires Owned(c) && !RegistersIn(c, call, a)
    requires var r := Apply(c, call, a);
             Invariant(r) && Held(r) == Held(c) && r.registered == c.registered
    ensures Conserves(c, call, a)
  {
    hide Held, RegistersIn, Apply, Invariant;
  }

  /** A change of blocks only. */
  lemma {:induction false} BlocksChanged(c: Client, i: nat, wsms: seq<Wsm>)
    requires Invariant(c) && i < |c.devices|
    ensures var r := WithDevice(c, i, c.devices[i].(wsms := wsms));
            Invariant(r) && Held(r) == Held(c) && r.registered == c.registered
  {
    hide Sum, DistinctAddresses;
    var d := c.devices[i];
    var d' := d.(wsms := wsms);
    GoodWithDevice(c, i, d');
    SumUpdate(c.devices, i, d', DeviceHolds);
    Exchange(Held(c), Held(WithDevice(c, i, d')), DeviceHolds(d), DeviceHolds(d'), multiset{}, multiset{});
    assert Held(c) + multiset{} == Held(c);
  }

  /** A new session holds the handle of its TCI, if it has one. */
  lemma {:induction false} SessionAdded(c: Client, i: nat, s: Session)
    requires Invariant(c) && i < |c.devices| && |s.bulkBufs| <= 1
    ensures var r := WithNewSession(c, i, s);
            && DistinctIds(r) && AddressesOnce(r) && r.registered == c.registered
            && Held(r) == Held(c) + (if s.bulkBufs == [] then multiset{} else multiset{s.bulkBufs[0].handle})
  {
    var d := c.devices[i];
    var d' := d.(sessions := d.sessions + [s]);
    SessionOf(s);
    GoodAppend(d.sessions, s);
    hide Sum, DistinctAddresses, SessionsGood;
    GoodWithDevice(c, i, d');
    SumAppend(d.sessions, s, SessionHolds);
    SumUpdate(c.devices, i, d', DeviceHolds);
    Exchange(Held(c), Held(WithDevice(c, i, d')), DeviceHolds(d), DeviceHolds(d'), multiset{}, SessionHolds(s));
  }

  lemma SessionOf(s: Session)
    requires |s.bulkBufs| <= 1
    ensures SessionHolds(s) == if s.bulkBufs == [] then multiset{} else multiset{s.bulkBufs[0].handle}
  {
    if s.bulkBufs != [] {
      SumAppend([], s.bulkBufs[0], HandleOf);
      assert [] + [s.bulkBufs[0]] == s.bulkBufs;
    }
  }

  lemma GoodAppend(ss: seq<Session>, s: Session)
    requires SessionsGood(ss) && |s.bulkBufs| <= 1
    ensures SessionsGood(ss + [s])
  {}

  lemma {:induction false} OpenSessionConserves(c: Client, call: Call, a: Answers)
    requires Invariant(c) && call.OpenSessionCall?
    ensures Conserves(c, call, a)
  {
    hide Sum, SessionsGood, Negotiate, Held, TciOf, OpenArguments, WithNewSession;
    HeldIsRegistered(c);
    var i := DeviceIndex(c, call.id);
    if OpenArguments(call.kind, call.given, call.tci, call.len) && i < |c.devices| {
      var t := TciOf(c, c.devices[i], call.kind, call.tci, call.len, a);
      TciIsFresh(c, c.devices[i], call.kind, call.tci, call.len, a);
      if OpenFails(c, call, a) {
        HeldSameDevices(WithTci(c, t), c);
        if t.Mapped? {
          Losing(c, WithTci(c, t), t.handle);
        }
      } else {
        var s := Session(Negotiate(a).1.value, TciBufs(t, call.tci, call.len));
        SessionAdded(c, i, s);
        HeldSameDevices(WithTci(WithNewSession(c, i, s), t), WithNewSession(c, i, s));
        if t.Mapped? {
          Adding(c, WithTci(WithNewSession(c, i, s), t), t.handle);
        }
      }
    }
  }

  lemma TciIsFresh(c: Client, d: Device, kind: OpenKind, tci: nat, len: nat, a: Answers)
    ensures var t := TciOf(c, d, kind, tci, len, a);
            t.Mapped? ==> t.handle == a.handle && a.handle != 0 && a.handle !in c.registered
  {}

  lemma HeldSameDevices(c: Client, d: Client)
    requires c.devices == d.devices
    ensures Held(c) == Held(d) && DistinctIds(c) == DistinctIds(d) && AddressesOnce(c) == AddressesOnce(d)
  {}

  lemma {:induction false} MapConserves(c: Client, call: Call, a: Answers)
    requires Invariant(c) && call.MapCall?
    ensures Conserves(c, call, a)
  {
    hide Invariant, Held, AddBulkBuf, RemoveBulkBuf, IsMapped, Orphans;
    if RegistersIn(c, call, a) {
      var p := Resolve(c, call.handle.value);
      var secure := if a.reply == Said(OK) && a.payload.Some? then a.payload.value else 0;
      var b := Bulk(call.buf, secure, call.bufLen, a.handle);
      BufAdded(c, p.i, p.j, b);
      AddedPlace(c, p.i, p.j, b);
      BufRemoved(AddBulkBuf(c, p.i, p.j, b), p.i, p.j, call.buf, a);
      MapDrops(c, AddBulkBuf(c, p.i, p.j, b), call, a);
    } else {
      InvariantOwned(c);
      Unconcerned(c, call, a);
    }
  }

  lemma InvariantOwned(c: Client)
    requires Invariant(c)
    ensures Owned(c)
  {}

  /** A mapping that registers: from the tables with the descriptor added, only drops. */
  lemma {:induction false} MapDrops(c: Client, added: Client, call: Call, a: Answers)
    requires Invariant(c) && call.MapCall? && RegistersIn(c, call, a)
    requires Held(added) == Held(c) + multiset{a.handle} && Orphans(added) == Orphans(c)
    requires var r := Apply(c, call, a);
             Invariant(r) && Orphans(r) == Orphans(added) + set h | h in Held(added) && h !in Held(r) && h in a.refused
    ensures Conserves(c, call, a)
  {
    hide Held, Apply, RegistersIn, AddressesOnce, DistinctIds;
    FreshHandle(c, call, a);
  }

  lemma FreshHandle(c: Client, call: Call, a: Answers)
    requires call.MapCall? && RegistersIn(c, call, a)
    ensures a.handle !in c.registered
  {}

  lemma AddedPlace(c: Client, i: nat, j: nat, b: Bulk)
    requires i < |c.devices| && j < |c.devices[i].sessions|
    ensures i < |AddBulkBuf(c, i, j, b).devices| && j < |AddBulkBuf(c, i, j, b).devices[i].sessions|
  {}

  lemma {:induction false} UnmapConserves(c: Client, call: Call, a: Answers)
    requires Invariant(c) && call.UnmapCall?
    ensures Conserves(c, call, a)
  {
    hide Invariant, Held, RemoveBulkBuf, RemoveDevice, Orphans;
    InvariantOwned(c);
    if Apply(c, call, a) == c {
      Unconcerned(c, call, a);
    } else {
      var p := Resolve(c, call.handle.value);
      DeviceRemoved(c, call.handle.value.deviceId, a);
      BufRemoved(c, p.i, p.j, call.buf, a);
      OnlyDrops(c, call, a);
    }
  }

  lemma {:induction false} CloseSessionConserves(c: Client, call: Call, a: Answers)
    requires Invariant(c) && call.CloseSessionCall?
    ensures Conserves(c, call, a)
  {
    hide Invariant, Held, RemoveSession, RemoveDevice, Orphans;
    InvariantOwned(c);
    if Apply(c, call, a) == c {
      Unconcerned(c, call, a);
    } else {
      var p := Resolve(c, call.handle.value);
      DeviceRemoved(c, call.handle.value.deviceId, a);
      SessionRemoved(c, p.i, p.j, a);
      OnlyDrops(c, call, a);
    }
  }

  /** The calls that add or remove devices and do nothing to sessions. */
  lemma {:induction false} DeviceCallConserves(c: Client, call: Call, a: Answers)
    requires Invariant(c) && (call.OpenDeviceCall? || call.CloseDeviceCall? || call.NotifyCall?)
    ensures Conserves(c, call, a)
  {
    hide Invariant, Held, RemoveDevice, Orphans, Resolve;
    InvariantOwned(c);
    if Apply(c, call, a) == c {
      Unconcerned(c, call, a);
    } else if call.OpenDeviceCall? {
      DeviceAdded(c, call.id);
      Unconcerned(c, call, a);
    } else {
      DeviceRemoved(c, if call.CloseDeviceCall? then call.id else call.handle.value.deviceId, a);
      OnlyDrops(c, call, a);
    }
  }

  lemma {:induction false} BlockCallConserves(c: Client, call: Call, a: Answers)
    requires Invariant(c) && (call.MallocWsmCall? || call.FreeWsmCall?)
    ensures Conserves(c, call, a)
  {
    hide Invariant, Held, Orphans;
    InvariantOwned(c);
    var i := DeviceIndex(c, call.id);
    if i < |c.devices| {
      BlocksChanged(c, i, Apply(c, call, a).devices[i].wsms);
    }
    Unconcerned(c, call, a);
  }

  lemma {:induction false} DeviceAdded(c: Client, id: nat)
    requires Invariant(c) && DeviceIndex(c, id) == |c.devices|
    ensures var r := c.(devices := c.devices + [Device(id, [], [])]);
            Invariant(r) && Held(r) == Held(c)
  {
    SumAppend(c.devices, Device(id, [], []), DeviceHolds);
    assert DeviceHolds(Device(id, [], [])) == multiset{};
    hide Sum, DistinctAddresses;
    forall i | 0 <= i < |c.devices|
      ensures c.devices[i].deviceId != id
    {
      assert !HasDeviceId(id)(c.devices[i]);
    }
  }

  /** Every call keeps the invariant and orphans exactly what Lost says. */
  lemma {:induction false} CallConserves(c: Client, call: Call, a: Answers)
    requires Invariant(c)
    ensures Conserves(c, call, a)
  {
    hide *;
    if call.OpenSessionCall? {
      OpenSessionConserves(c, call, a);
    } else if call.MapCall? {
      MapConserves(c, call, a);
    } else if call.UnmapCall? {
      UnmapConserves(c, call, a);
    } else if call.CloseSessionCall? {
      CloseSessionConserves(c, call, a);
    } else if call.MallocWsmCall? || call.FreeWsmCall? {
      BlockCallConserves(c, call, a);
    } else {
      DeviceCallConserves(c, call, a);
    }
  }

  /**
   On every run, what is registered is what the descriptors of live sessions hold, each handle
   once, and, apart from these, what the run has orphaned.
   */
  lemma {:induction false} Conservation(events: seq<Event>)
    ensures var c := After(events);
            && Invariant(c)
            && Orphans(c) == AllLost(events)
            && multiset(c.registered) == Held(c) + multiset(AllLost(events))
  {
    hide Apply, Lost, Sum;
    if events == [] {
      NothingHeld();
    } else {
      var front, e := events[..|events| - 1], events[|events| - 1];
      Conservation(front);
      CallConserves(After(front), e.call, e.answers);
    }
    Split(After(events));
  }

  lemma NothingHeld()
    ensures Invariant(EMPTY) && Orphans(EMPTY) == {}
  {}

  lemma Split(c: Client)
    requires Owned(c)
    ensures multiset(c.registered) == Held(c) + multiset(Orphans(c))
  {
    hide Held;
    HeldIsRegistered(c);
    forall h
      ensures multiset(c.registered)[h] == Held(c)[h] + multiset(Orphans(c))[h]
    {
      assert Held(c)[h] <= multiset(c.registered)[h];
    }
  }

  /** With every device closed again, exactly the orphans are still registered. */
  lemma {:induction false} AllClosed(events: seq<Event>)
    requires After(events).devices == []
    ensures After(events).registered == AllLost(events)
  {
    Conservation(events);
  }

  /** No kernel refusal and no failed opening with a mapped TCI: nothing is ever orphaned. */
  predicate Clean(events: seq<Event>) {
    events == [] ||
    var front, e := events[..|events| - 1], events[|events| - 1];
    && Clean(front) && e.answers.refused == {}
    && !(&& e.call.OpenSessionCall? && RegistersIn(After(front), e.call, e.answers)
         && OpenFails(After(front), e.call, e.answers))
  }

  lemma {:induction false} CleanRunsOrphanNothing(events: seq<Event>)
    requires Clean(events)
    ensures multiset(After(events).registered) == Held(After(events))
  {
    NothingLost(events);
    Conservation(events);
  }

  lemma {:induction false} NothingLost(events: seq<Event>)
    requires Clean(events)
    ensures AllLost(events) == {}
  {
    if events != [] {
      NothingLost(events[..|events| - 1]);
    }
  }
}
