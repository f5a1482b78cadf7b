/**
 mcMap followed by mcUnmap: what is restored, which handle the daemon is told, and what happens
 when the buffer or the secure address is not the mapping's own.
 */
module ClientRoundTrip {
  import opened Wrappers
  import opened ClientTables
  import opened ClientConservation

  // ------------------------------------------------------------------------------------------
  // Lookups
  // ------------------------------------------------------------------------------------------

  lemma {:induction false} SameResolution(c: Client, h: Handle, s: Session)
    requires var p := Resolve(c, h); p.At? && s.sessionId == SessionAt(c, p).sessionId
    ensures var p := Resolve(c, h); Resolve(WithSession(c, p.i, p.j, s), h) == p
  {
    var p := Resolve(c, h);
    var c' := WithSession(c, p.i, p.j, s);
    forall i | 0 <= i < p.i
      ensures !HasDeviceId(h.deviceId)(c'.devices[i])
    {
      assert !HasDeviceId(h.deviceId)(c.devices[i]);
    }
    IndexIs(c'.devices, HasDeviceId(h.deviceId), p.i);
    var d := c.devices[p.i];
    forall j | 0 <= j < p.j
      ensures !HasSessionId(h.sessionId)(c'.devices[p.i].sessions[j])
    {
      assert !HasSessionId(h.sessionId)(d.sessions[j]);
    }
    IndexIs(c'.devices[p.i].sessions, HasSessionId(h.sessionId), p.j);
  }

  lemma {:induction false} FoundLast<T>(s: seq<T>, x: T, p: T -> bool)
    requires p(x)
    ensures IndexOf(s + [x], p) == IndexOf(s, p)
  {
    IndexIs(s + [x], p, IndexOf(s, p));
  }

  lemma {:induction false} SessionWithin(c: Client, i: nat, j: nat, h: nat)
    requires i < |c.devices| && j < |c.devices[i].sessions|
    ensures SessionHolds(c.devices[i].sessions[j])[h] <= Held(c)[h]
  {
    hide Sum;
    SumWithout(c.devices, i, DeviceHolds);
    SumWithout(c.devices[i].sessions, j, SessionHolds);
  }

  /** The handle of a live descriptor is one of those held. */
  lemma {:induction false} IsHeld(c: Client, i: nat, j: nat, k: nat)
    requires i < |c.devices| && j < |c.devices[i].sessions| && k < |c.devices[i].sessions[j].bulkBufs|
    ensures c.devices[i].sessions[j].bulkBufs[k].handle in Held(c)
  {
    hide Sum, Held;
    var bufs := c.devices[i].sessions[j].bulkBufs;
    SumWithout(bufs, k, HandleOf);
    SessionWithin(c, i, j, bufs[k].handle);
    assert HandleOf(bufs[k])[bufs[k].handle] == 1;
  }

  lemma {:induction false} LiveHandle(c: Client, i: nat, j: nat, k: nat)
    requires Invariant(c)
    requires i < |c.devices| && j < |c.devices[i].sessions| && k < |c.devices[i].sessions[j].bulkBufs|
    ensures var h := c.devices[i].sessions[j].bulkBufs[k].handle; h in c.registered && h != 0
  {
    hide Held;
    IsHeld(c, i, j, k);
    HeldIsRegistered(c);
  }

  // ------------------------------------------------------------------------------------------
  // The round trip
  // ------------------------------------------------------------------------------------------

  /** A live mapping of the session of `h` at this secure address, with this length. */
  predicate SecureInUse(c: Client, h: Handle, info: MapInfo) {
    var p := Resolve(c, h);
    && p.At?
    && IndexOf(SessionAt(c, p).bulkBufs, AtSecure(info.sVirtualAddr, info.sVirtualLen)) < |SessionAt(c, p).bulkBufs|
  }

  /** What a successful mcMap leaves. */
  lemma {:induction false} MapLeaves(c: Client, h: Handle, buf: nat, len: nat, a: Answers)
    requires Map(c, Some(h), buf, len, true, a).0 == OK
    ensures var (_, info, c1) := Map(c, Some(h), buf, len, true, a);
            var p := Resolve(c, h);
            && p.At? && buf != 0 && Registers(c, a) && !IsMapped(SessionAt(c, p), buf) && a.payload.Some?
            && info == Some(MapInfo(a.payload.value, len))
            && c1 == AddBulkBuf(c, p.i, p.j, Bulk(buf, a.payload.value, len, a.handle))
            && Resolve(c1, h) == p
            && SessionAt(c1, p).bulkBufs == SessionAt(c, p).bulkBufs + [Bulk(buf, a.payload.value, len, a.handle)]
  {
    hide IsMapped, RemoveBulkBuf;
    var p, b := Resolve(c, h), Bulk(buf, a.payload.value, len, a.handle);
    var s := SessionAt(c, p);
    SameResolution(c, h, s.(bulkBufs := s.bulkBufs + [b]));
    SameDevices(AddBulkBuf(c, p.i, p.j, b), WithSession(c, p.i, p.j, s.(bulkBufs := s.bulkBufs + [b])), h);
  }

  lemma SameDevices(c: Client, d: Client, h: Handle)
    requires c.devices == d.devices
    ensures Resolve(c, h) == Resolve(d, h)
  {}

  /** Removing what has just been added. */
  lemma {:induction false} AddThenRemove(c: Client, i: nat, j: nat, b: Bulk, a: Answers)
    requires i < |c.devices| && j < |c.devices[i].sessions| && !IsMapped(c.devices[i].sessions[j], b.virtAddr)
    requires b.handle !in c.registered
    ensures var c1 := AddBulkBuf(c, i, j, b);
            && i < |c1.devices| && j < |c1.devices[i].sessions|
            && var (code, c2) := RemoveBulkBuf(c1, i, j, b.virtAddr, a);
            && c2.devices == c.devices
            && (if b.handle in a.refused then
                  code == KernelCode(a.kernelError) && c2.registered == c.registered + {b.handle}
                else code == OK && c2.registered == c.registered)
  {
    hide KernelCode;
    var s := c.devices[i].sessions[j];
    FoundLast(s.bulkBufs, b, AtVirtual(b.virtAddr));
    assert Without(s.bulkBufs + [b], |s.bulkBufs|) == s.bulkBufs;
    var d, c1 := c.devices[i], AddBulkBuf(c, i, j, b);
    assert c1.devices[i].sessions[j := s] == d.sessions;
    assert c1.devices[i].(sessions := d.sessions) == d;
    assert c1.devices[i := d] == c.devices;
    assert c1.devices[i].sessions[j].(bulkBufs := s.bulkBufs) == s;
    assert c.registered + {b.handle} - {b.handle} == c.registered;
  }

  /**
   Unmapping with the buffer and the information of the mapping succeeds exactly when the secure
   address is not NULL and daemon and kernel agree; then the tables and the registrations are
   what they were, and the handle the daemon was told is the one unregistered exactly when the
   secure address was fresh.
   */
  lemma {:induction false} MapUnmap(c: Client, h: Handle, buf: nat, len: nat, a: Answers, a': Answers)
    requires Invariant(c) && Map(c, Some(h), buf, len, true, a).0 == OK
    ensures var (_, info, c1) := Map(c, Some(h), buf, len, true, a);
            var (code, sent, c2) := Unmap(c1, Some(h), buf, info, a');
            && (code == OK <==> a.payload.value != 0 && CodeOf(a'.reply) == OK && a.handle !in a'.refused)
            && (code == OK ==> c2 == c && sent.Some?)
            && (code == OK ==> (sent.value == a.handle <==> !SecureInUse(c, h, info.value)))
            && c1.registered == c.registered + {a.handle} && a.handle !in c.registered
  {
    hide Invariant, IsMapped, RemoveBulkBuf, AddBulkBuf, Resolve, RemoveDevice, KernelCode, CodeOf;
    var (_, info, c1) := Map(c, Some(h), buf, len, true, a);
    var p, b := Resolve(c, h), Bulk(buf, a.payload.value, len, a.handle);
    MapLeaves(c, h, buf, len, a);
    AddThenRemove(c, p.i, p.j, b, a');
    GrowsBy(c, p.i, p.j, b);
    HandleSent(c, p.i, p.j, b);
  }

  lemma GrowsBy(c: Client, i: nat, j: nat, b: Bulk)
    requires i < |c.devices| && j < |c.devices[i].sessions|
    ensures AddBulkBuf(c, i, j, b).registered == c.registered + {b.handle}
  {}

  lemma {:induction false} HandleSent(c: Client, i: nat, j: nat, b: Bulk)
    requires Invariant(c) && i < |c.devices| && j < |c.devices[i].sessions| && b.handle != 0
    requires b.handle !in c.registered
    ensures var s := c.devices[i].sessions[j];
            var found := GetBufHandle(s.(bulkBufs := s.bulkBufs + [b]), MapInfo(b.sVirtualAddr, b.len));
            && found != 0
            && (found == b.handle <==> IndexOf(s.bulkBufs, AtSecure(b.sVirtualAddr, b.len)) == |s.bulkBufs|)
  {
    hide Invariant;
    var s := c.devices[i].sessions[j];
    FoundLast(s.bulkBufs, b, AtSecure(b.sVirtualAddr, b.len));
    var k := IndexOf(s.bulkBufs, AtSecure(b.sVirtualAddr, b.len));
    if k < |s.bulkBufs| {
      LiveHandle(c, i, j, k);
    }
  }

  // ------------------------------------------------------------------------------------------
  // A buffer that is not the mapping's
  // ------------------------------------------------------------------------------------------

  /** The descriptor mcUnmap finds for the secure address, and the one it removes for the buffer. */
  function Found(s: Session, info: MapInfo): nat {
    IndexOf(s.bulkBufs, AtSecure(info.sVirtualAddr, info.sVirtualLen))
  }

  function Removed(s: Session, buf: nat): nat {
    IndexOf(s.bulkBufs, AtVirtual(buf))
  }

  /**
   Whenever mcUnmap succeeds, exactly one registration ends; it is that of the handle the daemon
   unmapped exactly when the descriptor found for the secure address is that of the buffer.
   */
  lemma {:induction false} UnmapAgreesExactly(c: Client, h: Handle, buf: nat, info: MapInfo, a: Answers)
    requires Invariant(c) && Unmap(c, Some(h), buf, Some(info), a).0 == OK
    ensures var (_, sent, r) := Unmap(c, Some(h), buf, Some(info), a);
            var s := SessionAt(c, Resolve(c, h));
            && sent.Some? && Found(s, info) < |s.bulkBufs|
            && (exists gone | gone in c.registered ::
                  && c.registered - r.registered == {gone} && r.registered <= c.registered
                  && (sent.value == gone <==> s.bulkBufs[Found(s, info)].virtAddr == buf))
  {
    hide Invariant, Resolve, KernelCode, RemoveDevice;
    var p := Resolve(c, h);
    var s := SessionAt(c, p);
    var f, k := Found(s, info), Removed(s, buf);
    LiveHandle(c, p.i, p.j, k);
    DistinctHandles(c, p.i, p.j, f, k);
    BufferOnce(c, p.i, p.j, f, k);
    var gone := s.bulkBufs[k].handle;
    assert c.registered - (c.registered - {gone}) == {gone};
  }

  lemma {:induction false} HeldTwice(bufs: seq<Bulk>, lo: nat, hi: nat)
    requires lo < hi < |bufs| && bufs[lo].handle == bufs[hi].handle
    ensures Sum(bufs, HandleOf)[bufs[lo].handle] >= 2
  {
    hide Sum;
    SumWithout(bufs, hi, HandleOf);
    SumWithout(Without(bufs, hi), lo, HandleOf);
    assert Without(bufs, hi)[lo] == bufs[lo];
    assert HandleOf(bufs[lo])[bufs[lo].handle] == 1 && HandleOf(bufs[hi])[bufs[lo].handle] == 1;
  }

  lemma {:induction false} DistinctHandles(c: Client, i: nat, j: nat, k: nat, l: nat)
    requires Invariant(c) && i < |c.devices| && j < |c.devices[i].sessions|
    requires k < |c.devices[i].sessions[j].bulkBufs| && l < |c.devices[i].sessions[j].bulkBufs|
    ensures c.devices[i].sessions[j].bulkBufs[k].handle == c.devices[i].sessions[j].bulkBufs[l].handle ==> k == l
  {
    hide Sum, Held;
    var bufs := c.devices[i].sessions[j].bulkBufs;
    assert multiset(c.registered)[bufs[k].handle] <= 1;
    if k != l && bufs[k].handle == bufs[l].handle {
      HeldTwice(bufs, if k < l then k else l, if k < l then l else k);
      SessionWithin(c, i, j, bufs[k].handle);
    }
  }

  lemma BufferOnce(c: Client, i: nat, j: nat, k: nat, l: nat)
    requires Invariant(c) && i < |c.devices| && j < |c.devices[i].sessions|
    requires k < |c.devices[i].sessions[j].bulkBufs| && l < |c.devices[i].sessions[j].bulkBufs|
    ensures c.devices[i].sessions[j].bulkBufs[k].virtAddr == c.devices[i].sessions[j].bulkBufs[l].virtAddr ==> k == l
  {
    assert SessionsGood(c.devices[i].sessions);
    assert DistinctAddresses(c.devices[i].sessions[j].bulkBufs);
  }

  const ONE := Bulk(0x1000, 0xA000, 8, 1)
  const TWO := Bulk(0x2000, 0xB000, 8, 2)
  const SESSION := Handle(0, 1)

  function WithBuffers(bufs: seq<Bulk>, registered: set<nat>): Client {
    Client([Device(0, [Session(1, bufs)], [])], registered)
  }

  /** Nothing fails: the kernel offers `handle`, the daemon answers `payload`. */
  function Smooth(handle: nat, payload: nat): Answers {
    Answers(true, true, Said(OK), true, Said(OK), Some(payload), Said(OK), true, handle, None, true, {}, NotOpen)
  }

  const OPENING := [Event(OpenDeviceCall(0), Smooth(0, 0)), Event(OpenSessionCall(ByUuid, true, 0, 0, 0), Smooth(0, 1))]
  const MAPPING_ONE := OPENING + [Event(MapCall(Some(SESSION), 0x1000, 8, true), Smooth(1, 0xA000))]
  const MAPPING_BOTH := MAPPING_ONE + [Event(MapCall(Some(SESSION), 0x2000, 8, true), Smooth(2, 0xB000))]

  lemma AfterSnoc(events: seq<Event>, e: Event)
    ensures After(events + [e]) == Apply(After(events), e.call, e.answers)
  {
    assert (events + [e])[..|events|] == events;
  }

  lemma SessionOpened()
    ensures OpenSession(Client([Device(0, [], [])], {}), ByUuid, true, 0, 0, 0, Smooth(0, 1)).2 == WithBuffers([], {})
  {
    var c := Client([Device(0, [], [])], {});
    IndexIs(c.devices, HasDeviceId(0), 0);
    assert FindWsm(c.devices[0], 0).None?;
    assert [] + [Session(1, [])] == [Session(1, [])];
  }

  lemma {:induction false} OpeningReached()
    ensures After(OPENING) == WithBuffers([], {})
  {
    var open, session := OPENING[0], OPENING[1];
    assert [] + [open] == [open] && [open] + [session] == OPENING;
    AfterSnoc([], open);
    AfterSnoc([open], session);
    assert After([]) == EMPTY;
    hide After, OpenSession;
    assert OpenDevice(EMPTY, 0, Smooth(0, 0)).1.devices == [Device(0, [], [])];
    SessionOpened();
  }

  /** A mapping made in the session. */
  lemma {:induction false} Mapping(bufs: seq<Bulk>, registered: set<nat>, b: Bulk, a: Answers)
    requires a == Smooth(b.handle, b.sVirtualAddr) && b.virtAddr != 0 && b.handle != 0 && b.handle !in registered
    requires forall k | 0 <= k < |bufs| :: bufs[k].virtAddr != b.virtAddr
    ensures Map(WithBuffers(bufs, registered), Some(SESSION), b.virtAddr, b.len, true, a).2 ==
              WithBuffers(bufs + [b], registered + {b.handle})
  {
    var c := WithBuffers(bufs, registered);
    IndexIs(c.devices, HasDeviceId(0), 0);
    IndexIs(c.devices[0].sessions, HasSessionId(1), 0);
    IndexIs(bufs, AtVirtual(b.virtAddr), |bufs|);
    assert c.devices[0].sessions[0 := Session(1, bufs + [b])] == [Session(1, bufs + [b])];
    assert AddBulkBuf(c, 0, 0, b).devices == WithBuffers(bufs + [b], registered + {b.handle}).devices;
    hide IndexOf, AddBulkBuf, RemoveBulkBuf;
  }

  lemma {:induction false} BothReached()
    ensures After(MAPPING_BOTH) == WithBuffers([ONE, TWO], {1, 2})
  {
    hide After, Map;
    OpeningReached();
    AfterSnoc(OPENING, MAPPING_ONE[2]);
    AfterSnoc(MAPPING_ONE, MAPPING_BOTH[3]);
    Mapping([], {}, ONE, Smooth(1, 0xA000));
    Mapping([ONE], {1}, TWO, Smooth(2, 0xB000));
    assert [] + [ONE] == [ONE] && [ONE] + [TWO] == [ONE, TWO] && {} + {1} == {1} && {1} + {2} == {1, 2};
  }

  /**
   Open a device and a session, map two buffers, and unmap with the buffer of one and the secure
   address of the other: the daemon unmaps the first, the kernel loses the second.
   */
  lemma {:induction false} CrossedUnmap(a: Answers)
    requires a.reply == Said(OK) && a.refused == {}
    ensures var c := After(MAPPING_BOTH);
            var (code, sent, r) := Unmap(c, Some(SESSION), 0x2000, Some(MapInfo(0xA000, 8)), a);
            && Invariant(c) && code == OK && sent == Some(1) && c.registered == {1, 2} && r.registered == {1}
  {
    var c := After(MAPPING_BOTH);
    assert Invariant(c) by {
      Conservation(MAPPING_BOTH);
    }
    BothReached();
    hide Invariant, IndexOf, After;
    IndexIs(c.devices, HasDeviceId(0), 0);
    IndexIs(c.devices[0].sessions, HasSessionId(1), 0);
    IndexIs([ONE, TWO], AtSecure(0xA000, 8), 0);
    IndexIs([ONE, TWO], AtVirtual(0x2000), 1);
  }

  // ------------------------------------------------------------------------------------------
  // Losing the device
  // ------------------------------------------------------------------------------------------

  predicate Open(c: Client, id: nat) {
    DeviceIndex(c, id) < |c.devices|
  }

  /** The calls, and the answers, that take the device of the call with them. */
  predicate TakesDevice(c: Client, call: Call, a: Answers, id: nat)
    requires Open(c, id)
  {
    match call
    case CloseDeviceCall(i) =>
      i == id && (!a.alive || (c.devices[DeviceIndex(c, id)].sessions == [] && CodeOf(a.reply) == OK))
    case CloseSessionCall(h) => h.Some? && h.value.deviceId == id && Resolve(c, h.value).At? && a.reply.Broken?
    case NotifyCall(h) => h.Some? && h.value.deviceId == id && Resolve(c, h.value).At? && a.reply.Broken?
    case UnmapCall(h, buf, info) =>
      && h.Some? && h.value.deviceId == id && buf != 0 && info.Some? && info.value.sVirtualAddr != 0
      && SecureInUse(c, h.value, info.value) && CodeOf(a.reply) != OK
    case _ => false
  }

  lemma OpenById(c: Client, id: nat)
    ensures Open(c, id) <==> exists i | 0 <= i < |c.devices| :: c.devices[i].deviceId == id
  {
    forall i | 0 <= i < |c.devices| && c.devices[i].deviceId == id
      ensures Open(c, id)
    {
      assert HasDeviceId(id)(c.devices[i]);
    }
  }

  lemma {:induction false} RemovalCloses(c: Client, id: nat, a: Answers, other: nat)
    requires DistinctIds(c)
    ensures Open(RemoveDevice(c, id, a), other) <==> other != id && Open(c, other)
  {
    hide Unregistered, DeviceHolds, Open;
    var i, r := DeviceIndex(c, id), RemoveDevice(c, id, a);
    OpenById(c, other);
    OpenById(r, other);
    if i == |c.devices| {
      OpenById(c, id);
    } else {
      forall k | 0 <= k < |c.devices| && k != i
        ensures c.devices[k] in r.devices
      {
        assert r.devices[if k < i then k else k - 1] == c.devices[k];
      }
    }
  }

  ghost predicate KeepsIds(c: Client, r: Client) {
    |c.devices| <= |r.devices| && forall i | 0 <= i < |c.devices| :: r.devices[i].deviceId == c.devices[i].deviceId
  }

  lemma {:induction false} SameIds(c: Client, r: Client, id: nat)
    requires KeepsIds(c, r) && Open(c, id)
    ensures Open(r, id)
  {
    OpenById(c, id);
    OpenById(r, id);
  }

  lemma {:induction false} UnmapTakesExactly(c: Client, call: Call, a: Answers, id: nat)
    requires Invariant(c) && Open(c, id) && call.UnmapCall?
    ensures !Open(Apply(c, call, a), id) <==> TakesDevice(c, call, a, id)
  {
    hide Invariant, RemoveDevice, Open, RemoveBulkBuf;
    var r := Apply(c, call, a);
    if call.handle.Some? && call.info.Some? && SecureInUse(c, call.handle.value, call.info.value) {
      var p := Resolve(c, call.handle.value);
      LiveHandle(c, p.i, p.j, Found(SessionAt(c, p), call.info.value));
      DistinctOf(c);
      RemovalCloses(c, call.handle.value.deviceId, a, id);
      RemovingKeepsIds(c, p.i, p.j, call.buf, a);
    }
    if KeepsIds(c, r) {
      SameIds(c, r, id);
    }
  }

  lemma DistinctOf(c: Client)
    requires Invariant(c)
    ensures DistinctIds(c)
  {}

  /**
   An open device stays open but for these.  Any refusal of an unmap by the daemon counts as a
   broken connection and closes the device with all its sessions; a refused map or a refused
   closing of a session does not.
   */
  lemma {:induction false} DeviceGoneExactly(c: Client, call: Call, a: Answers, id: nat)
    requires Invariant(c) && Open(c, id)
    ensures !Open(Apply(c, call, a), id) <==> TakesDevice(c, call, a, id)
  {
    hide Invariant, Apply, Open;
    DistinctOf(c);
    if call.UnmapCall? {
      UnmapTakesExactly(c, call, a, id);
    } else if call.CloseDeviceCall? || call.CloseSessionCall? || call.NotifyCall? {
      ClosingTakesExactly(c, call, a, id);
    } else {
      OtherCallsKeepIds(c, call, a);
      SameIds(c, Apply(c, call, a), id);
    }
  }

  lemma {:induction false} ClosingTakesExactly(c: Client, call: Call, a: Answers, id: nat)
    requires DistinctIds(c) && Open(c, id) && (call.CloseDeviceCall? || call.CloseSessionCall? || call.NotifyCall?)
    ensures !Open(Apply(c, call, a), id) <==> TakesDevice(c, call, a, id)
  {
    hide RemoveDevice, Open, DistinctIds;
    OpenIs(c, id);
    if call.CloseDeviceCall? {
      RemovalCloses(c, call.id, a, id);
    } else if call.handle.Some? {
      RemovalCloses(c, call.handle.value.deviceId, a, id);
    }
    if KeepsIds(c, Apply(c, call, a)) {
      SameIds(c, Apply(c, call, a), id);
    }
  }

  lemma {:induction false} OtherCallsKeepIds(c: Client, call: Call, a: Answers)
    requires call.OpenDeviceCall? || call.OpenSessionCall? || call.MallocWsmCall? || call.FreeWsmCall? || call.MapCall?
    ensures KeepsIds(c, Apply(c, call, a))
  {
    hide Map, Negotiate, TciOf;
    if call.MapCall? {
      MapKeepsIds(c, call, a);
    }
  }

  lemma RemovingKeepsIds(c: Client, i: nat, j: nat, buf: nat, a: Answers)
    requires i < |c.devices| && j < |c.devices[i].sessions|
    ensures KeepsIds(c, RemoveBulkBuf(c, i, j, buf, a).1)
  {
    hide KernelCode;
  }

  lemma AddingKeepsIds(c: Client, i: nat, j: nat, b: Bulk)
    requires i < |c.devices| && j < |c.devices[i].sessions|
    ensures KeepsIds(c, AddBulkBuf(c, i, j, b))
  {}

  lemma {:induction false} MapKeepsIds(c: Client, call: Call, a: Answers)
    requires call.MapCall?
    ensures KeepsIds(c, Apply(c, call, a))
  {
    hide RemoveBulkBuf, AddBulkBuf, KernelCode;
    if RegistersIn(c, call, a) {
      var p := Resolve(c, call.handle.value);
      var secure := if a.reply == Said(OK) && a.payload.Some? then a.payload.value else 0;
      var b := Bulk(call.buf, secure, call.bufLen, a.handle);
      AddingKeepsIds(c, p.i, p.j, b);
      AddedPlace(c, p.i, p.j, b);
      RemovingKeepsIds(AddBulkBuf(c, p.i, p.j, b), p.i, p.j, call.buf, a);
    }
  }

  lemma OpenIs(c: Client, id: nat)
    ensures Open(c, id) <==> DeviceIndex(c, id) < |c.devices|
  {}
}
