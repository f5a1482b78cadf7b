/**
 What each call of the client library leaves alone: sessions by their handles, bulk buffers by
 their addresses, shared-memory blocks by their devices; and what becomes of its own.
 */
module ClientFrames {
  import opened Wrappers
  import opened ClientTables
  import opened ClientConservation
  import opened ClientRoundTrip

  // ------------------------------------------------------------------------------------------
  // Looking up
  // ------------------------------------------------------------------------------------------

  function First<T>(s: seq<T>, p: T -> bool): Option<T> {
    if IndexOf(s, p) < |s| then Some(s[IndexOf(s, p)]) else None
  }

  lemma FirstAppend<T>(s: seq<T>, x: T, p: T -> bool)
    ensures First(s + [x], p) == if First(s, p).Some? then First(s, p) else if p(x) then Some(x) else None
  {
    var k := IndexOf(s, p);
    IndexIs(s + [x], p, if k < |s| || p(x) then k else k + 1);
  }

  lemma FirstUpdate<T>(s: seq<T>, k: nat, x: T, p: T -> bool)
    requires k < |s| && p(x) == p(s[k])
    ensures First(s[k := x], p) == if IndexOf(s, p) == k then Some(x) else First(s, p)
  {
    IndexIs(s[k := x], p, IndexOf(s, p));
  }

  /** Taking away an element that is the only one of its kind. */
  lemma FirstWithout<T>(s: seq<T>, k: nat, p: T -> bool)
    requires k < |s| && (p(s[k]) ==> forall j | 0 <= j < |s| && j != k :: !p(s[j]))
    ensures First(Without(s, k), p) == if p(s[k]) then None else First(s, p)
  {
    var i, r := IndexOf(s, p), Without(s, k);
    assert forall j | 0 <= j < |r| :: r[j] == s[if j < k then j else j + 1];
    IndexIs(r, p, if p(s[k]) then |r| else if i < k then i else i - 1);
  }

  function DeviceFor(c: Client, id: nat): Option<Device> {
    First(c.devices, HasDeviceId(id))
  }

  function SessionIn(d: Device, id: nat): Option<Session> {
    First(d.sessions, HasSessionId(id))
  }

  /** The session a handle stands for. */
  function SessionFor(c: Client, h: Handle): Option<Session> {
    match DeviceFor(c, h.deviceId)
    case None => None
    case Some(d) => SessionIn(d, h.sessionId)
  }

  /** The mapping of a buffer in it. */
  function BufferFor(c: Client, h: Handle, addr: nat): Option<Bulk> {
    match SessionFor(c, h)
    case None => None
    case Some(s) => First(s.bulkBufs, AtVirtual(addr))
  }

  /** The shared-memory blocks of a device. */
  function BlocksFor(c: Client, id: nat): Option<seq<Wsm>> {
    match DeviceFor(c, id)
    case None => None
    case Some(d) => Some(d.wsms)
  }

  lemma ResolvesTo(c: Client, h: Handle)
    ensures Resolve(c, h).At? <==> SessionFor(c, h).Some?
    ensures Resolve(c, h).At? ==> SessionFor(c, h) == Some(SessionAt(c, Resolve(c, h)))
  {
    hide IndexOf;
  }

  ghost predicate DistinctSessions(d: Device) {
    forall j, k | 0 <= j < k < |d.sessions| :: d.sessions[j].sessionId != d.sessions[k].sessionId
  }

  // ------------------------------------------------------------------------------------------
  // Changes to the tables
  // ------------------------------------------------------------------------------------------

  lemma DeviceReplaced(c: Client, id: nat, d: Device, other: nat)
    requires var i := DeviceIndex(c, id); i < |c.devices| && d.deviceId == id
    ensures DeviceFor(WithDevice(c, DeviceIndex(c, id), d), other)
            == if other == id then Some(d) else DeviceFor(c, other)
  {
    var i := DeviceIndex(c, id);
    assert HasDeviceId(id)(c.devices[i]);
    FirstUpdate(c.devices, i, d, HasDeviceId(other));
    hide IndexOf;
    if IndexOf(c.devices, HasDeviceId(other)) == i {
      SameKey(c.devices, id, other);
    }
  }

  lemma SameKey(ds: seq<Device>, id: nat, other: nat)
    requires IndexOf(ds, HasDeviceId(id)) == IndexOf(ds, HasDeviceId(other)) < |ds|
    ensures id == other
  {
    var i := IndexOf(ds, HasDeviceId(id));
    assert HasDeviceId(id)(ds[i]) && HasDeviceId(other)(ds[i]);
  }

  lemma DeviceRemoved(c: Client, id: nat, a: Answers, other: nat)
    requires DistinctIds(c)
    ensures DeviceFor(RemoveDevice(c, id, a), other) == if other == id then None else DeviceFor(c, other)
  {
    hide Unregistered, DeviceHolds;
    var i := DeviceIndex(c, id);
    if i < |c.devices| {
      assert HasDeviceId(id)(c.devices[i]);
      forall j | 0 <= j < |c.devices| && j != i
        ensures c.devices[j].deviceId != id
      {}
      FirstWithout(c.devices, i, HasDeviceId(other));
    }
  }

  lemma SessionReplaced(c: Client, h: Handle, s: Session, other: Handle)
    requires Resolve(c, h).At? && s.sessionId == SessionAt(c, Resolve(c, h)).sessionId
    ensures var p := Resolve(c, h);
            && SessionFor(WithSession(c, p.i, p.j, s), other) == (if other == h then Some(s) else SessionFor(c, other))
            && BlocksFor(WithSession(c, p.i, p.j, s), other.deviceId) == BlocksFor(c, other.deviceId)
  {
    var p := Resolve(c, h);
    var d := c.devices[p.i];
    assert HasDeviceId(h.deviceId)(d) && HasSessionId(h.sessionId)(d.sessions[p.j]);
    DeviceReplaced(c, h.deviceId, d.(sessions := d.sessions[p.j := s]), other.deviceId);
    FirstUpdate(d.sessions, p.j, s, HasSessionId(other.sessionId));
    hide IndexOf, WithDevice;
    if IndexOf(d.sessions, HasSessionId(other.sessionId)) == p.j {
      assert HasSessionId(other.sessionId)(d.sessions[p.j]);
    }
  }

  lemma SessionDropped(c: Client, h: Handle, a: Answers, other: Handle)
    requires Resolve(c, h).At? && DistinctSessions(c.devices[Resolve(c, h).i])
    ensures var p := Resolve(c, h);
            && SessionFor(RemoveSession(c, p.i, p.j, a), other) == (if other == h then None else SessionFor(c, other))
            && BlocksFor(RemoveSession(c, p.i, p.j, a), other.deviceId) == BlocksFor(c, other.deviceId)
  {
    var p := Resolve(c, h);
    var d := c.devices[p.i];
    assert HasDeviceId(h.deviceId)(d) && HasSessionId(h.sessionId)(d.sessions[p.j]);
    var d' := d.(sessions := Without(d.sessions, p.j));
    DeviceReplaced(c, h.deviceId, d', other.deviceId);
    SameDevice(RemoveSession(c, p.i, p.j, a), WithDevice(c, p.i, d'), other.deviceId);
    FirstWithout(d.sessions, p.j, HasSessionId(other.sessionId));
    hide IndexOf, WithDevice, RemoveSession;
  }

  lemma SameDevice(c: Client, r: Client, id: nat)
    requires c.devices == r.devices
    ensures DeviceFor(c, id) == DeviceFor(r, id)
  {}

  lemma SameLookups(c: Client, r: Client, h: Handle)
    requires c.devices == r.devices
    ensures SessionFor(c, h) == SessionFor(r, h) && BlocksFor(c, h.deviceId) == BlocksFor(r, h.deviceId)
  {
    SameDevice(c, r, h.deviceId);
    hide DeviceFor;
  }

  // ------------------------------------------------------------------------------------------
  // Sessions
  // ------------------------------------------------------------------------------------------

  /** If it succeeds the session of the handle is gone, and no other. */
  lemma {:induction false} CloseSessionExactly(c: Client, h: Handle, a: Answers, other: Handle)
    requires DistinctIds(c) && forall d | d in c.devices :: DistinctSessions(d)
    ensures var (code, r) := CloseSession(c, Some(h), a);
            && (code == OK <==> SessionFor(c, h).Some? && a.reply == Said(OK))
            && SessionFor(r, other) ==
               (if SessionFor(c, h).None? then SessionFor(c, other)
                else if a.reply.Broken? then if other.deviceId == h.deviceId then None else SessionFor(c, other)
                else if code == OK && other == h then None
                else SessionFor(c, other))
  {
    hide RemoveSession, RemoveDevice, Resolve, SessionFor, DistinctIds;
    ResolvesTo(c, h);
    if Resolve(c, h).At? {
      match a.reply
      case Broken => DeviceGone(c, h.deviceId, a, other);
      case Said(code) =>
        if code == OK {
          SessionDropped(c, h, a, other);
        }
    }
  }

  lemma DeviceGone(c: Client, id: nat, a: Answers, h: Handle)
    requires DistinctIds(c)
    ensures SessionFor(RemoveDevice(c, id, a), h) == if h.deviceId == id then None else SessionFor(c, h)
    ensures BlocksFor(RemoveDevice(c, id, a), h.deviceId) == if h.deviceId == id then None else BlocksFor(c, h.deviceId)
  {
    DeviceRemoved(c, id, a, h.deviceId);
    hide RemoveDevice, DistinctIds, DeviceFor;
  }

  /** The TCI needs a mapping: it is in no block, and it is there or has to be. */
  predicate NeedsMapping(d: Device, kind: OpenKind, tci: nat, len: nat) {
    FindWsm(d, tci).None? && (kind.ByImage? || (tci != 0 && len != 0))
  }

  /** The TCI lies in a block that is long enough, or can be mapped, or there is none. */
  predicate Usable(c: Client, d: Device, kind: OpenKind, tci: nat, len: nat, a: Answers) {
    match FindWsm(d, tci)
    case Some(w) => len <= w.len
    case None => if NeedsMapping(d, kind, tci, len) then Registers(c, a) else len == 0
  }

  /**
   Opening succeeds exactly if device, TCI and daemon are all right.  Then the id the daemon has
   given stands for a new session that holds its TCI, if that had to be mapped; unless the id was
   in use already.  All other sessions are as they were.
   */
  lemma {:induction false} OpenSessionExactly(c: Client, kind: OpenKind, given: bool, id: nat, tci: nat, len: nat,
                                              a: Answers, other: Handle)
    ensures var (code, sid, r) := OpenSession(c, kind, given, id, tci, len, a);
            && (code == OK <==>
                  && given && len <= MAX_TCI_LEN && (kind.ByImage? ==> tci != 0) && DeviceFor(c, id).Some?
                  && Usable(c, DeviceFor(c, id).value, kind, tci, len, a)
                  && a.reply == Said(OK) && a.payload.Some? && a.connects && a.channel == Said(OK))
            && (code == OK ==> sid == a.payload)
            && SessionFor(r, other) ==
               (if code == OK && other == Handle(id, sid.value) && SessionFor(c, other).None? then
                  var mapped := NeedsMapping(DeviceFor(c, id).value, kind, tci, len);
                  Some(Session(sid.value, if mapped then [Bulk(tci, 0, len, a.handle)] else []))
                else SessionFor(c, other))
            && BlocksFor(r, other.deviceId) == BlocksFor(c, other.deviceId)
  {
    hide FindWsm, SessionFor, BlocksFor;
    var i := DeviceIndex(c, id);
    if OpenArguments(kind, given, tci, len) && i < |c.devices| {
      var d := c.devices[i];
      var t := TciOf(c, d, kind, tci, len, a);
      var (code, sid) := Negotiate(a);
      if !t.Unusable? {
        if code == OK {
          var s := Session(sid.value, TciBufs(t, tci, len));
          SessionAdded(c, id, s, other);
          SameLookups(WithTci(WithNewSession(c, i, s), t), WithNewSession(c, i, s), other);
        } else {
          SameLookups(WithTci(c, t), c, other);
        }
      }
    }
    hide IndexOf, WithNewSession;
  }

  lemma SessionAdded(c: Client, id: nat, s: Session, other: Handle)
    requires DeviceIndex(c, id) < |c.devices|
    ensures var r := WithNewSession(c, DeviceIndex(c, id), s);
            && SessionFor(r, other) ==
               (if other == Handle(id, s.sessionId) && SessionFor(c, other).None? then Some(s)
                else SessionFor(c, other))
            && BlocksFor(r, other.deviceId) == BlocksFor(c, other.deviceId)
  {
    var d := c.devices[DeviceIndex(c, id)];
    assert HasDeviceId(id)(d);
    DeviceReplaced(c, id, d.(sessions := d.sessions + [s]), other.deviceId);
    FirstAppend(d.sessions, s, HasSessionId(other.sessionId));
    hide IndexOf, WithDevice;
  }

  // ------------------------------------------------------------------------------------------
  // Mappings
  // ------------------------------------------------------------------------------------------

  /** A session with its buffers changed. */
  lemma BuffersReplaced(c: Client, h: Handle, bufs: seq<Bulk>, registered: set<nat>, other: Handle, addr: nat)
    requires Resolve(c, h).At?
    ensures var p := Resolve(c, h);
            var r := WithSession(c, p.i, p.j, SessionAt(c, p).(bulkBufs := bufs)).(registered := registered);
            && BufferFor(r, other, addr) ==
               (if other == h then First(bufs, AtVirtual(addr)) else BufferFor(c, other, addr))
            && (other != h ==> SessionFor(r, other) == SessionFor(c, other))
            && SessionFor(r, other).Some? == SessionFor(c, other).Some?
            && BlocksFor(r, other.deviceId) == BlocksFor(c, other.deviceId)
  {
    hide Resolve, IndexOf, WithSession, BlocksFor, SessionFor;
    var p := Resolve(c, h);
    var s := SessionAt(c, p).(bulkBufs := bufs);
    SessionReplaced(c, h, s, other);
    ResolvesTo(c, h);
    SameLookups(WithSession(c, p.i, p.j, s).(registered := registered), WithSession(c, p.i, p.j, s), other);
  }

  lemma MappedIsThere(c: Client, h: Handle, addr: nat)
    requires Resolve(c, h).At?
    ensures IsMapped(SessionAt(c, Resolve(c, h)), addr) <==> BufferFor(c, h, addr).Some?
    ensures BufferFor(c, h, addr) == First(SessionAt(c, Resolve(c, h)).bulkBufs, AtVirtual(addr))
  {
    hide Resolve, IndexOf, SessionFor;
    ResolvesTo(c, h);
  }

  /** mcMap leaves the tables, or adds a descriptor of the buffer. */
  lemma {:induction false} MapAdds(c: Client, h: Handle, buf: nat, len: nat, a: Answers)
    ensures var (code, _, r) := Map(c, Some(h), buf, len, true, a);
            var p := Resolve(c, h);
            || (code != OK && r.devices == c.devices)
            || (&& p.At? && !IsMapped(SessionAt(c, p), buf)
                && exists secure: nat :: r == AddBulkBuf(c, p.i, p.j, Bulk(buf, secure, len, a.handle))
                                    && (code == OK ==> a.payload == Some(secure)))
  {
    hide Resolve, IsMapped, KernelCode, AddBulkBuf, RemoveBulkBuf;
    var p := Resolve(c, h);
    if a.reply.Said? && a.reply.code != OK && p.At? && !IsMapped(SessionAt(c, p), buf) && Registers(c, a) {
      AddThenRemove(c, p.i, p.j, Bulk(buf, 0, len, a.handle), a);
    }
  }

  /** mcMap touches no mapping but that of its own buffer in its own session, which it makes if it succeeds. */
  lemma {:induction false} MapFrame(c: Client, h: Handle, buf: nat, len: nat, a: Answers, other: Handle, addr: nat)
    ensures var (code, _, r) := Map(c, Some(h), buf, len, true, a);
            && (other != h || addr != buf ==> BufferFor(r, other, addr) == BufferFor(c, other, addr))
            && (code == OK ==>
                  BufferFor(c, h, buf) == None && a.payload.Some?
                  && BufferFor(r, h, buf) == Some(Bulk(buf, a.payload.value, len, a.handle)))
            && (other != h ==> SessionFor(r, other) == SessionFor(c, other))
            && SessionFor(r, other).Some? == SessionFor(c, other).Some?
            && BlocksFor(r, other.deviceId) == BlocksFor(c, other.deviceId)
  {
    hide Map, Resolve, IsMapped, SessionFor, BlocksFor, BufferFor;
    var (code, _, r) := Map(c, Some(h), buf, len, true, a);
    var p := Resolve(c, h);
    MapAdds(c, h, buf, len, a);
    if code != OK && r.devices == c.devices {
      SameLookups(r, c, other);
      SameBuffers(r, c, other, addr);
    } else {
      var secure: nat :| r == AddBulkBuf(c, p.i, p.j, Bulk(buf, secure, len, a.handle))
                         && (code == OK ==> a.payload == Some(secure));
      var s, b := SessionAt(c, p), Bulk(buf, secure, len, a.handle);
      BuffersReplaced(c, h, s.bulkBufs + [b], r.registered, other, addr);
      BuffersReplaced(c, h, s.bulkBufs + [b], r.registered, h, buf);
      MappedIsThere(c, h, addr);
      MappedIsThere(c, h, buf);
      FirstAppend(s.bulkBufs, b, AtVirtual(addr));
      FirstAppend(s.bulkBufs, b, AtVirtual(buf));
      hide First;
    }
  }

  /** A mapping that the daemon refuses leaves nothing behind, if the kernel agrees. */
  lemma {:induction false} RefusedMapLeaves(c: Client, h: Handle, buf: nat, len: nat, a: Answers)
    requires a.reply.Said? && a.reply.code != OK
    ensures var r := Map(c, Some(h), buf, len, true, a).2;
            r.devices == c.devices && (a.handle !in a.refused ==> r == c)
  {
    hide Resolve, IsMapped, KernelCode, AddBulkBuf, RemoveBulkBuf;
    var p := Resolve(c, h);
    if p.At? && !IsMapped(SessionAt(c, p), buf) && Registers(c, a) {
      AddThenRemove(c, p.i, p.j, Bulk(buf, 0, len, a.handle), a);
    }
  }

  lemma SameBuffers(c: Client, r: Client, h: Handle, addr: nat)
    requires c.devices == r.devices
    ensures BufferFor(c, h, addr) == BufferFor(r, h, addr)
  {
    SameLookups(c, r, h);
    hide SessionFor;
  }

  /** mcUnmap removes at most the mapping of its own buffer in its own session. */
  lemma {:induction false} RemovalFrame(c: Client, h: Handle, buf: nat, a: Answers, other: Handle, addr: nat)
    requires Invariant(c) && Resolve(c, h).At?
    ensures var p := Resolve(c, h);
            var (code, r) := RemoveBulkBuf(c, p.i, p.j, buf, a);
            && BufferFor(r, other, addr) == (if other == h && addr == buf then None else BufferFor(c, other, addr))
            && (code == OK ==> BufferFor(c, h, buf).Some?)
            && (other != h ==> SessionFor(r, other) == SessionFor(c, other))
            && SessionFor(r, other).Some? == SessionFor(c, other).Some?
            && BlocksFor(r, other.deviceId) == BlocksFor(c, other.deviceId)
  {
    hide Invariant, Resolve, IndexOf, WithSession, SessionFor, BlocksFor, BufferFor, KernelCode, Without;
    var p := Resolve(c, h);
    var s := SessionAt(c, p);
    var k, r := IndexOf(s.bulkBufs, AtVirtual(buf)), RemoveBulkBuf(c, p.i, p.j, buf, a).1;
    MappedIsThere(c, h, buf);
    MappedIsThere(c, h, addr);
    if k < |s.bulkBufs| {
      forall j | 0 <= j < |s.bulkBufs| && j != k
        ensures s.bulkBufs[j].virtAddr != buf
      {
        BufferOnce(c, p.i, p.j, j, k);
      }
      FirstWithout(s.bulkBufs, k, AtVirtual(addr));
      BuffersReplaced(c, h, Without(s.bulkBufs, k), r.registered, other, addr);
    }
  }

  lemma {:induction false} UnmapFrame(c: Client, h: Handle, buf: nat, info: MapInfo, a: Answers, other: Handle,
                                      addr: nat)
    requires Invariant(c)
    requires !(Open(c, h.deviceId) && TakesDevice(c, UnmapCall(Some(h), buf, Some(info)), a, h.deviceId))
    ensures var (code, _, r) := Unmap(c, Some(h), buf, Some(info), a);
            && (other != h || addr != buf ==> BufferFor(r, other, addr) == BufferFor(c, other, addr))
            && (code == OK ==> BufferFor(c, h, buf).Some? && BufferFor(r, h, buf) == None)
            && (other != h ==> SessionFor(r, other) == SessionFor(c, other))
            && SessionFor(r, other).Some? == SessionFor(c, other).Some?
            && BlocksFor(r, other.deviceId) == BlocksFor(c, other.deviceId)
  {
    hide Invariant, SessionFor, BlocksFor, BufferFor, RemoveBulkBuf, RemoveDevice;
    var p := Resolve(c, h);
    if p.At? {
      RemovalFrame(c, h, buf, a, other, addr);
      RemovalFrame(c, h, buf, a, h, buf);
      if IndexOf(SessionAt(c, p).bulkBufs, AtSecure(info.sVirtualAddr, info.sVirtualLen)) < |SessionAt(c, p).bulkBufs| {
        LiveHandle(c, p.i, p.j, Found(SessionAt(c, p), info));
      }
    }
  }

  // ------------------------------------------------------------------------------------------
  // Blocks
  // ------------------------------------------------------------------------------------------

  /** A block is added exactly if the call succeeds, at the address returned. */
  lemma {:induction false} MallocExactly(c: Client, id: nat, len: nat, given: bool, a: Answers, other: Handle)
    ensures var (code, addr, r) := MallocWsm(c, id, len, given, a);
            && (code == OK <==> BlocksFor(c, id).Some? && given && len != 0 && a.block.Some?)
            && (code == OK ==> a.block == Some((addr, a.block.value.1)))
            && BlocksFor(r, other.deviceId) ==
               (if code == OK && other.deviceId == id then
                  Some(BlocksFor(c, id).value + [Wsm(addr, len, a.block.value.1)])
                else BlocksFor(c, other.deviceId))
            && SessionFor(r, other) == SessionFor(c, other)
  {
    var i := DeviceIndex(c, id);
    if i < |c.devices| && a.block.Some? {
      var d := c.devices[i];
      assert HasDeviceId(id)(d);
      DeviceReplaced(c, id, d.(wsms := d.wsms + [Wsm(a.block.value.0, len, a.block.value.1)]), other.deviceId);
    }
    hide IndexOf, WithDevice, KernelCode;
  }

  /** The block at `k` is the first at its address, and the only one that is gone. */
  ghost predicate Freed(before: seq<Wsm>, after: seq<Wsm>, addr: nat, k: nat) {
    && k < |before| && before[k].virtAddr == addr && (forall j | 0 <= j < k :: before[j].virtAddr != addr)
    && after == before[..k] + before[k + 1..]
  }

  predicate SomeBlock(ws: seq<Wsm>, addr: nat) {
    exists j | 0 <= j < |ws| :: ws[j].virtAddr == addr
  }

  lemma FirstBlock(ws: seq<Wsm>, addr: nat)
    requires IndexOf(ws, AtBlock(addr)) < |ws|
    ensures var k := IndexOf(ws, AtBlock(addr)); SomeBlock(ws, addr) && Freed(ws, Without(ws, k), addr, k)
  {
    var k := IndexOf(ws, AtBlock(addr));
    assert AtBlock(addr)(ws[k]);
    assert forall j | 0 <= j < k :: !AtBlock(addr)(ws[j]);
    hide IndexOf;
  }

  lemma NoBlock(ws: seq<Wsm>, addr: nat)
    requires IndexOf(ws, AtBlock(addr)) == |ws|
    ensures !SomeBlock(ws, addr)
  {
    assert forall j | 0 <= j < |ws| :: !AtBlock(addr)(ws[j]);
    hide IndexOf;
  }

  /** The first block at the address goes, exactly if the call succeeds; all others stay in their order. */
  lemma {:induction false} FreeExactly(c: Client, id: nat, wsm: nat, a: Answers, other: Handle)
    ensures var (code, r) := FreeWsm(c, id, wsm, a);
            && (code == OK <==>
                  BlocksFor(c, id).Some? && wsm != 0 && a.freed && SomeBlock(BlocksFor(c, id).value, wsm))
            && (code == OK ==>
                  BlocksFor(r, id).Some? && exists k :: Freed(BlocksFor(c, id).value, BlocksFor(r, id).value, wsm, k))
            && (code != OK || other.deviceId != id ==> BlocksFor(r, other.deviceId) == BlocksFor(c, other.deviceId))
            && SessionFor(r, other) == SessionFor(c, other)
  {
    hide Freed, SomeBlock, KernelCode;
    var i := DeviceIndex(c, id);
    if i < |c.devices| {
      var d := c.devices[i];
      var k := IndexOf(d.wsms, AtBlock(wsm));
      assert HasDeviceId(id)(d);
      if k == |d.wsms| {
        NoBlock(d.wsms, wsm);
      } else {
        FirstBlock(d.wsms, wsm);
        DeviceReplaced(c, id, d.(wsms := Without(d.wsms, k)), other.deviceId);
        DeviceReplaced(c, id, d.(wsms := Without(d.wsms, k)), id);
      }
    }
    hide IndexOf, WithDevice, Without;
  }

  // ------------------------------------------------------------------------------------------
  // Every call
  // ------------------------------------------------------------------------------------------

  /** The handle a call is given. */
  function Given(call: Call): Option<Handle> {
    match call
    case CloseSessionCall(h) => h
    case NotifyCall(h) => h
    case MapCall(h, _, _, _) => h
    case UnmapCall(h, _, _) => h
    case _ => None
  }

  /** The handle that a successful opening gives out. */
  predicate Opens(c: Client, call: Call, a: Answers, h: Handle) {
    call.OpenSessionCall? && !OpenFails(c, call, a) && a.payload == Some(h.sessionId) && call.id == h.deviceId
  }

  predicate Taken(c: Client, call: Call, a: Answers, id: nat) {
    Open(c, id) && TakesDevice(c, call, a, id)
  }

  lemma {:induction false} DeviceOpened(c: Client, id: nat, a: Answers, h: Handle)
    ensures var (code, r) := OpenDevice(c, id, a);
            && SessionFor(r, h) == SessionFor(c, h)
            && BlocksFor(r, h.deviceId) == if code == OK && h.deviceId == id then Some([]) else BlocksFor(c, h.deviceId)
  {
    FirstAppend(c.devices, Device(id, [], []), HasDeviceId(h.deviceId));
  }

  lemma {:induction false} NotifyOthers(c: Client, call: Call, a: Answers, h: Handle)
    requires DistinctIds(c) && call.NotifyCall?
    ensures SessionFor(Apply(c, call, a), h) == if Taken(c, call, a, h.deviceId) then None else SessionFor(c, h)
  {
    hide SessionFor, RemoveDevice, DistinctIds;
    if call.handle.Some? && Resolve(c, call.handle.value).At? {
      DeviceGone(c, call.handle.value.deviceId, a, h);
    }
  }

  lemma {:induction false} CloseOthers(c: Client, call: Call, a: Answers, h: Handle)
    requires DistinctIds(c) && (forall d | d in c.devices :: DistinctSessions(d)) && call.CloseSessionCall?
    ensures Taken(c, call, a, h.deviceId) ==> SessionFor(Apply(c, call, a), h) == None
    ensures !Taken(c, call, a, h.deviceId) && call.handle != Some(h) ==>
                SessionFor(Apply(c, call, a), h) == SessionFor(c, h)
  {
    hide SessionFor, CloseSession, DistinctIds;
    if call.handle.Some? {
      CloseSessionExactly(c, call.handle.value, a, h);
      ResolvesTo(c, call.handle.value);
    } else {
      NoHandle(c, a);
    }
  }

  lemma NoHandle(c: Client, a: Answers)
    ensures CloseSession(c, None, a).1 == c
  {}

  lemma {:induction false} UnmapOthers(c: Client, call: Call, a: Answers, h: Handle)
    requires Invariant(c) && call.UnmapCall?
    ensures Taken(c, call, a, h.deviceId) ==> SessionFor(Apply(c, call, a), h) == None
    ensures !Taken(c, call, a, h.deviceId) && call.handle != Some(h) ==>
                SessionFor(Apply(c, call, a), h) == SessionFor(c, h)
  {
    hide Invariant, SessionFor, BlocksFor, BufferFor, RemoveDevice, RemoveBulkBuf;
    DistinctOf(c);
    if call.handle.Some? && call.info.Some? {
      var own := call.handle.value;
      if Taken(c, call, a, own.deviceId) {
        UnmapTakes(c, own, call.buf, call.info.value, a);
        DeviceGone(c, own.deviceId, a, h);
      } else {
        UnmapFrame(c, own, call.buf, call.info.value, a, h, 0);
      }
    }
  }

  lemma UnmapTakes(c: Client, h: Handle, buf: nat, info: MapInfo, a: Answers)
    requires Invariant(c) && Taken(c, UnmapCall(Some(h), buf, Some(info)), a, h.deviceId)
    ensures Unmap(c, Some(h), buf, Some(info), a).2 == RemoveDevice(c, h.deviceId, a)
  {
    hide Invariant, RemoveDevice, RemoveBulkBuf;
    var p := Resolve(c, h);
    LiveHandle(c, p.i, p.j, Found(SessionAt(c, p), info));
    assert HasDeviceId(h.deviceId)(c.devices[p.i]);
  }

  /**
   Every call, whatever goes wrong: it takes a device with all its sessions and blocks, or it leaves
   every session alone but the one it is given or opens.
   */
  lemma {:induction false} OthersUntouched(c: Client, call: Call, a: Answers, h: Handle)
    requires Invariant(c) && forall d | d in c.devices :: DistinctSessions(d)
    ensures Taken(c, call, a, h.deviceId) ==> SessionFor(Apply(c, call, a), h) == None
    ensures !Taken(c, call, a, h.deviceId) && Given(call) != Some(h) && !Opens(c, call, a, h) ==>
              SessionFor(Apply(c, call, a), h) == SessionFor(c, h)
  {
    hide Invariant, DistinctSessions, SessionFor, BlocksFor, BufferFor, RemoveDevice, Map, OpenSession, CloseSession,
         Unmap, FreeWsm,
         MallocWsm, OpenDevice, Notify;
    DistinctOf(c);
    match call
    case OpenDeviceCall(id) => DeviceOpened(c, id, a, h);
    case MallocWsmCall(id, len, given) => MallocExactly(c, id, len, given, a, h);
    case FreeWsmCall(id, wsm) => FreeExactly(c, id, wsm, a, h);
    case OpenSessionCall(kind, given, id, tci, len) => OpenSessionExactly(c, kind, given, id, tci, len, a, h);
    case CloseDeviceCall(id) => DeviceGone(c, id, a, h);
    case CloseSessionCall(handle) => CloseOthers(c, call, a, h);
    case NotifyCall(handle) => NotifyOthers(c, call, a, h);
    case MapCall(handle, buf, len, given) =>
      if handle != Some(h) {
        MapOthers(c, call, a, h);
      }
    case UnmapCall(handle, buf, info) => UnmapOthers(c, call, a, h);
  }

  lemma {:induction false} MapOthers(c: Client, call: Call, a: Answers, h: Handle)
    requires call.MapCall? && call.handle != Some(h)
    ensures SessionFor(Apply(c, call, a), h) == SessionFor(c, h)
  {
    hide SessionFor, BlocksFor, BufferFor, MapAt;
    if call.handle.Some? && call.given {
      MapFrame(c, call.handle.value, call.buf, call.bufLen, a, h, 0);
    }
  }
}
