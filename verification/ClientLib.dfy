/**
 The client library itself: sessions, devices and the library as objects that update their lists
 in place, each method proved against the functions of ClientTables.
 */
module ClientLib {
  import opened Wrappers
  import opened T = ClientTables

  /** The kernel module as the library sees it: the L2 tables that are registered. */
  class Kernel {
    var registered: set<nat>

    constructor ()
      ensures registered == {}
    {
      registered := {};
    }

    method RegisterWsmL2(a: Answers) returns (ret: nat, handle: nat)
      modifies this
      ensures if a.handle != 0 && a.handle !in old(registered) then
                ret == OK && handle == a.handle && registered == old(registered) + {handle}
              else ret == KernelCode(a.kernelError) && unchanged(this)
    {
      ret, handle := KernelCode(a.kernelError), 0;
      if a.handle != 0 && a.handle !in registered {
        ret, handle := OK, a.handle;
        registered := registered + {handle};
      }
    }

    method UnregisterWsmL2(handle: nat, a: Answers) returns (ret: nat)
      modifies this
      ensures if handle in a.refused then ret == KernelCode(a.kernelError) && registered == old(registered)
              else ret == OK && registered == old(registered) - {handle}
    {
      if handle in a.refused {
        return KernelCode(a.kernelError);
      }
      registered := registered - {handle};
      return OK;
    }
  }

  // ------------------------------------------------------------------------------------------
  // Session
  // ------------------------------------------------------------------------------------------

  class Session {
    const sessionId: nat
    var bulkBufs: seq<Bulk>

    function View(): T.Session
      reads this
    {
      T.Session(sessionId, bulkBufs)
    }

    constructor (sessionId: nat)
      ensures View() == T.Session(sessionId, [])
    {
      this.sessionId, bulkBufs := sessionId, [];
    }

    /** The position of the new descriptor stands for the pointer to it. */
    method AddBulkBuf(kernel: Kernel, buf: nat, len: nat, a: Answers) returns (ret: nat, blkBuf: nat)
      modifies this, kernel
      ensures if IsMapped(old(View()), buf) then
                ret == ERR_BUFFER_ALREADY_MAPPED && unchanged(this) && unchanged(kernel)
              else if a.handle == 0 || a.handle in old(kernel.registered) then
                ret == KernelCode(a.kernelError) && unchanged(this) && unchanged(kernel)
              else
                && ret == OK && blkBuf == |old(bulkBufs)| && bulkBufs == old(bulkBufs) + [Bulk(buf, 0, len, a.handle)]
                && kernel.registered == old(kernel.registered) + {a.handle}
    {
      blkBuf := 0;
      for i := 0 to |bulkBufs|
        invariant forall j | 0 <= j < i :: !AtVirtual(buf)(bulkBufs[j])
      {
        if bulkBufs[i].virtAddr == buf {
          IndexIs(bulkBufs, AtVirtual(buf), i);
          return ERR_BUFFER_ALREADY_MAPPED, blkBuf;
        }
      }
      IndexIs(bulkBufs, AtVirtual(buf), |bulkBufs|);
      var handle;
      ret, handle := kernel.RegisterWsmL2(a);
      if ret != OK {
        return;
      }
      blkBuf := |bulkBufs|;
      bulkBufs := bulkBufs + [Bulk(buf, 0, len, handle)];
    }

    method AddDescriptor(blkBuf: Bulk)
      modifies this
      ensures bulkBufs == old(bulkBufs) + [blkBuf]
    {
      bulkBufs := bulkBufs + [blkBuf];
    }

    method GetBufHandle(sVirtAddr: nat, sVirtualLen: nat) returns (handle: nat)
      ensures handle == T.GetBufHandle(View(), MapInfo(sVirtAddr, sVirtualLen))
    {
      for i := 0 to |bulkBufs|
        invariant forall j | 0 <= j < i :: !AtSecure(sVirtAddr, sVirtualLen)(bulkBufs[j])
      {
        if bulkBufs[i].sVirtualAddr == sVirtAddr && bulkBufs[i].len == sVirtualLen {
          IndexIs(bulkBufs, AtSecure(sVirtAddr, sVirtualLen), i);
          return bulkBufs[i].handle;
        }
      }
      IndexIs(bulkBufs, AtSecure(sVirtAddr, sVirtualLen), |bulkBufs|);
      return 0;
    }

    method RemoveBulkBuf(kernel: Kernel, virtAddr: nat, a: Answers) returns (ret: nat)
      modifies this, kernel
      ensures var k := IndexOf(old(bulkBufs), AtVirtual(virtAddr));
              if k == |old(bulkBufs)| then ret == ERR_BLK_BUFF_NOT_FOUND && unchanged(this) && unchanged(kernel)
              else
                && bulkBufs == Without(old(bulkBufs), k)
                && (if old(bulkBufs)[k].handle in a.refused then
                      ret == KernelCode(a.kernelError) && kernel.registered == old(kernel.registered)
                    else ret == OK && kernel.registered == old(kernel.registered) - {old(bulkBufs)[k].handle})
    {
      var found := None;
      var i := 0;
      while i < |bulkBufs|
        invariant i <= |bulkBufs| && forall j | 0 <= j < i :: !AtVirtual(virtAddr)(bulkBufs[j])
      {
        if bulkBufs[i].virtAddr == virtAddr {
          found := Some(bulkBufs[i]);
          break;
        }
        i := i + 1;
      }
      IndexIs(bulkBufs, AtVirtual(virtAddr), i);
      if found.None? {
        return ERR_BLK_BUFF_NOT_FOUND;
      }
      bulkBufs := bulkBufs[..i] + bulkBufs[i + 1..];
      ret := kernel.UnregisterWsmL2(found.value.handle, a);
    }

    /** The destructor: every failure is ignored. */
    method Destroy(kernel: Kernel, a: Answers)
      modifies kernel
      ensures kernel.registered == Unregistered(old(kernel.registered), SessionHolds(View()), a.refused)
    {
      hide Sum, Unregistered;
      NoneUnregistered(kernel.registered, bulkBufs, HandleOf, a.refused);
      for i := 0 to |bulkBufs|
        invariant kernel.registered == Unregistered(old(kernel.registered), Sum(bulkBufs[..i], HandleOf), a.refused)
      {
        UnregisteredOne(kernel.registered, bulkBufs[i].handle, a.refused);
        OneMoreUnregistered(old(kernel.registered), bulkBufs, i, HandleOf, a.refused);
        var _ := kernel.UnregisterWsmL2(bulkBufs[i].handle, a);
      }
      AllUnregistered(old(kernel.registered), bulkBufs, HandleOf, a.refused);
    }
  }

  function SessionViews(ss: seq<Session>): (vs: seq<T.Session>)
    reads ss
    ensures |vs| == |ss| && forall i | 0 <= i < |ss| :: vs[i] == ss[i].View()
  {
    if ss == [] then [] else SessionViews(ss[..|ss| - 1]) + [ss[|ss| - 1].View()]
  }

  // ------------------------------------------------------------------------------------------
  // Device
  // ------------------------------------------------------------------------------------------

  class Device {
    const deviceId: nat
    var sessions: seq<Session>
    var wsms: seq<Wsm>

    ghost predicate Valid()
      reads this
    {
      forall i, j | 0 <= i < j < |sessions| :: sessions[i] != sessions[j]
    }

    function View(): (d: T.Device)
      reads this, sessions
      ensures |d.sessions| == |sessions|
    {
      T.Device(deviceId, SessionViews(sessions), wsms)
    }

    constructor (deviceId: nat)
      ensures Valid() && sessions == [] && View() == T.Device(deviceId, [], [])
    {
      this.deviceId, sessions, wsms := deviceId, [], [];
    }

    method CreateNewSession(sessionId: nat) returns (session: Session)
      requires Valid()
      modifies this`sessions
      ensures Valid() && fresh(session) && sessions == old(sessions) + [session]
      ensures session.View() == T.Session(sessionId, [])
    {
      session := new Session(sessionId);
      sessions := sessions + [session];
    }

    method ResolveSessionId(sessionId: nat) returns (session: Session?)
      ensures var j := SessionIndex(View(), sessionId);
              if j == |sessions| then session == null else session == sessions[j]
    {
      for i := 0 to |sessions|
        invariant forall j | 0 <= j < i :: !HasSessionId(sessionId)(View().sessions[j])
      {
        if sessions[i].sessionId == sessionId {
          IndexIs(View().sessions, HasSessionId(sessionId), i);
          return sessions[i];
        }
      }
      IndexIs(View().sessions, HasSessionId(sessionId), |sessions|);
      return null;
    }

    method RemoveSession(sessionId: nat, kernel: Kernel, a: Answers) returns (ret: bool)
      requires Valid()
      modifies this`sessions, kernel
      ensures Valid()
      ensures var j := SessionIndex(old(View()), sessionId);
              if j == |old(sessions)| then !ret && unchanged(this) && unchanged(kernel)
              else
                && ret && sessions == Without(old(sessions), j)
                && kernel.registered == Unregistered(old(kernel.registered), SessionHolds(old(View()).sessions[j]),
                                                     a.refused)
    {
      hide Unregistered, SessionHolds, SessionViews, IndexOf;
      ret := false;
      var i := 0;
      while i < |sessions|
        invariant i <= |sessions| && forall j | 0 <= j < i :: !HasSessionId(sessionId)(View().sessions[j])
        invariant !ret && unchanged(this) && unchanged(kernel)
      {
        if sessions[i].sessionId == sessionId {
          IndexIs(View().sessions, HasSessionId(sessionId), i);
          sessions[i].Destroy(kernel, a);
          sessions := sessions[..i] + sessions[i + 1..];
          return true;
        }
        i := i + 1;
      }
      IndexIs(View().sessions, HasSessionId(sessionId), |sessions|);
    }

    method FindContiguousWsm(virtAddr: nat) returns (pWsm: Option<Wsm>, at: nat)
      ensures pWsm == FindWsm(View(), virtAddr)
      ensures pWsm.Some? ==> at == IndexOf(wsms, AtBlock(virtAddr)) < |wsms|
    {
      pWsm, at := None, 0;
      if virtAddr == 0 {
        return;
      }
      while at < |wsms|
        invariant at <= |wsms| && forall j | 0 <= j < at :: !AtBlock(virtAddr)(wsms[j])
      {
        if wsms[at].virtAddr == virtAddr {
          IndexIs(wsms, AtBlock(virtAddr), at);
          return Some(wsms[at]), at;
        }
        at := at + 1;
      }
      IndexIs(wsms, AtBlock(virtAddr), |wsms|);
    }

    method AllocateContiguousWsm(len: nat, a: Answers) returns (ret: nat, wsm: nat)
      modifies this`wsms
      ensures if len == 0 then ret == ERR_INVALID_LENGTH && wsm == 0 && unchanged(this)
              else if a.block.None? then ret == KernelCode(a.kernelError) && wsm == 0 && unchanged(this)
              else ret == OK && wsm == a.block.value.0 && wsms == old(wsms) + [Wsm(wsm, len, a.block.value.1)]
    {
      if len == 0 {
        return ERR_INVALID_LENGTH, 0;
      }
      if a.block.None? {
        return KernelCode(a.kernelError), 0;
      }
      wsms := wsms + [Wsm(a.block.value.0, len, a.block.value.1)];
      return OK, a.block.value.0;
    }

    method FreeContiguousWsm(at: nat, a: Answers) returns (ret: nat)
      requires at < |wsms|
      modifies this`wsms
      ensures if a.freed then ret == OK && wsms == Without(old(wsms), at)
              else ret == KernelCode(a.kernelError) && unchanged(this)
    {
      if !a.freed {
        return KernelCode(a.kernelError);
      }
      wsms := wsms[..at] + wsms[at + 1..];
      return OK;
    }

    method MapBulkBuf(kernel: Kernel, buf: nat, len: nat, a: Answers) returns (ret: nat, blkBuf: Option<Bulk>)
      modifies kernel
      ensures if a.handle != 0 && a.handle !in old(kernel.registered) then
                && ret == OK && blkBuf == Some(Bulk(buf, 0, len, a.handle))
                && kernel.registered == old(kernel.registered) + {a.handle}
              else ret != OK && blkBuf == None && unchanged(kernel)
    {
      blkBuf := None;
      var handle;
      ret, handle := kernel.RegisterWsmL2(a);
      if ret != OK {
        return;
      }
      blkBuf := Some(Bulk(buf, 0, len, handle));
    }

    /**
     The destructor: sessions first, each with its descriptors, then the blocks; `freed` are those
     handed to the kernel, in order.
     */
    method Destroy(kernel: Kernel, a: Answers) returns (freed: seq<Wsm>)
      requires Valid()
      modifies this, kernel
      ensures freed == old(wsms) && wsms == [] && sessions == []
      ensures kernel.registered == Unregistered(old(kernel.registered), DeviceHolds(old(View())), a.refused)
    {
      hide Sum, Unregistered;
      ghost var all := View().sessions;
      ghost var done := 0;
      NoneUnregistered(kernel.registered, all, SessionHolds, a.refused);
      while sessions != []
        invariant done + |sessions| == |all| && sessions == old(sessions)[done..] && wsms == old(wsms)
        invariant kernel.registered == Unregistered(old(kernel.registered), Sum(all[..done], SessionHolds), a.refused)
        decreases |sessions|
      {
        OneMoreUnregistered(old(kernel.registered), all, done, SessionHolds, a.refused);
        assert sessions[0] == old(sessions)[done];
        sessions[0].Destroy(kernel, a);
        sessions := sessions[1..];
        done := done + 1;
      }
      AllUnregistered(old(kernel.registered), all, SessionHolds, a.refused);
      freed := [];
      while wsms != []
        invariant freed + wsms == old(wsms) && sessions == []
        invariant kernel.registered == Unregistered(old(kernel.registered), DeviceHolds(old(View())), a.refused)
        decreases |wsms|
      {
        freed := freed + [wsms[0]];
        wsms := wsms[1..];
      }
    }
  }

  ghost function SessionsOf(ds: seq<Device>): set<Session>
    reads ds
  {
    set d, s | d in ds && s in d.sessions :: s
  }

  ghost function DeviceViews(ds: seq<Device>): (vs: seq<T.Device>)
    reads ds, SessionsOf(ds)
    ensures |vs| == |ds| && forall i | 0 <= i < |ds| :: vs[i] == ds[i].View()
  {
    if ds == [] then []
    else
      assert forall d, s | d in ds && s in d.sessions :: s in SessionsOf(ds);
      assert ds[|ds| - 1] in ds;
      assert forall s | s in ds[|ds| - 1].sessions :: s in SessionsOf(ds);
      DeviceViews(ds[..|ds| - 1]) + [ds[|ds| - 1].View()]
  }

  lemma AtWithout<X>(s: seq<X>, i: nat, k: nat)
    requires i < |s| && k < |s| - 1
    ensures Without(s, i)[k] == s[if k < i then k else k + 1]
  {}

  lemma ViewsWithout(ds: seq<Device>, i: nat)
    requires i < |ds|
    ensures DeviceViews(Without(ds, i)) == Without(DeviceViews(ds), i)
  {
    hide DeviceViews, SessionViews, Without;
    forall k | 0 <= k < |ds| - 1
      ensures DeviceViews(Without(ds, i))[k] == Without(DeviceViews(ds), i)[k]
    {
      AtWithout(ds, i, k);
      AtWithout(DeviceViews(ds), i, k);
    }
  }

  /** An unmap that fails in the kernel is not taken for a broken connection. */
  lemma RemovalCode(c: Client, i: nat, j: nat, buf: nat, a: Answers)
    requires i < |c.devices| && j < |c.devices[i].sessions|
    ensures T.RemoveBulkBuf(c, i, j, buf, a).0 != ERR_DAEMON_UNREACHABLE
  {}

  lemma ViewsAppend(ds: seq<Device>, d: Device)
    ensures DeviceViews(ds + [d]) == DeviceViews(ds) + [d.View()]
  {
    assert (ds + [d])[..|ds|] == ds;
  }

  ghost predicate NoneShared(ss: seq<Session>, ss': seq<Session>) {
    forall s | s in ss :: s !in ss'
  }

  /** No two positions share a device, no two devices share a session. */
  ghost predicate Apart(ds: seq<Device>)
    reads ds
  {
    && (forall i | 0 <= i < |ds| :: ds[i].Valid())
    && (forall i, j | 0 <= i < j < |ds| :: ds[i] != ds[j])
    && (forall i, j | 0 <= i < j < |ds| :: NoneShared(ds[i].sessions, ds[j].sessions))
  }

  lemma ApartValid(ds: seq<Device>, i: nat)
    requires i < |ds| && Apart(ds)
    ensures ds[i].Valid() && forall k | 0 <= k < |ds| && k != i :: ds[k] != ds[i]
  {}

  lemma ApartAppend(ds: seq<Device>, d: Device)
    requires Apart(ds) && d !in ds && d.sessions == []
    ensures Apart(ds + [d])
  {}

  twostate lemma ViewsChanged(ds: seq<Device>, new i: nat)
    requires i < |ds|
    requires forall k | 0 <= k < |ds| && k != i :: unchanged(ds[k]) && unchanged(ds[k].sessions)
    ensures DeviceViews(ds) == old(DeviceViews(ds))[i := ds[i].View()]
  {
    hide DeviceViews, SessionViews;
    forall k | 0 <= k < |ds| && k != i
      ensures ds[k].View() == old(ds[k].View())
    {}
  }

  twostate lemma StillApart(ds: seq<Device>, new i: nat)
    requires i < |ds| && old(Apart(ds)) && ds[i].Valid()
    requires forall k | 0 <= k < |ds| && k != i :: unchanged(ds[k])
    requires forall s | s in ds[i].sessions :: s in old(ds[i].sessions) || fresh(s)
    ensures Apart(ds)
  {
    forall k, l | 0 <= k < l < |ds|
      ensures NoneShared(ds[k].sessions, ds[l].sessions)
    {
      assert old(NoneShared(ds[k].sessions, ds[l].sessions));
    }
  }

  /** Only the device at `i` has changed; its sessions are old ones of its own, or new. */
  twostate lemma DeviceChanged(ds: seq<Device>, new i: nat)
    requires i < |ds| && old(Apart(ds)) && ds[i].Valid()
    requires forall k | 0 <= k < |ds| && k != i :: unchanged(ds[k]) && unchanged(ds[k].sessions)
    requires forall s | s in ds[i].sessions :: s in old(ds[i].sessions) || fresh(s)
    ensures DeviceViews(ds) == old(DeviceViews(ds))[i := ds[i].View()] && Apart(ds)
  {
    ViewsChanged(ds, i);
    StillApart(ds, i);
    hide DeviceViews, Apart;
  }

  lemma ApartWithout(ds: seq<Device>, i: nat)
    requires i < |ds| && Apart(ds)
    ensures Apart(Without(ds, i)) && ds[i] !in Without(ds, i)
  {
    var rest := Without(ds, i);
    assert forall k | 0 <= k < |rest| :: rest[k] == ds[if k < i then k else k + 1];
  }

  // ------------------------------------------------------------------------------------------
  // The library
  // ------------------------------------------------------------------------------------------

  class Library {
    var devices: seq<Device>
    const kernel: Kernel

    ghost predicate Valid()
      reads this, devices
    {
      Apart(devices)
    }

    ghost function View(): (c: Client)
      reads this, devices, SessionsOf(devices), kernel
      ensures |c.devices| == |devices| && c.registered == kernel.registered
      ensures forall i | 0 <= i < |devices| :: c.devices[i] == devices[i].View()
    {
      Client(DeviceViews(devices), kernel.registered)
    }

    /** No object but these has come into the tables. */
    ghost predicate Within(ds: seq<Device>, ss: set<Session>)
      reads this, devices
    {
      (forall k | 0 <= k < |devices| :: devices[k] in ds) && SessionsOf(devices) <= ss
    }

    /** Everything a call may change. */
    ghost function Footprint(): set<object>
      reads this, devices
    {
      {this, kernel} + (set d | d in devices :: d) + SessionsOf(devices)
    }

    lemma FootprintHolds()
      ensures this in Footprint() && kernel in Footprint()
      ensures forall k | 0 <= k < |devices| :: devices[k] in Footprint()
      ensures forall s | s in SessionsOf(devices) :: s in Footprint()
    {
      forall k | 0 <= k < |devices|
        ensures devices[k] in Footprint()
      {
        assert devices[k] in devices && devices[k] in set d | d in devices :: d;
      }
    }

    lemma FootprintWithin(ds: seq<Device>, ss: set<Session>)
      requires Within(ds, ss)
      ensures Footprint() <= {this, kernel} + (set d | d in ds :: d) + ss
    {
      forall d | d in devices
        ensures d in ds
      {
        var k :| 0 <= k < |devices| && devices[k] == d;
      }
    }

    constructor (kernel: Kernel)
      ensures Valid() && this.kernel == kernel && View() == Client([], kernel.registered)
    {
      this.devices, this.kernel := [], kernel;
    }

    method ResolveDeviceId(deviceId: nat) returns (device: Device?)
      ensures View() == old(View()) && |View().devices| == |devices|
      ensures device == null <==> DeviceIndex(View(), deviceId) == |View().devices|
      ensures device != null ==>
                var i := DeviceIndex(View(), deviceId);
                i < |devices| && device == devices[i] && View().devices[i] == device.View()
    {
      for i := 0 to |devices|
        invariant forall j | 0 <= j < i :: !HasDeviceId(deviceId)(View().devices[j])
      {
        if devices[i].deviceId == deviceId {
          IndexIs(View().devices, HasDeviceId(deviceId), i);
          return devices[i];
        }
      }
      IndexIs(View().devices, HasDeviceId(deviceId), |devices|);
      return null;
    }

    method AddDevice(device: Device)
      requires Valid() && device !in devices && device.sessions == []
      modifies this
      ensures Valid()
      ensures View() == old(View()).(devices := old(View()).devices + [device.View()])
    {
      hide DeviceViews, SessionViews, Apart;
      ViewsAppend(devices, device);
      ApartAppend(devices, device);
      devices := devices + [device];
    }

    method EraseDevice(i: nat, a: Answers)
      requires Valid() && i < |devices|
      modifies this, devices, kernel
      ensures Valid()
      ensures View() == Client(Without(old(View()).devices, i),
                               Unregistered(old(kernel.registered), DeviceHolds(old(View()).devices[i]), a.refused))
      ensures Within(old(devices), old(SessionsOf(devices)))
    {
      hide Unregistered, DeviceHolds, DeviceViews, SessionViews, Apart;
      var device := devices[i];
      ViewsWithout(devices, i);
      ApartWithout(devices, i);
      ApartValid(devices, i);
      devices := devices[..i] + devices[i + 1..];
      var _ := device.Destroy(kernel, a);
    }

    method RemoveDevice(deviceId: nat, a: Answers) returns (ret: bool)
      requires Valid()
      modifies this, devices, kernel
      ensures Valid()
      ensures View() == T.RemoveDevice(old(View()), deviceId, a)
      ensures Within(old(devices), old(SessionsOf(devices)))
      ensures ret == (DeviceIndex(old(View()), deviceId) < |old(devices)|)
    {
      hide Unregistered, DeviceHolds, DeviceViews, SessionViews, Apart;
      var i := 0;
      while i < |devices|
        invariant i <= |devices| && forall j | 0 <= j < i :: !HasDeviceId(deviceId)(View().devices[j])
      {
        if devices[i].deviceId == deviceId {
          break;
        }
        i := i + 1;
      }
      IndexIs(View().devices, HasDeviceId(deviceId), i);
      ret := i < |devices|;
      if ret {
        EraseDevice(i, a);
      }
    }

    method McOpenDevice(deviceId: nat, a: Answers) returns (mcResult: nat)
      requires Valid()
      modifies this
      ensures Valid()
      ensures var (code, c) := OpenDevice(old(View()), deviceId, a); mcResult == code && View() == c
    {
      hide View, T.RemoveDevice, DeviceIndex, SessionViews, Apart;
      mcResult := OK;
      label Body: {
        var device := ResolveDeviceId(deviceId);
        if device != null {
          mcResult := ERR_DEVICE_ALREADY_OPEN;
          break Body;
        }
        if !a.connects {
          mcResult := ERR_DAEMON_UNREACHABLE;
          break Body;
        }
        mcResult := CodeOf(a.version);
        if mcResult != OK {
          break Body;
        }
        if !a.versionFits {
          mcResult := ERR_DAEMON_VERSION;
          break Body;
        }
        mcResult := CodeOf(a.reply);
        if mcResult != OK {
          break Body;
        }
        device := new Device(deviceId);
        assert View() == old(View());
        mcResult := if a.kernelOpens then OK else TRUE_AS_RESULT;
        if mcResult != OK {
          break Body;
        }
        AddDevice(device);
      }
    }

    method McCloseDevice(deviceId: nat, a: Answers) returns (mcResult: nat)
      requires Valid()
      modifies this, devices, kernel
      ensures Valid()
      ensures var (code, c) := CloseDevice(old(View()), deviceId, a); mcResult == code && View() == c
    {
      hide View, T.RemoveDevice, DeviceIndex, SessionViews, Apart;
      mcResult := OK;
      label Body: {
        var device := ResolveDeviceId(deviceId);
        if device == null {
          mcResult := NoDevice(deviceId);
          break Body;
        }
        if !a.alive {
          var _ := RemoveDevice(deviceId, a);
          mcResult := ERR_DAEMON_UNREACHABLE;
          break Body;
        }
        if device.sessions != [] {
          mcResult := ERR_SESSION_PENDING;
          break Body;
        }
        mcResult := CodeOf(a.reply);
        if mcResult != OK {
          break Body;
        }
        var _ := RemoveDevice(deviceId, a);
      }
    }

    // ----------------------------------------------------------------------------------------
    // Sessions
    // ----------------------------------------------------------------------------------------

    /** Device::createNewSession, and the registration of the TCI with it */
    method NewSession(device: Device, ghost i: nat, sessionId: nat, bulkBuf: Option<Bulk>)
      requires Valid() && i < |devices| && devices[i] == device
      modifies device
      ensures Valid()
      ensures View() == WithNewSession(old(View()), i,
                                       T.Session(sessionId, if bulkBuf.Some? then [bulkBuf.value] else []))
    {
      hide DeviceViews, SessionViews, Apart;
      ApartValid(devices, i);
      var session := device.CreateNewSession(sessionId);
      if bulkBuf.Some? {
        session.AddDescriptor(bulkBuf.value);
      }
      assert session.View() == T.Session(sessionId, if bulkBuf.Some? then [bulkBuf.value] else []);
      assert device.View().sessions == old(device.View()).sessions + [session.View()];
      DeviceChanged(devices, i);
    }

    /** Device::removeSession, of the session resolved before */
    method DropSession(device: Device, ghost i: nat, sessionId: nat, a: Answers)
      requires Valid() && i < |devices| && devices[i] == device
      requires SessionIndex(device.View(), sessionId) < |device.sessions|
      modifies device, kernel
      ensures Valid()
      ensures View() == T.RemoveSession(old(View()), i, SessionIndex(old(device.View()), sessionId), a)
    {
      hide DeviceViews, SessionViews, Apart, Unregistered, SessionHolds, SessionIndex;
      ApartValid(devices, i);
      ghost var j := SessionIndex(device.View(), sessionId);
      var _ := device.RemoveSession(sessionId, kernel, a);
      assert device.View().sessions == Without(old(device.View()).sessions, j);
      DeviceChanged(devices, i);
    }

    /** Session::addBulkBuf */
    method AddBulkBuf(device: Device, session: Session, ghost i: nat, ghost j: nat, buf: nat, len: nat, a: Answers)
      returns (ret: nat, blkBuf: nat)
      requires Valid() && i < |devices| && devices[i] == device && j < |device.sessions|
      requires device.sessions[j] == session
      modifies session, kernel
      ensures Valid()
      ensures if IsMapped(old(session.View()), buf) then ret == ERR_BUFFER_ALREADY_MAPPED && View() == old(View())
              else if !Registers(old(View()), a) then ret == KernelCode(a.kernelError) && View() == old(View())
              else
                && ret == OK && View() == T.AddBulkBuf(old(View()), i, j, Bulk(buf, 0, len, a.handle))
                && blkBuf == |session.bulkBufs| - 1
    {
      hide DeviceViews, SessionViews, Apart, IsMapped, KernelCode;
      ret, blkBuf := session.AddBulkBuf(kernel, buf, len, a);
      SessionInPlace(i, j);
    }

    /** Only the session at `i`, `j` has changed. */
    twostate lemma SessionInPlace(new i: nat, new j: nat)
      requires old(Valid()) && unchanged(this) && unchanged(devices) && i < |devices| && j < |devices[i].sessions|
      requires forall k, s | 0 <= k < |devices| && s in devices[k].sessions && s != devices[i].sessions[j] ::
                 unchanged(s)
      ensures Valid()
      ensures DeviceViews(devices) == WithSession(old(View()), i, j, devices[i].sessions[j].View()).devices
    {
      hide DeviceViews, SessionViews;
      assert forall k | 0 <= k < |devices| :: devices[k] in devices;
      assert forall k | 0 <= k < |devices| :: unchanged(devices[k]);
      var d := devices[i];
      forall k | 0 <= k < |d.sessions| && k != j
        ensures d.View().sessions[k] == old(d.View()).sessions[k]
      {
        assert d.sessions[k] != d.sessions[j] && d.sessions[k] in devices[i].sessions;
        assert unchanged(d.sessions[k]);
      }
      assert d.View().sessions == old(d.View()).sessions[j := d.sessions[j].View()];
      forall k | 0 <= k < |devices| && k != i
        ensures devices[k].View() == old(devices[k].View())
      {
        assert NoneShared(devices[if k < i then k else i].sessions, devices[if k < i then i else k].sessions);
        assert forall s | s in devices[k].sessions :: s != d.sessions[j];
        forall n | 0 <= n < |devices[k].sessions|
          ensures unchanged(devices[k].sessions[n])
        {
          assert devices[k].sessions[n] in devices[k].sessions;
        }
        assert unchanged(devices[k]) && unchanged(devices[k].sessions);
      }
    }

    method ResolveSession(device: Device, ghost i: nat, sessionId: nat) returns (session: Session?)
      requires i < |devices| && devices[i] == device
      ensures View() == old(View()) && i < |View().devices| && View().devices[i] == device.View()
      ensures var j := SessionIndex(View().devices[i], sessionId);
              if j == |View().devices[i].sessions| then session == null
              else
                && session != null && j < |device.sessions| && session == device.sessions[j]
                && View().devices[i].sessions[j] == session.View() && session in SessionsOf(devices)
    {
      hide DeviceViews, SessionViews;
      session := device.ResolveSessionId(sessionId);
      assert device in devices;
      assert session != null ==> session in device.sessions;
    }

    /** Session::removeBulkBuf */
    method RemoveBulkBuf(device: Device, session: Session, ghost i: nat, ghost j: nat, buf: nat, a: Answers)
      returns (ret: nat)
      requires Valid() && i < |devices| && devices[i] == device && j < |device.sessions|
      requires device.sessions[j] == session
      modifies session, kernel
      ensures Valid()
      ensures var (code, c) := T.RemoveBulkBuf(old(View()), i, j, buf, a); ret == code && View() == c
    {
      hide DeviceViews, SessionViews, Apart, KernelCode, IndexOf;
      ret := session.RemoveBulkBuf(kernel, buf, a);
      SessionInPlace(i, j);
    }

    /** bulkBuf->sVirtualAddr = addr */
    method SetSecure(device: Device, session: Session, ghost i: nat, ghost j: nat, blkBuf: nat, addr: nat)
      requires Valid() && i < |devices| && devices[i] == device && j < |device.sessions|
      requires device.sessions[j] == session
      requires blkBuf < |session.bulkBufs|
      modifies session
      ensures Valid()
      ensures var s := old(session.View());
              View() == WithSession(old(View()), i, j,
                                    s.(bulkBufs := s.bulkBufs[blkBuf := s.bulkBufs[blkBuf].(sVirtualAddr := addr)]))
    {
      hide DeviceViews, SessionViews, Apart;
      session.bulkBufs := session.bulkBufs[blkBuf := session.bulkBufs[blkBuf].(sVirtualAddr := addr)];
      SessionInPlace(i, j);
    }

    // ----------------------------------------------------------------------------------------
    // The calls on sessions
    // ----------------------------------------------------------------------------------------

    method McMap(sessionHandle: Option<Handle>, buf: nat, bufLen: nat, given: bool, a: Answers)
      returns (mcResult: nat, mapInfo: Option<MapInfo>)
      requires Valid()
      modifies SessionsOf(devices), kernel
      ensures Valid()
      ensures var (code, info, c) := Map(old(View()), sessionHandle, buf, bufLen, given, a);
              mcResult == code && mapInfo == info && View() == c
      ensures SessionsOf(devices) == old(SessionsOf(devices))
    {
      hide View, DeviceIndex, SessionIndex, SessionViews, Apart, MapAt;
      mapInfo := None;
      label Body: {
        if sessionHandle.None? || !given || buf == 0 {
          mcResult := ERR_INVALID_PARAMETER;
          break Body;
        }
        var device := ResolveDeviceId(sessionHandle.value.deviceId);
        if device == null {
          mcResult := ERR_UNKNOWN_DEVICE;
          break Body;
        }
        ghost var i := DeviceIndex(View(), sessionHandle.value.deviceId);
        var session := ResolveSession(device, i, sessionHandle.value.sessionId);
        if session == null {
          mcResult := ERR_UNKNOWN_SESSION;
          break Body;
        }
        ghost var j := SessionIndex(View().devices[i], sessionHandle.value.sessionId);
        mcResult, mapInfo := MapBuffer(device, session, i, j, buf, bufLen, a);
      }
    }

    /** mcMap, from the session on */
    method MapBuffer(device: Device, session: Session, ghost i: nat, ghost j: nat, buf: nat, bufLen: nat, a: Answers)
      returns (mcResult: nat, mapInfo: Option<MapInfo>)
      requires Valid() && i < |devices| && devices[i] == device && j < |device.sessions|
      requires device.sessions[j] == session
      modifies session, kernel
      ensures Valid()
      ensures var (code, info, c) := MapAt(old(View()), i, j, buf, bufLen, a);
              mcResult == code && mapInfo == info && View() == c
    {
      hide View, SessionViews, Apart, T.AddBulkBuf, T.RemoveBulkBuf, WithSession, KernelCode, IsMapped;
      mapInfo := None;
      var bulkBuf;
      mcResult, bulkBuf := AddBulkBuf(device, session, i, j, buf, bufLen, a);
      if mcResult != OK {
        return;
      }
      if a.reply.Broken? {
        return ERR_DAEMON_UNREACHABLE, None;
      }
      if a.reply.code != OK {
        var _ := RemoveBulkBuf(device, session, i, j, buf, a);
        return ERR_DAEMON_UNREACHABLE, None;
      }
      if a.payload.None? {
        return ERR_DAEMON_UNREACHABLE, None;
      }
      SecureFilledIn(old(View()), i, j, Bulk(buf, 0, bufLen, a.handle), a.payload.value);
      SetSecure(device, session, i, j, bulkBuf, a.payload.value);
      return OK, Some(MapInfo(a.payload.value, bufLen));
    }

    /** mcUnmap, from the session on and up to the check for a broken connection */
    method UnmapBuffer(device: Device, session: Session, ghost i: nat, ghost j: nat, buf: nat, mapInfo: MapInfo,
                       a: Answers)
      returns (mcResult: nat, ghost sent: Option<nat>)
      requires Valid() && i < |devices| && devices[i] == device && j < |device.sessions|
      requires device.sessions[j] == session
      modifies session, kernel
      ensures Valid()
      ensures var (code, h, c) := UnmapAt(old(View()), i, j, buf, mapInfo, a);
              && mcResult == code && sent == h
              && View() == (if code == ERR_DAEMON_UNREACHABLE then old(View()) else c)
              && (code == ERR_DAEMON_UNREACHABLE ==> c == T.RemoveDevice(old(View()), device.deviceId, a))
    {
      hide View, SessionViews, Apart, T.RemoveBulkBuf, T.RemoveDevice, KernelCode, T.GetBufHandle;
      var handle := session.GetBufHandle(mapInfo.sVirtualAddr, mapInfo.sVirtualLen);
      assert View() == old(View());
      if handle == 0 {
        return ERR_BLK_BUFF_NOT_FOUND, None;
      }
      if CodeOf(a.reply) != OK {
        return ERR_DAEMON_UNREACHABLE, Some(handle);
      }
      RemovalCode(View(), i, j, buf, a);
      mcResult := RemoveBulkBuf(device, session, i, j, buf, a);
      sent := Some(handle);
    }

    /** mcUnmap, but for what follows when the daemon cannot be reached. */
    method UnmapInSession(sessionHandle: Option<Handle>, buf: nat, mapInfo: Option<MapInfo>, a: Answers)
      returns (mcResult: nat, ghost sent: Option<nat>)
      requires Valid()
      modifies SessionsOf(devices), kernel
      ensures Valid() && SessionsOf(devices) == old(SessionsOf(devices)) && devices == old(devices)
      ensures var (code, h, c) := Unmap(old(View()), sessionHandle, buf, mapInfo, a);
              && mcResult == code && sent == h
              && View() == (if code == ERR_DAEMON_UNREACHABLE then old(View()) else c)
              && (code == ERR_DAEMON_UNREACHABLE ==>
                    sessionHandle.Some? && c == T.RemoveDevice(old(View()), sessionHandle.value.deviceId, a))
    {
      hide View, SessionIndex, DeviceViews, SessionViews, Apart, UnmapAt, T.RemoveDevice, SessionsOf;
      if sessionHandle.None? || mapInfo.None? || mapInfo.value.sVirtualAddr == 0 || buf == 0 {
        return ERR_INVALID_PARAMETER, None;
      }
      var device := ResolveDeviceId(sessionHandle.value.deviceId);
      if device == null {
        return ERR_UNKNOWN_DEVICE, None;
      }
      ghost var i := DeviceIndex(View(), sessionHandle.value.deviceId);
      var session := ResolveSession(device, i, sessionHandle.value.sessionId);
      if session == null {
        return ERR_UNKNOWN_SESSION, None;
      }
      ghost var j := SessionIndex(View().devices[i], sessionHandle.value.sessionId);
      mcResult, sent := UnmapBuffer(device, session, i, j, buf, mapInfo.value, a);
    }

    method McUnmap(sessionHandle: Option<Handle>, buf: nat, mapInfo: Option<MapInfo>, a: Answers)
      returns (mcResult: nat, ghost sent: Option<nat>)
      requires Valid()
      modifies this, devices, SessionsOf(devices), kernel
      ensures Valid()
      ensures var (code, h, c) := Unmap(old(View()), sessionHandle, buf, mapInfo, a);
              mcResult == code && sent == h && View() == c
      ensures Within(old(devices), old(SessionsOf(devices)))
    {
      hide View, Apart, Unmap, T.RemoveDevice, SessionsOf;
      mcResult, sent := UnmapInSession(sessionHandle, buf, mapInfo, a);
      if mcResult == ERR_DAEMON_UNREACHABLE {
        var _ := RemoveDevice(sessionHandle.value.deviceId, a);
      }
    }

    method McCloseSession(session: Option<Handle>, a: Answers) returns (mcResult: nat)
      requires Valid()
      modifies this, devices, kernel
      ensures Valid()
      ensures var (code, c) := CloseSession(old(View()), session, a); mcResult == code && View() == c
    {
      hide View, DeviceIndex, SessionIndex, SessionViews, Apart, T.RemoveSession, T.RemoveDevice;
      mcResult := OK;
      label Body: {
        if session.None? {
          mcResult := ERR_INVALID_PARAMETER;
          break Body;
        }
        var device := ResolveDeviceId(session.value.deviceId);
        if device == null {
          mcResult := ERR_UNKNOWN_DEVICE;
          break Body;
        }
        ghost var i := DeviceIndex(View(), session.value.deviceId);
        var nqSession := ResolveSession(device, i, session.value.sessionId);
        if nqSession == null {
          mcResult := ERR_UNKNOWN_SESSION;
          break Body;
        }
        if a.reply.Broken? {
          mcResult := ERR_DAEMON_UNREACHABLE;
          break Body;
        }
        mcResult := a.reply.code;
        if mcResult != OK {
          mcResult := ERR_UNKNOWN_DEVICE;
          break Body;
        }
        DropSession(device, i, session.value.sessionId, a);
      }
      if mcResult == ERR_DAEMON_UNREACHABLE {
        var _ := RemoveDevice(session.value.deviceId, a);
      }
    }

    method McNotify(session: Option<Handle>, a: Answers) returns (mcResult: nat)
      requires Valid()
      modifies this, devices, kernel
      ensures Valid()
      ensures var (code, c) := Notify(old(View()), session, a); mcResult == code && View() == c
    {
      hide View, DeviceIndex, SessionIndex, SessionViews, Apart, T.RemoveDevice;
      mcResult := OK;
      label Body: {
        if session.None? {
          mcResult := ERR_INVALID_PARAMETER;
          break Body;
        }
        var device := ResolveDeviceId(session.value.deviceId);
        if device == null {
          mcResult := ERR_UNKNOWN_DEVICE;
          break Body;
        }
        ghost var i := DeviceIndex(View(), session.value.deviceId);
        var nqSession := ResolveSession(device, i, session.value.sessionId);
        if nqSession == null {
          mcResult := ERR_UNKNOWN_SESSION;
          break Body;
        }
        if a.reply.Broken? {
          mcResult := ERR_DAEMON_UNREACHABLE;
        }
      }
      if mcResult == ERR_DAEMON_UNREACHABLE {
        var _ := RemoveDevice(session.value.deviceId, a);
      }
    }

    // ----------------------------------------------------------------------------------------
    // Opening a session
    // ----------------------------------------------------------------------------------------

    /** The part about the TCI: the handle to send, and the descriptor if it had to be mapped. */
    method SettleTci(device: Device, ghost i: nat, kind: OpenKind, tci: nat, len: nat, a: Answers)
      returns (mcResult: nat, handle: nat, bulkBuf: Option<Bulk>)
      requires Valid() && i < |devices| && devices[i] == device
      modifies kernel
      ensures Valid()
      ensures var t := TciOf(old(View()), old(View()).devices[i], kind, tci, len, a);
              && (mcResult == OK <==> !t.Unusable?) && (mcResult != OK ==> mcResult == ERR_INVALID_PARAMETER)
              && (t.Mapped? || t.Contiguous? ==> handle == t.handle)
              && bulkBuf == (if t.Mapped? then Some(Bulk(tci, 0, len, t.handle)) else None)
              && View() == WithTci(old(View()), t)
    {
      hide DeviceViews, SessionViews, Apart, FindWsm;
      mcResult, handle, bulkBuf := OK, 0, None;
      var pWsm, _ := device.FindContiguousWsm(tci);
      assert View() == old(View());
      if pWsm.None? {
        if kind.ByImage? || (tci != 0 && len != 0) {
          mcResult, bulkBuf := device.MapBulkBuf(kernel, tci, len, a);
          if mcResult != OK {
            return ERR_INVALID_PARAMETER, handle, None;
          }
          handle := bulkBuf.value.handle;
        } else if len != 0 {
          return ERR_INVALID_PARAMETER, handle, None;
        }
      } else {
        if pWsm.value.len < len {
          return ERR_INVALID_PARAMETER, handle, None;
        }
        handle := pWsm.value.handle;
      }
    }

    /** mcOpenSession and mcOpenGPTA, and mcOpenTrustlet: they differ in `kind` and in what is sent. */
    method McOpenSession(kind: OpenKind, given: bool, deviceId: nat, tci: nat, len: nat, a: Answers)
      returns (mcResult: nat, sessionId: Option<nat>)
      requires Valid()
      modifies devices, kernel
      ensures Valid()
      ensures var (code, sid, c) := OpenSession(old(View()), kind, given, deviceId, tci, len, a);
              mcResult == code && sessionId == sid && View() == c
    {
      hide View, DeviceIndex, SessionViews, Apart, TciOf, WithNewSession, OpenError;
      mcResult, sessionId := OK, None;
      label Body: {
        if !given || (kind.ByImage? && tci == 0) {
          mcResult := ERR_INVALID_PARAMETER;
          break Body;
        }
        if len > MAX_TCI_LEN {
          mcResult := ERR_INVALID_PARAMETER;
          break Body;
        }
        var device := ResolveDeviceId(deviceId);
        if device == null {
          mcResult := ERR_UNKNOWN_DEVICE;
          break Body;
        }
        ghost var i := DeviceIndex(View(), deviceId);
        var handle, bulkBuf;
        mcResult, handle, bulkBuf := SettleTci(device, i, kind, tci, len, a);
        if mcResult != OK {
          break Body;
        }
        mcResult := CodeOf(a.reply);
        if mcResult != OK {
          mcResult := OpenError(mcResult);
          break Body;
        }
        if a.payload.None? {
          mcResult := ERR_DAEMON_UNREACHABLE;
          break Body;
        }
        sessionId := a.payload;
        if !a.connects {
          mcResult := ERR_DAEMON_UNREACHABLE;
          break Body;
        }
        mcResult := CodeOf(a.channel);
        if mcResult != OK {
          break Body;
        }
        ghost var t := TciOf(old(View()), old(View()).devices[i], kind, tci, len, a);
        TciAndSession(old(View()), t, i, T.Session(sessionId.value, TciBufs(t, tci, len)));
        NewSession(device, i, sessionId.value, bulkBuf);
      }
    }

    // ----------------------------------------------------------------------------------------
    // Contiguous memory
    // ----------------------------------------------------------------------------------------

    method McMallocWsm(deviceId: nat, len: nat, given: bool, a: Answers) returns (mcResult: nat, wsm: nat)
      requires Valid()
      modifies devices
      ensures Valid()
      ensures var (code, addr, c) := MallocWsm(old(View()), deviceId, len, given, a);
              mcResult == code && wsm == addr && View() == c
    {
      hide DeviceViews, DeviceIndex, SessionViews, Apart, KernelCode;
      wsm := 0;
      var device := ResolveDeviceId(deviceId);
      if device == null {
        return NoDevice(deviceId), 0;
      }
      if !given {
        return ERR_INVALID_PARAMETER, 0;
      }
      ghost var i := DeviceIndex(View(), deviceId);
      ApartValid(devices, i);
      mcResult, wsm := device.AllocateContiguousWsm(len, a);
      DeviceChanged(devices, i);
    }

    method McFreeWsm(deviceId: nat, wsm: nat, a: Answers) returns (mcResult: nat)
      requires Valid()
      modifies devices
      ensures Valid()
      ensures var (code, c) := FreeWsm(old(View()), deviceId, wsm, a); mcResult == code && View() == c
    {
      hide DeviceViews, DeviceIndex, SessionViews, Apart, KernelCode, FindWsm;
      var device := ResolveDeviceId(deviceId);
      if device == null {
        return ERR_UNKNOWN_DEVICE;
      }
      ghost var i := DeviceIndex(View(), deviceId);
      ApartValid(devices, i);
      var pWsm, at := device.FindContiguousWsm(wsm);
      if pWsm.None? {
        return ERR_INVALID_PARAMETER;
      }
      mcResult := device.FreeContiguousWsm(at, a);
      DeviceChanged(devices, i);
    }
  }
}
