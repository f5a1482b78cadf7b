/**
 The tables of the client library (open devices, their sessions with the descriptors of mapped
 buffers, their blocks of contiguous shared memory) and the kernel's set of registered L2 tables,
 as values; and every call made under devMutex as a function from tables to tables.
 */
module ClientTables {
  import opened Wrappers

  // ------------------------------------------------------------------------------------------
  // Lists
  // ------------------------------------------------------------------------------------------

  /** The first element with a property, or the length. */
  function IndexOf<T>(s: seq<T>, p: T -> bool): (i: nat)
    ensures i <= |s|
    ensures i < |s| ==> p(s[i])
    ensures forall j | 0 <= j < i :: !p(s[j])
  {
    if s == [] || p(s[0]) then 0 else 1 + IndexOf(s[1..], p)
  }

  lemma IndexIs<T>(s: seq<T>, p: T -> bool, i: nat)
    requires i <= |s| && (i < |s| ==> p(s[i])) && forall j | 0 <= j < i :: !p(s[j])
    ensures IndexOf(s, p) == i
  {}

  function Without<T>(s: seq<T>, i: nat): (r: seq<T>)
    requires i < |s|
    ensures |r| == |s| - 1
  {
    s[..i] + s[i + 1..]
  }

  /** The handles held by a list, each as often as it is held. */
  function Sum<T>(s: seq<T>, f: T -> multiset<nat>): multiset<nat> {
    if s == [] then multiset{} else Sum(s[..|s| - 1], f) + f(s[|s| - 1])
  }

  lemma {:induction false} SumAppend<T>(s: seq<T>, x: T, f: T -> multiset<nat>)
    ensures Sum(s + [x], f) == Sum(s, f) + f(x)
  {
    assert (s + [x])[..|s|] == s;
  }

  lemma {:induction false} SumWithout<T>(s: seq<T>, i: nat, f: T -> multiset<nat>)
    requires i < |s|
    ensures Sum(s, f) == Sum(Without(s, i), f) + f(s[i])
  {
    var front := s[..|s| - 1];
    if i == |s| - 1 {
      assert Without(s, i) == front;
    } else {
      assert Without(s, i) == Without(front, i) + [s[|s| - 1]];
      SumWithout(front, i, f);
      SumAppend(Without(front, i), s[|s| - 1], f);
    }
  }

  lemma {:induction false} SumUpdate<T>(s: seq<T>, i: nat, x: T, f: T -> multiset<nat>)
    requires i < |s|
    ensures Sum(s[i := x], f) + f(s[i]) == Sum(s, f) + f(x)
  {
    assert Without(s[i := x], i) == Without(s, i);
    SumWithout(s, i, f);
    SumWithout(s[i := x], i, f);
  }

  // ------------------------------------------------------------------------------------------
  // Tables
  // ------------------------------------------------------------------------------------------

  /** BulkBufferDescriptor; addresses are numbers, zero is NULL. */
  datatype Bulk = Bulk(virtAddr: nat, sVirtualAddr: nat, len: nat, handle: nat)

  datatype Session = Session(sessionId: nat, bulkBufs: seq<Bulk>)

  /** CWsm */
  datatype Wsm = Wsm(virtAddr: nat, len: nat, handle: nat)

  datatype Device = Device(deviceId: nat, sessions: seq<Session>, wsms: seq<Wsm>)

  datatype Client = Client(devices: seq<Device>, registered: set<nat>)

  const EMPTY := Client([], {})

  function HandleOf(b: Bulk): multiset<nat> {
    multiset{b.handle}
  }

  function SessionHolds(s: Session): multiset<nat> {
    Sum(s.bulkBufs, HandleOf)
  }

  function DeviceHolds(d: Device): multiset<nat> {
    Sum(d.sessions, SessionHolds)
  }

  /** The handles in the descriptors of live sessions. */
  function Held(c: Client): multiset<nat> {
    Sum(c.devices, DeviceHolds)
  }

  function HasDeviceId(id: nat): Device -> bool {
    (d: Device) => d.deviceId == id
  }

  function HasSessionId(id: nat): Session -> bool {
    (s: Session) => s.sessionId == id
  }

  function AtVirtual(addr: nat): Bulk -> bool {
    (b: Bulk) => b.virtAddr == addr
  }

  function AtSecure(addr: nat, len: nat): Bulk -> bool {
    (b: Bulk) => b.sVirtualAddr == addr && b.len == len
  }

  function AtBlock(addr: nat): Wsm -> bool {
    (w: Wsm) => w.virtAddr == addr
  }

  // ------------------------------------------------------------------------------------------
  // Result codes and answers
  // ------------------------------------------------------------------------------------------

  const OK := 0x00
  /** What a failed CMcKMod::open becomes when Device::open returns it as a bool; also MC_DRV_NO_NOTIFICATION. */
  const TRUE_AS_RESULT := 0x01
  const ERR_UNKNOWN_DEVICE := 0x07
  const ERR_UNKNOWN_SESSION := 0x08
  const ERR_DEVICE_ALREADY_OPEN := 0x09
  const ERR_INVALID_LENGTH := 0x0c
  const ERR_KMOD_NOT_OPEN := 0x0c
  const ERR_SESSION_PENDING := 0x0e
  /** Also the code of every socket failure, of MC_DRV_ERR_MCP_ERROR and of SOCKET_CONNECT. */
  const ERR_DAEMON_UNREACHABLE := 0x0f
  /** Also NULL_POINTER, TCI_TOO_BIG, WSM_NOT_FOUND and TCI_GREATER_THAN_WSM. */
  const ERR_INVALID_PARAMETER := 0x11
  const ERR_KERNEL_MODULE := 0x12
  const ERR_BUFFER_ALREADY_MAPPED := 0x13
  const ERR_BLK_BUFF_NOT_FOUND := 0x14
  const ERR_DAEMON_VERSION := 0x17
  const ERR_DAEMON_DEVICE_NOT_OPEN := 0x21

  const DEVICE_ID_DEFAULT := 0
  const MAX_TCI_LEN := 0x100000

  /** One exchange with the daemon: a socket failure, or the result code it answers. */
  datatype Reply = Broken | Said(code: nat)

  function CodeOf(r: Reply): nat {
    if r.Broken? then ERR_DAEMON_UNREACHABLE else r.code
  }

  datatype KernelError = NotOpen | Errno(errno: nat)

  function KernelCode(e: KernelError): (code: nat)
    ensures code != OK && code != ERR_DAEMON_UNREACHABLE
  {
    if e.NotOpen? then ERR_KMOD_NOT_OPEN else ERR_KERNEL_MODULE + (e.errno % 0x10000) * 0x10000
  }

  /** Everything from outside that one call depends on. */
  datatype Answers = Answers(
    alive: bool,                // isConnectionAlive
    connects: bool,             // Connection::connect
    version: Reply,             // MC_DRV_CMD_GET_VERSION
    versionFits: bool,          // checkVersionOkDAEMON
    reply: Reply,               // the command itself
    payload: Option<nat>,       // its payload: a session id or a secure address
    channel: Reply,             // MC_DRV_CMD_NQ_CONNECT
    kernelOpens: bool,          // CMcKMod::open
    handle: nat,                // what the kernel offers for an L2 table
    block: Option<(nat, nat)>,  // mapWsm: address and handle
    freed: bool,                // CMcKMod::free
    refused: set<nat>,          // the handles unregisterWsmL2 fails for
    kernelError: KernelError)

  /** registerWsmL2: the kernel hands out a non-zero handle that is not in use, or fails. */
  predicate Registers(c: Client, a: Answers) {
    a.handle != 0 && a.handle !in c.registered
  }

  /** MC_DRV_ERROR_MAJOR and MC_DRV_ERROR_MCP, and the switch on the latter. */
  function OpenError(code: nat): (r: nat)
    ensures code != OK ==> r != OK
  {
    if code % 0x100 != ERR_DAEMON_UNREACHABLE then code
    else
      var mcp := code / 0x100 % 0x100;
      if 16 <= mcp <= 23 then 0x19 + (mcp - 16) else ERR_DAEMON_UNREACHABLE
  }

  // ------------------------------------------------------------------------------------------
  // Lookup and removal
  // ------------------------------------------------------------------------------------------

  function DeviceIndex(c: Client, id: nat): (i: nat)
    ensures i <= |c.devices|
  {
    IndexOf(c.devices, HasDeviceId(id))
  }

  function SessionIndex(d: Device, id: nat): (j: nat)
    ensures j <= |d.sessions|
  {
    IndexOf(d.sessions, HasSessionId(id))
  }

  /** What a destructor leaves registered of the handles it unregisters one by one. */
  function Unregistered(registered: set<nat>, handles: multiset<nat>, refused: set<nat>): set<nat> {
    set h | h in registered && (h in refused || h !in handles)
  }

  lemma UnregisteredOne(registered: set<nat>, h: nat, refused: set<nat>)
    ensures Unregistered(registered, multiset{h}, refused) == if h in refused then registered else registered - {h}
  {}

  lemma NoneUnregistered<T>(registered: set<nat>, s: seq<T>, f: T -> multiset<nat>, refused: set<nat>)
    ensures Unregistered(registered, Sum(s[..0], f), refused) == registered
  {}

  lemma {:induction false} OneMoreUnregistered<T>(registered: set<nat>, s: seq<T>, i: nat, f: T -> multiset<nat>,
                                                  refused: set<nat>)
    requires i < |s|
    ensures Unregistered(Unregistered(registered, Sum(s[..i], f), refused), f(s[i]), refused) ==
              Unregistered(registered, Sum(s[..i + 1], f), refused)
  {
    assert s[..i + 1] == s[..i] + [s[i]];
    SumAppend(s[..i], s[i], f);
  }

  lemma AllUnregistered<T>(registered: set<nat>, s: seq<T>, f: T -> multiset<nat>, refused: set<nat>)
    ensures Unregistered(registered, Sum(s[..|s|], f), refused) == Unregistered(registered, Sum(s, f), refused)
  {
    assert s[..|s|] == s;
  }

  /** removeDevice */
  function RemoveDevice(c: Client, id: nat, a: Answers): Client {
    var i := DeviceIndex(c, id);
    if i == |c.devices| then c
    else Client(Without(c.devices, i), Unregistered(c.registered, DeviceHolds(c.devices[i]), a.refused))
  }

  function WithDevice(c: Client, i: nat, d: Device): Client
    requires i < |c.devices|
  {
    c.(devices := c.devices[i := d])
  }

  function WithSession(c: Client, i: nat, j: nat, s: Session): Client
    requires i < |c.devices| && j < |c.devices[i].sessions|
  {
    WithDevice(c, i, c.devices[i].(sessions := c.devices[i].sessions[j := s]))
  }

  /** Device::removeSession, for the session at `j` */
  function RemoveSession(c: Client, i: nat, j: nat, a: Answers): Client
    requires i < |c.devices| && j < |c.devices[i].sessions|
  {
    var d := c.devices[i];
    WithDevice(c, i, d.(sessions := Without(d.sessions, j)))
      .(registered := Unregistered(c.registered, SessionHolds(d.sessions[j]), a.refused))
  }

  /** Session::removeBulkBuf */
  function RemoveBulkBuf(c: Client, i: nat, j: nat, buf: nat, a: Answers): (nat, Client)
    requires i < |c.devices| && j < |c.devices[i].sessions|
  {
    var s := c.devices[i].sessions[j];
    var k := IndexOf(s.bulkBufs, AtVirtual(buf));
    if k == |s.bulkBufs| then (ERR_BLK_BUFF_NOT_FOUND, c)
    else
      var h, dropped := s.bulkBufs[k].handle, WithSession(c, i, j, s.(bulkBufs := Without(s.bulkBufs, k)));
      if h in a.refused then (KernelCode(a.kernelError), dropped)
      else (OK, dropped.(registered := c.registered - {h}))
  }

  /** findContiguousWsm */
  function FindWsm(d: Device, addr: nat): Option<Wsm> {
    var k := IndexOf(d.wsms, AtBlock(addr));
    if addr != 0 && k < |d.wsms| then Some(d.wsms[k]) else None
  }

  // ------------------------------------------------------------------------------------------
  // The calls
  // ------------------------------------------------------------------------------------------

  function OpenDevice(c: Client, id: nat, a: Answers): (nat, Client) {
    if DeviceIndex(c, id) < |c.devices| then (ERR_DEVICE_ALREADY_OPEN, c)
    else if !a.connects then (ERR_DAEMON_UNREACHABLE, c)
    else if CodeOf(a.version) != OK then (CodeOf(a.version), c)
    else if !a.versionFits then (ERR_DAEMON_VERSION, c)
    else if CodeOf(a.reply) != OK then (CodeOf(a.reply), c)
    else if !a.kernelOpens then (TRUE_AS_RESULT, c)
    else (OK, c.(devices := c.devices + [Device(id, [], [])]))
  }

  /** Connected, of the right version, and willing to open the device. */
  predicate DaemonAgrees(a: Answers) {
    a.connects && a.version == Said(OK) && a.versionFits && a.reply == Said(OK)
  }

  /**
   The result is OK exactly when the call puts the device into the tables.  Unless the daemon
   itself answers 1, that is what the caller gets exactly when the kernel device does not open.
   */
  lemma {:induction false} OpenDeviceExactly(c: Client, id: nat, a: Answers)
    ensures var (code, r) := OpenDevice(c, id, a);
            var isNew := DeviceIndex(c, id) == |c.devices|;
            && (code == OK <==> isNew && DeviceIndex(r, id) < |r.devices|)
            && (code != OK ==> r == c)
            && (a.version != Said(TRUE_AS_RESULT) && a.reply != Said(TRUE_AS_RESULT) ==>
                  (code == TRUE_AS_RESULT <==> isNew && DaemonAgrees(a) && !a.kernelOpens))
  {
    var r := c.devices + [Device(id, [], [])];
    if DeviceIndex(c, id) == |c.devices| {
      IndexIs(r, HasDeviceId(id), |c.devices|);
    }
    hide IndexOf;
  }

  function NoDevice(id: nat): nat {
    if id == DEVICE_ID_DEFAULT then ERR_DAEMON_DEVICE_NOT_OPEN else ERR_UNKNOWN_DEVICE
  }

  function CloseDevice(c: Client, id: nat, a: Answers): (nat, Client) {
    var i := DeviceIndex(c, id);
    if i == |c.devices| then (NoDevice(id), c)
    else if !a.alive then (ERR_DAEMON_UNREACHABLE, RemoveDevice(c, id, a))
    else if c.devices[i].sessions != [] then (ERR_SESSION_PENDING, c)
    else if CodeOf(a.reply) != OK then (CodeOf(a.reply), c)
    else (OK, RemoveDevice(c, id, a))
  }

  /** mcOpenTrustlet takes the trustlet itself and insists on a TCI; mcOpenSession and mcOpenGPTA take a UUID. */
  datatype OpenKind = ByUuid | ByImage

  datatype Tci = NoTci | Contiguous(handle: nat) | Mapped(handle: nat) | Unusable

  function TciOf(c: Client, d: Device, kind: OpenKind, tci: nat, len: nat, a: Answers): Tci {
    match FindWsm(d, tci)
    case Some(w) => if w.len < len then Unusable else Contiguous(w.handle)
    case None =>
      if kind.ByImage? || (tci != 0 && len != 0) then if Registers(c, a) then Mapped(a.handle) else Unusable
      else if len != 0 then Unusable
      else NoTci
  }

  /** The checks before a device is looked at: `given` says that no pointer that must be there is NULL. */
  predicate OpenArguments(kind: OpenKind, given: bool, tci: nat, len: nat) {
    given && (kind.ByImage? ==> tci != 0) && len <= MAX_TCI_LEN
  }

  /** What follows once the TCI is settled: the result, and the session id written to the caller's handle. */
  function Negotiate(a: Answers): (r: (nat, Option<nat>))
    ensures r.0 == OK ==> r.1.Some?
  {
    if CodeOf(a.reply) != OK then (OpenError(CodeOf(a.reply)), None)
    else if a.payload.None? then (ERR_DAEMON_UNREACHABLE, None)
    else if !a.connects then (ERR_DAEMON_UNREACHABLE, a.payload)
    else (CodeOf(a.channel), a.payload)
  }

  /** The registration of the TCI stays, whether or not the session opens. */
  function WithTci(c: Client, t: Tci): Client {
    if t.Mapped? then c.(registered := c.registered + {t.handle}) else c
  }

  function TciBufs(t: Tci, tci: nat, len: nat): seq<Bulk> {
    if t.Mapped? then [Bulk(tci, 0, len, t.handle)] else []
  }

  function WithNewSession(c: Client, i: nat, s: Session): Client
    requires i < |c.devices|
  {
    WithDevice(c, i, c.devices[i].(sessions := c.devices[i].sessions + [s]))
  }

  lemma TciAndSession(c: Client, t: Tci, i: nat, s: Session)
    requires i < |c.devices|
    ensures WithNewSession(WithTci(c, t), i, s) == WithTci(WithNewSession(c, i, s), t)
  {}

  function OpenSession(c: Client, kind: OpenKind, given: bool, id: nat, tci: nat, len: nat, a: Answers)
    : (nat, Option<nat>, Client)
  {
    if !OpenArguments(kind, given, tci, len) then (ERR_INVALID_PARAMETER, None, c)
    else
      var i := DeviceIndex(c, id);
      if i == |c.devices| then (ERR_UNKNOWN_DEVICE, None, c)
      else
        var d := c.devices[i];
        var t := TciOf(c, d, kind, tci, len, a);
        if t.Unusable? then (ERR_INVALID_PARAMETER, None, c)
        else
          var (code, sid) := Negotiate(a);
          if code != OK then (code, sid, WithTci(c, t))
          else (OK, sid, WithTci(WithNewSession(c, i, Session(sid.value, TciBufs(t, tci, len))), t))
  }

  /** mcSessionHandle_t; None for a NULL pointer to one. */
  datatype Handle = Handle(deviceId: nat, sessionId: nat)

  /** The device and the session of a handle, as positions; or the error. */
  datatype Place = Nowhere(code: nat) | At(i: nat, j: nat)

  function Resolve(c: Client, h: Handle): (p: Place)
    ensures p.At? ==> p.i < |c.devices| && p.j < |c.devices[p.i].sessions|
    ensures p.Nowhere? ==> p.code != OK && p.code != ERR_DAEMON_UNREACHABLE
  {
    var i := DeviceIndex(c, h.deviceId);
    if i == |c.devices| then Nowhere(ERR_UNKNOWN_DEVICE)
    else
      var j := SessionIndex(c.devices[i], h.sessionId);
      if j == |c.devices[i].sessions| then Nowhere(ERR_UNKNOWN_SESSION) else At(i, j)
  }

  /** A broken connection takes the device with it, in the calls that say so. */
  function CloseSession(c: Client, handle: Option<Handle>, a: Answers): (nat, Client) {
    if handle.None? then (ERR_INVALID_PARAMETER, c)
    else
      match Resolve(c, handle.value)
      case Nowhere(code) => (code, c)
      case At(i, j) =>
        match a.reply
        case Broken => (ERR_DAEMON_UNREACHABLE, RemoveDevice(c, handle.value.deviceId, a))
        case Said(code) => if code != OK then (ERR_UNKNOWN_DEVICE, c) else (OK, RemoveSession(c, i, j, a))
  }

  /** `a.reply` stands for the send alone: the daemon does not answer. */
  function Notify(c: Client, handle: Option<Handle>, a: Answers): (nat, Client) {
    if handle.None? then (ERR_INVALID_PARAMETER, c)
    else
      match Resolve(c, handle.value)
      case Nowhere(code) => (code, c)
      case At(_, _) =>
        if a.reply.Broken? then (ERR_DAEMON_UNREACHABLE, RemoveDevice(c, handle.value.deviceId, a)) else (OK, c)
  }

  function MallocWsm(c: Client, id: nat, len: nat, given: bool, a: Answers): (nat, nat, Client) {
    var i := DeviceIndex(c, id);
    if i == |c.devices| then (NoDevice(id), 0, c)
    else if !given then (ERR_INVALID_PARAMETER, 0, c)
    else if len == 0 then (ERR_INVALID_LENGTH, 0, c)
    else
      match a.block
      case None => (KernelCode(a.kernelError), 0, c)
      case Some((addr, handle)) =>
        var d := c.devices[i];
        (OK, addr, WithDevice(c, i, d.(wsms := d.wsms + [Wsm(addr, len, handle)])))
  }

  function FreeWsm(c: Client, id: nat, wsm: nat, a: Answers): (nat, Client) {
    var i := DeviceIndex(c, id);
    if i == |c.devices| then (ERR_UNKNOWN_DEVICE, c)
    else
      var d := c.devices[i];
      if FindWsm(d, wsm).None? then (ERR_INVALID_PARAMETER, c)
      else if !a.freed then (KernelCode(a.kernelError), c)
      else (OK, WithDevice(c, i, d.(wsms := Without(d.wsms, IndexOf(d.wsms, AtBlock(wsm))))))
  }

  /** mcBulkMap_t */
  datatype MapInfo = MapInfo(sVirtualAddr: nat, sVirtualLen: nat)

  function SessionAt(c: Client, p: Place): Session
    requires p.At? && p.i < |c.devices| && p.j < |c.devices[p.i].sessions|
  {
    c.devices[p.i].sessions[p.j]
  }

  predicate IsMapped(s: Session, buf: nat) {
    IndexOf(s.bulkBufs, AtVirtual(buf)) < |s.bulkBufs|
  }

  /** Session::addBulkBuf, when it succeeds */
  function AddBulkBuf(c: Client, i: nat, j: nat, b: Bulk): Client
    requires i < |c.devices| && j < |c.devices[i].sessions|
  {
    var s := c.devices[i].sessions[j];
    WithSession(c, i, j, s.(bulkBufs := s.bulkBufs + [b])).(registered := c.registered + {b.handle})
  }

  /** Adding a descriptor and then filling in its secure address. */
  lemma SecureFilledIn(c: Client, i: nat, j: nat, b: Bulk, addr: nat)
    requires i < |c.devices| && j < |c.devices[i].sessions|
    ensures var added := AddBulkBuf(c, i, j, b);
            && i < |added.devices| && j < |added.devices[i].sessions|
            && var s := added.devices[i].sessions[j];
            && |s.bulkBufs| > 0
            && var last := |s.bulkBufs| - 1;
            && WithSession(added, i, j, s.(bulkBufs := s.bulkBufs[last := s.bulkBufs[last].(sVirtualAddr := addr)]))
               == AddBulkBuf(c, i, j, b.(sVirtualAddr := addr))
  {
    var added, d, filled := AddBulkBuf(c, i, j, b), c.devices[i], b.(sVirtualAddr := addr);
    var bufs := d.sessions[j].bulkBufs;
    var s := d.sessions[j].(bulkBufs := bufs + [filled]);
    assert (bufs + [b])[|bufs| := filled] == bufs + [filled];
    assert added.devices[i].sessions[j := s] == d.sessions[j := s];
    assert added.devices[i := d.(sessions := d.sessions[j := s])] == c.devices[i := d.(sessions := d.sessions[j := s])];
  }

  /** mcMap, from the session on */
  function MapAt(c: Client, i: nat, j: nat, buf: nat, bufLen: nat, a: Answers): (nat, Option<MapInfo>, Client)
    requires i < |c.devices| && j < |c.devices[i].sessions|
  {
    if IsMapped(c.devices[i].sessions[j], buf) then (ERR_BUFFER_ALREADY_MAPPED, None, c)
    else if !Registers(c, a) then (KernelCode(a.kernelError), None, c)
    else
      var added := AddBulkBuf(c, i, j, Bulk(buf, 0, bufLen, a.handle));
      if a.reply.Broken? then (ERR_DAEMON_UNREACHABLE, None, added)
      else if a.reply.code != OK then (ERR_DAEMON_UNREACHABLE, None, RemoveBulkBuf(added, i, j, buf, a).1)
      else if a.payload.None? then (ERR_DAEMON_UNREACHABLE, None, added)
      else (OK, Some(MapInfo(a.payload.value, bufLen)),
            AddBulkBuf(c, i, j, Bulk(buf, a.payload.value, bufLen, a.handle)))
  }

  /** `given`: mapInfo is not NULL.  The map information is what is written to the caller, if anything is. */
  function Map(c: Client, handle: Option<Handle>, buf: nat, bufLen: nat, given: bool, a: Answers)
    : (nat, Option<MapInfo>, Client)
  {
    if handle.None? || !given || buf == 0 then (ERR_INVALID_PARAMETER, None, c)
    else
      match Resolve(c, handle.value)
      case Nowhere(code) => (code, None, c)
      case At(i, j) => MapAt(c, i, j, buf, bufLen, a)
  }

  /** Session::getBufHandle: zero when there is none. */
  function GetBufHandle(s: Session, info: MapInfo): nat {
    var k := IndexOf(s.bulkBufs, AtSecure(info.sVirtualAddr, info.sVirtualLen));
    if k < |s.bulkBufs| then s.bulkBufs[k].handle else 0
  }

  /** mcUnmap, from the session on */
  function UnmapAt(c: Client, i: nat, j: nat, buf: nat, info: MapInfo, a: Answers): (nat, Option<nat>, Client)
    requires i < |c.devices| && j < |c.devices[i].sessions|
  {
    var h := GetBufHandle(c.devices[i].sessions[j], info);
    if h == 0 then (ERR_BLK_BUFF_NOT_FOUND, None, c)
    else if CodeOf(a.reply) != OK then (ERR_DAEMON_UNREACHABLE, Some(h), RemoveDevice(c, c.devices[i].deviceId, a))
    else
      var (code, r) := RemoveBulkBuf(c, i, j, buf, a);
      (code, Some(h), r)
  }

  /** The second result is the handle sent to the daemon, if the call got that far. */
  function Unmap(c: Client, handle: Option<Handle>, buf: nat, info: Option<MapInfo>, a: Answers)
    : (nat, Option<nat>, Client)
  {
    if handle.None? || info.None? || info.value.sVirtualAddr == 0 || buf == 0 then (ERR_INVALID_PARAMETER, None, c)
    else
      match Resolve(c, handle.value)
      case Nowhere(code) => (code, None, c)
      case At(i, j) => UnmapAt(c, i, j, buf, info.value, a)
  }
}
