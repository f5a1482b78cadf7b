/**
 What the result codes of the client library tell a caller.  The daemon may answer any code of its
 own; that it keeps off the codes in question is a premise where it matters.
 */
module ClientCodes {
  import opened Wrappers
  import opened ClientTables
  import opened ClientConservation
  import opened ClientRoundTrip
  import opened ClientFrames

  /** The daemon succeeds, or answers a code that the library does not use itself. */
  predicate OwnCode(r: Reply) {
    r.Said? ==> r.code == OK || r.code > 0x21
  }

  lemma {:induction false} CloseDeviceCodes(c: Client, id: nat, a: Answers)
    requires OwnCode(a.reply)
    ensures var code, d := CloseDevice(c, id, a).0, DeviceFor(c, id);
            && (code == OK <==> d.Some? && a.alive && d.value.sessions == [] && a.reply == Said(OK))
            && (code == ERR_SESSION_PENDING <==> d.Some? && a.alive && d.value.sessions != [])
            && (code == ERR_DAEMON_UNREACHABLE <==>
                  d.Some? && (!a.alive || (d.value.sessions == [] && a.reply.Broken?)))
            && (code == ERR_DAEMON_DEVICE_NOT_OPEN <==> d.None? && id == DEVICE_ID_DEFAULT)
            && (code == ERR_UNKNOWN_DEVICE <==> d.None? && id != DEVICE_ID_DEFAULT)
  {
    hide IndexOf, RemoveDevice;
  }

  /** A refusal by the daemon looks as if the device were unknown. */
  lemma {:induction false} CloseSessionCodes(c: Client, handle: Option<Handle>, a: Answers)
    ensures var code := CloseSession(c, handle, a).0;
            && (code == ERR_INVALID_PARAMETER <==> handle.None?)
            && (handle.Some? ==>
                  var d, s := DeviceFor(c, handle.value.deviceId), SessionFor(c, handle.value);
                  && (code == OK <==> s.Some? && a.reply == Said(OK))
                  && (code == ERR_DAEMON_UNREACHABLE <==> s.Some? && a.reply.Broken?)
                  && (code == ERR_UNKNOWN_SESSION <==> d.Some? && s.None?)
                  && (code == ERR_UNKNOWN_DEVICE <==> d.None? || (s.Some? && a.reply.Said? && a.reply.code != OK)))
  {
    hide IndexOf, RemoveDevice, RemoveSession;
  }

  lemma {:induction false} NotifyCodes(c: Client, handle: Option<Handle>, a: Answers)
    ensures var code := Notify(c, handle, a).0;
            && (code == ERR_INVALID_PARAMETER <==> handle.None?)
            && (handle.Some? ==>
                  var d, s := DeviceFor(c, handle.value.deviceId), SessionFor(c, handle.value);
                  && (code == OK <==> s.Some? && !a.reply.Broken?)
                  && (code == ERR_DAEMON_UNREACHABLE <==> s.Some? && a.reply.Broken?)
                  && (code == ERR_UNKNOWN_SESSION <==> d.Some? && s.None?)
                  && (code == ERR_UNKNOWN_DEVICE <==> d.None?))
  {
    hide IndexOf, RemoveDevice;
  }

  lemma {:induction false} MapCodes(c: Client, handle: Option<Handle>, buf: nat, len: nat, given: bool, a: Answers)
    ensures var code := Map(c, handle, buf, len, given, a).0;
            && (code == ERR_INVALID_PARAMETER <==> handle.None? || !given || buf == 0)
            && (handle.Some? && given && buf != 0 ==>
                  var d, s := DeviceFor(c, handle.value.deviceId), SessionFor(c, handle.value);
                  var b := BufferFor(c, handle.value, buf);
                  && (code == ERR_UNKNOWN_DEVICE <==> d.None?)
                  && (code == ERR_UNKNOWN_SESSION <==> d.Some? && s.None?)
                  && (code == ERR_BUFFER_ALREADY_MAPPED <==> b.Some?)
                  && (code == OK <==> s.Some? && b.None? && Registers(c, a) && a.reply == Said(OK) && a.payload.Some?)
                  && (code == ERR_DAEMON_UNREACHABLE <==>
                        s.Some? && b.None? && Registers(c, a) && !(a.reply == Said(OK) && a.payload.Some?)))
  {
    hide IndexOf, AddBulkBuf, RemoveBulkBuf;
    KernelCodes(a.kernelError);
  }

  lemma KernelCodes(e: KernelError)
    ensures KernelCode(e) !in {OK, ERR_INVALID_PARAMETER, ERR_UNKNOWN_DEVICE, ERR_UNKNOWN_SESSION,
                               ERR_BUFFER_ALREADY_MAPPED, ERR_BLK_BUFF_NOT_FOUND, ERR_DAEMON_UNREACHABLE}
  {}

  lemma {:induction false} UnmapCodes(c: Client, handle: Option<Handle>, buf: nat, info: Option<MapInfo>, a: Answers)
    requires Invariant(c)
    ensures var code := Unmap(c, handle, buf, info, a).0;
            var given := handle.Some? && info.Some? && info.value.sVirtualAddr != 0 && buf != 0;
            && (code == ERR_INVALID_PARAMETER <==> !given)
            && (given ==>
                  var d, s := DeviceFor(c, handle.value.deviceId), SessionFor(c, handle.value);
                  var b := BufferFor(c, handle.value, buf);
                  var found := s.Some? && SecureInUse(c, handle.value, info.value);
                  && (code == ERR_UNKNOWN_DEVICE <==> d.None?)
                  && (code == ERR_UNKNOWN_SESSION <==> d.Some? && s.None?)
                  && (code == ERR_DAEMON_UNREACHABLE <==> found && CodeOf(a.reply) != OK)
                  && (code == ERR_BLK_BUFF_NOT_FOUND <==> s.Some? && (!found || (CodeOf(a.reply) == OK && b.None?)))
                  && (code == OK <==> found && CodeOf(a.reply) == OK && b.Some? && b.value.handle !in a.refused))
  {
    hide IndexOf, RemoveDevice, Invariant;
    KernelCodes(a.kernelError);
    if handle.Some? && info.Some? {
      var p := Resolve(c, handle.value);
      if p.At? && SecureInUse(c, handle.value, info.value) {
        LiveHandle(c, p.i, p.j, Found(SessionAt(c, p), info.value));
      }
    }
  }

  lemma {:induction false} MallocCodes(c: Client, id: nat, len: nat, given: bool, a: Answers)
    ensures var code, d := MallocWsm(c, id, len, given, a).0, DeviceFor(c, id);
            && (code == ERR_DAEMON_DEVICE_NOT_OPEN <==> d.None? && id == DEVICE_ID_DEFAULT)
            && (code == ERR_UNKNOWN_DEVICE <==> d.None? && id != DEVICE_ID_DEFAULT)
            && (code == ERR_INVALID_PARAMETER <==> d.Some? && !given)
            && (code == ERR_INVALID_LENGTH <==>
                  d.Some? && given && (len == 0 || (a.block.None? && a.kernelError.NotOpen?)))
  {
    hide IndexOf;
  }

  lemma {:induction false} FreeCodes(c: Client, id: nat, wsm: nat, a: Answers)
    ensures var code, d := FreeWsm(c, id, wsm, a).0, DeviceFor(c, id);
            && (code == ERR_UNKNOWN_DEVICE <==> d.None?)
            && (code == ERR_INVALID_PARAMETER <==> d.Some? && !(wsm != 0 && SomeBlock(d.value.wsms, wsm)))
  {
    hide IndexOf;
    KernelCodes(a.kernelError);
    var i := DeviceIndex(c, id);
    if i < |c.devices| {
      var ws := c.devices[i].wsms;
      if IndexOf(ws, AtBlock(wsm)) < |ws| {
        FirstBlock(ws, wsm);
      } else {
        NoBlock(ws, wsm);
      }
    }
    hide SomeBlock;
  }

  /** Arguments and TCI are blamed before the device is. */
  lemma {:induction false} OpenSessionCodes(c: Client, kind: OpenKind, given: bool, id: nat, tci: nat, len: nat,
                                            a: Answers)
    requires OwnCode(a.reply) && OwnCode(a.channel)
    ensures var code, d := OpenSession(c, kind, given, id, tci, len, a).0, DeviceFor(c, id);
            var right := given && len <= MAX_TCI_LEN && (kind.ByImage? ==> tci != 0);
            && (code == ERR_UNKNOWN_DEVICE <==> right && d.None?)
            && (code == ERR_INVALID_PARAMETER <==> !right || (d.Some? && !Usable(c, d.value, kind, tci, len, a)))
            && (right && d.Some? && Usable(c, d.value, kind, tci, len, a) && CodeOf(a.reply) != OK ==>
                  code == OpenError(CodeOf(a.reply)))
  {
    hide IndexOf, WithNewSession, FindWsm;
  }

  // ------------------------------------------------------------------------------------------
  // Codes of the secure world
  // ------------------------------------------------------------------------------------------

  const MC_MCP_RET_ERR_WRONG_PUBLIC_KEY := 16
  const MC_MCP_RET_ERR_CONTAINER_TYPE_MISMATCH := 17
  const MC_MCP_RET_ERR_CONTAINER_LOCKED := 18
  const MC_MCP_RET_ERR_SP_NO_CHILD := 19
  const MC_MCP_RET_ERR_TL_NO_CHILD := 20
  const MC_MCP_RET_ERR_UNWRAP_ROOT_FAILED := 21
  const MC_MCP_RET_ERR_UNWRAP_SP_FAILED := 22
  const MC_MCP_RET_ERR_UNWRAP_TRUSTLET_FAILED := 23

  const MC_DRV_ERR_WRONG_PUBLIC_KEY := 0x19
  const MC_DRV_ERR_CONTAINER_TYPE_MISMATCH := 0x1a
  const MC_DRV_ERR_CONTAINER_LOCKED := 0x1b
  const MC_DRV_ERR_SP_NO_CHILD := 0x1c
  const MC_DRV_ERR_TL_NO_CHILD := 0x1d
  const MC_DRV_ERR_UNWRAP_ROOT_FAILED := 0x1e
  const MC_DRV_ERR_UNWRAP_SP_FAILED := 0x1f
  const MC_DRV_ERR_UNWRAP_TRUSTLET_FAILED := 0x20

  /** MAKE_MC_DRV_MCP_ERROR */
  function McpError(mcp: nat): nat {
    ERR_DAEMON_UNREACHABLE + (mcp % 0x10_0000) * 0x100
  }

  /** Eight of them have codes of their own; the others are one; what is no such code passes through. */
  lemma {:induction false} McpCodes(mcp: nat, code: nat)
    requires mcp < 0x100 && code % 0x100 != ERR_DAEMON_UNREACHABLE
    ensures OpenError(McpError(MC_MCP_RET_ERR_WRONG_PUBLIC_KEY)) == MC_DRV_ERR_WRONG_PUBLIC_KEY
    ensures OpenError(McpError(MC_MCP_RET_ERR_CONTAINER_TYPE_MISMATCH)) == MC_DRV_ERR_CONTAINER_TYPE_MISMATCH
    ensures OpenError(McpError(MC_MCP_RET_ERR_CONTAINER_LOCKED)) == MC_DRV_ERR_CONTAINER_LOCKED
    ensures OpenError(McpError(MC_MCP_RET_ERR_SP_NO_CHILD)) == MC_DRV_ERR_SP_NO_CHILD
    ensures OpenError(McpError(MC_MCP_RET_ERR_TL_NO_CHILD)) == MC_DRV_ERR_TL_NO_CHILD
    ensures OpenError(McpError(MC_MCP_RET_ERR_UNWRAP_ROOT_FAILED)) == MC_DRV_ERR_UNWRAP_ROOT_FAILED
    ensures OpenError(McpError(MC_MCP_RET_ERR_UNWRAP_SP_FAILED)) == MC_DRV_ERR_UNWRAP_SP_FAILED
    ensures OpenError(McpError(MC_MCP_RET_ERR_UNWRAP_TRUSTLET_FAILED)) == MC_DRV_ERR_UNWRAP_TRUSTLET_FAILED
    ensures !(16 <= mcp <= 23) ==> OpenError(McpError(mcp)) == ERR_DAEMON_UNREACHABLE
    ensures OpenError(code) == code
  {}
}
