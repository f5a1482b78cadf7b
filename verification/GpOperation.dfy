/**
 Setting up and unwinding a GlobalPlatform operation: the four parameters are marshalled into the
 shared TCI buffer, memory references are mapped into the session on the way in and unmapped on
 the way out (section 4.5 of the GlobalPlatform TEE Client API Specification v1.0).
 */
module GpOperation {
  import opened Wrappers
  import opened Words
  import opened ClientTables
  import opened ClientConservation
  import opened ClientRoundTrip

  // ------------------------------------------------------------------------------------------
  // Parameters
  // ------------------------------------------------------------------------------------------

  const TEEC_SUCCESS := 0x0000_0000
  const TEEC_ERROR_GENERIC := 0xFFFF_0000
  const TEEC_ERROR_CANCEL := 0xFFFF_0002
  const TEEC_ERROR_BAD_PARAMETERS := 0xFFFF_0006
  const TEE_ERROR_BAD_STATE := 0xFFFF_0007
  const TEEC_ERROR_COMMUNICATION := 0xFFFF_000E

  const ORIGIN_COMMS := 2
  const ORIGIN_TRUSTED_APP := 4

  const VALUE_INPUT := 0x1
  const VALUE_OUTPUT := 0x2
  const VALUE_INOUT := 0x3
  const TEMP_INPUT := 0x5
  const TEMP_OUTPUT := 0x6
  const TEMP_INOUT := 0x7
  const WHOLE := 0xC
  const PARTIAL_INPUT := 0xD
  const PARTIAL_OUTPUT := 0xE
  const PARTIAL_INOUT := 0xF

  const PARAMETERS := 4

  datatype SharedMemory = SharedMemory(buffer: nat, size: nat, flags: nat)

  /**
   TEEC_Parameter, a union of three structures: the words are a and b of a value, buffer and size
   of a temporary reference, or parent, size and offset of a registered one.  `parent` is the
   block that the first word of a registered reference points to.
   */
  datatype Param = Param(first: nat, second: nat, third: nat, parent: SharedMemory)

  /** _TEEC_ParameterInternal, a union: a and b of a value, or sVirtualAddr, sVirtualLen and outputSize. */
  datatype Imp = Imp(w0: nat, w1: nat, w2: nat)

  const NO_PARAM := Param(0, 0, 0, SharedMemory(0, 0, 0))
  const NO_IMP := Imp(0, 0, 0)
  type Params = s: seq<Param> | |s| == PARAMETERS witness [NO_PARAM, NO_PARAM, NO_PARAM, NO_PARAM]
  type Imps = s: seq<Imp> | |s| == PARAMETERS witness ZERO_IMPS
  type FourAnswers = s: seq<Answers> | |s| == PARAMETERS witness [NO_ANSWERS, NO_ANSWERS, NO_ANSWERS, NO_ANSWERS]

  const ZERO_IMPS := [NO_IMP, NO_IMP, NO_IMP, NO_IMP]
  const NO_ANSWERS := Answers(false, false, Broken, false, Broken, None, Broken, false, 0, None, false, {}, NotOpen)

  datatype Operation = Operation(paramTypes: nat, params: Params)

  /** The fields of the TCI buffer that an operation uses. */
  datatype Tci = Tci(paramTypes: nat, params: Imps, returnOrigin: nat, returnStatus: nat, ready: bool)

  function TypeOf(paramTypes: nat, i: nat): (t: nat)
    requires i < PARAMETERS
    ensures t < 16
  {
    match i
    case 0 => paramTypes % 16
    case 1 => paramTypes / 0x10 % 16
    case 2 => paramTypes / 0x100 % 16
    case _ => paramTypes / 0x1000 % 16
  }

  predicate IsTemp(t: nat) {
    t == TEMP_INPUT || t == TEMP_OUTPUT || t == TEMP_INOUT
  }

  predicate IsPartial(t: nat) {
    t == PARTIAL_INPUT || t == PARTIAL_OUTPUT || t == PARTIAL_INOUT
  }

  predicate IsMemref(t: nat) {
    IsTemp(t) || t == WHOLE || IsPartial(t)
  }

  /** The address mapped and unmapped for a memory reference; addresses and sizes have 32 bits. */
  function Buffer(t: nat, p: Param): nat {
    if IsTemp(t) then p.first
    else if t == WHOLE then p.parent.buffer
    else if IsPartial(t) then (p.parent.buffer + p.third) % U32_RANGE
    else 0
  }

  /** The length to map, zero for nothing. */
  function Extent(t: nat, p: Param): nat {
    if IsTemp(t) then if p.first != 0 then p.second else 0
    else if t == WHOLE then p.parent.size
    else if IsPartial(t) then p.second
    else 0
  }

  /** An unknown type, a flow against the flags of the block, or a part that ends beyond it. */
  predicate Rejected(t: nat, p: Param) {
    || t == 0x4 || 0x8 <= t <= 0xB
    || (t == PARTIAL_OUTPUT && p.parent.flags % 4 == 1)
    || (t == PARTIAL_INPUT && p.parent.flags % 4 == 2)
    || (IsPartial(t) && (p.third + p.second) % U32_RANGE > p.parent.size)
  }

  // ------------------------------------------------------------------------------------------
  // _TEEC_SetupOperation
  // ------------------------------------------------------------------------------------------

  /** Why the loop over the parameters ended early. */
  datatype Stop = BadParameter | MapFailed

  datatype SetupState = SetupState(stop: Option<Stop>, imps: Imps, client: Client)

  function SetupParam(c: Client, h: Handle, t: nat, p: Param, imp: Imp, a: Answers): (Option<Stop>, Imp, Client) {
    if Rejected(t, p) then (Some(BadParameter), imp, c)
    else if t == VALUE_INPUT || t == VALUE_INOUT then (None, Imp(p.first, p.second, imp.w2), c)
    else if !IsMemref(t) then (None, imp, c)
    else if Extent(t, p) == 0 then (None, imp.(w1 := 0), c)
    else
      var (code, info, r) := Map(c, Some(h), Buffer(t, p), Extent(t, p), true, a);
      if code != OK || info.None? then (Some(MapFailed), imp.(w1 := 0), r)
      else (None, Imp(info.value.sVirtualAddr, info.value.sVirtualLen, imp.w2), r)
  }

  /** After `n` rounds of the loop. */
  function SetupAfter(c: Client, h: Handle, op: Operation, imps: Imps, answers: FourAnswers, n: nat): SetupState
    requires n <= PARAMETERS
  {
    if n == 0 then SetupState(None, imps, c)
    else
      var s := SetupAfter(c, h, op, imps, answers, n - 1);
      if s.stop.Some? then s
      else
        var (stop, imp, r) := SetupParam(s.client, h, TypeOf(op.paramTypes, n - 1), op.params[n - 1], s.imps[n - 1],
                                         answers[n - 1]);
        SetupState(stop, s.imps[n - 1 := imp], r)
  }

  function SetupError(stop: Option<Stop>, cancelled: bool): nat {
    if cancelled then TEEC_ERROR_CANCEL
    else if stop == Some(BadParameter) then TEEC_ERROR_BAD_PARAMETERS
    else if stop == Some(MapFailed) then TEEC_ERROR_GENERIC
    else TEEC_SUCCESS
  }

  /** `cancelled`: somebody has set isCancelled by the end of the loop.  `undo` answers the unmaps of a failed setup. */
  function Setup(c: Client, h: Handle, tci: Tci, operation: Option<Operation>, answers: FourAnswers, cancelled: bool,
                 undo: FourAnswers)
    : (nat, Tci, Client)
  {
    match operation
    case None => (TEEC_SUCCESS, tci.(returnStatus := TEE_ERROR_BAD_STATE, ready := true), c)
    case Some(op) =>
      var s := SetupAfter(c, h, op, tci.params, answers, PARAMETERS);
      var filled := tci.(paramTypes := op.paramTypes, params := s.imps);
      var teec := SetupError(s.stop, cancelled);
      if teec != TEEC_SUCCESS then
        (teec, filled.(paramTypes := 0, params := ZERO_IMPS), Unwind(s.client, h, filled, operation, false, undo).2)
      else (teec, filled.(returnStatus := TEE_ERROR_BAD_STATE, ready := true), s.client)
  }

  // ------------------------------------------------------------------------------------------
  // _TEEC_UnwindOperation
  // ------------------------------------------------------------------------------------------

  /** The sanity checks on what the trusted application has left in the TCI. */
  predicate Passes(tci: Tci) {
    tci.returnOrigin != 0 && (tci.returnOrigin == ORIGIN_TRUSTED_APP || tci.returnStatus == TEEC_SUCCESS)
  }

  function CopyBack(t: nat, p: Param, imp: Imp): Param {
    if t == VALUE_OUTPUT || t == VALUE_INOUT then p.(first := imp.w0, second := imp.w1)
    else if t == TEMP_OUTPUT || t == TEMP_INOUT || t == WHOLE || t == PARTIAL_OUTPUT || t == PARTIAL_INOUT then
      p.(second := imp.w2)
    else p
  }

  function UnwindParam(c: Client, h: Handle, t: nat, p: Param, imp: Imp, a: Answers): Client {
    if Buffer(t, p) != 0 && imp.w1 != 0 then Unmap(c, Some(h), Buffer(t, p), Some(MapInfo(imp.w0, imp.w1)), a).2 else c
  }

  function UnwindAfter(c: Client, h: Handle, op: Operation, imps: Imps, answers: FourAnswers, n: nat): Client
    requires n <= PARAMETERS
  {
    if n == 0 then c
    else UnwindParam(UnwindAfter(c, h, op, imps, answers, n - 1), h, TypeOf(op.paramTypes, n - 1), op.params[n - 1],
                     imps[n - 1], answers[n - 1])
  }

  function CopiedParam(op: Operation, imps: Imps, i: nat): Param
    requires i < PARAMETERS
  {
    CopyBack(TypeOf(op.paramTypes, i), op.params[i], imps[i])
  }

  function CopiedBack(op: Operation, imps: Imps, copyValues: bool): Params {
    if copyValues then [CopiedParam(op, imps, 0), CopiedParam(op, imps, 1), CopiedParam(op, imps, 2),
                        CopiedParam(op, imps, 3)]
    else op.params
  }

  function Unwind(c: Client, h: Handle, tci: Tci, operation: Option<Operation>, copyValues: bool, answers: FourAnswers)
    : (nat, Option<Operation>, Client)
  {
    match operation
    case None => (TEEC_SUCCESS, None, c)
    case Some(op) =>
      if !Passes(tci) then (TEEC_ERROR_COMMUNICATION, operation, c)
      else
        (tci.returnStatus, Some(op.(params := CopiedBack(op, tci.params, copyValues))),
         UnwindAfter(c, h, op, tci.params, answers, PARAMETERS))
  }

  // ------------------------------------------------------------------------------------------
  // The session with mappings added
  // ------------------------------------------------------------------------------------------

  function HandlesOf(bs: seq<Bulk>): set<nat> {
    set b | b in bs :: b.handle
  }

  /** The tables with the descriptors `bs` behind those of the session of `h`. */
  function WithMappings(c: Client, h: Handle, bs: seq<Bulk>): Client {
    var p := Resolve(c, h);
    if bs == [] || p.Nowhere? then c
    else
      var s := SessionAt(c, p);
      WithSession(c, p.i, p.j, s.(bulkBufs := s.bulkBufs + bs)).(registered := c.registered + HandlesOf(bs))
  }

  lemma {:induction false} MappingsShape(c: Client, h: Handle, bs: seq<Bulk>)
    requires Resolve(c, h).At?
    ensures var p := Resolve(c, h);
            var r := WithMappings(c, h, bs);
            && Resolve(r, h) == p
            && r.registered == c.registered + HandlesOf(bs)
            && SessionAt(r, p) == SessionAt(c, p).(bulkBufs := SessionAt(c, p).bulkBufs + bs)
            && (forall s: Session :: WithSession(r, p.i, p.j, s).devices == WithSession(c, p.i, p.j, s).devices)
  {
    var p := Resolve(c, h);
    var s := SessionAt(c, p);
    if bs == [] {
      assert s.bulkBufs + bs == s.bulkBufs;
      assert c.registered + HandlesOf(bs) == c.registered;
    } else {
      var s' := s.(bulkBufs := s.bulkBufs + bs);
      SameResolution(c, h, s');
      SameDevices(WithMappings(c, h, bs), WithSession(c, p.i, p.j, s'), h);
      var d := c.devices[p.i];
      forall s: Session
        ensures WithSession(WithMappings(c, h, bs), p.i, p.j, s).devices == WithSession(c, p.i, p.j, s).devices
      {
        assert d.sessions[p.j := s'][p.j := s] == d.sessions[p.j := s];
      }
    }
  }

  /** The handles of `bs` were not registered before. */
  ghost predicate NewHandles(c: Client, bs: seq<Bulk>) {
    forall b | b in bs :: b.handle !in c.registered
  }

  /** A client with mappings added, all of them new. */
  ghost predicate Extended(c: Client, h: Handle, bs: seq<Bulk>, r: Client) {
    r == WithMappings(c, h, bs) && Invariant(r) && NewHandles(c, bs) && (bs != [] ==> Resolve(c, h).At?)
  }

  lemma HandlesAppend(bs: seq<Bulk>, b: Bulk)
    ensures HandlesOf(bs + [b]) == HandlesOf(bs) + {b.handle}
  {
    assert forall x :: x in bs + [b] <==> x in bs || x == b;
  }

  /** The secure address the daemon answers. */
  function Payload(a: Answers): nat {
    if a.payload.Some? then a.payload.value else 0
  }

  /** One more successful mapping. */
  lemma {:induction false} MapExtends(c: Client, h: Handle, bs: seq<Bulk>, r: Client, buf: nat, len: nat, a: Answers)
    requires Extended(c, h, bs, r) && Map(r, Some(h), buf, len, true, a).0 == OK
    ensures var (_, info, r') := Map(r, Some(h), buf, len, true, a);
            && info == Some(MapInfo(Payload(a), len)) && buf != 0
            && Extended(c, h, bs + [Bulk(buf, Payload(a), len, a.handle)], r')
  {
    hide Invariant, WithMappings, MapAt, IsMapped, AddBulkBuf, Resolve;
    var (_, info, r') := Map(r, Some(h), buf, len, true, a);
    var b := Bulk(buf, Payload(a), len, a.handle);
    MapLeaves(r, h, buf, len, a);
    MapKeeps(r, h, buf, len, a);
    PlaceBefore(c, h, bs);
    MappingsShape(c, h, bs);
    MappingsShape(c, h, bs + [b]);
    HandlesAppend(bs, b);
    AddedToMappings(c, h, bs, b);
  }

  lemma PlaceBefore(c: Client, h: Handle, bs: seq<Bulk>)
    requires bs != [] ==> Resolve(c, h).At?
    ensures Resolve(WithMappings(c, h, bs), h).At? ==> Resolve(c, h).At?
  {}

  lemma {:induction false} MapKeeps(r: Client, h: Handle, buf: nat, len: nat, a: Answers)
    requires Invariant(r)
    ensures Invariant(Map(r, Some(h), buf, len, true, a).2)
  {
    hide Invariant, Map;
    CallConserves(r, MapCall(Some(h), buf, len, true), a);
  }

  lemma {:induction false} AddedToMappings(c: Client, h: Handle, bs: seq<Bulk>, b: Bulk)
    requires Resolve(c, h).At?
    ensures var p, r := Resolve(c, h), WithMappings(c, h, bs);
            && p.i < |r.devices| && p.j < |r.devices[p.i].sessions|
            && AddBulkBuf(r, p.i, p.j, b) == WithMappings(c, h, bs + [b])
  {
    hide Resolve;
    var p, r := Resolve(c, h), WithMappings(c, h, bs);
    MappingsShape(c, h, bs);
    HandlesAppend(bs, b);
    var s := SessionAt(c, p);
    assert s.bulkBufs + bs + [b] == s.bulkBufs + (bs + [b]);
    assert AddBulkBuf(r, p.i, p.j, b).registered == WithMappings(c, h, bs + [b]).registered;
    assert AddBulkBuf(r, p.i, p.j, b).devices == WithMappings(c, h, bs + [b]).devices;
  }

  /** Daemon and kernel agree to an unmap. */
  predicate Agrees(a: Answers) {
    CodeOf(a.reply) == OK && a.refused == {}
  }

  lemma Behind(front: seq<Bulk>, bs: seq<Bulk>, k: nat)
    requires k < |bs|
    ensures (front + bs)[|front| + k] == bs[k] && Without(front + bs, |front| + k) == front + Without(bs, k)
  {}

  /** A mapping added is found at its own place by its buffer. */
  lemma {:induction false} PlaceOfMapping(c: Client, h: Handle, bs: seq<Bulk>, k: nat, r: Client)
    requires Extended(c, h, bs, r) && k < |bs|
    ensures var p := Resolve(c, h);
            && p.At? && Resolve(r, h) == p
            && var front := SessionAt(c, p).bulkBufs;
            && SessionAt(r, p).bulkBufs == front + bs
            && IndexOf(SessionAt(r, p).bulkBufs, AtVirtual(bs[k].virtAddr)) == |front| + k
  {
    hide Invariant, WithMappings, Resolve;
    MappingsShape(c, h, bs);
    var p := Resolve(c, h);
    var front, bufs := SessionAt(c, p).bulkBufs, SessionAt(r, p).bulkBufs;
    Behind(front, bs, k);
    forall i | 0 <= i < |front| + k
      ensures !AtVirtual(bs[k].virtAddr)(bufs[i])
    {
      BufferOnce(r, p.i, p.j, i, |front| + k);
    }
    IndexIs(bufs, AtVirtual(bs[k].virtAddr), |front| + k);
  }

  lemma {:induction false} OtherHandle(c: Client, h: Handle, bs: seq<Bulk>, k: nat, i: nat, r: Client)
    requires Extended(c, h, bs, r) && k < |bs| && i < |bs| && i != k
    ensures bs[i].handle != bs[k].handle
  {
    hide Invariant, WithMappings, Resolve, Without;
    MappingsShape(c, h, bs);
    var p := Resolve(c, h);
    var front := SessionAt(c, p).bulkBufs;
    Behind(front, bs, i);
    Behind(front, bs, k);
    DistinctHandles(r, p.i, p.j, |front| + i, |front| + k);
  }

  lemma HandlesWithout(bs: seq<Bulk>, k: nat)
    requires k < |bs| && forall i | 0 <= i < |bs| && i != k :: bs[i].handle != bs[k].handle
    ensures HandlesOf(bs) - {bs[k].handle} == HandlesOf(Without(bs, k))
  {
    var rest := Without(bs, k);
    forall i | 0 <= i < |bs| && i != k
      ensures bs[i] in rest
    {
      assert rest[if i < k then i else i - 1] == bs[i];
    }
    assert forall b | b in rest :: b in bs && b.handle != bs[k].handle;
  }

  lemma {:induction false} HandleOfMapping(c: Client, h: Handle, bs: seq<Bulk>, k: nat, r: Client)
    requires Extended(c, h, bs, r) && k < |bs|
    ensures r.registered - {bs[k].handle} == c.registered + HandlesOf(Without(bs, k))
  {
    hide Invariant, WithMappings, Resolve, Without, HandlesOf;
    MappingsShape(c, h, bs);
    forall i | 0 <= i < |bs| && i != k
      ensures bs[i].handle != bs[k].handle
    {
      OtherHandle(c, h, bs, k, i, r);
    }
    HandlesWithout(bs, k);
    assert bs[k] in bs;
  }

  /** Removing the descriptor of a mapping added, wherever it is among them. */
  lemma {:induction false} RemovesMapping(c: Client, h: Handle, bs: seq<Bulk>, k: nat, r: Client, a: Answers)
    requires Extended(c, h, bs, r) && k < |bs| && a.refused == {}
    ensures var p := Resolve(c, h);
            && p.At? && Resolve(r, h) == p
            && RemoveBulkBuf(r, p.i, p.j, bs[k].virtAddr, a) == (OK, WithMappings(c, h, Without(bs, k)))
  {
    hide Invariant, WithMappings, Resolve, Without, IndexOf;
    var p := Resolve(c, h);
    PlaceOfMapping(c, h, bs, k, r);
    HandleOfMapping(c, h, bs, k, r);
    MappingsShape(c, h, bs);
    var front := SessionAt(c, p).bulkBufs;
    Behind(front, bs, k);
    RestOfMappings(c, h, Without(bs, k));
    var r' := RemoveBulkBuf(r, p.i, p.j, bs[k].virtAddr, a).1;
    assert r'.devices == WithSession(c, p.i, p.j, SessionAt(c, p).(bulkBufs := front + Without(bs, k))).devices;
  }

  lemma {:induction false} RestOfMappings(c: Client, h: Handle, bs: seq<Bulk>)
    requires Resolve(c, h).At?
    ensures var p := Resolve(c, h);
            var s := SessionAt(c, p);
            && WithMappings(c, h, bs).devices == WithSession(c, p.i, p.j, s.(bulkBufs := s.bulkBufs + bs)).devices
            && WithMappings(c, h, bs).registered == c.registered + HandlesOf(bs)
  {
    var p := Resolve(c, h);
    var s := SessionAt(c, p);
    if bs == [] {
      assert s.bulkBufs + bs == s.bulkBufs;
      assert c.devices[p.i].sessions[p.j := s] == c.devices[p.i].sessions;
      assert c.devices[p.i := c.devices[p.i]] == c.devices;
    }
  }

  lemma {:induction false} UnmapKeeps(r: Client, h: Handle, buf: nat, info: MapInfo, a: Answers)
    requires Invariant(r)
    ensures Invariant(Unmap(r, Some(h), buf, Some(info), a).2)
  {
    hide Invariant, Unmap;
    CallConserves(r, UnmapCall(Some(h), buf, Some(info)), a);
  }

  /** What mcUnmap finds for a secure address, among the old mappings and those added. */
  lemma {:induction false} FoundInMappings(c: Client, h: Handle, bs: seq<Bulk>, r: Client, info: MapInfo)
    requires Extended(c, h, bs, r) && Resolve(c, h).At?
    ensures Resolve(r, h) == Resolve(c, h)
    ensures GetBufHandle(SessionAt(r, Resolve(c, h)), info) != 0
            <==> || SecureInUse(c, h, info)
                 || exists k | 0 <= k < |bs| :: AtSecure(info.sVirtualAddr, info.sVirtualLen)(bs[k])
  {
    hide Invariant, WithMappings, Resolve;
    MappingsShape(c, h, bs);
    var p := Resolve(c, h);
    var front, bufs := SessionAt(c, p).bulkBufs, SessionAt(r, p).bulkBufs;
    var at := AtSecure(info.sVirtualAddr, info.sVirtualLen);
    assert bufs == front + bs;
    assert forall k | 0 <= k < |bs| :: bufs[|front| + k] == bs[k];
    var f := IndexOf(bufs, at);
    if f < |bufs| {
      LiveHandle(r, p.i, p.j, f);
      assert if f < |front| then at(front[f]) else at(bs[f - |front|]);
    }
    assert forall i | 0 <= i < |front| :: bufs[i] == front[i];
  }

  /** An unmap that the daemon hears of, with the buffer of a mapping added. */
  lemma {:induction false} UnmapShrinks(c: Client, h: Handle, bs: seq<Bulk>, k: nat, r: Client, info: MapInfo,
                                        a: Answers)
    requires Extended(c, h, bs, r) && k < |bs| && Agrees(a) && bs[k].virtAddr != 0 && info.sVirtualAddr != 0
    requires SecureInUse(c, h, info) || exists i | 0 <= i < |bs| :: AtSecure(info.sVirtualAddr, info.sVirtualLen)(bs[i])
    ensures var (code, _, r') := Unmap(r, Some(h), bs[k].virtAddr, Some(info), a);
            code == OK && Extended(c, h, Without(bs, k), r')
  {
    hide Invariant, WithMappings, Resolve, RemoveDevice, CodeOf, RemoveBulkBuf, GetBufHandle, Without, SecureInUse;
    RemovesMapping(c, h, bs, k, r, a);
    FoundInMappings(c, h, bs, r, info);
    UnmapKeeps(r, h, bs[k].virtAddr, info, a);
    FewerAreNew(c, bs, k);
  }

  lemma FewerAreNew(c: Client, bs: seq<Bulk>, k: nat)
    requires NewHandles(c, bs) && k < |bs|
    ensures NewHandles(c, Without(bs, k)) && |Without(bs, k)| == |bs| - 1
  {
    assert forall b | b in Without(bs, k) :: b in bs;
  }

  // ------------------------------------------------------------------------------------------
  // The loops
  // ------------------------------------------------------------------------------------------

  /** Parameter `i` is one that a successful setup maps. */
  predicate MapsParam(op: Operation, i: nat)
    requires i < PARAMETERS
  {
    IsMemref(TypeOf(op.paramTypes, i)) && Extent(TypeOf(op.paramTypes, i), op.params[i]) != 0
  }

  function BulkOf(op: Operation, answers: FourAnswers, i: nat): Bulk
    requires i < PARAMETERS
  {
    var t, p := TypeOf(op.paramTypes, i), op.params[i];
    Bulk(Buffer(t, p), Payload(answers[i]), Extent(t, p), answers[i].handle)
  }

  function MappedAt(op: Operation, answers: FourAnswers, i: nat): seq<Bulk>
    requires i < PARAMETERS
  {
    if MapsParam(op, i) then [BulkOf(op, answers, i)] else []
  }

  /** The descriptors of parameters m to n - 1. */
  function Live(op: Operation, answers: FourAnswers, m: nat, n: nat): seq<Bulk>
    requires n <= PARAMETERS
  {
    if m >= n then [] else Live(op, answers, m, n - 1) + MappedAt(op, answers, n - 1)
  }

  lemma {:induction false} LiveFirst(op: Operation, answers: FourAnswers, m: nat, n: nat)
    requires m < n <= PARAMETERS
    ensures Live(op, answers, m, n) == MappedAt(op, answers, m) + Live(op, answers, m + 1, n)
  {
    if m < n - 1 {
      LiveFirst(op, answers, m, n - 1);
    }
  }

  /** What setup leaves in the TCI for a memory reference. */
  ghost predicate MapInfoRight(op: Operation, answers: FourAnswers, imps: Imps, i: nat)
    requires i < PARAMETERS
  {
    IsMemref(TypeOf(op.paramTypes, i)) ==>
      if MapsParam(op, i) then
        && imps[i].w0 == Payload(answers[i]) && imps[i].w1 == Extent(TypeOf(op.paramTypes, i), op.params[i])
        && Buffer(TypeOf(op.paramTypes, i), op.params[i]) != 0
      else imps[i].w1 == 0
  }

  lemma {:induction false} SetupExtends(c: Client, h: Handle, op: Operation, imps: Imps, answers: FourAnswers, n: nat)
    requires n <= PARAMETERS && Invariant(c) && SetupAfter(c, h, op, imps, answers, n).stop.None?
    ensures var s := SetupAfter(c, h, op, imps, answers, n);
            && Extended(c, h, Live(op, answers, 0, n), s.client)
            && forall i | 0 <= i < n :: MapInfoRight(op, answers, s.imps, i)
  {
    hide Invariant, Map, Extended, Rejected, Buffer, Extent, TypeOf;
    if n == 0 {
      NotExtended(c, h);
    } else {
      SetupExtends(c, h, op, imps, answers, n - 1);
      var s := SetupAfter(c, h, op, imps, answers, n - 1);
      var t, p := TypeOf(op.paramTypes, n - 1), op.params[n - 1];
      var imps' := SetupAfter(c, h, op, imps, answers, n).imps;
      forall i | 0 <= i < n - 1
        ensures MapInfoRight(op, answers, imps', i)
      {
        assert MapInfoRight(op, answers, s.imps, i) && imps'[i] == s.imps[i];
      }
      if MapsParam(op, n - 1) {
        MapExtends(c, h, Live(op, answers, 0, n - 1), s.client, Buffer(t, p), Extent(t, p), answers[n - 1]);
      } else {
        assert Live(op, answers, 0, n) == Live(op, answers, 0, n - 1);
      }
    }
  }

  lemma NotExtended(c: Client, h: Handle)
    requires Invariant(c)
    ensures Extended(c, h, [], c)
  {}

  /** The mappings that no secure address names: mcUnmap refuses to remove them. */
  function Nameless(bs: seq<Bulk>): (r: seq<Bulk>)
    ensures forall b | b in r :: b.sVirtualAddr == 0
    ensures r == [] <==> forall b | b in bs :: b.sVirtualAddr != 0
  {
    if bs == [] then []
    else
      var last := bs[|bs| - 1];
      assert bs == bs[..|bs| - 1] + [last];
      Nameless(bs[..|bs| - 1]) + if last.sVirtualAddr == 0 then [last] else []
  }

  /**
   What stands of the mappings of a setup that reached `reached` parameters, and of `tail`, after `n`
   rounds of unwinding.
   */
  function Standing(op: Operation, answers: FourAnswers, n: nat, reached: nat, tail: seq<Bulk>): seq<Bulk>
    requires n <= reached <= PARAMETERS
  {
    Nameless(Live(op, answers, 0, n)) + (Live(op, answers, n, reached) + tail)
  }

  lemma {:induction false} StandingStep(op: Operation, answers: FourAnswers, n: nat, reached: nat, tail: seq<Bulk>)
    requires 0 < n <= reached <= PARAMETERS
    ensures var before, after := Standing(op, answers, n - 1, reached, tail), Standing(op, answers, n, reached, tail);
            var b, k := BulkOf(op, answers, n - 1), |Nameless(Live(op, answers, 0, n - 1))|;
            if MapsParam(op, n - 1) then
              && k < |before| && before[k] == b
              && after == (if b.sVirtualAddr == 0 then before else Without(before, k))
            else after == before
  {
    hide MapsParam, BulkOf, Nameless, Live, Without;
    LiveFirst(op, answers, n - 1, reached);
    LiveLast(op, answers, n);
    var done, b, rest := Live(op, answers, 0, n - 1), BulkOf(op, answers, n - 1), Live(op, answers, n, reached);
    var kept := Nameless(done);
    if MapsParam(op, n - 1) {
      NamelessSnoc(done, b);
      assert Standing(op, answers, n - 1, reached, tail) == kept + ([b] + (rest + tail));
      TakeOut(kept, b, rest + tail);
      assert (kept + [b]) + (rest + tail) == kept + ([b] + (rest + tail));
    } else {
      assert done + [] == done && [] + rest == rest;
    }
  }

  lemma LiveLast(op: Operation, answers: FourAnswers, n: nat)
    requires 0 < n <= PARAMETERS
    ensures Live(op, answers, 0, n) == Live(op, answers, 0, n - 1) + MappedAt(op, answers, n - 1)
  {}

  lemma NamelessSnoc(bs: seq<Bulk>, b: Bulk)
    ensures Nameless(bs + [b]) == Nameless(bs) + if b.sVirtualAddr == 0 then [b] else []
  {
    assert (bs + [b])[..|bs|] == bs;
  }

  lemma TakeOut(front: seq<Bulk>, b: Bulk, back: seq<Bulk>)
    ensures var s := front + ([b] + back); s[|front|] == b && Without(s, |front|) == front + back
  {}

  /** A round for a parameter that setup reached. */
  lemma {:induction false} RoundUnmaps(c: Client, h: Handle, op: Operation, imps: Imps, answers: FourAnswers,
                                       r: Client, a: Answers, reached: nat, tail: seq<Bulk>, n: nat)
    requires 0 < n <= reached <= PARAMETERS && Extended(c, h, Standing(op, answers, n - 1, reached, tail), r)
    requires MapInfoRight(op, answers, imps, n - 1) && Agrees(a)
    ensures Extended(c, h, Standing(op, answers, n, reached, tail),
                     UnwindParam(r, h, TypeOf(op.paramTypes, n - 1), op.params[n - 1], imps[n - 1], a))
  {
    hide Unmap, Extended, Extent, TypeOf, Standing, Agrees, SecureInUse, Nameless, Live, Without;
    StandingStep(op, answers, n, reached, tail);
    var bs, b := Standing(op, answers, n - 1, reached, tail), BulkOf(op, answers, n - 1);
    if MapsParam(op, n - 1) {
      var k := |Nameless(Live(op, answers, 0, n - 1))|;
      if b.sVirtualAddr == 0 {
        UnmapOfNothing(r, h, b.virtAddr, b.len, a);
      } else {
        assert AtSecure(b.sVirtualAddr, b.len)(bs[k]);
        UnmapShrinks(c, h, bs, k, r, MapInfo(b.sVirtualAddr, b.len), a);
      }
    }
  }

  /** Unwinding, up to the parameters that setup reached. */
  lemma {:induction false} UnwindShrinks(c: Client, h: Handle, op: Operation, imps: Imps, answers: FourAnswers,
                                         c1: Client, undo: FourAnswers, reached: nat, tail: seq<Bulk>, n: nat)
    requires n <= reached <= PARAMETERS && Extended(c, h, Standing(op, answers, 0, reached, tail), c1)
    requires forall i | 0 <= i < reached :: MapInfoRight(op, answers, imps, i)
    requires forall i | 0 <= i < PARAMETERS :: Agrees(undo[i])
    ensures Extended(c, h, Standing(op, answers, n, reached, tail), UnwindAfter(c1, h, op, imps, undo, n))
  {
    hide UnwindParam, Extended, Standing, Agrees, MapInfoRight;
    if n > 0 {
      UnwindShrinks(c, h, op, imps, answers, c1, undo, reached, tail, n - 1);
      RoundUnmaps(c, h, op, imps, answers, UnwindAfter(c1, h, op, imps, undo, n - 1), undo[n - 1], reached, tail, n);
    }
  }

  lemma UnmapOfNothing(r: Client, h: Handle, buf: nat, len: nat, a: Answers)
    ensures Unmap(r, Some(h), buf, Some(MapInfo(0, len)), a).2 == r
  {}

  // ------------------------------------------------------------------------------------------
  // Map information left over
  // ------------------------------------------------------------------------------------------

  /**
   A round for parameter `i` gets as far as the daemon: its map information is that of a mapping the
   session had before.
   */
  predicate Speaks(c: Client, h: Handle, op: Operation, imps: Imps, i: nat)
    requires i < PARAMETERS
  {
    && Buffer(TypeOf(op.paramTypes, i), op.params[i]) != 0 && imps[i].w0 != 0 && imps[i].w1 != 0
    && SecureInUse(c, h, MapInfo(imps[i].w0, imps[i].w1))
  }

  /** And it takes away a mapping the session had before. */
  predicate Hits(c: Client, h: Handle, op: Operation, imps: Imps, i: nat)
    requires i < PARAMETERS
  {
    && Speaks(c, h, op, imps, i) && Resolve(c, h).At?
    && IsMapped(SessionAt(c, Resolve(c, h)), Buffer(TypeOf(op.paramTypes, i), op.params[i]))
  }

  ghost predicate Untouched(c: Client, h: Handle, op: Operation, imps: Imps, n: nat, m: nat)
    requires m <= PARAMETERS
  {
    forall i | n <= i < m :: !Hits(c, h, op, imps, i)
  }

  /** What rounds n to m - 1 leave of nameless mappings. */
  function Remaining(c: Client, h: Handle, bs: seq<Bulk>, op: Operation, imps: Imps, n: nat, m: nat): (r: seq<Bulk>)
    requires m <= PARAMETERS
    ensures forall b | b in r :: b in bs
  {
    if m <= n then bs
    else
      var before := Remaining(c, h, bs, op, imps, n, m - 1);
      var k := IndexOf(before, AtVirtual(Buffer(TypeOf(op.paramTypes, m - 1), op.params[m - 1])));
      if Speaks(c, h, op, imps, m - 1) && k < |before| then Without(before, k) else before
  }

  /** Something held before is no longer registered. */
  ghost predicate Lost(c: Client, r: Client) {
    exists g | g in Held(c) :: g !in r.registered
  }

  /** With no new secure addresses in play, a round hears of the old mappings alone. */
  lemma {:induction false} Unheard(c: Client, h: Handle, bs: seq<Bulk>, r: Client, op: Operation, imps: Imps, i: nat,
                                   a: Answers)
    requires i < PARAMETERS && Extended(c, h, bs, r) && (forall b | b in bs :: b.sVirtualAddr == 0)
    requires !Speaks(c, h, op, imps, i)
    ensures UnwindParam(r, h, TypeOf(op.paramTypes, i), op.params[i], imps[i], a) == r
  {
    hide Invariant, WithMappings, RemoveBulkBuf, RemoveDevice, GetBufHandle, SecureInUse;
    if Resolve(c, h).At? {
      FoundInMappings(c, h, bs, r, MapInfo(imps[i].w0, imps[i].w1));
    } else {
      assert r == c by { hide *; NowhereToMap(c, h, bs, r); }
    }
  }

  lemma NowhereToMap(c: Client, h: Handle, bs: seq<Bulk>, r: Client)
    requires Extended(c, h, bs, r) && Resolve(c, h).Nowhere?
    ensures r == c
  {
    hide Invariant, Resolve;
  }

  /** A round that speaks removes what is at its buffer, if anything is. */
  lemma {:induction false} Heard(c: Client, h: Handle, bs: seq<Bulk>, r: Client, op: Operation, imps: Imps, i: nat,
                                 a: Answers)
    requires i < PARAMETERS && Extended(c, h, bs, r) && Agrees(a) && Speaks(c, h, op, imps, i)
    ensures var p, t := Resolve(c, h), TypeOf(op.paramTypes, i);
            && p.At? && Resolve(r, h) == p
            && UnwindParam(r, h, t, op.params[i], imps[i], a)
               == RemoveBulkBuf(r, p.i, p.j, Buffer(t, op.params[i]), a).1
  {
    hide Invariant, WithMappings, RemoveBulkBuf, RemoveDevice, GetBufHandle, Extended, CodeOf, IndexOf;
    FoundInMappings(c, h, bs, r, MapInfo(imps[i].w0, imps[i].w1));
  }

  lemma {:induction false} RoundLoses(c: Client, h: Handle, bs: seq<Bulk>, r: Client, op: Operation, imps: Imps,
                                      i: nat, a: Answers)
    requires i < PARAMETERS && Extended(c, h, bs, r) && Agrees(a) && Hits(c, h, op, imps, i)
    ensures Lost(c, UnwindParam(r, h, TypeOf(op.paramTypes, i), op.params[i], imps[i], a))
  {
    hide Invariant, WithMappings, UnwindParam, Resolve, Speaks, Held;
    Heard(c, h, bs, r, op, imps, i, a);
    MappingsShape(c, h, bs);
    var p, buf := Resolve(c, h), Buffer(TypeOf(op.paramTypes, i), op.params[i]);
    var front, bufs := SessionAt(c, p).bulkBufs, SessionAt(r, p).bulkBufs;
    var k := IndexOf(front, AtVirtual(buf));
    assert forall j | 0 <= j < |front| :: bufs[j] == front[j];
    IndexIs(bufs, AtVirtual(buf), k);
    IsHeld(c, p.i, p.j, k);
  }

  lemma {:induction false} RoundRemoves(c: Client, h: Handle, bs: seq<Bulk>, r: Client, op: Operation, imps: Imps,
                                        i: nat, a: Answers)
    requires i < PARAMETERS && Extended(c, h, bs, r) && Agrees(a) && Speaks(c, h, op, imps, i)
    requires !Hits(c, h, op, imps, i)
    ensures var t := TypeOf(op.paramTypes, i);
            var k := IndexOf(bs, AtVirtual(Buffer(t, op.params[i])));
            var r' := UnwindParam(r, h, t, op.params[i], imps[i], a);
            Extended(c, h, if k < |bs| then Without(bs, k) else bs, r')
  {
    hide Invariant, WithMappings, UnwindParam, Resolve, Speaks, Without, RemoveBulkBuf;
    var p, buf := Resolve(c, h), Buffer(TypeOf(op.paramTypes, i), op.params[i]);
    Heard(c, h, bs, r, op, imps, i, a);
    var k := IndexOf(bs, AtVirtual(buf));
    if k < |bs| {
      RemovesMapping(c, h, bs, k, r, a);
      FewerAreNew(c, bs, k);
      RemovalKeeps(r, p.i, p.j, buf, a);
    } else {
      NotThere(c, h, bs, r, buf, a);
    }
  }

  lemma RemovalKeeps(r: Client, i: nat, j: nat, buf: nat, a: Answers)
    requires Invariant(r) && i < |r.devices| && j < |r.devices[i].sessions|
    ensures Invariant(RemoveBulkBuf(r, i, j, buf, a).1)
  {
    hide Invariant, RemoveBulkBuf;
    BufRemoved(r, i, j, buf, a);
  }

  lemma {:induction false} NotThere(c: Client, h: Handle, bs: seq<Bulk>, r: Client, buf: nat, a: Answers)
    requires Extended(c, h, bs, r) && Resolve(c, h).At?
    requires !IsMapped(SessionAt(c, Resolve(c, h)), buf) && IndexOf(bs, AtVirtual(buf)) == |bs|
    ensures var p := Resolve(c, h); Resolve(r, h) == p && RemoveBulkBuf(r, p.i, p.j, buf, a).1 == r
  {
    hide Invariant, WithMappings, Resolve;
    MappingsShape(c, h, bs);
    var p := Resolve(c, h);
    var front, bufs := SessionAt(c, p).bulkBufs, SessionAt(r, p).bulkBufs;
    forall k | 0 <= k < |bufs|
      ensures !AtVirtual(buf)(bufs[k])
    {
      assert if k < |front| then bufs[k] == front[k] else bufs[k] == bs[k - |front|];
    }
    IndexIs(bufs, AtVirtual(buf), |bufs|);
  }

  lemma RegisteredShrinks(r: Client, h: Handle, t: nat, p: Param, imp: Imp, a: Answers)
    requires Agrees(a)
    ensures UnwindParam(r, h, t, p, imp, a).registered <= r.registered
  {
    hide Resolve, GetBufHandle, IndexOf;
  }

  /** The rounds for the parameters that setup did not reach. */
  lemma {:induction false} UnwindRest(c: Client, h: Handle, op: Operation, imps: Imps, c1: Client, undo: FourAnswers,
                                      bs: seq<Bulk>, n: nat, m: nat)
    requires n <= m <= PARAMETERS && Extended(c, h, bs, UnwindAfter(c1, h, op, imps, undo, n))
    requires forall b | b in bs :: b.sVirtualAddr == 0
    requires forall i | 0 <= i < PARAMETERS :: Agrees(undo[i])
    ensures var r := UnwindAfter(c1, h, op, imps, undo, m);
            if Untouched(c, h, op, imps, n, m) then Extended(c, h, Remaining(c, h, bs, op, imps, n, m), r)
            else Lost(c, r)
  {
    hide Extended, UnwindParam, Hits, Speaks, Held, Agrees;
    if n < m {
      UnwindRest(c, h, op, imps, c1, undo, bs, n, m - 1);
      var r, i := UnwindAfter(c1, h, op, imps, undo, m - 1), m - 1;
      var left := Remaining(c, h, bs, op, imps, n, m - 1);
      RegisteredShrinks(r, h, TypeOf(op.paramTypes, i), op.params[i], imps[i], undo[i]);
      if Untouched(c, h, op, imps, n, m - 1) {
        SilentOrNot(c, h, left, r, op, imps, i, undo[i]);
      }
    }
  }

  lemma {:induction false} SilentOrNot(c: Client, h: Handle, bs: seq<Bulk>, r: Client, op: Operation, imps: Imps,
                                       i: nat, a: Answers)
    requires i < PARAMETERS && Extended(c, h, bs, r) && (forall b | b in bs :: b.sVirtualAddr == 0) && Agrees(a)
    ensures var t := TypeOf(op.paramTypes, i);
            var k := IndexOf(bs, AtVirtual(Buffer(t, op.params[i])));
            var r' := UnwindParam(r, h, t, op.params[i], imps[i], a);
            if Hits(c, h, op, imps, i) then Lost(c, r')
            else Extended(c, h, if Speaks(c, h, op, imps, i) && k < |bs| then Without(bs, k) else bs, r')
  {
    hide Extended, UnwindParam, Agrees, Speaks, Lost, IndexOf;
    if Hits(c, h, op, imps, i) {
      RoundLoses(c, h, bs, r, op, imps, i, a);
    } else if Speaks(c, h, op, imps, i) {
      RoundRemoves(c, h, bs, r, op, imps, i, a);
    } else {
      Unheard(c, h, bs, r, op, imps, i, a);
    }
  }

  // ------------------------------------------------------------------------------------------
  // Conservation
  // ------------------------------------------------------------------------------------------

  /** The trusted application leaves the map information as it was. */
  ghost predicate MapInfoKept(op: Operation, before: Tci, after: Tci) {
    forall i | 0 <= i < PARAMETERS && IsMemref(TypeOf(op.paramTypes, i)) ::
      after.params[i].w0 == before.params[i].w0 && after.params[i].w1 == before.params[i].w1
  }

  /** The daemon has given every mapping a secure address. */
  ghost predicate AllNamed(op: Operation, answers: FourAnswers, n: nat)
    requires n <= PARAMETERS
  {
    forall i | 0 <= i < n && MapsParam(op, i) :: Payload(answers[i]) != 0
  }

  ghost predicate MapsNothing(op: Operation) {
    forall i | 0 <= i < PARAMETERS :: !MapsParam(op, i)
  }

  lemma {:induction false} LiveEmpty(op: Operation, answers: FourAnswers, n: nat)
    requires n <= PARAMETERS
    ensures Live(op, answers, 0, n) == [] <==> forall i | 0 <= i < n :: !MapsParam(op, i)
  {
    if n > 0 {
      LiveEmpty(op, answers, n - 1);
    }
  }

  lemma {:induction false} ExtendedIsMore(c: Client, h: Handle, bs: seq<Bulk>, r: Client)
    requires Extended(c, h, bs, r)
    ensures r == c <==> bs == []
  {
    hide Invariant, Resolve;
    if bs != [] {
      MappingsShape(c, h, bs);
      assert bs[0] in bs && bs[0].handle in HandlesOf(bs);
    }
  }

  /**
   A successful setup, an answer that leaves the map information alone, and an unwind: the tables
   and the kernel's registrations are exactly what they were, provided the answer passes the
   sanity checks or there was nothing to map; otherwise everything mapped stays mapped.
   */
  lemma {:induction false} OperationConserves(c: Client, h: Handle, tci: Tci, op: Operation, answers: FourAnswers,
                                              cancelled: bool, undo0: FourAnswers, answered: Tci, copyValues: bool,
                                              undo: FourAnswers)
    requires Invariant(c) && Setup(c, h, tci, Some(op), answers, cancelled, undo0).0 == TEEC_SUCCESS
    requires MapInfoKept(op, Setup(c, h, tci, Some(op), answers, cancelled, undo0).1, answered)
    requires forall i | 0 <= i < PARAMETERS :: Agrees(undo[i])
    ensures var c1 := Setup(c, h, tci, Some(op), answers, cancelled, undo0).2;
            var (_, op', c2) := Unwind(c1, h, answered, Some(op), copyValues, undo);
            && (c2 == c <==> (Passes(answered) && AllNamed(op, answers, PARAMETERS)) || MapsNothing(op))
            && (Passes(answered) ==> c2 == WithMappings(c, h, Nameless(Live(op, answers, 0, PARAMETERS))))
            && (!Passes(answered) ==> c2 == c1 && op' == Some(op))
            && (c1 == c <==> MapsNothing(op))
  {
    hide Invariant, SetupAfter, UnwindAfter, Extended, MapsParam, MapInfoRight, Agrees, Passes, CopiedBack, TypeOf,
         Standing, Nameless,
         WithMappings, Live;
    var s := SetupAfter(c, h, op, tci.params, answers, PARAMETERS);
    var live := Live(op, answers, 0, PARAMETERS);
    NoStop(s.stop, cancelled);
    SetupExtends(c, h, op, tci.params, answers, PARAMETERS);
    ExtendedIsMore(c, h, live, s.client);
    LiveEmpty(op, answers, PARAMETERS);
    forall i | 0 <= i < PARAMETERS
      ensures MapInfoRight(op, answers, answered.params, i)
    {
      InfoKept(op, answers, s.imps, answered.params, i);
    }
    assert live + [] == live && Nameless(live) + [] == Nameless(live);
    var kept := Nameless(live);
    StandingEnds(op, answers, PARAMETERS, []);
    UnwindShrinks(c, h, op, answered.params, answers, s.client, undo, PARAMETERS, [], PARAMETERS);
    ExtendedIsMore(c, h, kept, UnwindAfter(s.client, h, op, answered.params, undo, PARAMETERS));
    NamelessLive(op, answers, PARAMETERS);
    ExtendedIs(c, h, kept, UnwindAfter(s.client, h, op, answered.params, undo, PARAMETERS));
  }

  lemma InfoKept(op: Operation, answers: FourAnswers, before: Imps, after: Imps, i: nat)
    requires i < PARAMETERS && MapInfoRight(op, answers, before, i)
    requires IsMemref(TypeOf(op.paramTypes, i)) ==> after[i].w0 == before[i].w0 && after[i].w1 == before[i].w1
    ensures MapInfoRight(op, answers, after, i)
  {}

  lemma ExtendedIs(c: Client, h: Handle, bs: seq<Bulk>, r: Client)
    requires Extended(c, h, bs, r)
    ensures r == WithMappings(c, h, bs)
  {
    hide Invariant, WithMappings;
  }

  lemma StandingEnds(op: Operation, answers: FourAnswers, reached: nat, tail: seq<Bulk>)
    requires reached <= PARAMETERS
    ensures Standing(op, answers, 0, reached, tail) == Live(op, answers, 0, reached) + tail
    ensures Standing(op, answers, reached, reached, tail) == Nameless(Live(op, answers, 0, reached)) + tail
  {
    hide Nameless;
    assert Live(op, answers, 0, 0) == [] && Live(op, answers, reached, reached) == [];
    assert Nameless([]) == [] && [] + tail == tail;
    assert [] + (Live(op, answers, 0, reached) + tail) == Live(op, answers, 0, reached) + tail;
  }

  lemma {:induction false} NamelessLive(op: Operation, answers: FourAnswers, n: nat)
    requires n <= PARAMETERS
    ensures NoneNameless(Live(op, answers, 0, n)) <==> AllNamed(op, answers, n)
  {
    hide MapsParam, Live, NoneNameless, AllNamed, BulkOf, Payload;
    if n == 0 {
      NoneYet(op, answers);
    } else {
      NamelessLive(op, answers, n - 1);
      LiveStep(op, answers, n);
      NamedStep(op, answers, n);
      NoneNamelessSnoc(Live(op, answers, 0, n - 1), BulkOf(op, answers, n - 1));
    }
  }

  lemma NoneYet(op: Operation, answers: FourAnswers)
    ensures NoneNameless(Live(op, answers, 0, 0)) && AllNamed(op, answers, 0)
  {
    assert Live(op, answers, 0, 0) == [];
    hide Live, MapsParam;
  }

  predicate NoneNameless(bs: seq<Bulk>) {
    Nameless(bs) == []
  }

  lemma NoneNamelessSnoc(bs: seq<Bulk>, b: Bulk)
    ensures NoneNameless(bs + [b]) <==> NoneNameless(bs) && b.sVirtualAddr != 0
  {
    NamelessSnoc(bs, b);
    hide Nameless;
  }

  lemma LiveStep(op: Operation, answers: FourAnswers, n: nat)
    requires 0 < n <= PARAMETERS
    ensures var front := Live(op, answers, 0, n - 1);
            Live(op, answers, 0, n) == if MapsParam(op, n - 1) then front + [BulkOf(op, answers, n - 1)] else front
    ensures BulkOf(op, answers, n - 1).sVirtualAddr == Payload(answers[n - 1])
  {
    hide MapsParam, Payload;
  }

  lemma NamedStep(op: Operation, answers: FourAnswers, n: nat)
    requires 0 < n <= PARAMETERS
    ensures AllNamed(op, answers, n) <==>
                AllNamed(op, answers, n - 1) && (MapsParam(op, n - 1) ==> Payload(answers[n - 1]) != 0)
  {
    hide MapsParam, Payload;
  }

  lemma NoStop(stop: Option<Stop>, cancelled: bool)
    ensures SetupError(stop, cancelled) == TEEC_SUCCESS <==> stop.None? && !cancelled
  {
    match stop
    case Some(BadParameter) =>
    case Some(MapFailed) =>
    case None =>
  }

  // ------------------------------------------------------------------------------------------
  // Setups that fail
  // ------------------------------------------------------------------------------------------

  /** Setup has got through `n` parameters, and then stops, or finds itself cancelled after the last. */
  ghost predicate FailsAfter(c: Client, h: Handle, tci: Tci, op: Operation, answers: FourAnswers, cancelled: bool,
                             n: nat)
    requires n <= PARAMETERS
  {
    && SetupAfter(c, h, op, tci.params, answers, n).stop.None?
    && (if n == PARAMETERS then cancelled else SetupAfter(c, h, op, tci.params, answers, n + 1).stop.Some?)
  }

  /** Every failing setup fails after some number of parameters. */
  lemma {:induction false} FailsSomewhere(c: Client, h: Handle, tci: Tci, op: Operation, answers: FourAnswers,
                                          cancelled: bool, undo: FourAnswers)
    ensures Setup(c, h, tci, Some(op), answers, cancelled, undo).0 != TEEC_SUCCESS
            <==> exists n | 0 <= n <= PARAMETERS :: FailsAfter(c, h, tci, op, answers, cancelled, n)
  {
    hide SetupParam, UnwindAfter;
    NoStop(SetupAfter(c, h, op, tci.params, answers, PARAMETERS).stop, cancelled);
    forall n | 0 <= n < PARAMETERS && FailsAfter(c, h, tci, op, answers, cancelled, n)
      ensures SetupAfter(c, h, op, tci.params, answers, PARAMETERS).stop.Some?
    {
      StopStays(c, h, op, tci.params, answers, n + 1, PARAMETERS);
    }
    if SetupAfter(c, h, op, tci.params, answers, PARAMETERS).stop.Some? {
      var n := FirstStop(c, h, op, tci.params, answers, PARAMETERS);
      assert FailsAfter(c, h, tci, op, answers, cancelled, n);
    } else if cancelled {
      assert FailsAfter(c, h, tci, op, answers, cancelled, PARAMETERS);
    }
  }

  lemma {:induction false} FirstStop(c: Client, h: Handle, op: Operation, imps: Imps, answers: FourAnswers, m: nat)
    returns (n: nat)
    requires m <= PARAMETERS && SetupAfter(c, h, op, imps, answers, m).stop.Some?
    ensures n < m && SetupAfter(c, h, op, imps, answers, n).stop.None?
    ensures SetupAfter(c, h, op, imps, answers, n + 1).stop.Some?
  {
    hide SetupParam;
    if SetupAfter(c, h, op, imps, answers, m - 1).stop.None? {
      n := m - 1;
    } else {
      n := FirstStop(c, h, op, imps, answers, m - 1);
    }
  }

  /**
   What a mcMap that fails leaves behind: nothing, a descriptor without secure address, or a
   registration in no descriptor.
   */
  datatype Leftover = Nothing | Descriptor(b: Bulk) | Registration(handle: nat)

  function LeftBy(r: Client, h: Handle, buf: nat, len: nat, a: Answers): Leftover {
    var p := Resolve(r, h);
    if buf == 0 || p.Nowhere? || IsMapped(SessionAt(r, p), buf) || !Registers(r, a) then Nothing
    else if a.reply == Said(OK) || a.reply.Broken? then Descriptor(Bulk(buf, 0, len, a.handle))
    else if a.handle in a.refused then Registration(a.handle)
    else Nothing
  }

  /** The tables a failed setup starts its unwinding over, and the descriptor it adds, if any. */
  function Base(c: Client, left: Leftover): Client {
    if left.Registration? then c.(registered := c.registered + {left.handle}) else c
  }

  function Added(left: Leftover): seq<Bulk> {
    if left.Descriptor? then [left.b] else []
  }

  function StopAt(c: Client, h: Handle, tci: Tci, op: Operation, answers: FourAnswers, n: nat): Option<Stop>
    requires n <= PARAMETERS
  {
    if n == PARAMETERS then None else SetupAfter(c, h, op, tci.params, answers, n + 1).stop
  }

  /** What the parameter that setup stops at leaves behind. */
  function LeftAt(c: Client, h: Handle, tci: Tci, op: Operation, answers: FourAnswers, n: nat): Leftover
    requires n <= PARAMETERS
  {
    if StopAt(c, h, tci, op, answers, n) == Some(MapFailed) then
      var t, p := TypeOf(op.paramTypes, n), op.params[n];
      LeftBy(SetupAfter(c, h, op, tci.params, answers, n).client, h, Buffer(t, p), Extent(t, p), answers[n])
    else Nothing
  }

  /** What an earlier operation has left in the TCI, but for the length that a failed map has cleared. */
  function Stale(c: Client, h: Handle, tci: Tci, op: Operation, answers: FourAnswers, n: nat): Imps
    requires n <= PARAMETERS
  {
    if StopAt(c, h, tci, op, answers, n) == Some(MapFailed) then tci.params[n := tci.params[n].(w1 := 0)]
    else tci.params
  }

  /** A failed mcMap changes the tables as LeftBy says. */
  lemma {:induction false} FailedMap(r: Client, h: Handle, buf: nat, len: nat, a: Answers)
    requires Map(r, Some(h), buf, len, true, a).0 != OK
    ensures var left, r', p := LeftBy(r, h, buf, len, a), Map(r, Some(h), buf, len, true, a).2, Resolve(r, h);
            match left
            case Nothing => r' == r
            case Descriptor(b) => p.At? && r' == AddBulkBuf(r, p.i, p.j, b)
            case Registration(g) => r' == r.(registered := r.registered + {g}) && g !in r.registered && g != 0
  {
    hide Resolve, IsMapped, KernelCode, AddBulkBuf, RemoveBulkBuf;
    var p := Resolve(r, h);
    if a.reply.Said? && a.reply.code != OK && p.At? && !IsMapped(SessionAt(r, p), buf) && Registers(r, a) {
      AddThenRemove(r, p.i, p.j, Bulk(buf, 0, len, a.handle), a);
    }
  }

  lemma NewIsNew(r: Client, h: Handle, buf: nat, len: nat, a: Answers)
    ensures LeftBy(r, h, buf, len, a).Descriptor? ==> LeftBy(r, h, buf, len, a).b.handle !in r.registered
    ensures forall b | b in Added(LeftBy(r, h, buf, len, a)) :: b.sVirtualAddr == 0
  {
    hide Resolve, IsMapped;
  }

  /** The tables when setup stops: the mappings made, and what the failed one has left. */
  lemma {:induction false} StoppedState(c: Client, h: Handle, bs: seq<Bulk>, r: Client, buf: nat, len: nat, a: Answers)
    requires Extended(c, h, bs, r) && Invariant(c) && Map(r, Some(h), buf, len, true, a).0 != OK
    ensures var left := LeftBy(r, h, buf, len, a);
            && Extended(Base(c, left), h, bs + Added(left), Map(r, Some(h), buf, len, true, a).2)
            && Invariant(Base(c, left)) && (left.Registration? ==> left.handle !in c.registered)
  {
    hide Invariant, WithMappings, Map, LeftBy, AddBulkBuf, Resolve;
    var left, r' := LeftBy(r, h, buf, len, a), Map(r, Some(h), buf, len, true, a).2;
    FailedMap(r, h, buf, len, a);
    NewIsNew(r, h, buf, len, a);
    MapKeeps(r, h, buf, len, a);
    PlaceBefore(c, h, bs);
    OldStays(c, h, bs);
    assert bs + [] == bs;
    match left
    case Nothing =>
    case Descriptor(b) =>
      MappingsShape(c, h, bs);
      AddedToMappings(c, h, bs, b);
    case Registration(g) =>
      BaseExtended(c, h, bs, r, g);
  }

  lemma OldStays(c: Client, h: Handle, bs: seq<Bulk>)
    ensures c.registered <= WithMappings(c, h, bs).registered
  {
    hide Resolve;
  }

  lemma {:induction false} BaseExtended(c: Client, h: Handle, bs: seq<Bulk>, r: Client, g: nat)
    requires Extended(c, h, bs, r) && Invariant(c) && g !in r.registered && g != 0
    ensures var base, r' := c.(registered := c.registered + {g}), r.(registered := r.registered + {g});
            && r' == WithMappings(base, h, bs) && NewHandles(base, bs) && Invariant(base)
            && Resolve(base, h) == Resolve(c, h)
  {
    var base := c.(registered := c.registered + {g});
    SameDevices(base, c, h);
    hide Invariant, Resolve;
    assert forall b | b in bs :: b.handle in HandlesOf(bs);
    OldStays(c, h, bs);
    BaseInvariant(c, g);
    if bs != [] {
      assert c.registered + HandlesOf(bs) + {g} == c.registered + {g} + HandlesOf(bs);
    }
  }

  lemma BaseInvariant(c: Client, g: nat)
    requires Invariant(c) && g != 0
    ensures Invariant(c.(registered := c.registered + {g}))
  {
    hide Sum;
    HeldSameDevices(c, c.(registered := c.registered + {g}));
    hide Held;
    assert forall x :: multiset(c.registered)[x] <= multiset(c.registered + {g})[x];
  }

  /** Where a failing setup stands before it unwinds. */
  lemma {:induction false} FailedState(c: Client, h: Handle, tci: Tci, op: Operation, answers: FourAnswers,
                                       cancelled: bool, n: nat)
    requires n <= PARAMETERS && Invariant(c) && FailsAfter(c, h, tci, op, answers, cancelled, n)
    ensures var s, left := SetupAfter(c, h, op, tci.params, answers, PARAMETERS), LeftAt(c, h, tci, op, answers, n);
            && SetupError(s.stop, cancelled) != TEEC_SUCCESS
            && Extended(Base(c, left), h, Live(op, answers, 0, n) + Added(left), s.client)
            && Invariant(Base(c, left)) && (left.Registration? ==> left.handle !in c.registered)
            && (forall b | b in Added(left) :: b.sVirtualAddr == 0)
            && (forall i | 0 <= i < n :: MapInfoRight(op, answers, s.imps, i))
            && (forall i | n <= i < PARAMETERS :: s.imps[i] == Stale(c, h, tci, op, answers, n)[i])
  {
    hide Invariant, Map, WithMappings, Extended, MapInfoRight, LeftBy, Live, Rejected, TypeOf, Buffer, Extent;
    SetupExtends(c, h, op, tci.params, answers, n);
    Unreached(c, h, op, tci.params, answers, n);
    var live, s := Live(op, answers, 0, n), SetupAfter(c, h, op, tci.params, answers, n);
    assert live + [] == live;
    NoStop(SetupAfter(c, h, op, tci.params, answers, PARAMETERS).stop, cancelled);
    if n < PARAMETERS {
      StopStays(c, h, op, tci.params, answers, n + 1, PARAMETERS);
      var t, p := TypeOf(op.paramTypes, n), op.params[n];
      if StopAt(c, h, tci, op, answers, n) == Some(MapFailed) {
        MapStops(s.client, h, t, p, s.imps[n], answers[n]);
        StoppedState(c, h, live, s.client, Buffer(t, p), Extent(t, p), answers[n]);
        NewIsNew(s.client, h, Buffer(t, p), Extent(t, p), answers[n]);
      } else {
        BadStops(s.client, h, t, p, s.imps[n], answers[n]);
      }
      forall i | 0 <= i < n
        ensures MapInfoRight(op, answers, SetupAfter(c, h, op, tci.params, answers, PARAMETERS).imps, i)
      {
        assert MapInfoRight(op, answers, s.imps, i);
        InfoKept(op, answers, s.imps, SetupAfter(c, h, op, tci.params, answers, PARAMETERS).imps, i);
      }
    }
  }

  lemma MapStops(c: Client, h: Handle, t: nat, p: Param, imp: Imp, a: Answers)
    requires SetupParam(c, h, t, p, imp, a).0 == Some(MapFailed)
    ensures Map(c, Some(h), Buffer(t, p), Extent(t, p), true, a).0 != OK
    ensures SetupParam(c, h, t, p, imp, a).1 == imp.(w1 := 0)
    ensures SetupParam(c, h, t, p, imp, a).2 == Map(c, Some(h), Buffer(t, p), Extent(t, p), true, a).2
  {
    if Map(c, Some(h), Buffer(t, p), Extent(t, p), true, a).0 == OK {
      MapLeaves(c, h, Buffer(t, p), Extent(t, p), a);
    }
    hide Map;
  }

  lemma BadStops(c: Client, h: Handle, t: nat, p: Param, imp: Imp, a: Answers)
    requires SetupParam(c, h, t, p, imp, a).0.Some? && SetupParam(c, h, t, p, imp, a).0 != Some(MapFailed)
    ensures SetupParam(c, h, t, p, imp, a) == (Some(BadParameter), imp, c)
  {
    hide Map;
  }

  lemma {:induction false} Unreached(c: Client, h: Handle, op: Operation, imps: Imps, answers: FourAnswers, n: nat)
    requires n <= PARAMETERS
    ensures forall i | n <= i < PARAMETERS :: SetupAfter(c, h, op, imps, answers, n).imps[i] == imps[i]
  {
    hide SetupParam;
    if n > 0 {
      Unreached(c, h, op, imps, answers, n - 1);
    }
  }

  /** Some round from `n` on that speaks names the buffer of every one of these. */
  ghost predicate AllFreed(c: Client, h: Handle, bs: seq<Bulk>, op: Operation, imps: Imps, n: nat, m: nat)
    requires m <= PARAMETERS
  {
    forall b | b in bs :: Freed(c, h, b, op, imps, n, m)
  }

  ghost predicate Freed(c: Client, h: Handle, b: Bulk, op: Operation, imps: Imps, n: nat, m: nat)
    requires m <= PARAMETERS
  {
    exists i | n <= i < m :: Speaks(c, h, op, imps, i) && Buffer(TypeOf(op.paramTypes, i), op.params[i]) == b.virtAddr
  }

  /**
   A setup that fails, for whatever reason, looks at what an earlier operation has left in the
   TCI.  If that does not pass the checks, everything mapped stays mapped, with what a failed
   mcMap has left.  If it passes, the mappings made are undone; but the parameters not reached
   still carry map information of that operation, and any of it that names a mapping the session
   had takes away what is at the parameter's buffer.
   */
  lemma {:induction false} FailedSetupExactly(c: Client, h: Handle, tci: Tci, op: Operation, answers: FourAnswers,
                                              cancelled: bool, undo: FourAnswers, n: nat)
    requires n <= PARAMETERS && Invariant(c) && FailsAfter(c, h, tci, op, answers, cancelled, n)
    requires forall i | 0 <= i < PARAMETERS :: Agrees(undo[i])
    ensures var (code, _, r) := Setup(c, h, tci, Some(op), answers, cancelled, undo);
            var left, stale := LeftAt(c, h, tci, op, answers, n), Stale(c, h, tci, op, answers, n);
            var mapped := Live(op, answers, 0, n);
            var nameless := Nameless(mapped) + Added(left);
            && code != TEEC_SUCCESS
            && (!Passes(tci) ==> r == WithMappings(Base(c, left), h, mapped + Added(left)))
            && (Passes(tci) && Untouched(c, h, op, stale, n, PARAMETERS) ==>
                  r == WithMappings(Base(c, left), h, Remaining(c, h, nameless, op, stale, n, PARAMETERS)))
            && (r == c <==>
                  if Passes(tci) then
                    && !left.Registration? && Untouched(c, h, op, stale, n, PARAMETERS)
                    && AllFreed(c, h, nameless, op, stale, n, PARAMETERS)
                  else mapped == [] && left.Nothing?)
  {
    hide Invariant, SetupAfter, UnwindAfter, Extended, Agrees, FailsAfter, LeftAt, Stale, WithMappings, Live, Nameless,
         Hits, Speaks,
         AllFreed, MapInfoRight, Standing;
    var left, stale := LeftAt(c, h, tci, op, answers, n), Stale(c, h, tci, op, answers, n);
    var mapped := Live(op, answers, 0, n);
    var base, nameless := Base(c, left), Nameless(mapped) + Added(left);
    var s := SetupAfter(c, h, op, tci.params, answers, PARAMETERS);
    FailedState(c, h, tci, op, answers, cancelled, n);
    ExtendedIs(base, h, mapped + Added(left), s.client);
    ExtendedDiffers(c, left, h, mapped + Added(left), s.client);
    if Passes(tci) {
      StandingEnds(op, answers, n, Added(left));
      UnwindShrinks(base, h, op, s.imps, answers, s.client, undo, n, Added(left), n);
      UnwindRest(base, h, op, s.imps, s.client, undo, nameless, n, PARAMETERS);
      var r := UnwindAfter(s.client, h, op, s.imps, undo, PARAMETERS);
      SameSpeech(c, left, h, op, s.imps, stale, nameless, n);
      FreedExactly(base, h, op, s.imps, UnwindAfter(s.client, h, op, s.imps, undo, n), nameless, n, PARAMETERS);
      SameFreed(c, left, h, op, s.imps, stale, nameless, n);
      if Untouched(base, h, op, s.imps, n, PARAMETERS) {
        ExtendedIs(base, h, Remaining(base, h, nameless, op, s.imps, n, PARAMETERS), r);
        ExtendedDiffers(c, left, h, Remaining(base, h, nameless, op, s.imps, n, PARAMETERS), r);
      } else {
        LostDiffers(c, left, r);
      }
    }
  }

  lemma {:induction false} ExtendedDiffers(c: Client, left: Leftover, h: Handle, bs: seq<Bulk>, r: Client)
    requires Extended(Base(c, left), h, bs, r) && (left.Registration? ==> left.handle !in c.registered)
    ensures r == c <==> !left.Registration? && bs == []
  {
    hide Invariant, Resolve;
    if left.Registration? {
      OldStays(Base(c, left), h, bs);
      assert left.handle in Base(c, left).registered;
    } else {
      ExtendedIsMore(c, h, bs, r);
    }
  }

  lemma {:induction false} LostDiffers(c: Client, left: Leftover, r: Client)
    requires Lost(Base(c, left), r) && Invariant(c)
    ensures r != c
  {
    HeldSameDevices(Base(c, left), c);
    HeldIsRegistered(c);
    hide Held, Invariant;
  }

  /** A registration in no descriptor changes nothing that rounds look at. */
  lemma {:induction false} SameSpeech(c: Client, left: Leftover, h: Handle, op: Operation, imps: Imps, stale: Imps,
                                      bs: seq<Bulk>, n: nat)
    requires forall i | n <= i < PARAMETERS :: imps[i] == stale[i]
    ensures Untouched(Base(c, left), h, op, imps, n, PARAMETERS) == Untouched(c, h, op, stale, n, PARAMETERS)
    ensures Remaining(Base(c, left), h, bs, op, imps, n, PARAMETERS) == Remaining(c, h, bs, op, stale, n, PARAMETERS)
  {
    SameDevices(Base(c, left), c, h);
    forall i | n <= i < PARAMETERS
      ensures Hits(Base(c, left), h, op, imps, i) == Hits(c, h, op, stale, i)
      ensures Speaks(Base(c, left), h, op, imps, i) == Speaks(c, h, op, stale, i)
    {
      hide Resolve, TypeOf, Buffer;
    }
    SameRemaining(Base(c, left), c, h, op, imps, stale, bs, n, PARAMETERS);
  }

  lemma {:induction false} SameRemaining(c: Client, c': Client, h: Handle, op: Operation, imps: Imps, imps': Imps,
                                         bs: seq<Bulk>, n: nat, m: nat)
    requires m <= PARAMETERS
    requires forall i | n <= i < PARAMETERS :: Speaks(c, h, op, imps, i) == Speaks(c', h, op, imps', i)
    ensures Remaining(c, h, bs, op, imps, n, m) == Remaining(c', h, bs, op, imps', n, m)
  {
    hide Speaks, Without, IndexOf, TypeOf, Buffer;
    if n < m {
      SameRemaining(c, c', h, op, imps, imps', bs, n, m - 1);
    }
  }

  lemma {:induction false} SameFreed(c: Client, left: Leftover, h: Handle, op: Operation, imps: Imps, stale: Imps,
                                     bs: seq<Bulk>, n: nat)
    requires forall i | n <= i < PARAMETERS :: imps[i] == stale[i]
    ensures AllFreed(Base(c, left), h, bs, op, imps, n, PARAMETERS) == AllFreed(c, h, bs, op, stale, n, PARAMETERS)
  {
    SameDevices(Base(c, left), c, h);
    forall i | n <= i < PARAMETERS
      ensures Speaks(Base(c, left), h, op, imps, i) == Speaks(c, h, op, stale, i)
    {
      hide Resolve, TypeOf, Buffer;
    }
    hide Speaks;
  }

  /** What remains is what no round that speaks names. */
  lemma {:induction false} FreedExactly(c: Client, h: Handle, op: Operation, imps: Imps, r: Client, bs: seq<Bulk>,
                                        n: nat, m: nat)
    requires m <= PARAMETERS && Extended(c, h, bs, r)
    ensures Remaining(c, h, bs, op, imps, n, m) == [] <==> AllFreed(c, h, bs, op, imps, n, m)
  {
    AddedOnce(c, h, bs, r);
    hide OnceEach, Freed, Remaining;
    var left := Remaining(c, h, bs, op, imps, n, m);
    forall b | b in bs
      ensures b in left <==> !Freed(c, h, b, op, imps, n, m)
    {
      RemainsExactly(c, h, op, imps, bs, n, m, b);
    }
    if left != [] {
      assert left[0] in left;
    }
  }

  ghost predicate OnceEach(bs: seq<Bulk>) {
    forall i, j | 0 <= i < j < |bs| :: bs[i].virtAddr != bs[j].virtAddr
  }

  lemma {:induction false} AddedOnce(c: Client, h: Handle, bs: seq<Bulk>, r: Client)
    requires Extended(c, h, bs, r)
    ensures OnceEach(bs)
  {
    hide Invariant, WithMappings, Resolve;
    if bs != [] {
      MappingsShape(c, h, bs);
      var p := Resolve(c, h);
      var front := SessionAt(c, p).bulkBufs;
      forall i, j | 0 <= i < j < |bs|
        ensures bs[i].virtAddr != bs[j].virtAddr
      {
        BufferOnce(r, p.i, p.j, |front| + i, |front| + j);
      }
    }
  }

  lemma {:induction false} RemainOnce(c: Client, h: Handle, op: Operation, imps: Imps, bs: seq<Bulk>, n: nat, m: nat)
    requires m <= PARAMETERS && OnceEach(bs)
    ensures OnceEach(Remaining(c, h, bs, op, imps, n, m))
  {
    hide OnceEach, Remaining;
    if n < m {
      RemainOnce(c, h, op, imps, bs, n, m - 1);
      RemainsAfter(c, h, op, imps, bs, n, m, Bulk(0, 0, 0, 0));
    } else {
      AllRemain(c, h, op, imps, bs, n, m);
    }
  }

  lemma AllRemain(c: Client, h: Handle, op: Operation, imps: Imps, bs: seq<Bulk>, n: nat, m: nat)
    requires m <= n && m <= PARAMETERS
    ensures Remaining(c, h, bs, op, imps, n, m) == bs
    ensures forall b :: !Freed(c, h, b, op, imps, n, m)
  {}

  lemma {:induction false} RemainsExactly(c: Client, h: Handle, op: Operation, imps: Imps, bs: seq<Bulk>, n: nat,
                                          m: nat, b: Bulk)
    requires m <= PARAMETERS && OnceEach(bs) && b in bs
    ensures b in Remaining(c, h, bs, op, imps, n, m) <==> !Freed(c, h, b, op, imps, n, m)
  {
    hide OnceEach, Freed, Remaining, Speaks, TypeOf, Buffer;
    if n < m {
      RemainsExactly(c, h, op, imps, bs, n, m - 1, b);
      RemainOnce(c, h, op, imps, bs, n, m - 1);
      RemainsAfter(c, h, op, imps, bs, n, m, b);
      FreedAfter(c, h, b, op, imps, n, m);
    } else {
      AllRemain(c, h, op, imps, bs, n, m);
    }
  }

  lemma FreedAfter(c: Client, h: Handle, b: Bulk, op: Operation, imps: Imps, n: nat, m: nat)
    requires n < m <= PARAMETERS
    ensures Freed(c, h, b, op, imps, n, m) <==>
              || Freed(c, h, b, op, imps, n, m - 1)
              || (Speaks(c, h, op, imps, m - 1) && Buffer(TypeOf(op.paramTypes, m - 1), op.params[m - 1]) == b.virtAddr)
  {
    hide Speaks, TypeOf, Buffer;
  }

  lemma RemainsAfter(c: Client, h: Handle, op: Operation, imps: Imps, bs: seq<Bulk>, n: nat, m: nat, b: Bulk)
    requires n < m <= PARAMETERS && OnceEach(Remaining(c, h, bs, op, imps, n, m - 1))
    ensures OnceEach(Remaining(c, h, bs, op, imps, n, m))
    ensures b in Remaining(c, h, bs, op, imps, n, m) <==>
              && b in Remaining(c, h, bs, op, imps, n, m - 1)
              && !(&& Speaks(c, h, op, imps, m - 1)
                   && Buffer(TypeOf(op.paramTypes, m - 1), op.params[m - 1]) == b.virtAddr)
  {
    hide Speaks, TypeOf, Buffer, Without, OnceEach;
    var before := Remaining(c, h, bs, op, imps, n, m - 1);
    var k := IndexOf(before, AtVirtual(Buffer(TypeOf(op.paramTypes, m - 1), op.params[m - 1])));
    if k < |before| {
      TakeAway(before, k);
    } else {
      NotAt(before, Buffer(TypeOf(op.paramTypes, m - 1), op.params[m - 1]));
    }
  }

  lemma NotAt(bs: seq<Bulk>, buf: nat)
    requires IndexOf(bs, AtVirtual(buf)) == |bs|
    ensures forall b | b in bs :: b.virtAddr != buf
  {
    hide IndexOf;
    forall i | 0 <= i < |bs|
      ensures bs[i].virtAddr != buf
    {
      assert !AtVirtual(buf)(bs[i]);
    }
  }

  /** Where no two lie at one buffer, taking away one takes away what lies at its buffer. */
  lemma TakeAway(bs: seq<Bulk>, k: nat)
    requires OnceEach(bs) && k < |bs|
    ensures OnceEach(Without(bs, k))
    ensures forall b :: b in Without(bs, k) <==> b in bs && b.virtAddr != bs[k].virtAddr
  {
    var r := Without(bs, k);
    forall j | 0 <= j < |r|
      ensures r[j] in bs && r[j].virtAddr != bs[k].virtAddr
    {
    }
    forall i | 0 <= i < |bs| && bs[i].virtAddr != bs[k].virtAddr
      ensures bs[i] in r
    {
      assert r[if i < k then i else i - 1] == bs[i];
    }
  }

  /** On the zeroed TCI of a new session nothing passes: whatever a failed setup had mapped stays mapped. */
  lemma {:induction false} FailedSetupOnNewTci(c: Client, h: Handle, tci: Tci, op: Operation, answers: FourAnswers,
                                               cancelled: bool, undo: FourAnswers, n: nat)
    requires n <= PARAMETERS && Invariant(c) && tci.returnOrigin == 0
    requires FailsAfter(c, h, tci, op, answers, cancelled, n)
    ensures var (code, _, r) := Setup(c, h, tci, Some(op), answers, cancelled, undo);
            var left, mapped := LeftAt(c, h, tci, op, answers, n), Live(op, answers, 0, n);
            && code != TEEC_SUCCESS && r == WithMappings(Base(c, left), h, mapped + Added(left))
            && (r == c <==> mapped == [] && left.Nothing?)
  {
    hide Invariant, SetupAfter, WithMappings, MapInfoRight, Live, FailsAfter, Extended, LeftAt, Stale;
    var left, mapped := LeftAt(c, h, tci, op, answers, n), Live(op, answers, 0, n);
    FailedState(c, h, tci, op, answers, cancelled, n);
    var s := SetupAfter(c, h, op, tci.params, answers, PARAMETERS);
    ExtendedIs(Base(c, left), h, mapped + Added(left), s.client);
    ExtendedDiffers(c, left, h, mapped + Added(left), s.client);
  }

  lemma {:induction false} StopStays(c: Client, h: Handle, op: Operation, imps: Imps, answers: FourAnswers, n: nat,
                                     m: nat)
    requires n <= m <= PARAMETERS && SetupAfter(c, h, op, imps, answers, n).stop.Some?
    ensures SetupAfter(c, h, op, imps, answers, m) == SetupAfter(c, h, op, imps, answers, n)
  {
    hide SetupParam;
    if n < m {
      StopStays(c, h, op, imps, answers, n, m - 1);
    }
  }

  predicate IsOutput(t: nat) {
    || t == VALUE_OUTPUT || t == VALUE_INOUT || t == TEMP_OUTPUT || t == TEMP_INOUT
    || t == WHOLE || t == PARTIAL_OUTPUT || t == PARTIAL_INOUT
  }

  /**
   Only outputs of an accepted answer are copied back: a value wholly, of a reference the size
   alone, so that the address unmapped is the one that was mapped.
   */
  lemma {:induction false} CopiesExactly(c: Client, h: Handle, tci: Tci, op: Operation, copyValues: bool,
                                         undo: FourAnswers, i: nat)
    requires i < PARAMETERS
    ensures var op' := Unwind(c, h, tci, Some(op), copyValues, undo).1;
            op'.Some? &&
            var t, p, p', imp := TypeOf(op.paramTypes, i), op.params[i], op'.value.params[i], tci.params[i];
            && op'.value.paramTypes == op.paramTypes
            && (p' != p ==> copyValues && Passes(tci) && IsOutput(t))
            && p'.third == p.third && p'.parent == p.parent && Buffer(t, p') == Buffer(t, p)
            && (copyValues && Passes(tci) && IsOutput(t) ==>
                  if IsMemref(t) then p'.second == imp.w2 && p'.first == p.first
                  else p'.first == imp.w0 && p'.second == imp.w1)
  {
    hide UnwindAfter, TypeOf;
    assert i == 0 || i == 1 || i == 2 || i == 3;
  }
}
