/**
 _TEEC_SetupOperation and _TEEC_UnwindOperation as they run: loops over the parameter arrays of
 the operation and of the TCI buffer, calling the client library, proved against GpOperation.
 */
module GpClient {
  import opened Wrappers
  import opened ClientTables
  import opened ClientLib
  import opened G = GpOperation

  class OperationObject {
    var started: nat
    var paramTypes: nat
    const params: array<Param>

    constructor (paramTypes: nat, params: array<Param>)
      requires params.Length == PARAMETERS
      ensures this.params == params && View() == Operation(paramTypes, params[..])
    {
      this.started, this.paramTypes, this.params := 0, paramTypes, params;
    }

    ghost function View(): Operation
      reads this, params
      requires params.Length == PARAMETERS
    {
      Operation(paramTypes, params[..])
    }
  }

  class TciBuffer {
    var paramTypes: nat
    const params: array<Imp>
    var returnOrigin: nat
    var returnStatus: nat
    var ready: bool

    constructor (params: array<Imp>)
      requires params.Length == PARAMETERS && params[..] == ZERO_IMPS
      ensures this.params == params && View() == G.Tci(0, ZERO_IMPS, 0, 0, false)
    {
      this.params, paramTypes, returnOrigin, returnStatus, ready := params, 0, 0, 0, false;
    }

    ghost function View(): G.Tci
      reads this, params
      requires params.Length == PARAMETERS
    {
      G.Tci(paramTypes, params[..], returnOrigin, returnStatus, ready)
    }
  }

  /** What one round of the loop in setup makes of a parameter. */
  method FillParam(lib: Library, handle: Handle, t: nat, ext: Param, imp: Imp, a: Answers)
    returns (stop: Option<Stop>, filled: Imp)
    requires lib.Valid() && t < 16
    modifies SessionsOf(lib.devices), lib.kernel
    ensures lib.Valid() && SessionsOf(lib.devices) == old(SessionsOf(lib.devices))
    ensures var (s, f, c) := SetupParam(old(lib.View()), handle, t, ext, imp, a);
            stop == s && filled == f && lib.View() == c
  {
    hide Map;
    if t == VALUE_OUTPUT || t == 0 {
      return None, imp;
    }
    if t == VALUE_INPUT || t == VALUE_INOUT {
      return None, Imp(ext.first, ext.second, imp.w2);
    }
    if Rejected(t, ext) {
      return Some(BadParameter), imp;
    }
    filled := imp.(w1 := 0);
    if Extent(t, ext) == 0 {
      return None, filled;
    }
    var mcRet, info := lib.McMap(Some(handle), Buffer(t, ext), Extent(t, ext), true, a);
    if mcRet != OK || info.None? {
      return Some(MapFailed), filled;
    }
    return None, Imp(info.value.sVirtualAddr, info.value.sVirtualLen, imp.w2);
  }

  /** One round of the loop in setup. */
  method SetupOne(lib: Library, handle: Handle, t: nat, ext: Param, params: array<Imp>, i: nat, a: Answers)
    returns (stop: Option<Stop>)
    requires lib.Valid() && t < 16 && i < params.Length
    modifies params, SessionsOf(lib.devices), lib.kernel
    ensures lib.Valid() && SessionsOf(lib.devices) == old(SessionsOf(lib.devices))
    ensures var (s, f, c) := SetupParam(old(lib.View()), handle, t, ext, old(params[i]), a);
            stop == s && params[..] == old(params[..])[i := f] && lib.View() == c
  {
    hide SetupParam, SessionsOf, DeviceViews, SessionViews, Apart;
    var imp;
    stop, imp := FillParam(lib, handle, t, ext, params[i], a);
    ghost var c := lib.View();
    params[i] := imp;
    assert lib.View() == c;
  }

  lemma NothingSetUp(c: Client, h: Handle, op: Operation, imps: Imps, answers: FourAnswers)
    ensures SetupAfter(c, h, op, imps, answers, 0) == SetupState(None, imps, c)
  {}

  lemma SetupStep(c: Client, h: Handle, op: Operation, imps: Imps, answers: FourAnswers, n: nat)
    requires n < PARAMETERS
    ensures var s := SetupAfter(c, h, op, imps, answers, n);
            var (stop, imp, r) := SetupParam(s.client, h, TypeOf(op.paramTypes, n), op.params[n], s.imps[n],
                                             answers[n]);
            s.stop.None? ==> SetupAfter(c, h, op, imps, answers, n + 1) == SetupState(stop, s.imps[n := imp], r)
  {
    hide SetupParam;
  }

  /** The loop: it ends at the first parameter that stops it. */
  method SetupParams(lib: Library, handle: Handle, operation: OperationObject, tci: TciBuffer, answers: FourAnswers)
    returns (stop: Option<Stop>)
    requires lib.Valid() && operation.params.Length == PARAMETERS && tci.params.Length == PARAMETERS
    modifies tci.params, SessionsOf(lib.devices), lib.kernel
    ensures lib.Valid() && SessionsOf(lib.devices) == old(SessionsOf(lib.devices))
    ensures lib.Footprint() == old(lib.Footprint())
    ensures var s := SetupAfter(old(lib.View()), handle, old(operation.View()), old(tci.params[..]), answers,
                                PARAMETERS);
            stop == s.stop && tci.params[..] == s.imps && lib.View() == s.client
  {
    hide SetupParam, SetupAfter;
    stop := None;
    var i := 0;
    ghost var done := 0;
    ghost var c, op, imps := lib.View(), operation.View(), tci.params[..];
    NothingSetUp(c, handle, op, imps, answers);
    while i < PARAMETERS
      invariant done <= PARAMETERS && (stop.None? ==> i == done) && (stop.Some? ==> i == PARAMETERS + 1)
      invariant lib.Valid() && SessionsOf(lib.devices) == old(SessionsOf(lib.devices))
      invariant stop == SetupAfter(c, handle, op, imps, answers, done).stop
      invariant tci.params[..] == SetupAfter(c, handle, op, imps, answers, done).imps
      invariant lib.View() == SetupAfter(c, handle, op, imps, answers, done).client
      decreases PARAMETERS + 1 - i
    {
      SetupStep(c, handle, op, imps, answers, done);
      stop := SetupOne(lib, handle, TypeOf(operation.paramTypes, i), operation.params[i], tci.params, i, answers[i]);
      done := done + 1;
      if stop.Some? {
        i := PARAMETERS;
      }
      i := i + 1;
    }
    StopStaysIf(c, handle, op, imps, answers, done);
  }

  lemma StopStaysIf(c: Client, h: Handle, op: Operation, imps: Imps, answers: FourAnswers, n: nat)
    requires n <= PARAMETERS
    ensures SetupAfter(c, h, op, imps, answers, n).stop.Some? ==>
              SetupAfter(c, h, op, imps, answers, PARAMETERS) == SetupAfter(c, h, op, imps, answers, n)
  {
    if SetupAfter(c, h, op, imps, answers, n).stop.Some? {
      StopStays(c, h, op, imps, answers, n, PARAMETERS);
    }
  }

  /** The end of a round of the loop in unwind. */
  method UnmapParam(lib: Library, handle: Handle, t: nat, p: Param, imp: Imp, a: Answers)
    requires lib.Valid()
    modifies lib.Footprint()
    ensures lib.Valid() && lib.Footprint() <= old(lib.Footprint())
    ensures lib.View() == UnwindParam(old(lib.View()), handle, t, p, imp, a)
  {
    hide Unmap;
    var buffer := Buffer(t, p);
    if buffer != 0 && imp.w1 != 0 {
      lib.FootprintHolds();
      var _, _ := lib.McUnmap(Some(handle), buffer, Some(MapInfo(imp.w0, imp.w1)), a);
      lib.FootprintWithin(old(lib.devices), old(SessionsOf(lib.devices)));
    }
  }

  lemma ArraysApart<X>(lib: Library, a: array<X>)
    ensures a !in lib.Footprint()
  {}

  lemma ObjectsApart(lib: Library, operation: OperationObject, tci: TciBuffer)
    ensures operation !in lib.Footprint() && tci !in lib.Footprint()
  {}

  /** Copying back does not move a buffer. */
  lemma SameUnwind(c: Client, h: Handle, t: nat, p: Param, imp: Imp, a: Answers)
    ensures UnwindParam(c, h, t, CopyBack(t, p, imp), imp, a) == UnwindParam(c, h, t, p, imp, a)
  {
    hide Unmap;
  }

  /** A round: the parameter is copied back before its buffer is unmapped. */
  method UnwindOne(lib: Library, handle: Handle, t: nat, params: array<Param>, i: nat, imp: Imp, copyValues: bool,
                   a: Answers)
    requires lib.Valid() && i < params.Length
    modifies params, lib.Footprint()
    ensures lib.Valid() && lib.Footprint() <= old(lib.Footprint())
    ensures params[..] == old(params[..])[i := if copyValues then CopyBack(t, old(params[i]), imp) else old(params[i])]
    ensures lib.View() == UnwindParam(old(lib.View()), handle, t, old(params[i]), imp, a)
  {
    hide UnwindParam, CopyBack, lib.Footprint, SessionsOf, DeviceViews, SessionViews, Apart;
    ArraysApart(lib, params);
    SameUnwind(lib.View(), handle, t, params[i], imp, a);
    if copyValues {
      params[i] := CopyBack(t, params[i], imp);
    }
    assert lib.View() == old(lib.View()) && lib.Footprint() == old(lib.Footprint());
    UnmapParam(lib, handle, t, params[i], imp, a);
  }

  function CopiedUpTo(op: Operation, imps: Imps, copyValues: bool, n: nat): (ps: Params)
    requires n <= PARAMETERS
    ensures forall k | n <= k < PARAMETERS :: ps[k] == op.params[k]
  {
    if n == 0 then op.params
    else
      var ps := CopiedUpTo(op, imps, copyValues, n - 1);
      ps[n - 1 := if copyValues then CopiedParam(op, imps, n - 1) else op.params[n - 1]]
  }

  lemma CopiedAll(op: Operation, imps: Imps, copyValues: bool)
    ensures CopiedUpTo(op, imps, copyValues, PARAMETERS) == CopiedBack(op, imps, copyValues)
  {
    hide CopiedParam;
    assert CopiedUpTo(op, imps, copyValues, 1) ==
           op.params[0 := if copyValues then CopiedParam(op, imps, 0) else op.params[0]];
    var two := CopiedUpTo(op, imps, copyValues, 2);
    var three := CopiedUpTo(op, imps, copyValues, 3);
  }

  lemma UnwindStep(c: Client, h: Handle, op: Operation, imps: Imps, answers: FourAnswers, copyValues: bool, n: nat)
    requires n < PARAMETERS
    ensures UnwindAfter(c, h, op, imps, answers, n + 1)
            == UnwindParam(UnwindAfter(c, h, op, imps, answers, n), h, TypeOf(op.paramTypes, n), op.params[n], imps[n],
                           answers[n])
    ensures CopiedUpTo(op, imps, copyValues, n)[n] == op.params[n]
    ensures CopiedUpTo(op, imps, copyValues, n + 1)
            == CopiedUpTo(op, imps, copyValues, n)
               [n := if copyValues then CopyBack(TypeOf(op.paramTypes, n), op.params[n], imps[n]) else op.params[n]]
  {}

  /** The loop over the parameters. */
  method UnwindParams(lib: Library, handle: Handle, operation: OperationObject, tci: TciBuffer, copyValues: bool,
                      answers: FourAnswers)
    requires lib.Valid() && operation.params.Length == PARAMETERS && tci.params.Length == PARAMETERS
    modifies operation.params, lib.Footprint()
    ensures lib.Valid() && unchanged(operation) && unchanged(tci) && unchanged(tci.params)
    ensures operation.params[..] == CopiedBack(old(operation.View()), tci.params[..], copyValues)
    ensures lib.View() == UnwindAfter(old(lib.View()), handle, old(operation.View()), tci.params[..], answers,
                                      PARAMETERS)
  {
    hide UnwindParam, UnwindAfter, CopyBack, CopiedUpTo, CopiedBack, TypeOf, lib.Footprint, SessionsOf, DeviceViews,
         SessionViews, Apart;
    ghost var c, op := lib.View(), operation.View();
    var paramTypes, imps := operation.paramTypes, tci.params[..];
    CopiedAll(op, imps, copyValues);
    ArraysApart(lib, tci.params);
    ArraysApart(lib, operation.params);
    ObjectsApart(lib, operation, tci);
    NothingYet(c, handle, op, imps, answers, copyValues);
    var i := 0;
    while i < PARAMETERS
      invariant i <= PARAMETERS
      invariant lib.Valid() && lib.Footprint() <= old(lib.Footprint())
      invariant operation.params[..] == CopiedUpTo(op, imps, copyValues, i)
      invariant lib.View() == UnwindAfter(c, handle, op, imps, answers, i)
    {
      UnwindStep(c, handle, op, imps, answers, copyValues, i);
      UnwindOne(lib, handle, TypeOf(paramTypes, i), operation.params, i, imps[i], copyValues, answers[i]);
      i := i + 1;
    }
  }

  lemma NothingYet(c: Client, h: Handle, op: Operation, imps: Imps, answers: FourAnswers, copyValues: bool)
    ensures UnwindAfter(c, h, op, imps, answers, 0) == c && CopiedUpTo(op, imps, copyValues, 0) == op.params
  {}

  /** _TEEC_UnwindOperation, with an operation */
  method UnwindOperation(lib: Library, handle: Handle, operation: OperationObject, tci: TciBuffer, copyValues: bool,
                         answers: FourAnswers)
    returns (result: nat, returnOrigin: nat)
    requires lib.Valid() && tci.params.Length == PARAMETERS && operation.params.Length == PARAMETERS
    modifies operation, operation.params, lib.Footprint()
    ensures lib.Valid() && unchanged(tci) && unchanged(tci.params)
    ensures returnOrigin == if Passes(tci.View()) then tci.returnOrigin else ORIGIN_COMMS
    ensures var (code, op', c) := Unwind(old(lib.View()), handle, tci.View(), Some(old(operation.View())), copyValues,
                                         answers);
            result == code && Some(operation.View()) == op' && lib.View() == c
  {
    hide UnwindAfter, CopiedBack, lib.Footprint, SessionsOf, DeviceViews, SessionViews, Apart;
    ArraysApart(lib, tci.params);
    ArraysApart(lib, operation.params);
    ObjectsApart(lib, operation, tci);
    operation.started := 2;
    assert lib.View() == old(lib.View()) && lib.Footprint() == old(lib.Footprint());
    if tci.returnOrigin == 0 || (tci.returnOrigin != ORIGIN_TRUSTED_APP && tci.returnStatus != TEEC_SUCCESS) {
      return TEEC_ERROR_COMMUNICATION, ORIGIN_COMMS;
    }
    UnwindParams(lib, handle, operation, tci, copyValues, answers);
    return tci.returnStatus, tci.returnOrigin;
  }

  /** memset */
  method Zero(params: array<Imp>)
    requires params.Length == PARAMETERS
    modifies params
    ensures params[..] == ZERO_IMPS
  {
    for i := 0 to PARAMETERS
      invariant forall k | 0 <= k < i :: params[k] == NO_IMP
    {
      params[i] := NO_IMP;
    }
  }

  /** The first half of setup: the operation into the TCI, with its buffers mapped. */
  method Marshal(lib: Library, handle: Handle, operation: OperationObject, tci: TciBuffer, answers: FourAnswers)
    returns (stop: Option<Stop>)
    requires lib.Valid() && tci.params.Length == PARAMETERS && operation.params.Length == PARAMETERS
    modifies operation, tci, tci.params, SessionsOf(lib.devices), lib.kernel
    ensures lib.Valid() && operation.View() == old(operation.View()) && lib.Footprint() == old(lib.Footprint())
    ensures var s := SetupAfter(old(lib.View()), handle, operation.View(), old(tci.params[..]), answers, PARAMETERS);
            && stop == s.stop && lib.View() == s.client
            && tci.View() == old(tci.View()).(paramTypes := operation.paramTypes, params := s.imps)
  {
    hide SetupAfter, SessionsOf, DeviceViews, SessionViews, Apart;
    tci.paramTypes := operation.paramTypes;
    operation.started := 1;
    assert lib.View() == old(lib.View()) && operation.View() == old(operation.View());
    assert lib.Footprint() == old(lib.Footprint()) && SessionsOf(lib.devices) == old(SessionsOf(lib.devices));
    stop := SetupParams(lib, handle, operation, tci, answers);
  }

  /** What a failed setup does before it returns. */
  method Undo(lib: Library, handle: Handle, operation: OperationObject, tci: TciBuffer, undo: FourAnswers)
    requires lib.Valid() && tci.params.Length == PARAMETERS && operation.params.Length == PARAMETERS
    modifies operation, operation.params, tci, tci.params, lib.Footprint()
    ensures lib.Valid() && operation.View() == old(operation.View())
    ensures lib.View() == Unwind(old(lib.View()), handle, old(tci.View()), Some(old(operation.View())), false, undo).2
    ensures tci.View() == old(tci.View()).(paramTypes := 0, params := ZERO_IMPS)
  {
    hide UnwindAfter, lib.Footprint, SessionsOf, DeviceViews, SessionViews, Apart;
    var _, _ := UnwindOperation(lib, handle, operation, tci, false, undo);
    ghost var r, op := lib.View(), operation.View();
    tci.paramTypes := 0;
    Zero(tci.params);
    assert lib.View() == r && operation.View() == op;
  }

  /** _TEEC_SetupOperation, with an operation; `cancelled` is what is found in isCancelled after the loop. */
  method SetupOperation(lib: Library, handle: Handle, operation: OperationObject, tci: TciBuffer, answers: FourAnswers,
                        cancelled: bool, undo: FourAnswers)
    returns (result: nat)
    requires lib.Valid() && tci.params.Length == PARAMETERS && operation.params.Length == PARAMETERS
    modifies operation, operation.params, tci, tci.params, lib.Footprint()
    ensures lib.Valid() && operation.View() == old(operation.View())
    ensures var (code, filled, c) := Setup(old(lib.View()), handle, old(tci.View()), Some(old(operation.View())),
                                           answers, cancelled, undo);
            result == code && tci.View() == filled && lib.View() == c
  {
    hide SetupAfter, Unwind, lib.Footprint, SessionsOf, DeviceViews, SessionViews, Apart;
    lib.FootprintHolds();
    var stop := Marshal(lib, handle, operation, tci, answers);
    result := SetupError(stop, cancelled);
    if result != TEEC_SUCCESS {
      Undo(lib, handle, operation, tci, undo);
      return;
    }
    ghost var r := lib.View();
    tci.returnStatus := TEE_ERROR_BAD_STATE;
    tci.ready := true;
    assert lib.View() == r;
  }
}
