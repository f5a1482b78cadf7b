/**
 What crosses the TCI: the values an operation sends, the regions of memory it shares, and what of
 them comes back.
 */
module GpTransfer {
  import opened Wrappers
  import opened Words
  import opened ClientTables
  import opened G = GpOperation

  // ------------------------------------------------------------------------------------------
  // Parameter types
  // ------------------------------------------------------------------------------------------

  /** TEEC_PARAM_TYPES */
  function ParamTypes(t0: nat, t1: nat, t2: nat, t3: nat): nat {
    t0 + 0x10 * t1 + 0x100 * t2 + 0x1000 * t3
  }

  /** Each parameter has the type it was given. */
  lemma {:induction false} TypesGiven(t0: nat, t1: nat, t2: nat, t3: nat)
    requires t0 < 16 && t1 < 16 && t2 < 16 && t3 < 16
    ensures var types := ParamTypes(t0, t1, t2, t3);
            TypeOf(types, 0) == t0 && TypeOf(types, 1) == t1 && TypeOf(types, 2) == t2 && TypeOf(types, 3) == t3
  {
    var types := ParamTypes(t0, t1, t2, t3);
    assert types / 0x10 == t1 + 0x10 * t2 + 0x100 * t3;
    assert types / 0x100 == t2 + 0x10 * t3;
    assert types / 0x1000 == t3;
  }

  // ------------------------------------------------------------------------------------------
  // Values
  // ------------------------------------------------------------------------------------------

  predicate IsInputValue(t: nat) {
    t == VALUE_INPUT || t == VALUE_INOUT
  }

  /** What is in the TCI for parameter `i` after a setup that reached it. */
  predicate Filled(op: Operation, before: Imps, after: Imps, i: nat)
    requires i < PARAMETERS
  {
    var t, p := TypeOf(op.paramTypes, i), op.params[i];
    if IsInputValue(t) then after[i] == Imp(p.first, p.second, before[i].w2)
    else if IsMemref(t) then after[i].w2 == before[i].w2
    else after[i] == before[i]
  }

  lemma {:induction false} ParamFilled(c: Client, h: Handle, t: nat, p: Param, imp: Imp, a: Answers)
    ensures var (stop, filled, _) := SetupParam(c, h, t, p, imp, a);
            stop.None? ==>
              if IsInputValue(t) then filled == Imp(p.first, p.second, imp.w2)
              else if IsMemref(t) then filled.w2 == imp.w2
              else filled == imp
  {
    hide Map;
  }

  lemma {:induction false} SetupFillsUpTo(c: Client, h: Handle, op: Operation, imps: Imps, answers: FourAnswers, n: nat)
    requires n <= PARAMETERS && SetupAfter(c, h, op, imps, answers, n).stop.None?
    ensures var after := SetupAfter(c, h, op, imps, answers, n).imps;
            && (forall i | 0 <= i < n :: Filled(op, imps, after, i))
            && (forall i | n <= i < PARAMETERS :: after[i] == imps[i])
  {
    hide SetupParam, TypeOf, IsInputValue, IsMemref;
    if n > 0 {
      SetupFillsUpTo(c, h, op, imps, answers, n - 1);
      var s, after := SetupAfter(c, h, op, imps, answers, n - 1), SetupAfter(c, h, op, imps, answers, n).imps;
      ParamFilled(s.client, h, TypeOf(op.paramTypes, n - 1), op.params[n - 1], s.imps[n - 1], answers[n - 1]);
      forall i | 0 <= i < n
        ensures Filled(op, imps, after, i)
      {
        assert i < n - 1 ==> Filled(op, imps, s.imps, i) && after[i] == s.imps[i];
      }
    }
  }

  /**
   After a successful setup the TCI is ready, with the types of the operation and every input value
   word for word; what is no input has been left alone.
   */
  lemma {:induction false} SetupFills(c: Client, h: Handle, tci: G.Tci, op: Operation, answers: FourAnswers,
                                      cancelled: bool, undo: FourAnswers)
    requires Setup(c, h, tci, Some(op), answers, cancelled, undo).0 == TEEC_SUCCESS
    ensures var filled := Setup(c, h, tci, Some(op), answers, cancelled, undo).1;
            && filled.ready && filled.paramTypes == op.paramTypes
            && filled.returnStatus == TEE_ERROR_BAD_STATE && filled.returnOrigin == tci.returnOrigin
            && forall i | 0 <= i < PARAMETERS :: Filled(op, tci.params, filled.params, i)
  {
    hide SetupAfter, Filled, UnwindAfter;
    NoStop(SetupAfter(c, h, op, tci.params, answers, PARAMETERS).stop, cancelled);
    SetupFillsUpTo(c, h, op, tci.params, answers, PARAMETERS);
  }

  /** After a failed one it is empty. */
  lemma {:induction false} FailedSetupEmpties(c: Client, h: Handle, tci: G.Tci, op: Operation, answers: FourAnswers,
                                              cancelled: bool, undo: FourAnswers)
    requires Setup(c, h, tci, Some(op), answers, cancelled, undo).0 != TEEC_SUCCESS
    ensures var emptied := Setup(c, h, tci, Some(op), answers, cancelled, undo).1;
            && emptied.paramTypes == 0 && emptied.params == ZERO_IMPS
            && emptied.returnOrigin == tci.returnOrigin && emptied.returnStatus == tci.returnStatus
            && emptied.ready == tci.ready
  {
    hide SetupAfter, UnwindAfter;
  }

  /**
   An application that accepts the operation and touches no parameter gives every value back as it
   was sent; one that writes values has them delivered, in place and word for word.
   */
  lemma {:induction false} ValuesReturn(c: Client, h: Handle, tci: G.Tci, op: Operation, answers: FourAnswers,
                                        cancelled: bool, undo0: FourAnswers, answered: G.Tci, undo: FourAnswers, i: nat)
    requires i < PARAMETERS && Setup(c, h, tci, Some(op), answers, cancelled, undo0).0 == TEEC_SUCCESS
    requires Passes(answered)
    ensures var (_, sent, c1) := Setup(c, h, tci, Some(op), answers, cancelled, undo0);
            var (result, op', _) := Unwind(c1, h, answered, Some(op), true, undo);
            var t := TypeOf(op.paramTypes, i);
            && result == answered.returnStatus && op'.Some?
            && (t == VALUE_INOUT && answered.params[i] == sent.params[i] ==> op'.value.params[i] == op.params[i])
            && (t == VALUE_INOUT || t == VALUE_OUTPUT ==>
                  && op'.value.params[i].first == answered.params[i].w0
                  && op'.value.params[i].second == answered.params[i].w1)
            && (t == VALUE_INPUT ==> op'.value.params[i] == op.params[i])
  {
    hide Setup, UnwindAfter, TypeOf;
    var (_, sent, c1) := Setup(c, h, tci, Some(op), answers, cancelled, undo0);
    SetupFills(c, h, tci, op, answers, cancelled, undo0);
    assert Filled(op, tci.params, sent.params, i);
    CopiesExactly(c1, h, answered, op, true, undo, i);
    assert i == 0 || i == 1 || i == 2 || i == 3;
  }

  // ------------------------------------------------------------------------------------------
  // Results
  // ------------------------------------------------------------------------------------------

  /** Why a setup has failed: it is cancelled, the parameter it stops at is a bad one, or its map has failed. */
  lemma {:induction false} CodeTellsWhy(c: Client, h: Handle, tci: G.Tci, op: Operation, answers: FourAnswers,
                                        cancelled: bool, undo: FourAnswers, n: nat)
    requires n <= PARAMETERS && FailsAfter(c, h, tci, op, answers, cancelled, n)
    ensures Setup(c, h, tci, Some(op), answers, cancelled, undo).0 ==
            if cancelled then TEEC_ERROR_CANCEL
            else if n < PARAMETERS && Rejected(TypeOf(op.paramTypes, n), op.params[n]) then TEEC_ERROR_BAD_PARAMETERS
            else TEEC_ERROR_GENERIC
  {
    hide UnwindAfter, Map, TypeOf, Rejected;
    if n < PARAMETERS {
      StopStays(c, h, op, tci.params, answers, n + 1, PARAMETERS);
    }
  }

  /** An error is accepted from the application alone, success from anybody who says so, silence from nobody. */
  lemma AnswerOrigins(tci: G.Tci)
    ensures tci.returnStatus == TEEC_SUCCESS ==> (Passes(tci) <==> tci.returnOrigin != 0)
    ensures tci.returnStatus != TEEC_SUCCESS ==> (Passes(tci) <==> tci.returnOrigin == ORIGIN_TRUSTED_APP)
  {}

  /** Without an operation the TCI is made ready, and nothing else happens. */
  lemma WithoutOperation(c: Client, h: Handle, tci: G.Tci, answers: FourAnswers, cancelled: bool, undo: FourAnswers,
                         copyValues: bool)
    ensures Setup(c, h, tci, None, answers, cancelled, undo)
            == (TEEC_SUCCESS, tci.(returnStatus := TEE_ERROR_BAD_STATE, ready := true), c)
    ensures Unwind(c, h, tci, None, copyValues, undo) == (TEEC_SUCCESS, None, c)
  {}

  /** The answer decides the result, unless it fails the checks; then nothing is copied and nothing unmapped. */
  lemma UnwindResult(c: Client, h: Handle, answered: G.Tci, op: Operation, copyValues: bool, undo: FourAnswers)
    ensures Passes(answered) ==> Unwind(c, h, answered, Some(op), copyValues, undo).0 == answered.returnStatus
    ensures !Passes(answered) ==>
              Unwind(c, h, answered, Some(op), copyValues, undo) == (TEEC_ERROR_COMMUNICATION, Some(op), c)
  {
    hide UnwindAfter, CopiedBack;
  }

  /**
   An application that writes no answer is found out, except over a TCI in which an earlier
   operation has left the origin of a trusted application.
   */
  lemma {:induction false} NoAnswerExactly(c: Client, h: Handle, tci: G.Tci, op: Operation, answers: FourAnswers,
                                           cancelled: bool, undo: FourAnswers)
    requires Setup(c, h, tci, Some(op), answers, cancelled, undo).0 == TEEC_SUCCESS
    ensures Passes(Setup(c, h, tci, Some(op), answers, cancelled, undo).1) <==> tci.returnOrigin == ORIGIN_TRUSTED_APP
  {
    hide Setup;
    SetupFills(c, h, tci, op, answers, cancelled, undo);
  }

  // ------------------------------------------------------------------------------------------
  // Regions
  // ------------------------------------------------------------------------------------------

  /** The region lies in the block. */
  predicate Within(buffer: nat, size: nat, block: SharedMemory) {
    block.buffer <= buffer && buffer + size <= block.buffer + block.size
  }

  /** No sum of the 32-bit words involved exceeds 32 bits. */
  predicate NoOverflow(p: Param) {
    p.third + p.second < U32_RANGE && p.parent.buffer + p.parent.size < U32_RANGE
  }

  /**
   A part of a registered block: where nothing overflows it is mapped exactly at its offset, and it
   is refused for its size exactly if it does not lie in the block.
   */
  lemma {:induction false} PartExactly(t: nat, p: Param)
    requires IsPartial(t) && NoOverflow(p) && FlowRight(t, p.parent.flags)
    ensures Rejected(t, p) <==> !Within(p.parent.buffer + p.third, p.second, p.parent)
    ensures !Rejected(t, p) ==> Buffer(t, p) == p.parent.buffer + p.third && Extent(t, p) == p.second
  {
    Flags(p.parent.flags);
    Small(p.third + p.second);
    if p.third <= p.parent.size {
      Small(p.parent.buffer + p.third);
    }
  }

  lemma Flags(flags: nat)
    ensures flags % 4 == flags % 2 + 2 * (flags / 2 % 2)
  {}

  lemma Small(n: nat)
    requires n < U32_RANGE
    ensures n % U32_RANGE == n
  {}

  /** Of the types that are no parts of blocks those that have no name are refused. */
  lemma {:induction false} KnownTypes(t: nat, p: Param)
    requires t < 16 && !IsPartial(t)
    ensures Rejected(t, p) <==>
              t !in {0, VALUE_INPUT, VALUE_OUTPUT, VALUE_INOUT, TEMP_INPUT, TEMP_OUTPUT, TEMP_INOUT, WHOLE}
  {}

  /** A whole block, and a temporary reference, are mapped as they are. */
  lemma WholeExactly(t: nat, p: Param)
    ensures t == WHOLE ==> !Rejected(t, p) && Buffer(t, p) == p.parent.buffer && Extent(t, p) == p.parent.size
    ensures IsTemp(t) && p.first != 0 ==> !Rejected(t, p) && Buffer(t, p) == p.first && Extent(t, p) == p.second
    ensures IsTemp(t) && p.first == 0 ==> !Rejected(t, p) && Extent(t, p) == 0
  {}

  /** The flags of a block allow the direction of a reference into it: TEEC_MEM_INPUT is 1, TEEC_MEM_OUTPUT 2. */
  predicate FlowRight(t: nat, flags: nat) {
    && (t == PARTIAL_INPUT || t == PARTIAL_INOUT ==> flags % 2 == 1)
    && (t == PARTIAL_OUTPUT || t == PARTIAL_INOUT ==> flags / 2 % 2 == 1)
  }

  /**
   The direction of an input or an output is checked against a block that has any; that of a
   reference for both is not: it is accepted for a block that allows only one.
   */
  lemma {:induction false} FlowExactly(t: nat, p: Param)
    requires IsPartial(t) && NoOverflow(p) && Within(p.parent.buffer + p.third, p.second, p.parent)
    ensures !Rejected(t, p) <==> FlowRight(t, p.parent.flags) || t == PARTIAL_INOUT || p.parent.flags % 4 == 0
  {
    Flags(p.parent.flags);
    Small(p.third + p.second);
  }
}
