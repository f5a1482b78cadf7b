/**
 What the outputs of a run mean to the other side: which SUID, which token or which error code
 each frame carries, and when.
 */
module ProvAnswers {
  import opened Wrappers
  import opened Bits
  import opened Crc32
  import opened ProvFrame
  import opened ProvMessages
  import opened ProvProtocol
  import opened ProvRuns

  /** What a receiver reads in a frame. */
  datatype Answer = Silence | TheSuid(suid: seq<bv8>) | TheToken(tok: seq<bv8>) | Report(code: gderror, text: seq<bv8>)

  function Meaning(out: seq<bv8>): Answer {
    if |out| >= SUID_RESPONSE_SIZE && MsgType(out) == MC_GETSUID_RESP then TheSuid(Body(out))
    else if IsTokenResponse(out) then TheToken(TokenIn(out))
    else if |out| >= RESULT_SIZE && MsgType(out) == MC_ERROR then Report(U32At(out, 8), out[16..|out| - 8])
    else Silence
  }

  /** A report, or nothing if there is no room for it. */
  function Told(error: gderror, text: string, cap: nat, textBuffer: bool): Answer
    requires |text| < 4096
  {
    var sent := if textBuffer then text else "";
    if |ErrorFrame(error, sent)| <= cap then Report(error, PaddedText(sent)) else Silence
  }

  lemma {:induction false} MeaningOfSuid(suid: Suid)
    ensures Meaning(SuidResponse(suid)) == TheSuid(suid)
  {
    hide SuidResponse, Framed, SelfChecking, U32At, TokenIn;
    SuidResponseSealed(suid);
  }

  lemma {:induction false} MeaningOfToken(cmd: bv32, tok: Token)
    ensures Meaning(TokenResponse(cmd, tok)) == TheToken(tok)
  {
    hide TokenResponse, Framed, SelfChecking, U32At, TokenIn;
    TokenResponseSealed(cmd, tok);
  }

  lemma {:induction false} MeaningOfError(error: gderror, text: string)
    requires |text| < 4096
    ensures Meaning(ErrorFrame(error, text)) == Report(error, PaddedText(text))
  {
    hide Framed, SelfChecking, U32At, TokenIn, Frame, PaddedText, Le32;
    ErrorFrameSealed(error, text);
    TextOfError(error, text);
  }

  lemma {:induction false} TextOfError(error: gderror, text: string)
    requires |text| < 4096
    ensures var msg := ErrorFrame(error, text); msg[16..|msg| - 8] == PaddedText(text)
  {
    hide Framed, SelfChecking, U32At, Frame, PaddedText, Le32, Align4, MsgType, BodySize, Magic, Complement;
    var n := TextSize(text);
    AlignPastHeader(n);
    var msg, body := ErrorFrame(error, text), Le32(error) + Le32(ToWord(Align4(n))) + PaddedText(text);
    AlignedSize(n);
    FrameParts(MC_ERROR, ERROR_SIZE + n, body);
    assert msg[16..|msg| - 8] == Body(msg)[8..];
  }

  /** The text in an error frame: its characters, and zeros behind them. */
  lemma TextIs(text: string, i: nat)
    requires 0 < |text| < 4096 && i < |PaddedText(text)|
    ensures |text| < |PaddedText(text)| <= |text| + 4
    ensures PaddedText(text)[i] == if i < |text| then (text[i] as int % 256) as bv8 else 0
  {}

  lemma {:induction false} MeaningOfCompose(inst: Instance, error: gderror, text: string, cap: nat, textBuffer: bool,
                                            calls: seq<Event>)
    requires |text| < 4096
    ensures Meaning(Compose(inst, error, text, cap, textBuffer, calls).out) == Told(error, text, cap, textBuffer)
  {
    hide ErrorFrame, U32At, TokenIn;
    MeaningOfError(error, if textBuffer then text else "");
    hide Meaning;
    assert Meaning([]) == Silence by {
      NoMeaning();
    }
  }

  lemma NoMeaning()
    ensures Meaning([]) == Silence
  {
    hide U32At, TokenIn;
  }

  // ------------------------------------------------------------------------------------------
  // The handlers
  // ------------------------------------------------------------------------------------------

  lemma {:induction false} AnswerToGetSUID(inst: Instance, cap: nat, ans: Answers)
    ensures var r := HandleGetSUID(inst, cap, ans);
            if SUID_RESPONSE_SIZE > cap then
              Meaning(r.out) == Told(GDERROR_BUFFER_TOO_SMALL, ERRMSG_0005(cap, SUID_RESPONSE_SIZE), cap,
                                     ans.textBuffer)
            else if inst.state == INITIAL && ans.suid.None? then
              Meaning(r.out) == Told(GDERROR_CANT_GET_SUID, ERRMSG_000D, cap, ans.textBuffer)
            else r.inst.state != INITIAL && Meaning(r.out) == TheSuid(r.inst.suid)
  {
    hide Compose, SuidResponse, Meaning, Told, ERRMSG_0005;
    MeaningOfCompose(inst.(suid := Zeros(SUID_LENGTH)), GDERROR_CANT_GET_SUID, ERRMSG_000D, cap, ans.textBuffer,
                     [GetSuid(None)]);
    MeaningOfSuid(inst.suid);
    if SUID_RESPONSE_SIZE > cap {
      MeaningOfCompose(inst, GDERROR_BUFFER_TOO_SMALL, ERRMSG_0005(cap, SUID_RESPONSE_SIZE), cap, ans.textBuffer, []);
    } else if ans.suid.Some? {
      MeaningOfSuid(ans.suid.value);
    }
  }

  lemma {:induction false} AnswerOfGenerate(cfg: Config, inst: Instance, req: Request, cap: nat, ans: Answers)
    ensures var r := Generate(cfg, inst, req, cap, ans);
            if ans.token.None? then Meaning(r.out) == Told(GDERROR_CANT_BUILD_AUTHTOKEN, ERRMSG_000E, cap,
                                                           ans.textBuffer)
            else if cfg.writeCb && ans.stored != GDERROR_OK then
              Meaning(r.out) == Told(ans.stored, ERRMSG_000C, cap, ans.textBuffer)
            else r.inst.state == HAVE_AUTHTOK && Meaning(r.out) == TheToken(r.inst.authTok)
  {
    hide Compose, TokenResponse, Meaning, Told, KeyOf, Zeros;
    var keyed := inst.(kSoCAuth := KeyOf(req));
    match ans.token
    case None =>
      MeaningOfCompose(keyed.(authTok := Zeros(TOKEN_SIZE)), GDERROR_CANT_BUILD_AUTHTOKEN, ERRMSG_000E, cap,
                       ans.textBuffer, [GenToken(req, None)]);
    case Some(tok) =>
      MeaningOfToken(cfg.cmd, tok);
      MeaningOfCompose(keyed.(authTok := tok), ans.stored, ERRMSG_000C, cap, ans.textBuffer,
                       [GenToken(req, ans.token)] + if cfg.writeCb then [WriteTok(tok, ans.stored)] else []);
  }

  /** The token in hand will do: the request carries the key it was made for. */
  predicate Keeps(inst: Instance, req: Request) {
    inst.state == HAVE_AUTHTOK && inst.kSoCAuth == KeyOf(req)
  }

  lemma {:induction false} AnswerToGenAuthToken(cfg: Config, inst: Instance, req: Request, cap: nat, ans: Answers)
    ensures var r := HandleGenAuthToken(cfg, inst, req, cap, ans);
            if TOKEN_RESPONSE_SIZE > cap then
              Meaning(r.out) == Told(GDERROR_BUFFER_TOO_SMALL, ERRMSG_0005(cap, TOKEN_RESPONSE_SIZE), cap,
                                     ans.textBuffer)
            else if Keeps(inst, req) || (ans.token.Some? && (cfg.writeCb ==> ans.stored == GDERROR_OK)) then
              r.inst.state == HAVE_AUTHTOK && Meaning(r.out) == TheToken(r.inst.authTok)
            else if ans.token.None? then
              Meaning(r.out) == Told(GDERROR_CANT_BUILD_AUTHTOKEN, ERRMSG_000E, cap, ans.textBuffer)
            else Meaning(r.out) == Told(ans.stored, ERRMSG_000C, cap, ans.textBuffer)
  {
    hide Compose, TokenResponse, Meaning, Told, ERRMSG_0005, KeyOf, Generate, HandleGetSUID;
    if TOKEN_RESPONSE_SIZE > cap {
      MeaningOfCompose(inst, GDERROR_BUFFER_TOO_SMALL, ERRMSG_0005(cap, TOKEN_RESPONSE_SIZE), cap, ans.textBuffer, []);
    } else {
      GetSUIDFacts(inst, cap, ans);
      MeaningOfToken(cfg.cmd, inst.authTok);
      AnswerOfGenerate(cfg, Before(inst, cap, ans), req, cap, ans);
    }
  }

  /** What a validation says of a delivered token. */
  function Judgement(cfg: Config, inst: Instance, tok: Token, ans: Answers): gderror {
    var same := inst.state == HAVE_AUTHTOK && tok == inst.authTok;
    if same && ReadBackMatches(cfg, tok, ans) then GDERROR_PROVISIONING_DONE
    else if same && ans.readCode != GDERROR_OK then ans.readCode
    else GDERROR_VALIDATION_FAILURE
  }

  lemma {:induction false} AnswerToValidation(cfg: Config, inst: Instance, tok: Token, cap: nat, ans: Answers)
    ensures var out, code := HandleValidateAuthToken(cfg, inst, tok, cap, ans).out, Judgement(cfg, inst, tok, ans);
            if RESULT_SIZE > cap then
              Meaning(out) == Told(GDERROR_BUFFER_TOO_SMALL, ERRMSG_0005(cap, RESULT_SIZE), cap, ans.textBuffer)
            else if inst.state != HAVE_AUTHTOK then Meaning(out) == Told(code, ERRMSG_000F, cap, ans.textBuffer)
            else Meaning(out) == Report(code, [])
  {
    hide Compose, ErrorFrame, Meaning, Told, ERRMSG_0005;
    MeaningOfError(ValidationCode(cfg, inst, tok, ans), "");
    assert PaddedText("") == [];
    MeaningOfCompose(inst, GDERROR_VALIDATION_FAILURE, ERRMSG_000F, cap, ans.textBuffer, []);
    if RESULT_SIZE > cap {
      MeaningOfCompose(inst, GDERROR_BUFFER_TOO_SMALL, ERRMSG_0005(cap, RESULT_SIZE), cap, ans.textBuffer, []);
    }
  }

  // ------------------------------------------------------------------------------------------
  // A step
  // ------------------------------------------------------------------------------------------

  predicate IsSuidRequest(msg: seq<bv8>, cmd: bv32) {
    Accepts(msg, cmd) && MsgType(msg) == MC_GETSUID_REQ
  }

  /** The room an accepted request takes for its answer. */
  function Needed(msg: seq<bv8>, cmd: bv32): nat {
    if IsSuidRequest(msg, cmd) then SUID_RESPONSE_SIZE
    else if IsTokenRequest(msg, cmd) then TOKEN_RESPONSE_SIZE
    else if IsValidation(msg, cmd) then RESULT_SIZE
    else 0
  }

  /** The code to be reported, or None when the SUID or a token is due. */
  function Due(cfg: Config, inst: Instance, input: Input): Option<gderror> {
    var msg, ans := input.msg, input.ans;
    if !Accepts(msg, cfg.cmd) then Some(Verdict(msg, cfg.cmd))
    else if Needed(msg, cfg.cmd) > input.cap then Some(GDERROR_BUFFER_TOO_SMALL)
    else if IsSuidRequest(msg, cfg.cmd) then
      if inst.state == INITIAL && ans.suid.None? then Some(GDERROR_CANT_GET_SUID) else None
    else if IsTokenRequest(msg, cfg.cmd) then
      if Keeps(inst, RequestIn(msg, cfg.cmd)) then None
      else if ans.token.None? then Some(GDERROR_CANT_BUILD_AUTHTOKEN)
      else if cfg.writeCb && ans.stored != GDERROR_OK then Some(ans.stored)
      else None
    else if IsValidation(msg, cfg.cmd) then Some(Judgement(cfg, inst, DeliveredToken(msg, cfg.cmd), ans))
    else Some(GDERROR_UNKNOWN)
  }

  /** The report that is due, or nothing for want of room, of which a token response's is enough. */
  predicate Reported(answer: Answer, code: gderror, cap: nat) {
    if answer.Silence? then cap < TOKEN_RESPONSE_SIZE else answer.Report? && answer.code == code
  }

  lemma ToldIsReported(error: gderror, text: string, cap: nat, textBuffer: bool)
    requires |text| <= 100
    ensures Reported(Told(error, text, cap, textBuffer), error, cap)
  {
    hide ErrorFrame;
    ShortTextFits(error, if textBuffer then text else "");
  }

  lemma TooSmallIsReported(available: nat, needed: nat, textBuffer: bool)
    requires available < needed <= TOKEN_RESPONSE_SIZE
    ensures Reported(Told(GDERROR_BUFFER_TOO_SMALL, ERRMSG_0005(available, needed), available, textBuffer),
                     GDERROR_BUFFER_TOO_SMALL, available)
  {
    hide ErrorFrame, ERRMSG_0005;
  }

  /** What is answered: the SUID and the token are those the instance then holds. */
  predicate AnswersDue(answer: Answer, due: Option<gderror>, r: Result, input: Input, cmd: bv32) {
    match due
    case Some(code) => Reported(answer, code, input.cap)
    case None =>
      if IsSuidRequest(input.msg, cmd) then r.inst.state != INITIAL && answer == TheSuid(r.inst.suid)
      else IsTokenRequest(input.msg, cmd) && r.inst.state == HAVE_AUTHTOK && answer == TheToken(r.inst.authTok)
  }

  lemma {:induction false} SuidStepAnswers(cfg: Config, inst: Instance, input: Input)
    requires IsSuidRequest(input.msg, cfg.cmd)
    ensures var r := HandleGetSUID(inst, input.cap, input.ans);
            AnswersDue(Meaning(r.out), Due(cfg, inst, input), r, input, cfg.cmd)
  {
    hide Accepts, Meaning, Told, U32At, HandleGetSUID, Verdict, KeyOf, Judgement, ERRMSG_0005, Reported;
    AnswerToGetSUID(inst, input.cap, input.ans);
    ToldIsReported(GDERROR_CANT_GET_SUID, ERRMSG_000D, input.cap, input.ans.textBuffer);
    if SUID_RESPONSE_SIZE > input.cap {
      TooSmallIsReported(input.cap, SUID_RESPONSE_SIZE, input.ans.textBuffer);
    }
  }

  lemma {:induction false} TokenStepAnswers(cfg: Config, inst: Instance, input: Input)
    requires IsTokenRequest(input.msg, cfg.cmd)
    ensures var r := HandleGenAuthToken(cfg, inst, RequestIn(input.msg, cfg.cmd), input.cap, input.ans);
            AnswersDue(Meaning(r.out), Due(cfg, inst, input), r, input, cfg.cmd)
  {
    hide Accepts, Meaning, Told, U32At, HandleGenAuthToken, Verdict, KeyOf, Judgement, ERRMSG_0005, Reported;
    AnswerToGenAuthToken(cfg, inst, RequestIn(input.msg, cfg.cmd), input.cap, input.ans);
    ToldIsReported(GDERROR_CANT_BUILD_AUTHTOKEN, ERRMSG_000E, input.cap, input.ans.textBuffer);
    ToldIsReported(input.ans.stored, ERRMSG_000C, input.cap, input.ans.textBuffer);
    if TOKEN_RESPONSE_SIZE > input.cap {
      TooSmallIsReported(input.cap, TOKEN_RESPONSE_SIZE, input.ans.textBuffer);
    }
  }

  lemma {:induction false} ValidationStepAnswers(cfg: Config, inst: Instance, input: Input)
    requires IsValidation(input.msg, cfg.cmd)
    ensures var r := HandleValidateAuthToken(cfg, inst, DeliveredToken(input.msg, cfg.cmd), input.cap, input.ans);
            AnswersDue(Meaning(r.out), Due(cfg, inst, input), r, input, cfg.cmd)
  {
    hide Accepts, Meaning, Told, U32At, HandleValidateAuthToken, Verdict, KeyOf, ERRMSG_0005;
    var tok := DeliveredToken(input.msg, cfg.cmd);
    AnswerToValidation(cfg, inst, tok, input.cap, input.ans);
    ToldIsReported(Judgement(cfg, inst, tok, input.ans), ERRMSG_000F, input.cap, input.ans.textBuffer);
    if RESULT_SIZE > input.cap {
      TooSmallIsReported(input.cap, RESULT_SIZE, input.ans.textBuffer);
    }
    hide Judgement;
  }

  /** Every step, from any state, on any frame, answers what is due. */
  lemma {:induction false} StepAnswers(cfg: Config, inst: Instance, input: Input)
    ensures var r := StepOn(cfg, inst, input); AnswersDue(Meaning(r.out), Due(cfg, inst, input), r, input, cfg.cmd)
  {
    hide Accepts, Meaning, Told, U32At, HandleGetSUID, HandleGenAuthToken, HandleValidateAuthToken, Verdict, Compose,
         Keeps, Judgement, Reported;
    OkMeansAccepted(input.msg, cfg.cmd);
    if IsSuidRequest(input.msg, cfg.cmd) {
      SuidStepAnswers(cfg, inst, input);
    } else if IsTokenRequest(input.msg, cfg.cmd) {
      TokenStepAnswers(cfg, inst, input);
    } else if IsValidation(input.msg, cfg.cmd) {
      ValidationStepAnswers(cfg, inst, input);
    } else {
      var verdict := Verdict(input.msg, cfg.cmd);
      MeaningOfCompose(inst, verdict, ERRMSG_0006, input.cap, input.ans.textBuffer, []);
      MeaningOfCompose(inst, GDERROR_UNKNOWN, ERRMSG_0007, input.cap, input.ans.textBuffer, []);
      ToldIsReported(verdict, ERRMSG_0006, input.cap, input.ans.textBuffer);
      ToldIsReported(GDERROR_UNKNOWN, ERRMSG_0007, input.cap, input.ans.textBuffer);
    }
  }

  /**
   What the caller of the library is told: nothing went out for want of room, or a validation has
   been answered, whatever it said, or something else has been.
   */
  lemma {:induction false} StepCode(cfg: Config, inst: Instance, input: Input)
    ensures var r := StepOn(cfg, inst, input);
            r.code == if r.out == [] then GDERROR_BUFFER_TOO_SMALL
                      else if && IsValidation(input.msg, cfg.cmd) && RESULT_SIZE <= input.cap
                              && inst.state == HAVE_AUTHTOK then
                        GDERROR_PROVISIONING_DONE
                      else GDERROR_OK
  {
    hide StepOn, Accepts, Framed, SelfChecking;
    OutputFramed(cfg, inst, input);
    DoneCode(cfg, inst, input);
  }

  lemma {:induction false} DoneCode(cfg: Config, inst: Instance, input: Input)
    ensures StepOn(cfg, inst, input).code == GDERROR_PROVISIONING_DONE <==>
              IsValidation(input.msg, cfg.cmd) && RESULT_SIZE <= input.cap && inst.state == HAVE_AUTHTOK
  {
    hide Accepts, Verdict, U32At, ErrorFrame, SuidResponse, TokenResponse, ValidationCode, KeyOf, ERRMSG_0005,
         RequestIn,
         DeliveredToken;
    OkMeansAccepted(input.msg, cfg.cmd);
  }

  // ------------------------------------------------------------------------------------------
  // Over runs
  // ------------------------------------------------------------------------------------------

  /** MobiCore's last answer to a request for the SUID; all zero if that failed. */
  function MobiCoresSuid(trace: seq<Event>): Suid {
    var last := Last<Option<Suid>>(trace, SuidCalls);
    if last.Some? && last.value.Some? then last.value.value else Zeros(SUID_LENGTH)
  }

  /** The token MobiCore has last answered, if it has. */
  function MobiCoresToken(trace: seq<Event>): Option<Token> {
    var last := Last<(Request, Option<Token>)>(trace, TokenCalls);
    if last.Some? then last.value.1 else None
  }

  lemma {:induction false} StepTrace(cfg: Config, inputs: seq<Input>, next: Input)
    ensures After(cfg, inputs + [next]) == StepOn(cfg, After(cfg, inputs), next).inst
  {
    hide StepOn;
    assert (inputs + [next])[..|inputs|] == inputs;
  }

  lemma {:induction false} HeldOverRun(cfg: Config, inputs: seq<Input>)
    ensures var inst, trace := After(cfg, inputs), Trace(cfg, inputs);
            && (inst.state != INITIAL ==> inst.suid == MobiCoresSuid(trace))
            && (inst.state == HAVE_AUTHTOK ==> MobiCoresToken(trace) == Some(inst.authTok))
  {
    hide After, Trace, Last, TokenResponse, KeyOf;
    RunInvariant(cfg, inputs);
    var inst, trace := After(cfg, inputs), Trace(cfg, inputs);
    if inst.state != INITIAL {
      assert HoldsSuid(inst, trace);
    }
  }

  /**
   On every run the SUID is sent exactly in answer to an accepted request for it with room, past
   the initial state or when MobiCore answers; and it is the SUID that MobiCore has answered last,
   or all zero if that request had failed.
   */
  lemma {:induction false} SuidDelivered(cfg: Config, inputs: seq<Input>, next: Input)
    ensures var inst := After(cfg, inputs);
            var answer := Meaning(StepOn(cfg, inst, next).out);
            && (answer.TheSuid? <==>
                  && IsSuidRequest(next.msg, cfg.cmd) && SUID_RESPONSE_SIZE <= next.cap
                  && (inst.state != INITIAL || next.ans.suid.Some?))
            && (answer.TheSuid? ==> answer.suid == MobiCoresSuid(Trace(cfg, inputs + [next])))
  {
    hide Accepts, StepOn, Trace, After, Meaning, MsgType, Verdict, Keeps, Judgement, MobiCoresSuid, MobiCoresToken;
    StepAnswers(cfg, After(cfg, inputs), next);
    StepTrace(cfg, inputs, next);
    HeldOverRun(cfg, inputs + [next]);
  }

  /**
   On every run a token is sent exactly in answer to an accepted request with room, if it carries
   the key of the token in hand or MobiCore makes a token that the callback stores; and it is the
   token MobiCore has made last.
   */
  lemma {:induction false} TokenDelivered(cfg: Config, inputs: seq<Input>, next: Input)
    ensures var inst := After(cfg, inputs);
            var answer := Meaning(StepOn(cfg, inst, next).out);
            && (answer.TheToken? <==>
                  && IsTokenRequest(next.msg, cfg.cmd) && TOKEN_RESPONSE_SIZE <= next.cap
                  && (|| Keeps(inst, RequestIn(next.msg, cfg.cmd))
                      || (next.ans.token.Some? && (cfg.writeCb ==> next.ans.stored == GDERROR_OK))))
            && (answer.TheToken? ==> MobiCoresToken(Trace(cfg, inputs + [next])) == Some(answer.tok))
  {
    hide Accepts, StepOn, Trace, After, Meaning, Verdict, Keeps, Judgement, MobiCoresSuid, MobiCoresToken, U32At;
    StepAnswers(cfg, After(cfg, inputs), next);
    StepTrace(cfg, inputs, next);
    HeldOverRun(cfg, inputs + [next]);
  }

  // ------------------------------------------------------------------------------------------
  // What is asked
  // ------------------------------------------------------------------------------------------

  /** The key in the structure is the key that is stored, and is the one MobiCore is asked to use. */
  lemma {:induction false} KeyOfRequest(m: ActivationRequest, cmd: bv32)
    requires m.msgType == cmd
    ensures var msg := Frame(MC_GENAUTHTOKEN_REQ, REQ_SIZE, RequestBytes(m));
            && IsTokenRequest(msg, cmd) && RequestIn(msg, cmd) == RequestBytes(m)
            && KeyOf(RequestIn(msg, cmd)) == m.kSoCAuth
  {
    hide Accepts, Frame, Framed, SelfChecking, U32At;
    RequestAccepted(m, cmd);
    FrameParts(MC_GENAUTHTOKEN_REQ, REQ_SIZE, RequestBytes(m));
    assert RequestBytes(m) == (Le32(m.msgType) + m.suid) + m.kSoCAuth + (Le32(m.kid) + m.dsig);
  }

  /**
   The response that the library sends: no return code, the token as it is.  A validator accepts it
   exactly if the token is one of an activated SoC.
   */
  lemma {:induction false} TokenResponseIs(cmd: bv32, h: TokenHeader, d: TokenData)
    ensures TokenResponse(cmd, HeaderBytes(h) + DataBytes(d))
            == Frame(MC_GENAUTHTOKEN_RESP, RESP_SIZE, ResponseBytes(cmd | 0x8000_0000, 0, h, d))
  {
    hide HeaderBytes, DataBytes, Frame;
    NoCode();
    assert Le32(cmd | 0x8000_0000) + Zeros(4) + (HeaderBytes(h) + DataBytes(d))
        == ResponseBytes(cmd | 0x8000_0000, 0, h, d);
  }

  lemma NoCode()
    ensures Le32(0) == Zeros(4)
  {}
}
