/**
 Runs of the provisioning protocol: any sequence of request frames, buffer sizes and outside
 answers, from a zeroed instance.  The trace records every outside call and every frame sent.
 */
module ProvRuns {
  import opened Wrappers
  import opened Crc32
  import opened ProvFrame
  import opened ProvProtocol

  datatype Input = Input(msg: seq<bv8>, cap: nat, ans: Answers)

  /** What one step adds to the trace. */
  function Events(r: Result): seq<Event> {
    r.calls + if r.out == [] then [] else [Sent(r.out)]
  }

  function StepOn(cfg: Config, inst: Instance, input: Input): Result {
    ProvisioningStep(cfg, inst, input.msg, input.cap, input.ans)
  }

  /** The instance after a run. */
  function After(cfg: Config, inputs: seq<Input>): Instance {
    if inputs == [] then ZEROED
    else StepOn(cfg, After(cfg, inputs[..|inputs| - 1]), inputs[|inputs| - 1]).inst
  }

  /** Everything that happened on a run, in order. */
  function Trace(cfg: Config, inputs: seq<Input>): seq<Event> {
    if inputs == [] then []
    else
      var front := inputs[..|inputs| - 1];
      Trace(cfg, front) + Events(StepOn(cfg, After(cfg, front), inputs[|inputs| - 1]))
  }

  // ------------------------------------------------------------------------------------------
  // The most recent event of a kind
  // ------------------------------------------------------------------------------------------

  function Last<T>(trace: seq<Event>, kind: Event -> Option<T>): Option<T> {
    if trace == [] then None
    else
      var e := kind(trace[|trace| - 1]);
      if e.Some? then e else Last(trace[..|trace| - 1], kind)
  }

  lemma LastOfSnoc<T>(s: seq<Event>, e: Event, kind: Event -> Option<T>)
    ensures Last(s + [e], kind) == if kind(e).Some? then kind(e) else Last(s, kind)
  {
    assert (s + [e])[..|s|] == s;
  }

  function SuidCalls(e: Event): Option<Option<Suid>> {
    if e.GetSuid? then Some(e.suid) else None
  }

  function TokenCalls(e: Event): Option<(Request, Option<Token>)> {
    if e.GenToken? then Some((e.req, e.token)) else None
  }

  function Writes(e: Event): Option<(Token, gderror)> {
    if e.WriteTok? then Some((e.tok, e.stored)) else None
  }

  function TokenResponses(e: Event): Option<seq<bv8>> {
    if e.Sent? && IsTokenResponse(e.frame) then Some(e.frame) else None
  }

  // ------------------------------------------------------------------------------------------
  // The invariant
  // ------------------------------------------------------------------------------------------

  /** The SUID has been asked for, and the instance holds the answer: all zero if that failed. */
  ghost predicate HoldsSuid(inst: Instance, trace: seq<Event>) {
    && Last(trace, SuidCalls).Some?
    && inst.suid == match Last(trace, SuidCalls).value { case None => Zeros(SUID_LENGTH) case Some(suid) => suid }
  }

  /**
   Past the initial state, the SUID is what MobiCore answered to the last request for it.
   */
  ghost predicate SuidIsMobiCores(inst: Instance, trace: seq<Event>) {
    inst.state != INITIAL ==> HoldsSuid(inst, trace)
  }

  /**
   With a token in hand: it is MobiCore's last answer, given to a request that carried exactly
   the stored key; the last write callback stored it; and it is what the last response delivered.
   */
  ghost predicate TokenIsMobiCores(cfg: Config, inst: Instance, trace: seq<Event>) {
    inst.state == HAVE_AUTHTOK ==>
      && Last(trace, TokenCalls).Some?
      && Last(trace, TokenCalls).value.1 == Some(inst.authTok)
      && KeyOf(Last(trace, TokenCalls).value.0) == inst.kSoCAuth
      && (cfg.writeCb ==> Last(trace, Writes) == Some((inst.authTok, GDERROR_OK)))
      && Last(trace, TokenResponses) == Some(TokenResponse(cfg.cmd, inst.authTok))
  }

  ghost predicate Invariant(cfg: Config, inst: Instance, trace: seq<Event>) {
    SuidIsMobiCores(inst, trace) && TokenIsMobiCores(cfg, inst, trace)
  }

  lemma {:induction false} QuietEvent(cfg: Config, inst: Instance, trace: seq<Event>, e: Event)
    requires Invariant(cfg, inst, trace)
    requires e.ReadTok? || (e.Sent? && !IsTokenResponse(e.frame))
    ensures Invariant(cfg, inst, trace + [e])
  {
    hide IsTokenResponse, TokenResponse, Last;
    Append(trace, e);
  }

  /** What each kind of event does to the four most recent ones. */
  lemma {:induction false} Append(trace: seq<Event>, e: Event)
    ensures Last(trace + [e], SuidCalls) == if e.GetSuid? then Some(e.suid) else Last(trace, SuidCalls)
    ensures Last(trace + [e], TokenCalls) == if e.GenToken? then Some((e.req, e.token)) else Last(trace, TokenCalls)
    ensures Last(trace + [e], Writes) == if e.WriteTok? then Some((e.tok, e.stored)) else Last(trace, Writes)
    ensures Last(trace + [e], TokenResponses)
            == if e.Sent? && IsTokenResponse(e.frame) then Some(e.frame) else Last(trace, TokenResponses)
  {
    hide IsTokenResponse, Last;
    LastOfSnoc(trace, e, SuidCalls);
    LastOfSnoc(trace, e, TokenCalls);
    LastOfSnoc(trace, e, Writes);
    LastOfSnoc(trace, e, TokenResponses);
  }

  /** The calls made while generating a token. */
  function TokenAndWrite(cfg: Config, req: Request, ans: Answers): seq<Event> {
    [GenToken(req, ans.token)] + if ans.token.Some? && cfg.writeCb then [WriteTok(ans.token.value, ans.stored)] else []
  }

  lemma {:induction false} GenerateShape(cfg: Config, inst: Instance, req: Request, cap: nat, ans: Answers)
    ensures var r := Generate(cfg, inst, req, cap, ans);
            && r.calls == TokenAndWrite(cfg, req, ans)
            && r.inst.suid == inst.suid && r.inst.kSoCAuth == KeyOf(req)
            && (r.inst.state == HAVE_AUTHTOK && inst.state != HAVE_AUTHTOK ==>
                  ans.token == Some(r.inst.authTok) && r.out == TokenResponse(cfg.cmd, r.inst.authTok))
  {
    hide TokenResponse, Compose, KeyOf, Zeros;
    var keyed := inst.(kSoCAuth := KeyOf(req));
    match ans.token
    case None =>
      ComposeKeepsInstance(keyed.(authTok := Zeros(TOKEN_SIZE)), GDERROR_CANT_BUILD_AUTHTOKEN, ERRMSG_000E, cap,
                           ans.textBuffer,
                           [GenToken(req, None)]);
    case Some(tok) =>
      ComposeKeepsInstance(keyed.(authTok := tok), ans.stored, ERRMSG_000C, cap, ans.textBuffer,
                           [GenToken(req, ans.token)] + if cfg.writeCb then [WriteTok(tok, ans.stored)] else []);
  }

  lemma {:induction false} AppendTokenAndWrite(cfg: Config, req: Request, ans: Answers, trace: seq<Event>)
    ensures var t := trace + TokenAndWrite(cfg, req, ans);
            && Last(t, SuidCalls) == Last(trace, SuidCalls)
            && Last(t, TokenCalls) == Some((req, ans.token))
            && (cfg.writeCb && ans.token.Some? ==> Last(t, Writes) == Some((ans.token.value, ans.stored)))
  {
    hide Last;
    var asked := trace + [GenToken(req, ans.token)];
    Append(trace, GenToken(req, ans.token));
    if ans.token.Some? && cfg.writeCb {
      var write := WriteTok(ans.token.value, ans.stored);
      Append(asked, write);
      assert trace + TokenAndWrite(cfg, req, ans) == asked + [write];
    } else {
      assert trace + TokenAndWrite(cfg, req, ans) == asked;
    }
  }

  lemma {:induction false} GenerateKeeps(cfg: Config, inst: Instance, req: Request, cap: nat, ans: Answers,
                                         trace: seq<Event>)
    requires TOKEN_RESPONSE_SIZE <= cap && inst.state != HAVE_AUTHTOK && HoldsSuid(inst, trace)
    ensures Invariant(cfg, Generate(cfg, inst, req, cap, ans).inst, trace + Events(Generate(cfg, inst, req, cap, ans)))
  {
    hide Last, U32At, IsDone, TokenResponse, GoodOutput, Generate, TokenAndWrite;
    var r := Generate(cfg, inst, req, cap, ans);
    GenerateFacts(cfg, inst, req, cap, ans);
    GenerateShape(cfg, inst, req, cap, ans);
    AppendTokenAndWrite(cfg, req, ans, trace);
    EventsAre(trace, r);
    Append(trace + r.calls, Sent(r.out));
  }

  lemma EventsAre(trace: seq<Event>, r: Result)
    ensures trace + Events(r) == if r.out == [] then trace + r.calls else trace + r.calls + [Sent(r.out)]
  {}

  lemma {:induction false} ComposeKeeps(cfg: Config, inst: Instance, error: gderror, text: string, cap: nat,
                                        textBuffer: bool, trace: seq<Event>)
    requires |text| < 4096 && Invariant(cfg, inst, trace)
    ensures Invariant(cfg, inst, trace + Events(Compose(inst, error, text, cap, textBuffer, [])))
  {
    hide Invariant, IsTokenResponse, IsDone, GoodOutput, Compose;
    var r := Compose(inst, error, text, cap, textBuffer, []);
    ComposeFacts(inst, error, text, cap, textBuffer, []);
    EventsAre(trace, r);
    assert trace + [] == trace;
    if r.out != [] {
      QuietEvent(cfg, inst, trace, Sent(r.out));
    }
  }

  lemma {:induction false} GetSUIDKeeps(cfg: Config, inst: Instance, cap: nat, ans: Answers, trace: seq<Event>)
    requires Invariant(cfg, inst, trace)
    ensures var r := HandleGetSUID(inst, cap, ans);
            && Invariant(cfg, r.inst, trace + Events(r))
            && (TOKEN_RESPONSE_SIZE <= cap ==> HoldsSuid(r.inst, trace + r.calls))
            && (inst.state == INITIAL ==> r.inst.state != HAVE_AUTHTOK)
  {
    hide Last, IsTokenResponse, IsDone, TokenResponse, SuidResponse, GoodOutput, Compose, ERRMSG_0005;
    var r := HandleGetSUID(inst, cap, ans);
    GetSUIDFacts(inst, cap, ans);
    ComposeFacts(inst.(suid := Zeros(SUID_LENGTH)), GDERROR_CANT_GET_SUID, ERRMSG_000D, cap, ans.textBuffer,
                 [GetSuid(None)]);
    if SUID_RESPONSE_SIZE > cap {
      ComposeFacts(inst, GDERROR_BUFFER_TOO_SMALL, ERRMSG_0005(cap, SUID_RESPONSE_SIZE), cap, ans.textBuffer, []);
      ComposeKeeps(cfg, inst, GDERROR_BUFFER_TOO_SMALL, ERRMSG_0005(cap, SUID_RESPONSE_SIZE), cap, ans.textBuffer,
                   trace);
    } else {
      EventsAre(trace, r);
      assert r.calls == [] ==> trace + r.calls == trace;
      Append(trace, GetSuid(ans.suid));
      QuietEvent(cfg, r.inst, trace + r.calls, Sent(r.out));
    }
  }

  lemma {:induction false} GenAuthTokenKeeps(cfg: Config, inst: Instance, req: Request, cap: nat, ans: Answers,
                                             trace: seq<Event>)
    requires Invariant(cfg, inst, trace)
    ensures var r := HandleGenAuthToken(cfg, inst, req, cap, ans); Invariant(cfg, r.inst, trace + Events(r))
  {
    hide Last, IsTokenResponse, IsDone, TokenResponse, GoodOutput, Compose, ERRMSG_0005, HandleGetSUID, Generate,
         TokenIsMobiCores;
    var r := HandleGenAuthToken(cfg, inst, req, cap, ans);
    if TOKEN_RESPONSE_SIZE > cap {
      ComposeFacts(inst, GDERROR_BUFFER_TOO_SMALL, ERRMSG_0005(cap, TOKEN_RESPONSE_SIZE), cap, ans.textBuffer, []);
      ComposeKeeps(cfg, inst, GDERROR_BUFFER_TOO_SMALL, ERRMSG_0005(cap, TOKEN_RESPONSE_SIZE), cap, ans.textBuffer,
                   trace);
    } else {
      match inst.state
      case INITIAL =>
        var fetched := HandleGetSUID(inst, cap, ans);
        GetSUIDFacts(inst, cap, ans);
        GetSUIDKeeps(cfg, inst, cap, ans, trace);
        var generated := Generate(cfg, fetched.inst, req, cap, ans);
        GenerateKeeps(cfg, fetched.inst, req, cap, ans, trace + fetched.calls);
        assert trace + Events(r) == trace + fetched.calls + Events(generated);
      case HAVE_SUID =>
        GenerateKeeps(cfg, inst, req, cap, ans, trace);
      case HAVE_AUTHTOK =>
        if inst.kSoCAuth != KeyOf(req) {
          GenerateKeeps(cfg, inst.(authTok := Zeros(TOKEN_SIZE), state := HAVE_SUID), req, cap, ans, trace);
        } else {
          RetransmissionKeeps(cfg, inst, trace);
        }
    }
  }

  /** Sending the token in hand once more leaves it the one delivered last. */
  lemma {:induction false} RetransmissionKeeps(cfg: Config, inst: Instance, trace: seq<Event>)
    requires Invariant(cfg, inst, trace) && inst.state == HAVE_AUTHTOK
    ensures Invariant(cfg, inst, trace + ([] + [Sent(TokenResponse(cfg.cmd, inst.authTok))]))
    ensures TokenResponse(cfg.cmd, inst.authTok) != []
  {
    hide Last, Framed, SelfChecking, TokenResponse;
    TokenResponseSealed(cfg.cmd, inst.authTok);
    Append(trace, Sent(TokenResponse(cfg.cmd, inst.authTok)));
    assert trace + ([] + [Sent(TokenResponse(cfg.cmd, inst.authTok))]) ==
               trace + [Sent(TokenResponse(cfg.cmd, inst.authTok))];
  }

  lemma {:induction false} ValidationKeeps(cfg: Config, inst: Instance, tok: Token, cap: nat, ans: Answers,
                                           trace: seq<Event>)
    requires Invariant(cfg, inst, trace)
    ensures var r := HandleValidateAuthToken(cfg, inst, tok, cap, ans);
            r.inst == inst && Invariant(cfg, inst, trace + Events(r))
  {
    hide Invariant, IsTokenResponse, IsDone, GoodOutput, Compose, ERRMSG_0005, ResultFrame, ValidationCode;
    var r := HandleValidateAuthToken(cfg, inst, tok, cap, ans);
    if RESULT_SIZE > cap {
      ComposeFacts(inst, GDERROR_BUFFER_TOO_SMALL, ERRMSG_0005(cap, RESULT_SIZE), cap, ans.textBuffer, []);
      ComposeKeeps(cfg, inst, GDERROR_BUFFER_TOO_SMALL, ERRMSG_0005(cap, RESULT_SIZE), cap, ans.textBuffer, trace);
    } else if inst.state != HAVE_AUTHTOK {
      ComposeFacts(inst, GDERROR_VALIDATION_FAILURE, ERRMSG_000F, cap, ans.textBuffer, []);
      ComposeKeeps(cfg, inst, GDERROR_VALIDATION_FAILURE, ERRMSG_000F, cap, ans.textBuffer, trace);
    } else {
      ResultFrameFacts(ValidationCode(cfg, inst, tok, ans));
      EventsAre(trace, r);
      if r.calls == [] {
        assert trace + r.calls == trace;
      } else {
        QuietEvent(cfg, inst, trace, ReadTok(ans.readCode, ans.readSize, ans.readTok));
      }
      QuietEvent(cfg, inst, trace + r.calls, Sent(r.out));
    }
  }

  /** One step from any state the invariant allows, on any frame, keeps the invariant. */
  lemma {:induction false} StepKeeps(cfg: Config, inst: Instance, input: Input, trace: seq<Event>)
    requires Invariant(cfg, inst, trace)
    ensures Invariant(cfg, StepOn(cfg, inst, input).inst, trace + Events(StepOn(cfg, inst, input)))
  {
    hide Invariant, IsTokenResponse, IsDone, GoodOutput, Compose, Verdict, Accepts, U32At, HandleGetSUID,
         HandleGenAuthToken, HandleValidateAuthToken;
    var verdict := Verdict(input.msg, cfg.cmd);
    if verdict != GDERROR_OK {
      ComposeFacts(inst, verdict, ERRMSG_0006, input.cap, input.ans.textBuffer, []);
      ComposeKeeps(cfg, inst, verdict, ERRMSG_0006, input.cap, input.ans.textBuffer, trace);
    } else {
      OkMeansAccepted(input.msg, cfg.cmd);
      var t := MsgType(input.msg);
      if t == MC_GETSUID_REQ {
        GetSUIDKeeps(cfg, inst, input.cap, input.ans, trace);
      } else if t == MC_GENAUTHTOKEN_REQ {
        GenAuthTokenKeeps(cfg, inst, RequestIn(input.msg, cfg.cmd), input.cap, input.ans, trace);
      } else if t == MC_VALIDATEAUTHTOKEN_REQ {
        ValidationKeeps(cfg, inst, DeliveredToken(input.msg, cfg.cmd), input.cap, input.ans, trace);
      } else {
        ComposeFacts(inst, GDERROR_UNKNOWN, ERRMSG_0007, input.cap, input.ans.textBuffer, []);
        ComposeKeeps(cfg, inst, GDERROR_UNKNOWN, ERRMSG_0007, input.cap, input.ans.textBuffer, trace);
      }
    }
  }

  /** On every run the invariant holds. */
  lemma {:induction false} RunInvariant(cfg: Config, inputs: seq<Input>)
    ensures Invariant(cfg, After(cfg, inputs), Trace(cfg, inputs))
  {
    hide StepOn;
    if inputs != [] {
      var front := inputs[..|inputs| - 1];
      RunInvariant(cfg, front);
      StepKeeps(cfg, After(cfg, front), inputs[|inputs| - 1], Trace(cfg, front));
    }
  }

  // ------------------------------------------------------------------------------------------
  // Every output is a frame
  // ------------------------------------------------------------------------------------------

  /** Whatever arrives, in whatever state: a sealed frame that fits goes out, or nothing does. */
  lemma {:induction false} OutputFramed(cfg: Config, inst: Instance, input: Input)
    ensures GoodOutput(StepOn(cfg, inst, input), input.cap)
  {
    hide GoodOutput, IsTokenResponse, IsDone, Compose, Verdict, Accepts, U32At, Generate, HandleGetSUID, ERRMSG_0005,
         ValidationCode;
    var cap, ans := input.cap, input.ans;
    var verdict := Verdict(input.msg, cfg.cmd);
    if verdict != GDERROR_OK {
      ComposeFacts(inst, verdict, ERRMSG_0006, cap, ans.textBuffer, []);
    } else {
      OkMeansAccepted(input.msg, cfg.cmd);
      var t := MsgType(input.msg);
      if t == MC_GETSUID_REQ {
        GetSUIDFacts(inst, cap, ans);
      } else if t == MC_GENAUTHTOKEN_REQ {
        GenAuthTokenGood(cfg, inst, RequestIn(input.msg, cfg.cmd), cap, ans);
      } else if t == MC_VALIDATEAUTHTOKEN_REQ {
        ValidationFacts(cfg, inst, DeliveredToken(input.msg, cfg.cmd), cap, ans);
      } else {
        ComposeFacts(inst, GDERROR_UNKNOWN, ERRMSG_0007, cap, ans.textBuffer, []);
      }
    }
  }

  /** The instance from which a token is generated, when the request needs a new one. */
  function Before(inst: Instance, cap: nat, ans: Answers): Instance {
    match inst.state
    case INITIAL => HandleGetSUID(inst, cap, ans).inst
    case HAVE_SUID => inst
    case HAVE_AUTHTOK => inst.(authTok := Zeros(TOKEN_SIZE), state := HAVE_SUID)
  }

  lemma {:induction false} BeforeHasNoToken(inst: Instance, cap: nat, ans: Answers)
    ensures Before(inst, cap, ans).state != HAVE_AUTHTOK
  {
    hide Compose, SuidResponse, ERRMSG_0005;
    ComposeFacts(inst.(suid := Zeros(SUID_LENGTH)), GDERROR_CANT_GET_SUID, ERRMSG_000D, cap, ans.textBuffer,
                 [GetSuid(None)]);
    if SUID_RESPONSE_SIZE > cap {
      ComposeFacts(inst, GDERROR_BUFFER_TOO_SMALL, ERRMSG_0005(cap, SUID_RESPONSE_SIZE), cap, ans.textBuffer, []);
    }
  }

  lemma {:induction false} GenAuthTokenGood(cfg: Config, inst: Instance, req: Request, cap: nat, ans: Answers)
    ensures var r := HandleGenAuthToken(cfg, inst, req, cap, ans);
            && GoodOutput(r, cap)
            && (IsDone(r.out) <==>
                 && TOKEN_RESPONSE_SIZE <= cap && (inst.state == HAVE_AUTHTOK ==> inst.kSoCAuth != KeyOf(req))
                 && ans.token.Some? && cfg.writeCb && ans.stored == GDERROR_PROVISIONING_DONE)
            && (TOKEN_RESPONSE_SIZE <= cap && (inst.state == HAVE_AUTHTOK ==> inst.kSoCAuth != KeyOf(req)) ==>
                  (r.inst.state == HAVE_AUTHTOK <==> ans.token.Some? && (cfg.writeCb ==> ans.stored == GDERROR_OK)))
  {
    hide U32At, TokenResponse, Framed, SelfChecking, Compose, ERRMSG_0005, HandleGetSUID, Generate;
    if TOKEN_RESPONSE_SIZE > cap {
      ComposeFacts(inst, GDERROR_BUFFER_TOO_SMALL, ERRMSG_0005(cap, TOKEN_RESPONSE_SIZE), cap, ans.textBuffer, []);
    } else {
      GetSUIDFacts(inst, cap, ans);
      TokenResponseSealed(cfg.cmd, inst.authTok);
      BeforeHasNoToken(inst, cap, ans);
      GenerateFacts(cfg, Before(inst, cap, ans), req, cap, ans);
    }
  }

  lemma {:induction false} ValidationFacts(cfg: Config, inst: Instance, tok: Token, cap: nat, ans: Answers)
    ensures var r := HandleValidateAuthToken(cfg, inst, tok, cap, ans);
            && GoodOutput(r, cap) && r.inst == inst
            && (IsDone(r.out) <==>
                  && RESULT_SIZE <= cap && inst.state == HAVE_AUTHTOK
                  && ValidationCode(cfg, inst, tok, ans) == GDERROR_PROVISIONING_DONE)
  {
    hide ResultFrame, U32At, Framed, SelfChecking, Compose, ERRMSG_0005, ValidationCode;
    if RESULT_SIZE > cap {
      ComposeFacts(inst, GDERROR_BUFFER_TOO_SMALL, ERRMSG_0005(cap, RESULT_SIZE), cap, ans.textBuffer, []);
    } else {
      ComposeFacts(inst, GDERROR_VALIDATION_FAILURE, ERRMSG_000F, cap, ans.textBuffer, []);
      ResultFrameFacts(ValidationCode(cfg, inst, tok, ans));
    }
  }

  // ------------------------------------------------------------------------------------------
  // The end of provisioning
  // ------------------------------------------------------------------------------------------

  /** The read-back, if there is one, returns the whole token. */
  predicate ReadBackMatches(cfg: Config, tok: Token, ans: Answers) {
    cfg.readCb ==> ans.readCode == GDERROR_OK && ans.readSize == TOKEN_SIZE && ans.readTok == tok
  }

  /** Neither callback makes the code of a finished provisioning its own error code. */
  predicate CallbacksKeepDone(ans: Answers) {
    ans.stored != GDERROR_PROVISIONING_DONE && ans.readCode != GDERROR_PROVISIONING_DONE
  }

  /**
   After any run, the next step reports the end of provisioning exactly when the frame delivers
   the token of the most recent token response of the run, and the read-back agrees.
   */
  lemma {:induction false} DoneExactly(cfg: Config, inputs: seq<Input>, next: Input)
    requires CallbacksKeepDone(next.ans)
    ensures var inst := After(cfg, inputs);
            IsDone(StepOn(cfg, inst, next).out) <==>
              && IsValidation(next.msg, cfg.cmd) && RESULT_SIZE <= next.cap && inst.state == HAVE_AUTHTOK
              && Last(Trace(cfg, inputs), TokenResponses)
                 == Some(TokenResponse(cfg.cmd, DeliveredToken(next.msg, cfg.cmd)))
              && ReadBackMatches(cfg, DeliveredToken(next.msg, cfg.cmd), next.ans)
  {
    hide GoodOutput, IsDone, Compose, Verdict, Accepts, U32At, Last, TokenResponse, HandleGetSUID, HandleGenAuthToken,
      HandleValidateAuthToken, SuidIsMobiCores, After, Trace;
    var inst, msg, cap, ans := After(cfg, inputs), next.msg, next.cap, next.ans;
    RunInvariant(cfg, inputs);
    var verdict := Verdict(msg, cfg.cmd);
    OkMeansAccepted(msg, cfg.cmd);
    if verdict != GDERROR_OK {
      VerdictNotDone(msg, cfg.cmd);
      ComposeFacts(inst, verdict, ERRMSG_0006, cap, ans.textBuffer, []);
    } else {
      var t := MsgType(msg);
      if t == MC_GETSUID_REQ {
        GetSUIDFacts(inst, cap, ans);
      } else if t == MC_GENAUTHTOKEN_REQ {
        GenAuthTokenGood(cfg, inst, RequestIn(msg, cfg.cmd), cap, ans);
      } else if t == MC_VALIDATEAUTHTOKEN_REQ {
        var tok := DeliveredToken(msg, cfg.cmd);
        ValidationFacts(cfg, inst, tok, cap, ans);
        TokenResponseSealed(cfg.cmd, tok);
        TokenResponseSealed(cfg.cmd, inst.authTok);
      } else {
        ComposeFacts(inst, GDERROR_UNKNOWN, ERRMSG_0007, cap, ans.textBuffer, []);
      }
    }
  }

  lemma VerdictNotDone(msg: seq<bv8>, cmd: bv32)
    ensures Verdict(msg, cmd) != GDERROR_PROVISIONING_DONE
  {
    hide Framed, SelfChecking, WellFormed;
  }

  // ------------------------------------------------------------------------------------------
  // Retransmission and key change
  // ------------------------------------------------------------------------------------------

  /**
   Once a token is in hand, asking again with the stored key returns the very bytes of the last
   token response of the run, calls nobody and changes nothing.
   */
  lemma {:induction false} Retransmission(cfg: Config, inputs: seq<Input>, next: Input)
    requires After(cfg, inputs).state == HAVE_AUTHTOK && TOKEN_RESPONSE_SIZE <= next.cap
    requires IsTokenRequest(next.msg, cfg.cmd) && KeyOf(RequestIn(next.msg, cfg.cmd)) == After(cfg, inputs).kSoCAuth
    ensures var r := StepOn(cfg, After(cfg, inputs), next);
            && r.inst == After(cfg, inputs) && r.calls == [] && r.code == GDERROR_OK
            && Last(Trace(cfg, inputs), TokenResponses) == Some(r.out)
  {
    hide Accepts, Verdict, U32At, Last, TokenResponse, SuidIsMobiCores, After, Trace;
    RunInvariant(cfg, inputs);
    OkMeansAccepted(next.msg, cfg.cmd);
  }

  function Rank(s: State): nat {
    match s case INITIAL => 0 case HAVE_SUID => 1 case HAVE_AUTHTOK => 2
  }

  /** A token request that does not carry the stored key, with room for its response. */
  predicate ChangesKey(cfg: Config, inst: Instance, input: Input) {
    && IsTokenRequest(input.msg, cfg.cmd) && TOKEN_RESPONSE_SIZE <= input.cap
    && KeyOf(RequestIn(input.msg, cfg.cmd)) != inst.kSoCAuth
  }

  /** The state after a step is that of the handler, or what it was. */
  lemma {:induction false} StateAfter(cfg: Config, inst: Instance, input: Input)
    ensures StepOn(cfg, inst, input).inst.state ==
            if Accepts(input.msg, cfg.cmd) && MsgType(input.msg) == MC_GETSUID_REQ then
              HandleGetSUID(inst, input.cap, input.ans).inst.state
            else if IsTokenRequest(input.msg, cfg.cmd) then
              HandleGenAuthToken(cfg, inst, RequestIn(input.msg, cfg.cmd), input.cap, input.ans).inst.state
            else inst.state
  {
    hide Compose, Verdict, Accepts, U32At, HandleGetSUID, HandleGenAuthToken, HandleValidateAuthToken, RequestIn;
    var cap, ans, msg := input.cap, input.ans, input.msg;
    OkMeansAccepted(msg, cfg.cmd);
    ComposeKeepsInstance(inst, Verdict(msg, cfg.cmd), ERRMSG_0006, cap, ans.textBuffer, []);
    ComposeKeepsInstance(inst, GDERROR_UNKNOWN, ERRMSG_0007, cap, ans.textBuffer, []);
    if IsValidation(msg, cfg.cmd) {
      ValidationFacts(cfg, inst, DeliveredToken(msg, cfg.cmd), cap, ans);
    }
  }

  lemma ComposeKeepsInstance(inst: Instance, error: gderror, text: string, cap: nat, textBuffer: bool,
                             calls: seq<Event>)
    requires |text| < 4096
    ensures var r := Compose(inst, error, text, cap, textBuffer, calls); r.inst == inst && r.calls == calls
  {
    hide ErrorFrame;
  }

  /**
   The state falls only from a held token to a held SUID, and exactly when a request changes the
   key and the new token cannot be made or stored.
   */
  lemma {:induction false} StateFallsExactly(cfg: Config, inst: Instance, input: Input)
    ensures var after := StepOn(cfg, inst, input).inst.state;
            && (Rank(after) < Rank(inst.state) ==> inst.state == HAVE_AUTHTOK && after == HAVE_SUID)
            && (Rank(after) < Rank(inst.state) <==>
                  && inst.state == HAVE_AUTHTOK && ChangesKey(cfg, inst, input)
                  && !(input.ans.token.Some? && (cfg.writeCb ==> input.ans.stored == GDERROR_OK)))
  {
    hide StepOn, Accepts, U32At, HandleGetSUID, HandleGenAuthToken, KeyOf;
    StateAfter(cfg, inst, input);
    SuidStates(inst, input.cap, input.ans);
    if IsTokenRequest(input.msg, cfg.cmd) {
      TokenStates(cfg, inst, RequestIn(input.msg, cfg.cmd), input.cap, input.ans);
    }
  }

  lemma {:induction false} SuidStates(inst: Instance, cap: nat, ans: Answers)
    ensures var s := HandleGetSUID(inst, cap, ans).inst.state;
            s == inst.state || (inst.state == INITIAL && s == HAVE_SUID && ans.suid.Some?)
  {
    hide Compose, SuidResponse, ERRMSG_0005;
    ComposeFacts(inst.(suid := Zeros(SUID_LENGTH)), GDERROR_CANT_GET_SUID, ERRMSG_000D, cap, ans.textBuffer,
                 [GetSuid(None)]);
    if SUID_RESPONSE_SIZE > cap {
      ComposeFacts(inst, GDERROR_BUFFER_TOO_SMALL, ERRMSG_0005(cap, SUID_RESPONSE_SIZE), cap, ans.textBuffer, []);
    }
  }

  lemma {:induction false} TokenStates(cfg: Config, inst: Instance, req: Request, cap: nat, ans: Answers)
    ensures var s := HandleGenAuthToken(cfg, inst, req, cap, ans).inst.state;
            var made := ans.token.Some? && (cfg.writeCb ==> ans.stored == GDERROR_OK);
            if TOKEN_RESPONSE_SIZE > cap then s == inst.state
            else if inst.state == HAVE_AUTHTOK && inst.kSoCAuth == KeyOf(req) then s == inst.state
            else if made then s == HAVE_AUTHTOK
            else if inst.state == INITIAL then s != HAVE_AUTHTOK
            else s == HAVE_SUID
  {
    hide Compose, TokenResponse, HandleGetSUID, ERRMSG_0005, KeyOf, Generate;
    if TOKEN_RESPONSE_SIZE > cap {
      ComposeFacts(inst, GDERROR_BUFFER_TOO_SMALL, ERRMSG_0005(cap, TOKEN_RESPONSE_SIZE), cap, ans.textBuffer, []);
    } else {
      GetSUIDFacts(inst, cap, ans);
      SuidStates(inst, cap, ans);
      BeforeHasNoToken(inst, cap, ans);
      GeneratedState(cfg, Before(inst, cap, ans), req, cap, ans);
    }
  }

  lemma {:induction false} GeneratedState(cfg: Config, inst: Instance, req: Request, cap: nat, ans: Answers)
    ensures Generate(cfg, inst, req, cap, ans).inst.state ==
            if ans.token.Some? && (cfg.writeCb ==> ans.stored == GDERROR_OK) then HAVE_AUTHTOK else inst.state
  {
    hide ErrorFrame, TokenResponse, KeyOf, Zeros;
  }

  // ------------------------------------------------------------------------------------------
  // The SUID
  // ------------------------------------------------------------------------------------------

  /** The SUID has been fetched: MobiCore's last answer to the request for it was one. */
  predicate SuidFetched(trace: seq<Event>) {
    var answer := Last(trace, SuidCalls);
    answer.Some? && answer.value.Some?
  }

  /**
   A failed fetch composes an error message, and composing counts as success: a token request
   in the initial state goes on to generate a token for an instance that has no SUID.
   */
  lemma {:induction false} TokenWithoutSuid(cfg: Config, msg: seq<bv8>, tok: Token, ans: Answers)
    requires IsTokenRequest(msg, cfg.cmd)
    requires ans.suid == None && ans.token == Some(tok) && ans.stored == GDERROR_OK
    ensures var run := [Input(msg, TOKEN_RESPONSE_SIZE, ans)];
            && After(cfg, run).state == HAVE_AUTHTOK && After(cfg, run).suid == Zeros(SUID_LENGTH)
            && !SuidFetched(Trace(cfg, run))
  {
    hide StepOn, Accepts, U32At, Last, Generate, TokenResponse;
    var input, req := Input(msg, TOKEN_RESPONSE_SIZE, ans), RequestIn(msg, cfg.cmd);
    var run, generated := [input], Generate(cfg, ZEROED, req, TOKEN_RESPONSE_SIZE, ans);
    assert run[..0] == [];
    SuidlessStep(cfg, msg, ans);
    GeneratedState(cfg, ZEROED, req, TOKEN_RESPONSE_SIZE, ans);
    GenerateShape(cfg, ZEROED, req, TOKEN_RESPONSE_SIZE, ans);
    Append([], GetSuid(None));
    AppendTokenAndWrite(cfg, req, ans, [GetSuid(None)]);
    Append([GetSuid(None)] + generated.calls, Sent(generated.out));
    EventsAre([GetSuid(None)], generated);
    assert Trace(cfg, run) == [GetSuid(None)] + Events(generated);
    assert [] + [GetSuid(None)] == [GetSuid(None)];
  }

  /** The token is generated as if the fetch had succeeded. */
  lemma {:induction false} SuidlessStep(cfg: Config, msg: seq<bv8>, ans: Answers)
    requires IsTokenRequest(msg, cfg.cmd) && ans.suid == None
    ensures var generated := Generate(cfg, ZEROED, RequestIn(msg, cfg.cmd), TOKEN_RESPONSE_SIZE, ans);
            StepOn(cfg, ZEROED, Input(msg, TOKEN_RESPONSE_SIZE, ans))
            == generated.(calls := [GetSuid(None)] + generated.calls)
  {
    hide Compose, U32At, Verdict, Accepts, Generate, RequestIn;
    OkMeansAccepted(msg, cfg.cmd);
    ComposeFacts(ZEROED, GDERROR_CANT_GET_SUID, ERRMSG_000D, TOKEN_RESPONSE_SIZE, ans.textBuffer, [GetSuid(None)]);
    var fetched := HandleGetSUID(ZEROED, TOKEN_RESPONSE_SIZE, ans);
    assert fetched.inst == ZEROED && fetched.calls == [GetSuid(None)];
  }

  /** The step asks MobiCore for the SUID. */
  predicate AsksForSuid(cfg: Config, inst: Instance, input: Input) {
    && inst.state == INITIAL && Accepts(input.msg, cfg.cmd)
    && ((MsgType(input.msg) == MC_GETSUID_REQ && SUID_RESPONSE_SIZE <= input.cap)
        || (MsgType(input.msg) == MC_GENAUTHTOKEN_REQ && TOKEN_RESPONSE_SIZE <= input.cap))
  }

  lemma {:induction false} SuidCallsOf(cfg: Config, inst: Instance, input: Input, trace: seq<Event>)
    ensures Last(trace + Events(StepOn(cfg, inst, input)), SuidCalls) ==
            if AsksForSuid(cfg, inst, input) then Some(input.ans.suid) else Last(trace, SuidCalls)
    ensures inst.state == INITIAL && StepOn(cfg, inst, input).inst.state != INITIAL ==> AsksForSuid(cfg, inst, input)
  {
    hide Compose, TokenResponse, SuidResponse, ResultFrame, U32At, Verdict, Accepts, KeyOf, Last, Generate,
         ERRMSG_0005, ValidationCode;
    var cap, ans, msg, r := input.cap, input.ans, input.msg, StepOn(cfg, inst, input);
    OkMeansAccepted(msg, cfg.cmd);
    EventsAre(trace, r);
    Append(trace + r.calls, Sent(r.out));
    assert trace + [] == trace;
    var verdict := Verdict(msg, cfg.cmd);
    ComposeFacts(inst, verdict, ERRMSG_0006, cap, ans.textBuffer, []);
    if verdict == GDERROR_OK {
      var t := MsgType(msg);
      ComposeFacts(inst, GDERROR_UNKNOWN, ERRMSG_0007, cap, ans.textBuffer, []);
      if t == MC_GETSUID_REQ {
        SuidCallsOfGetSUID(inst, cap, ans, trace);
      } else if t == MC_GENAUTHTOKEN_REQ {
        SuidCallsOfGenAuthToken(cfg, inst, RequestIn(msg, cfg.cmd), cap, ans, trace);
      } else if t == MC_VALIDATEAUTHTOKEN_REQ {
        ValidationFacts(cfg, inst, DeliveredToken(msg, cfg.cmd), cap, ans);
        SuidCallsOfValidation(cfg, inst, DeliveredToken(msg, cfg.cmd), cap, ans, trace);
      }
    }
  }

  lemma {:induction false} SuidCallsOfGetSUID(inst: Instance, cap: nat, ans: Answers, trace: seq<Event>)
    ensures var r := HandleGetSUID(inst, cap, ans);
            && r.calls == (if inst.state == INITIAL && SUID_RESPONSE_SIZE <= cap then [GetSuid(ans.suid)] else [])
            && Last(trace + r.calls, SuidCalls) == (if r.calls == [] then Last(trace, SuidCalls) else Some(ans.suid))
            && (inst.state == INITIAL && r.inst.state != INITIAL ==> SUID_RESPONSE_SIZE <= cap)
  {
    hide Compose, SuidResponse, ERRMSG_0005, Last;
    ComposeFacts(inst.(suid := Zeros(SUID_LENGTH)), GDERROR_CANT_GET_SUID, ERRMSG_000D, cap, ans.textBuffer,
                 [GetSuid(None)]);
    if SUID_RESPONSE_SIZE > cap {
      ComposeFacts(inst, GDERROR_BUFFER_TOO_SMALL, ERRMSG_0005(cap, SUID_RESPONSE_SIZE), cap, ans.textBuffer, []);
    }
    assert trace + [] == trace;
    Append(trace, GetSuid(ans.suid));
  }

  lemma {:induction false} CallsOfGenAuthToken(cfg: Config, inst: Instance, req: Request, cap: nat, ans: Answers)
    ensures HandleGenAuthToken(cfg, inst, req, cap, ans).calls ==
            if TOKEN_RESPONSE_SIZE > cap || (inst.state == HAVE_AUTHTOK && inst.kSoCAuth == KeyOf(req)) then []
            else (if inst.state == INITIAL then [GetSuid(ans.suid)] else []) + TokenAndWrite(cfg, req, ans)
  {
    hide Compose, TokenResponse, HandleGetSUID, ERRMSG_0005, KeyOf, Generate, TokenAndWrite;
    if TOKEN_RESPONSE_SIZE > cap {
      ComposeKeepsInstance(inst, GDERROR_BUFFER_TOO_SMALL, ERRMSG_0005(cap, TOKEN_RESPONSE_SIZE), cap, ans.textBuffer,
                           []);
    } else {
      GetSUIDFacts(inst, cap, ans);
      SuidCallsOfGetSUID(inst, cap, ans, []);
      GenerateShape(cfg, Before(inst, cap, ans), req, cap, ans);
      assert [] + TokenAndWrite(cfg, req, ans) == TokenAndWrite(cfg, req, ans);
    }
  }

  lemma {:induction false} SuidCallsOfGenAuthToken(cfg: Config, inst: Instance, req: Request, cap: nat, ans: Answers,
                                                   trace: seq<Event>)
    ensures var r := HandleGenAuthToken(cfg, inst, req, cap, ans);
            && Last(trace + r.calls, SuidCalls) ==
               (if inst.state == INITIAL && TOKEN_RESPONSE_SIZE <= cap then Some(ans.suid) else Last(trace, SuidCalls))
            && (inst.state == INITIAL && r.inst.state != INITIAL ==> TOKEN_RESPONSE_SIZE <= cap)
  {
    hide HandleGenAuthToken, KeyOf, Last, TokenAndWrite;
    CallsOfGenAuthToken(cfg, inst, req, cap, ans);
    TokenStates(cfg, inst, req, cap, ans);
    var asked := trace + [GetSuid(ans.suid)];
    Append(trace, GetSuid(ans.suid));
    AppendTokenAndWrite(cfg, req, ans, trace);
    AppendTokenAndWrite(cfg, req, ans, asked);
    assert asked + TokenAndWrite(cfg, req, ans) == trace + ([GetSuid(ans.suid)] + TokenAndWrite(cfg, req, ans));
    assert [] + TokenAndWrite(cfg, req, ans) == TokenAndWrite(cfg, req, ans) && trace + [] == trace;
  }

  lemma {:induction false} SuidCallsOfValidation(cfg: Config, inst: Instance, tok: Token, cap: nat, ans: Answers,
                                                 trace: seq<Event>)
    ensures Last(trace + HandleValidateAuthToken(cfg, inst, tok, cap, ans).calls, SuidCalls) == Last(trace, SuidCalls)
  {
    hide Compose, ResultFrame, ERRMSG_0005, Last;
    assert trace + [] == trace;
    Append(trace, ReadTok(ans.readCode, ans.readSize, ans.readTok));
    if RESULT_SIZE > cap {
      ComposeFacts(inst, GDERROR_BUFFER_TOO_SMALL, ERRMSG_0005(cap, RESULT_SIZE), cap, ans.textBuffer, []);
    } else {
      ComposeFacts(inst, GDERROR_VALIDATION_FAILURE, ERRMSG_000F, cap, ans.textBuffer, []);
    }
  }

  /**
   The SUID of an instance is MobiCore's, from the step that leaves the initial state to the end
   of the run, exactly when MobiCore answered that step's request for it.
   */
  lemma {:induction false} SuidFetchedExactly(cfg: Config, inputs: seq<Input>, k: nat)
    requires k < |inputs|
    requires After(cfg, inputs[..k]).state == INITIAL && After(cfg, inputs[..k + 1]).state != INITIAL
    ensures After(cfg, inputs).state != INITIAL
    ensures SuidFetched(Trace(cfg, inputs)) <==> inputs[k].ans.suid.Some?
    ensures After(cfg, inputs).suid ==
              match inputs[k].ans.suid { case None => Zeros(SUID_LENGTH) case Some(suid) => suid }
  {
    hide StepOn, Last, AsksForSuid, TokenIsMobiCores;
    var front := inputs[..|inputs| - 1];
    RunInvariant(cfg, inputs);
    SuidCallsOf(cfg, After(cfg, front), inputs[|inputs| - 1], Trace(cfg, front));
    if k == |inputs| - 1 {
      assert inputs[..k] == front && inputs[..k + 1] == inputs;
    } else {
      assert front[..k] == inputs[..k] && front[..k + 1] == inputs[..k + 1];
      SuidFetchedExactly(cfg, front, k);
      RunInvariant(cfg, front);
      StateFallsExactly(cfg, After(cfg, front), inputs[|inputs| - 1]);
      AskedOnlyOnce(cfg, After(cfg, front), inputs[|inputs| - 1]);
    }
  }

  lemma AskedOnlyOnce(cfg: Config, inst: Instance, input: Input)
    requires inst.state != INITIAL
    ensures !AsksForSuid(cfg, inst, input)
  {
    hide Accepts;
  }

  /** A SUID request leaves the initial state only with a SUID. */
  lemma {:induction false} LeavesWithSuid(cfg: Config, inst: Instance, input: Input)
    requires inst.state == INITIAL && |input.msg| >= OVERHEAD && MsgType(input.msg) == MC_GETSUID_REQ
    ensures StepOn(cfg, inst, input).inst.state != INITIAL ==> input.ans.suid.Some?
  {
    hide StepOn, Accepts, U32At, HandleGetSUID, HandleGenAuthToken;
    StateAfter(cfg, inst, input);
    SuidStates(inst, input.cap, input.ans);
  }

  /** Whoever asks for the SUID before asking for a token never works with an instance that lacks it. */
  lemma {:induction false} SuidRequestedFirst(cfg: Config, inputs: seq<Input>, k: nat)
    requires k < |inputs|
    requires After(cfg, inputs[..k]).state == INITIAL && After(cfg, inputs[..k + 1]).state != INITIAL
    requires |inputs[k].msg| >= OVERHEAD && MsgType(inputs[k].msg) == MC_GETSUID_REQ
    ensures SuidFetched(Trace(cfg, inputs)) && inputs[k].ans.suid == Some(After(cfg, inputs).suid)
  {
    hide StepOn, Last, U32At;
    SuidFetchedExactly(cfg, inputs, k);
    assert inputs[..k + 1][..k] == inputs[..k];
    LeavesWithSuid(cfg, After(cfg, inputs[..k]), inputs[k]);
  }

  /**
   A frame can lead out of the initial state without a SUID exactly if it is a token request for
   which there is room.
   */
  lemma {:induction false} SuidlessExactly(cfg: Config, inst: Instance, msg: seq<bv8>, cap: nat)
    requires inst.state == INITIAL
    ensures (exists ans: Answers :: ans.suid.None? && StepOn(cfg, inst, Input(msg, cap, ans)).inst.state != INITIAL)
            <==> IsTokenRequest(msg, cfg.cmd) && TOKEN_RESPONSE_SIZE <= cap
  {
    hide StepOn, IsTokenRequest, HandleGetSUID, HandleGenAuthToken, KeyOf, Accepts, U32At;
    forall ans: Answers | ans.suid.None? && StepOn(cfg, inst, Input(msg, cap, ans)).inst.state != INITIAL
      ensures IsTokenRequest(msg, cfg.cmd) && TOKEN_RESPONSE_SIZE <= cap
    {
      StateAfter(cfg, inst, Input(msg, cap, ans));
      SuidStates(inst, cap, ans);
      if IsTokenRequest(msg, cfg.cmd) {
        TokenStates(cfg, inst, RequestIn(msg, cfg.cmd), cap, ans);
      }
    }
    if IsTokenRequest(msg, cfg.cmd) && TOKEN_RESPONSE_SIZE <= cap {
      var ans := Answers(None, Some(Zeros(TOKEN_SIZE)), GDERROR_OK, GDERROR_OK, 0, Zeros(TOKEN_SIZE), true);
      StateAfter(cfg, inst, Input(msg, cap, ans));
      TokenRequestType(msg, cfg.cmd);
      TokenStates(cfg, inst, RequestIn(msg, cfg.cmd), cap, ans);
      assert ans.suid.None? && StepOn(cfg, inst, Input(msg, cap, ans)).inst.state != INITIAL;
    }
  }

  lemma TokenRequestType(msg: seq<bv8>, cmd: bv32)
    requires IsTokenRequest(msg, cmd)
    ensures |msg| >= OVERHEAD && MsgType(msg) != MC_GETSUID_REQ
  {
    hide U32At, SelfChecking;
  }
}
