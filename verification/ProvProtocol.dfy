/**
 The three-state instance of the provisioning protocol as a function from state, request frame
 and the answers of MobiCore and the two callbacks to new state and response frame; and what
 each handler's response is.
 */
module ProvProtocol {
  import opened Wrappers
  import opened Bits
  import opened Crc32
  import opened ProvFrame

  datatype State = INITIAL | HAVE_SUID | HAVE_AUTHTOK

  type Suid = s: seq<bv8> | |s| == SUID_LENGTH witness Zeros(SUID_LENGTH)
  type Key = s: seq<bv8> | |s| == K_SOC_AUTH_LENGTH witness Zeros(K_SOC_AUTH_LENGTH)
  type Token = s: seq<bv8> | |s| == TOKEN_SIZE witness Zeros(TOKEN_SIZE)
  type Request = s: seq<bv8> | |s| == REQ_SIZE witness Zeros(REQ_SIZE)

  /** gdmcinst */
  datatype Instance = Instance(state: State, suid: Suid, kSoCAuth: Key, authTok: Token)

  const ZEROED := Instance(INITIAL, Zeros(SUID_LENGTH), Zeros(K_SOC_AUTH_LENGTH), Zeros(TOKEN_SIZE))

  /** Fixed for the life of the library: the command constant, and which callbacks are set. */
  datatype Config = Config(cmd: bv32, writeCb: bool, readCb: bool)

  /**
   What the outside answers during one step: MobiCore's SUID and token (None: the call fails),
   the two callbacks, and whether memory for a message text is available.
   */
  datatype Answers = Answers(
    suid: Option<Suid>,
    token: Option<Token>,
    stored: gderror,
    readCode: gderror,
    readSize: nat,
    readTok: Token,
    textBuffer: bool)

  datatype Event =
    | GetSuid(suid: Option<Suid>)
    | GenToken(req: Request, token: Option<Token>)
    | WriteTok(tok: Token, stored: gderror)
    | ReadTok(code: gderror, size: nat, back: Token)
    | Sent(frame: seq<bv8>)

  /** `out` is the response frame, empty when there is none; `calls` are the calls made outside. */
  datatype Result = Result(inst: Instance, out: seq<bv8>, code: gderror, calls: seq<Event>)

  function KeyOf(req: Request): Key {
    req[20..52]
  }

  // ------------------------------------------------------------------------------------------
  // Responses
  // ------------------------------------------------------------------------------------------

  const SUID_RESPONSE_SIZE := OVERHEAD + SUID_LENGTH
  const TOKEN_RESPONSE_SIZE := OVERHEAD + RESP_SIZE
  const RESULT_SIZE := OVERHEAD + ERROR_SIZE

  function SuidResponse(suid: Suid): seq<bv8> {
    Frame(MC_GETSUID_RESP, SUID_LENGTH, suid)
  }

  /** The return code after the response type is never written: it is zero because the buffer is. */
  function TokenResponse(cmd: bv32, tok: Token): seq<bv8> {
    Frame(MC_GENAUTHTOKEN_RESP, RESP_SIZE, Le32(cmd | 0x8000_0000) + Zeros(4) + tok)
  }

  /** The result of a validation is an error frame without text. */
  function ResultFrame(code: gderror): seq<bv8> {
    ErrorFrame(code, "")
  }

  function Decimal(n: nat): (s: string)
    ensures 1 <= |s| <= n + 1
  {
    var digit := ['0' + (n % 10) as char];
    if n < 10 then digit else Decimal(n / 10) + digit
  }

  function ERRMSG_0005(available: nat, needed: nat): (s: string)
    requires available < needed <= TOKEN_RESPONSE_SIZE
    ensures |s| < 4096
  {
    "Message output buffer too small (" + Decimal(available) + " but " + Decimal(needed)
    + " required to store message)."
  }

  const ERRMSG_0006 := "Message validation failed."
  const ERRMSG_0007 := "Unexpected message received. Cannot evaluate message (ignored)."
  const ERRMSG_000C := "Unable to dump SO.AuthToken (MobiCore)."
  const ERRMSG_000D := "Unable to retrieve SUID from SoC."
  const ERRMSG_000E := "Unable to generate SO.AuthToken."
  const ERRMSG_000F := "Validation of SO.AuthToken failed because no SO.AuthToken available."

  /** GDMCComposeErrorMessage: a composed error counts as success. */
  function Compose(inst: Instance, error: gderror, text: string, cap: nat, textBuffer: bool, calls: seq<Event>): Result
    requires |text| < 4096
  {
    var msg := ErrorFrame(error, if textBuffer then text else "");
    if |msg| > cap then Result(inst, [], GDERROR_BUFFER_TOO_SMALL, calls)
    else Result(inst, msg, GDERROR_OK, calls)
  }

  // ------------------------------------------------------------------------------------------
  // Handlers
  // ------------------------------------------------------------------------------------------

  function HandleGetSUID(inst: Instance, cap: nat, ans: Answers): Result {
    if SUID_RESPONSE_SIZE > cap then
      Compose(inst, GDERROR_BUFFER_TOO_SMALL, ERRMSG_0005(cap, SUID_RESPONSE_SIZE), cap, ans.textBuffer, [])
    else if inst.state != INITIAL then
      Result(inst, SuidResponse(inst.suid), GDERROR_OK, [])
    else
      match ans.suid
      case None =>
        Compose(inst.(suid := Zeros(SUID_LENGTH)), GDERROR_CANT_GET_SUID, ERRMSG_000D, cap, ans.textBuffer,
                [GetSuid(None)])
      case Some(suid) =>
        Result(inst.(suid := suid, state := HAVE_SUID), SuidResponse(suid), GDERROR_OK, [GetSuid(ans.suid)])
  }

  /** The label GenerateAuthToken: save the key, ask MobiCore, store, respond. */
  function Generate(cfg: Config, inst: Instance, req: Request, cap: nat, ans: Answers): Result {
    var keyed := inst.(kSoCAuth := KeyOf(req));
    match ans.token
    case None =>
      Compose(keyed.(authTok := Zeros(TOKEN_SIZE)), GDERROR_CANT_BUILD_AUTHTOKEN, ERRMSG_000E, cap, ans.textBuffer,
              [GenToken(req, None)])
    case Some(tok) =>
      var calls := [GenToken(req, ans.token)] + if cfg.writeCb then [WriteTok(tok, ans.stored)] else [];
      if cfg.writeCb && ans.stored != GDERROR_OK then
        Compose(keyed.(authTok := tok), ans.stored, ERRMSG_000C, cap, ans.textBuffer, calls)
      else
        Result(keyed.(authTok := tok, state := HAVE_AUTHTOK), TokenResponse(cfg.cmd, tok), GDERROR_OK, calls)
  }

  function HandleGenAuthToken(cfg: Config, inst: Instance, req: Request, cap: nat, ans: Answers): Result {
    if TOKEN_RESPONSE_SIZE > cap then
      Compose(inst, GDERROR_BUFFER_TOO_SMALL, ERRMSG_0005(cap, TOKEN_RESPONSE_SIZE), cap, ans.textBuffer, [])
    else
      match inst.state
      case INITIAL =>
        var fetched := HandleGetSUID(inst, cap, ans);
        if fetched.code != GDERROR_OK then fetched
        else
          var generated := Generate(cfg, fetched.inst, req, cap, ans);
          generated.(calls := fetched.calls + generated.calls)
      case HAVE_SUID =>
        Generate(cfg, inst, req, cap, ans)
      case HAVE_AUTHTOK =>
        if inst.kSoCAuth != KeyOf(req) then
          Generate(cfg, inst.(authTok := Zeros(TOKEN_SIZE), state := HAVE_SUID), req, cap, ans)
        else
          Result(inst, TokenResponse(cfg.cmd, inst.authTok), GDERROR_OK, [])
  }

  /** The code of the result frame: does the delivered token survive both comparisons? */
  function ValidationCode(cfg: Config, inst: Instance, tok: Token, ans: Answers): gderror {
    if tok != inst.authTok then GDERROR_VALIDATION_FAILURE
    else if !cfg.readCb then GDERROR_PROVISIONING_DONE
    else if ans.readCode != GDERROR_OK then ans.readCode
    else if ans.readSize != TOKEN_SIZE || ans.readTok != tok then GDERROR_VALIDATION_FAILURE
    else GDERROR_PROVISIONING_DONE
  }

  function HandleValidateAuthToken(cfg: Config, inst: Instance, tok: Token, cap: nat, ans: Answers): Result {
    if RESULT_SIZE > cap then
      Compose(inst, GDERROR_BUFFER_TOO_SMALL, ERRMSG_0005(cap, RESULT_SIZE), cap, ans.textBuffer, [])
    else if inst.state != HAVE_AUTHTOK then
      Compose(inst, GDERROR_VALIDATION_FAILURE, ERRMSG_000F, cap, ans.textBuffer, [])
    else
      Result(inst, ResultFrame(ValidationCode(cfg, inst, tok, ans)), GDERROR_PROVISIONING_DONE,
             if tok == inst.authTok && cfg.readCb then [ReadTok(ans.readCode, ans.readSize, ans.readTok)] else [])
  }

  /** One provisioning step on a request frame and an output buffer of `cap` bytes. */
  function ProvisioningStep(cfg: Config, inst: Instance, msg: seq<bv8>, cap: nat, ans: Answers): Result {
    var verdict := Verdict(msg, cfg.cmd);
    if verdict != GDERROR_OK then
      Compose(inst, verdict, ERRMSG_0006, cap, ans.textBuffer, [])
    else
      var t := MsgType(msg);
      if t == MC_GETSUID_REQ then HandleGetSUID(inst, cap, ans)
      else if t == MC_GENAUTHTOKEN_REQ then HandleGenAuthToken(cfg, inst, RequestIn(msg, cfg.cmd), cap, ans)
      else if t == MC_VALIDATEAUTHTOKEN_REQ then
        HandleValidateAuthToken(cfg, inst, DeliveredToken(msg, cfg.cmd), cap, ans)
      else Compose(inst, GDERROR_UNKNOWN, ERRMSG_0007, cap, ans.textBuffer, [])
  }

  predicate IsTokenRequest(msg: seq<bv8>, cmd: bv32) {
    Accepts(msg, cmd) && MsgType(msg) == MC_GENAUTHTOKEN_REQ
  }

  function RequestIn(msg: seq<bv8>, cmd: bv32): Request
    requires IsTokenRequest(msg, cmd)
  {
    Body(msg)
  }

  predicate IsValidation(msg: seq<bv8>, cmd: bv32) {
    Accepts(msg, cmd) && MsgType(msg) == MC_VALIDATEAUTHTOKEN_REQ
  }

  function DeliveredToken(msg: seq<bv8>, cmd: bv32): Token
    requires IsValidation(msg, cmd)
  {
    Body(msg)
  }

  // ------------------------------------------------------------------------------------------
  // Frames
  // ------------------------------------------------------------------------------------------

  /** A frame of type `t` that a receiver can check. */
  predicate Sealed(frame: seq<bv8>, t: bv32) {
    Framed(frame) && SelfChecking(frame) && MsgType(frame) == t
  }

  lemma {:induction false} SuidResponseSealed(suid: Suid)
    ensures |SuidResponse(suid)| == SUID_RESPONSE_SIZE
    ensures Sealed(SuidResponse(suid), MC_GETSUID_RESP) && Body(SuidResponse(suid)) == suid
  {
    hide Frame, Framed, SelfChecking;
    FrameParts(MC_GETSUID_RESP, SUID_LENGTH, suid);
  }

  function TokenIn(frame: seq<bv8>): seq<bv8>
    requires |frame| >= TOKEN_RESPONSE_SIZE
  {
    frame[16..16 + TOKEN_SIZE]
  }

  lemma {:induction false} TokenResponseSealed(cmd: bv32, tok: Token)
    ensures Sealed(TokenResponse(cmd, tok), MC_GENAUTHTOKEN_RESP)
    ensures |TokenResponse(cmd, tok)| == TOKEN_RESPONSE_SIZE && TokenIn(TokenResponse(cmd, tok)) == tok
  {
    hide Frame, Framed, SelfChecking, Le32;
    var body := Le32(cmd | 0x8000_0000) + Zeros(4) + tok;
    FrameParts(MC_GENAUTHTOKEN_RESP, RESP_SIZE, body);
    var msg := TokenResponse(cmd, tok);
    assert TokenIn(msg) == Body(msg)[8..];
  }

  lemma {:induction false} ErrorFrameSealed(error: gderror, text: string)
    requires |text| < 4096
    ensures Sealed(ErrorFrame(error, text), MC_ERROR) && U32At(ErrorFrame(error, text), 8) == error
  {
    hide ErrorFrame, Framed, SelfChecking;
    ErrorFrameAccepted(error, text, 0);
  }

  // ------------------------------------------------------------------------------------------
  // Every output is a frame
  // ------------------------------------------------------------------------------------------

  /** Nothing was sent for want of room, or a frame was sent that fits. */
  predicate GoodOutput(r: Result, cap: nat) {
    if r.out == [] then r.code == GDERROR_BUFFER_TOO_SMALL
    else
      && |r.out| <= cap && Framed(r.out) && SelfChecking(r.out)
      && (r.code == GDERROR_OK || r.code == GDERROR_PROVISIONING_DONE)
  }

  /** A result frame that reports the end of provisioning. */
  predicate IsDone(out: seq<bv8>) {
    |out| >= RESULT_SIZE && MsgType(out) == MC_ERROR && U32At(out, 8) == GDERROR_PROVISIONING_DONE
  }

  predicate IsTokenResponse(out: seq<bv8>) {
    |out| >= TOKEN_RESPONSE_SIZE && MsgType(out) == MC_GENAUTHTOKEN_RESP
  }

  lemma ShortTextFits(error: gderror, text: string)
    requires |text| <= 100
    ensures |ErrorFrame(error, text)| <= TOKEN_RESPONSE_SIZE
  {
    hide Frame, PaddedText, Le32;
  }

  lemma {:induction false} ComposeFacts(inst: Instance, error: gderror, text: string, cap: nat, textBuffer: bool,
                                        calls: seq<Event>)
    requires |text| < 4096
    ensures var r := Compose(inst, error, text, cap, textBuffer, calls);
            && r.inst == inst && r.calls == calls
            && GoodOutput(r, cap) && r.code != GDERROR_PROVISIONING_DONE
            && !IsTokenResponse(r.out) && (IsDone(r.out) <==> r.out != [] && error == GDERROR_PROVISIONING_DONE)
            && (|text| <= 100 && TOKEN_RESPONSE_SIZE <= cap ==> r.code == GDERROR_OK)
  {
    hide Framed, SelfChecking, ErrorFrame, U32At;
    var sent := if textBuffer then text else "";
    ErrorFrameSealed(error, sent);
    if |text| <= 100 {
      ShortTextFits(error, sent);
    }
  }

  predicate TakenBack(error: gderror, text: string, cmd: bv32)
    requires |text| < 4096
  {
    Accepts(ErrorFrame(error, text), cmd)
  }

  lemma TakenBackExactly(error: gderror, text: string, cmd: bv32)
    requires |text| < 4096
    ensures TakenBack(error, text, cmd) <==> TextSize(text) % 4 == 0
  {
    hide Framed, SelfChecking, U32At;
    ErrorFrameAccepted(error, text, cmd);
  }

  /** The library's own validator refuses the message by which it reports a refused frame. */
  lemma {:induction false} RefusalRefused(error: gderror, cmd: bv32)
    ensures !TakenBack(error, ERRMSG_0006, cmd)
  {
    hide TakenBack;
    TakenBackExactly(error, ERRMSG_0006, cmd);
  }

  /** It takes the one about an unexpected message. */
  lemma {:induction false} UnexpectedTaken(error: gderror, cmd: bv32)
    ensures TakenBack(error, ERRMSG_0007, cmd)
  {
    hide TakenBack;
    TakenBackExactly(error, ERRMSG_0007, cmd);
  }

  /** And the one about a buffer that is too small when the two sizes have the right number of digits. */
  lemma {:induction false} TooSmallTaken(error: gderror, cmd: bv32, available: nat, needed: nat)
    requires available < needed <= TOKEN_RESPONSE_SIZE
    ensures TakenBack(error, ERRMSG_0005(available, needed), cmd) <==>
                (|Decimal(available)| + |Decimal(needed)|) % 4 == 1
  {
    hide TakenBack, Decimal;
    TakenBackExactly(error, ERRMSG_0005(available, needed), cmd);
  }

  lemma {:induction false} ResultFrameFacts(code: gderror)
    ensures var f := ResultFrame(code);
            && |f| == RESULT_SIZE && Framed(f) && SelfChecking(f) && !IsTokenResponse(f)
            && (IsDone(f) <==> code == GDERROR_PROVISIONING_DONE)
  {
    hide ErrorFrame, Framed, SelfChecking, U32At;
    ErrorFrameSealed(code, "");
  }

  /** With room for a token response every answer to a SUID request counts as success. */
  lemma {:induction false} GetSUIDFacts(inst: Instance, cap: nat, ans: Answers)
    ensures var r := HandleGetSUID(inst, cap, ans);
            && GoodOutput(r, cap) && r.code != GDERROR_PROVISIONING_DONE
            && !IsTokenResponse(r.out) && !IsDone(r.out)
            && (TOKEN_RESPONSE_SIZE <= cap ==> r.code == GDERROR_OK)
  {
    hide Compose, SuidResponse, Framed, SelfChecking, ERRMSG_0005, U32At;
    if SUID_RESPONSE_SIZE > cap {
      ComposeFacts(inst, GDERROR_BUFFER_TOO_SMALL, ERRMSG_0005(cap, SUID_RESPONSE_SIZE), cap, ans.textBuffer, []);
    } else {
      ComposeFacts(inst.(suid := Zeros(SUID_LENGTH)), GDERROR_CANT_GET_SUID, ERRMSG_000D, cap, ans.textBuffer,
                   [GetSuid(None)]);
      SuidResponseSealed(inst.suid);
      if ans.suid.Some? {
        SuidResponseSealed(ans.suid.value);
      }
    }
  }

  /** Generating sends a token response exactly when it ends in the state that holds a token. */
  lemma {:induction false} GenerateFacts(cfg: Config, inst: Instance, req: Request, cap: nat, ans: Answers)
    requires TOKEN_RESPONSE_SIZE <= cap && inst.state != HAVE_AUTHTOK
    ensures var r := Generate(cfg, inst, req, cap, ans);
            && GoodOutput(r, cap) && r.code == GDERROR_OK
            && (IsTokenResponse(r.out) <==> r.inst.state == HAVE_AUTHTOK)
            && (r.inst.state == HAVE_AUTHTOK <==> ans.token.Some? && (cfg.writeCb ==> ans.stored == GDERROR_OK))
            && (IsDone(r.out) <==> ans.token.Some? && cfg.writeCb && ans.stored == GDERROR_PROVISIONING_DONE)
  {
    hide Compose, TokenResponse, Framed, SelfChecking, U32At;
    var keyed := inst.(kSoCAuth := KeyOf(req));
    match ans.token
    case None =>
      ComposeFacts(keyed.(authTok := Zeros(TOKEN_SIZE)), GDERROR_CANT_BUILD_AUTHTOKEN, ERRMSG_000E, cap, ans.textBuffer,
                   [GenToken(req, None)]);
    case Some(tok) =>
      var calls := [GenToken(req, ans.token)] + if cfg.writeCb then [WriteTok(tok, ans.stored)] else [];
      ComposeFacts(keyed.(authTok := tok), ans.stored, ERRMSG_000C, cap, ans.textBuffer, calls);
      TokenResponseSealed(cfg.cmd, tok);
  }
}
