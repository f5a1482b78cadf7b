/**
 The provisioning library as written: an instance updated in place, response frames written
 field by field into the caller's buffer.  Each method is tied to the function of the same
 handler in ProvProtocol.
 */
module ProvInstance {
  import opened Wrappers
  import opened Words
  import opened Bits
  import opened Crc32
  import opened ProvFrame
  import opened ProvProtocol
  import CrcTable

  /** `front` has been written at the start of a buffer whose first `cap` bytes were zero. */
  ghost predicate Written(buffer: seq<bv8>, front: seq<bv8>, cap: nat, rest: seq<bv8>) {
    |front| <= cap && buffer == front + Zeros(cap - |front|) + rest
  }

  lemma WrittenPrefix(buffer: seq<bv8>, front: seq<bv8>, cap: nat, rest: seq<bv8>)
    requires Written(buffer, front, cap, rest)
    ensures |buffer| >= cap && buffer[..|front|] == front
  {}

  lemma WriteExtends(buffer: seq<bv8>, front: seq<bv8>, cap: nat, rest: seq<bv8>, data: seq<bv8>)
    requires Written(buffer, front, cap, rest) && |front| + |data| <= cap
    ensures Written(buffer[..|front|] + data + buffer[|front| + |data|..], front + data, cap, rest)
  {
    var n, k := |front|, |data|;
    assert Zeros(cap - n) == Zeros(k) + Zeros(cap - n - k);
    assert buffer == front + Zeros(k) + (Zeros(cap - n - k) + rest);
    assert buffer[n + k..] == Zeros(cap - n - k) + rest;
    assert buffer[..n] == front;
    assert buffer[..n] + data + buffer[n + k..] == front + data + Zeros(cap - n - k) + rest;
  }

  lemma SkipExtends(buffer: seq<bv8>, front: seq<bv8>, cap: nat, rest: seq<bv8>, k: nat)
    requires Written(buffer, front, cap, rest) && |front| + k <= cap
    ensures Written(buffer, front + Zeros(k), cap, rest)
  {
    assert Zeros(cap - |front|) == Zeros(k) + Zeros(cap - |front| - k);
  }

  /** memcpy */
  method Copy(buffer: array<bv8>, at: nat, data: seq<bv8>, ghost front: seq<bv8>, ghost cap: nat, ghost rest: seq<bv8>)
    requires Written(buffer[..], front, cap, rest) && at == |front| && at + |data| <= cap
    modifies buffer
    ensures Written(buffer[..], front + data, cap, rest)
  {
    hide Written;
    ghost var was := buffer[..];
    WrittenPrefix(was, front, cap, rest);
    WriteExtends(was, front, cap, rest, data);
    for i := 0 to |data|
      invariant forall k | 0 <= k < i :: buffer[at + k] == data[k]
      invariant forall k | 0 <= k < buffer.Length && !(at <= k < at + i) :: buffer[k] == was[k]
    {
      buffer[at + i] := data[i];
    }
    assert buffer[..] == was[..at] + data + was[at + |data|..];
  }

  /** A word stored through a structure pointer. */
  method Put32(buffer: array<bv8>, at: nat, w: bv32, ghost front: seq<bv8>, ghost cap: nat, ghost rest: seq<bv8>)
    requires Written(buffer[..], front, cap, rest) && at == |front| && at + 4 <= cap
    modifies buffer
    ensures Written(buffer[..], front + Le32(w), cap, rest)
  {
    Copy(buffer, at, Le32(w), front, cap, rest);
  }

  /** memset to zero */
  method Clear(buffer: array<bv8>, from: nat, n: nat)
    requires from + n <= buffer.Length
    modifies buffer
    ensures buffer[..] == old(buffer[..from]) + Zeros(n) + old(buffer[from + n..])
  {
    for i := 0 to n
      invariant forall k | from <= k < from + i :: buffer[k] == 0
      invariant forall k | 0 <= k < buffer.Length && !(from <= k < from + i) :: buffer[k] == old(buffer[k])
    {
      buffer[from + i] := 0;
    }
  }

  function Word(a: array<bv8>, at: nat): bv32
    requires at + 4 <= a.Length
    reads a
  {
    Pack(a[at], a[at + 1], a[at + 2], a[at + 3])
  }

  /** The four words around a body: what WriteTrailer turns into a sealed frame. */
  lemma FrameFromContent(t: bv32, size: nat, body: seq<bv8>)
    requires size < U32_RANGE
    ensures Content(t, size, body) == Le32(t) + Le32(ToWord(size)) + body + Le32(Complement(t))
    ensures Frame(t, size, body) == Content(t, size, body) + Le32(Checksum(Content(t, size, body)))
  {}

  class GdmcInstance {
    var state: State
    var suid: Suid
    var kSoCAuth: Key
    var authTok: Token
    const cfg: Config
    const crc: CrcTable.Table
    /** Every call made outside since the instance exists. */
    ghost var calls: seq<Event>

    function Value(): Instance
      reads this
    {
      Instance(state, suid, kSoCAuth, authTok)
    }

    ghost predicate Valid()
      reads this, crc.crctable
    {
      crc.Valid()
    }

    /** GDMCProvBeginProvisioning: a zeroed instance. */
    constructor (cfg: Config, crc: CrcTable.Table)
      ensures this.cfg == cfg && this.crc == crc && Value() == ZEROED && calls == []
    {
      state, suid, kSoCAuth, authTok := INITIAL, Zeros(SUID_LENGTH), Zeros(K_SOC_AUTH_LENGTH), Zeros(TOKEN_SIZE);
      this.cfg, this.crc, calls := cfg, crc, [];
    }

    /** The new state, the buffer and the return code are those of `r`; `cap` bytes were zero. */
    ghost predicate Did(r: Result, error: gderror, size: nat, buffer: seq<bv8>, cap: nat, rest: seq<bv8>,
                        earlier: seq<Event>)
      reads this
    {
      && Value() == r.inst && calls == earlier + r.calls
      && error == r.code && size == |r.out| && Written(buffer, r.out, cap, rest)
    }

    /** Header: type and body size. */
    method WriteHeader(msgout: array<bv8>, msgType: bv32, bodySize: nat, ghost cap: nat, ghost rest: seq<bv8>)
      requires bodySize < U32_RANGE && 8 <= cap && Written(msgout[..], [], cap, rest)
      modifies msgout
      ensures Written(msgout[..], Le32(msgType) + Le32(ToWord(bodySize)), cap, rest)
    {
      hide Written, Le32;
      Put32(msgout, 0, msgType, [], cap, rest);
      assert [] + Le32(msgType) == Le32(msgType);
      Put32(msgout, 4, bodySize as bv32, Le32(msgType), cap, rest);
    }

    /** Trailer: complemented type, and the checksum of everything written so far. */
    method WriteTrailer(msgout: array<bv8>, msgType: bv32, at: nat, ghost size: nat, ghost body: seq<bv8>,
                        ghost cap: nat, ghost rest: seq<bv8>)
      requires Valid()
      requires size < U32_RANGE && at == 8 + |body| && at + 8 <= cap
      requires Written(msgout[..], Le32(msgType) + Le32(ToWord(size)) + body, cap, rest)
      modifies msgout
      ensures Written(msgout[..], Frame(msgType, size, body), cap, rest)
    {
      hide Written, Le32, Checksum, Complement, ToWord, Frame, Content;
      FrameFromContent(msgType, size, body);
      ghost var front := Le32(msgType) + Le32(ToWord(size)) + body;
      Put32(msgout, at, Complement(msgType), front, cap, rest);
      ghost var content := Content(msgType, size, body);
      WrittenPrefix(msgout[..], content, cap, rest);
      var sum := crc.CalcCRC32(msgout, at + 4);
      assert msgout[..at + 4] == msgout[..][..at + 4];
      Put32(msgout, at + 4, sum, content, cap, rest);
    }

    /** GDMCComposeErrorMessage */
    method ComposeErrorMessage(error: gderror, msgout: array<bv8>, cap: nat, text: string, textBuffer: bool,
                               ghost rest: seq<bv8>)
      returns (code: gderror, size: nat)
      requires Valid() && |text| < 4096 && Written(msgout[..], [], cap, rest)
      modifies msgout
      ensures Did(Compose(Value(), error, text, cap, textBuffer, []), code, size, msgout[..], cap, rest, calls)
    {
      hide Written, Le32, Frame, ToWord, Align4, PaddedText;
      var sent := if textBuffer then text else "";
      var errmsgsize := |sent| + 1;
      if errmsgsize == 1 {
        errmsgsize := 0;
      }
      AlignPastHeader(errmsgsize);
      AlignedSize(errmsgsize);
      var aligned := Align4(errmsgsize);
      var msgsize := OVERHEAD + ERROR_SIZE + aligned;
      if msgsize > cap {
        return GDERROR_BUFFER_TOO_SMALL, 0;
      }
      ghost var header := Le32(MC_ERROR) + Le32(ToWord(ERROR_SIZE + errmsgsize));
      WriteHeader(msgout, MC_ERROR, ERROR_SIZE + errmsgsize, cap, rest);
      Put32(msgout, 8, error, header, cap, rest);
      Put32(msgout, 12, ToWord(aligned), header + Le32(error), cap, rest);
      ghost var front := header + Le32(error) + Le32(ToWord(aligned));
      if errmsgsize != 0 {
        WriteText(msgout, 16, sent, aligned, front, cap, rest);
      } else {
        NoText(msgout[..], front, cap, rest);
      }
      ghost var body := Le32(error) + Le32(ToWord(aligned)) + PaddedText(sent);
      Regroup(header, Le32(error), Le32(ToWord(aligned)), PaddedText(sent));
      WriteTrailer(msgout, MC_ERROR, 16 + aligned, ERROR_SIZE + errmsgsize, body, cap, rest);
      return GDERROR_OK, msgsize;
    }

    /** The text with its terminator, in a field cleared to its aligned size. */
    method WriteText(msgout: array<bv8>, at: nat, text: string, aligned: nat, ghost front: seq<bv8>, ghost cap: nat,
                     ghost rest: seq<bv8>)
      requires text != "" && |text| < 4096 && aligned == Align4(|text| + 1)
      requires at == |front| && at + aligned <= cap && Written(msgout[..], front, cap, rest)
      modifies msgout
      ensures Written(msgout[..], front + PaddedText(text), cap, rest)
    {
      hide Ascii;
      WrittenPrefix(msgout[..], front, cap, rest);
      WriteExtends(msgout[..], front, cap, rest, []);
      Clear(msgout, at, aligned);
      ClearedIsSame(msgout[..], old(msgout[..]), front, cap, rest, aligned);
      Copy(msgout, at, Ascii(text) + [0], front, cap, rest);
      SkipExtends(msgout[..], front + (Ascii(text) + [0]), cap, rest, aligned - |text| - 1);
      assert [0] + Zeros(aligned - |text| - 1) == Zeros(aligned - |text|);
      assert front + (Ascii(text) + [0]) + Zeros(aligned - |text| - 1) == front + PaddedText(text);
    }

    /** MCGetSUID: the field is cleared first, and filled only if MobiCore answers. */
    method MCGetSUID(ans: Answers) returns (error: gderror)
      modifies this`suid, this`calls
      ensures calls == old(calls) + [GetSuid(ans.suid)]
      ensures error == (if ans.suid.Some? then GDERROR_OK else GDERROR_CANT_GET_SUID)
      ensures suid == (if ans.suid.Some? then ans.suid.value else Zeros(SUID_LENGTH))
    {
      suid := Zeros(SUID_LENGTH);
      calls := calls + [GetSuid(ans.suid)];
      if ans.suid.None? {
        return GDERROR_CANT_GET_SUID;
      }
      suid := ans.suid.value;
      return GDERROR_OK;
    }

    /** MCGenerateAuthToken: likewise for the token. */
    method MCGenerateAuthToken(req: Request, ans: Answers) returns (error: gderror)
      modifies this`authTok, this`calls
      ensures calls == old(calls) + [GenToken(req, ans.token)]
      ensures error == (if ans.token.Some? then GDERROR_OK else GDERROR_CANT_BUILD_AUTHTOKEN)
      ensures authTok == (if ans.token.Some? then ans.token.value else Zeros(TOKEN_SIZE))
    {
      authTok := Zeros(TOKEN_SIZE);
      calls := calls + [GenToken(req, ans.token)];
      if ans.token.None? {
        return GDERROR_CANT_BUILD_AUTHTOKEN;
      }
      authTok := ans.token.value;
      return GDERROR_OK;
    }

    /** GDMCHandleGetSUID */
    method HandleGetSUIDMessage(msgout: array<bv8>, cap: nat, ans: Answers, ghost rest: seq<bv8>)
      returns (error: gderror, size: nat)
      requires Valid() && Written(msgout[..], [], cap, rest)
      modifies msgout, this`state, this`suid, this`calls
      ensures Valid()
      ensures Did(HandleGetSUID(old(Value()), cap, ans), error, size, msgout[..], cap, rest, old(calls))
    {
      hide Written, Frame, Compose, ERRMSG_0005, Le32;
      ComposeWithCalls(Value().(suid := Zeros(SUID_LENGTH)), GDERROR_CANT_GET_SUID, ERRMSG_000D, cap, ans.textBuffer,
                       [GetSuid(None)]);
      if SUID_RESPONSE_SIZE > cap {
        error, size := ComposeErrorMessage(GDERROR_BUFFER_TOO_SMALL, msgout, cap, ERRMSG_0005(cap, SUID_RESPONSE_SIZE),
                                           ans.textBuffer, rest);
        return;
      }
      if state == INITIAL {
        error := MCGetSUID(ans);
        if error != GDERROR_OK {
          error, size := ComposeErrorMessage(error, msgout, cap, ERRMSG_000D, ans.textBuffer, rest);
          return;
        }
        state := HAVE_SUID;
      }
      WriteHeader(msgout, MC_GETSUID_RESP, SUID_LENGTH, cap, rest);
      Copy(msgout, 8, suid, Le32(MC_GETSUID_RESP) + Le32(ToWord(SUID_LENGTH)), cap, rest);
      WriteTrailer(msgout, MC_GETSUID_RESP, 8 + SUID_LENGTH, SUID_LENGTH, suid, cap, rest);
      return GDERROR_OK, SUID_RESPONSE_SIZE;
    }

    /** The token response both ways of answering a token request end in. */
    method WriteTokenResponse(msgout: array<bv8>, cap: nat, ghost rest: seq<bv8>) returns (size: nat)
      requires Valid() && TOKEN_RESPONSE_SIZE <= cap && Written(msgout[..], [], cap, rest)
      modifies msgout
      ensures Written(msgout[..], TokenResponse(cfg.cmd, authTok), cap, rest)
      ensures size == |TokenResponse(cfg.cmd, authTok)|
    {
      hide Written, Frame, Le32;
      ghost var header, answer := Le32(MC_GENAUTHTOKEN_RESP) + Le32(ToWord(RESP_SIZE)), Le32(cfg.cmd | 0x8000_0000);
      WriteHeader(msgout, MC_GENAUTHTOKEN_RESP, RESP_SIZE, cap, rest);
      Put32(msgout, 8, cfg.cmd | 0x8000_0000, header, cap, rest);
      SkipExtends(msgout[..], header + answer, cap, rest, 4);
      Copy(msgout, 16, authTok, header + answer + Zeros(4), cap, rest);
      ghost var body := answer + Zeros(4) + authTok;
      assert header + answer + Zeros(4) + authTok == header + body;
      WriteTrailer(msgout, MC_GENAUTHTOKEN_RESP, 16 + TOKEN_SIZE, RESP_SIZE, body, cap, rest);
      return TOKEN_RESPONSE_SIZE;
    }

    /** The code from the label GenerateAuthToken on. */
    method GenerateAuthToken(req: Request, msgout: array<bv8>, cap: nat, ans: Answers, ghost rest: seq<bv8>)
      returns (error: gderror, size: nat)
      requires Valid() && TOKEN_RESPONSE_SIZE <= cap && state != HAVE_AUTHTOK && Written(msgout[..], [], cap, rest)
      modifies msgout, this`state, this`kSoCAuth, this`authTok, this`calls
      ensures Valid()
      ensures Did(Generate(cfg, old(Value()), req, cap, ans), error, size, msgout[..], cap, rest, old(calls))
    {
      hide Written, Compose, TokenResponse;
      kSoCAuth := KeyOf(req);
      error := MCGenerateAuthToken(req, ans);
      if error != GDERROR_OK {
        ComposeWithCalls(Value(), error, ERRMSG_000E, cap, ans.textBuffer, [GenToken(req, None)]);
        error, size := ComposeErrorMessage(error, msgout, cap, ERRMSG_000E, ans.textBuffer, rest);
        return;
      }
      if cfg.writeCb {
        error := ans.stored;
        calls := calls + [WriteTok(authTok, error)];
        assert calls == old(calls) + ([GenToken(req, ans.token)] + [WriteTok(authTok, error)]);
        if error != GDERROR_OK {
          ComposeWithCalls(Value(), error, ERRMSG_000C, cap, ans.textBuffer,
                           [GenToken(req, ans.token)] + [WriteTok(authTok, error)]);
          error, size := ComposeErrorMessage(error, msgout, cap, ERRMSG_000C, ans.textBuffer, rest);
          return;
        }
      } else {
        assert calls == old(calls) + ([GenToken(req, ans.token)] + []);
      }
      size := WriteTokenResponse(msgout, cap, rest);
      if state != HAVE_AUTHTOK {
        state := HAVE_AUTHTOK;
      }
      return GDERROR_OK, size;
    }

    /** GDMCHandleGenAuthToken */
    method HandleGenAuthTokenMessage(req: Request, msgout: array<bv8>, cap: nat, ans: Answers, ghost rest: seq<bv8>)
      returns (error: gderror, size: nat)
      requires Valid() && Written(msgout[..], [], cap, rest)
      modifies msgout, this`state, this`suid, this`kSoCAuth, this`authTok, this`calls
      ensures Valid()
      ensures Did(HandleGenAuthToken(cfg, old(Value()), req, cap, ans), error, size, msgout[..], cap, rest, old(calls))
    {
      hide Written, Compose, ERRMSG_0005, Generate, HandleGetSUID, TokenResponse;
      if TOKEN_RESPONSE_SIZE > cap {
        error, size := ComposeErrorMessage(GDERROR_BUFFER_TOO_SMALL, msgout, cap,
                                           ERRMSG_0005(cap, TOKEN_RESPONSE_SIZE), ans.textBuffer, rest);
        return;
      }
      match state
      case INITIAL =>
        FetchedHasNoToken(Value(), cap, ans);
        error, size := HandleGetSUIDMessage(msgout, cap, ans, rest);
        if error != GDERROR_OK {
          return;
        }
        Wipe(msgout, cap, HandleGetSUID(old(Value()), cap, ans).out, rest);
        ghost var fetched := HandleGetSUID(old(Value()), cap, ans);
        error, size := GenerateAuthToken(req, msgout, cap, ans, rest);
        assert calls == old(calls) + (fetched.calls + Generate(cfg, fetched.inst, req, cap, ans).calls);
      case HAVE_SUID =>
        error, size := GenerateAuthToken(req, msgout, cap, ans, rest);
      case HAVE_AUTHTOK =>
        if kSoCAuth != KeyOf(req) {
          authTok := Zeros(TOKEN_SIZE);
          state := HAVE_SUID;
          error, size := GenerateAuthToken(req, msgout, cap, ans, rest);
        } else {
          size := WriteTokenResponse(msgout, cap, rest);
          error := GDERROR_OK;
          assert calls == old(calls) + [];
        }
    }

    /** memset of the whole output buffer, whatever has been written to it. */
    method Wipe(msgout: array<bv8>, cap: nat, ghost front: seq<bv8>, ghost rest: seq<bv8>)
      requires Written(msgout[..], front, cap, rest)
      modifies msgout
      ensures Written(msgout[..], [], cap, rest)
    {
      Clear(msgout, 0, cap);
      assert msgout[..] == [] + Zeros(cap) + rest;
    }

    /** GDMCHandleValidateAuthToken */
    method HandleValidateAuthTokenMessage(tok: Token, msgout: array<bv8>, cap: nat, ans: Answers, ghost rest: seq<bv8>)
      returns (error: gderror, size: nat)
      requires Valid() && Written(msgout[..], [], cap, rest)
      modifies msgout, this`calls
      ensures Valid()
      ensures Did(HandleValidateAuthToken(cfg, old(Value()), tok, cap, ans), error, size, msgout[..], cap, rest,
                  old(calls))
    {
      hide Written, Compose, ERRMSG_0005, ResultFrame;
      if RESULT_SIZE > cap {
        error, size := ComposeErrorMessage(GDERROR_BUFFER_TOO_SMALL, msgout, cap, ERRMSG_0005(cap, RESULT_SIZE),
                                           ans.textBuffer, rest);
        return;
      }
      if state != HAVE_AUTHTOK {
        error, size := ComposeErrorMessage(GDERROR_VALIDATION_FAILURE, msgout, cap, ERRMSG_000F, ans.textBuffer, rest);
        return;
      }
      var errorcode := GDERROR_PROVISIONING_DONE;
      if tok != authTok {
        errorcode := GDERROR_VALIDATION_FAILURE;
      } else if cfg.readCb {
        calls := calls + [ReadTok(ans.readCode, ans.readSize, ans.readTok)];
        if ans.readCode != GDERROR_OK {
          errorcode := ans.readCode;
        } else if ans.readSize != TOKEN_SIZE || tok != ans.readTok {
          errorcode := GDERROR_VALIDATION_FAILURE;
        }
      }
      assert old(calls) + [] == old(calls);
      WriteResult(msgout, cap, errorcode, rest);
      ResultFrameFacts(errorcode);
      return GDERROR_PROVISIONING_DONE, RESULT_SIZE;
    }

    /** A result frame; the length of its text is never written, the buffer being zero. */
    method WriteResult(msgout: array<bv8>, cap: nat, errorcode: gderror, ghost rest: seq<bv8>)
      requires Valid() && RESULT_SIZE <= cap && Written(msgout[..], [], cap, rest)
      modifies msgout
      ensures Written(msgout[..], ResultFrame(errorcode), cap, rest)
    {
      hide Written, Frame, Le32, ToWord;
      ghost var header := Le32(MC_ERROR) + Le32(ToWord(ERROR_SIZE));
      WriteHeader(msgout, MC_ERROR, ERROR_SIZE, cap, rest);
      Put32(msgout, 8, errorcode, header, cap, rest);
      SkipExtends(msgout[..], header + Le32(errorcode), cap, rest, 4);
      ghost var body := Le32(errorcode) + Zeros(4);
      assert header + Le32(errorcode) + Zeros(4) == header + body;
      WriteTrailer(msgout, MC_ERROR, 16, ERROR_SIZE, body, cap, rest);
      ResultFrameBody(errorcode);
    }

    /** GDMCValidateProvMessage; a null message is only noticed once its size has been checked. */
    method ValidateProvMessage(msg: array?<bv8>, msgsize: nat) returns (error: gderror)
      requires Valid() && msgsize < U32_RANGE && (msg != null ==> msgsize <= msg.Length)
      ensures msg != null ==> error == Verdict(msg[..msgsize], cfg.cmd)
      ensures msg == null ==>
                error == if msgsize < OVERHEAD || msgsize % 4 != 0 then GDERROR_MESSAGE_FORMAT else GDERROR_PARAMETER
    {
      hide Checksum, Pack, Complement, ToNat;
      if msgsize < OVERHEAD {
        return GDERROR_MESSAGE_FORMAT;
      }
      if msgsize % 4 != 0 {
        return GDERROR_MESSAGE_FORMAT;
      }
      if msg == null {
        return GDERROR_PARAMETER;
      }
      ghost var m := msg[..msgsize];
      var msgType, bodySize := Word(msg, 0), ToNat(Word(msg, 4));
      var alignedBodySize := ((bodySize + 3) % U32_RANGE) / 4 * 4;
      var expected := (OVERHEAD + alignedBodySize) % U32_RANGE;
      if msgsize != expected {
        return GDERROR_MESSAGE_FORMAT;
      }
      if msgType != Complement(Word(msg, msgsize - 8)) {
        return GDERROR_MESSAGE_FORMAT;
      }
      var sum := crc.CalcCRC32(msg, msgsize - 4);
      assert msg[..msgsize - 4] == m[..msgsize - 4];
      assert U32(m[msgsize - 4..]) == Word(msg, msgsize - 4);
      if sum != Word(msg, msgsize - 4) {
        return GDERROR_CRC32;
      }
      var ok := CheckBody(msg, msgsize, msgType, bodySize);
      if !ok {
        return GDERROR_MESSAGE_FORMAT;
      }
      return GDERROR_OK;
    }

    /** The switch over the message type. */
    method CheckBody(msg: array<bv8>, msgsize: nat, msgType: bv32, bodySize: nat) returns (ok: bool)
      requires msgsize <= msg.Length && Framed(msg[..msgsize])
      requires msgType == MsgType(msg[..msgsize]) && bodySize == BodySize(msg[..msgsize])
      ensures ok == WellFormed(msg[..msgsize], cfg.cmd)
    {
      hide Pack, Complement, ToNat, TokenFieldsOk, Framed;
      ghost var m := msg[..msgsize];
      FramedSize(m);
      if msgType == MC_GETSUID_REQ {
        return bodySize == 0;
      } else if msgType == MC_GETSUID_RESP {
        return bodySize == SUID_LENGTH;
      } else if msgType == MC_GENAUTHTOKEN_REQ {
        if bodySize != REQ_SIZE {
          return false;
        }
        return Word(msg, 8) == cfg.cmd;
      } else if msgType == MC_GENAUTHTOKEN_RESP {
        if bodySize != RESP_SIZE {
          return false;
        }
        ok := CheckToken(msg, msgsize);
      } else if msgType == MC_VALIDATEAUTHTOKEN_REQ {
        return bodySize == TOKEN_SIZE;
      } else if msgType == MC_ERROR {
        if bodySize < ERROR_SIZE {
          return false;
        }
        return bodySize == ToNat(Word(msg, 12)) + ERROR_SIZE;
      } else {
        return false;
      }
    }

    /** The fields of a token response that have only one legal value. */
    method CheckToken(msg: array<bv8>, msgsize: nat) returns (ok: bool)
      requires OVERHEAD + RESP_SIZE <= msgsize <= msg.Length
      ensures ok == TokenFieldsOk(msg[..msgsize], cfg.cmd)
    {
      hide Word, U32At;
      ghost var m := msg[..msgsize];
      forall at: nat | at <= 68
        ensures Word(msg, at) == U32At(m, at)
      {
        WordInArray(msg, msgsize, at);
      }
      if Word(msg, 8) != cfg.cmd | 0x8000_0000 {
        return false;
      }
      if Word(msg, 52) != 28 || Word(msg, 56) != 32 {
        return false;
      }
      if Word(msg, 16) != 1 || Word(msg, 24) != 1 {
        return false;
      }
      return Word(msg, 60) == 0 && Word(msg, 68) == 2;
    }

    /** GDMCProvExecuteProvisioningStep */
    method ExecuteProvisioningStep(msgin: array?<bv8>, msgin_size: nat, msgout: array?<bv8>, msgout_size: nat,
                                   ans: Answers)
      returns (error: gderror, size: nat)
      requires Valid() && msgin_size < U32_RANGE && msgout_size < U32_RANGE
      requires msgin != null ==> msgin_size <= msgin.Length && msgin != msgout
      requires msgout != null ==> msgout_size <= msgout.Length
      modifies this`state, this`suid, this`kSoCAuth, this`authTok, this`calls, if msgout == null then {} else {msgout}
      ensures Valid()
      // a null pointer where bytes are announced: nothing happens at all
      ensures (msgin == null && msgin_size != 0) || (msgout == null && msgout_size != 0) ==>
                && error == GDERROR_PARAMETER && size == msgout_size && Value() == old(Value()) && calls == old(calls)
                && (msgout != null ==> msgout[..] == old(msgout[..]))
      // otherwise the step of ProvProtocol is taken, and the rest of the buffer is cleared
      ensures (msgin != null || msgin_size == 0) && (msgout != null || msgout_size == 0) ==>
                var request := if msgin == null then [] else old(msgin[..msgin_size]);
                var r := ProvisioningStep(cfg, old(Value()), request, msgout_size, ans);
                && Value() == r.inst && calls == old(calls) + r.calls && error == r.code && size == |r.out|
                && (msgout == null ==> r.out == [])
                && (msgout != null ==> Written(msgout[..], r.out, msgout_size, old(msgout[msgout_size..])))
    {
      if msgin_size != 0 && msgin == null {
        return GDERROR_PARAMETER, msgout_size;
      }
      if msgout_size != 0 {
        if msgout == null {
          return GDERROR_PARAMETER, msgout_size;
        }
        Clear(msgout, 0, msgout_size);
      }
      if msgout == null {
        // a null buffer of no bytes
        var none := new bv8[0];
        assert Written(none[..], [], 0, []);
        error, size := Dispatch(msgin, msgin_size, none, 0, ans, []);
      } else {
        assert msgout[..] == [] + Zeros(msgout_size) + old(msgout[msgout_size..]);
        error, size := Dispatch(msgin, msgin_size, msgout, msgout_size, ans, old(msgout[msgout_size..]));
      }
    }

    /** From the evaluation of the message on, the output buffer being zeroed. */
    method Dispatch(msgin: array?<bv8>, msgin_size: nat, msgout: array<bv8>, cap: nat, ans: Answers,
                    ghost rest: seq<bv8>)
      returns (error: gderror, size: nat)
      requires Valid() && msgin_size < U32_RANGE && Written(msgout[..], [], cap, rest)
      requires if msgin == null then msgin_size == 0 else msgin_size <= msgin.Length && msgin != msgout
      modifies msgout, this`state, this`suid, this`kSoCAuth, this`authTok, this`calls
      ensures Valid()
      ensures var request := if msgin == null then [] else old(msgin[..msgin_size]);
              Did(ProvisioningStep(cfg, old(Value()), request, cap, ans), error, size, msgout[..], cap, rest,
                  old(calls))
    {
      hide Written, Compose, HandleGetSUID, HandleGenAuthToken, HandleValidateAuthToken, Verdict, Accepts, U32At, Pack;
      ghost var request := if msgin == null then [] else msgin[..msgin_size];
      error := ValidateProvMessage(msgin, msgin_size);
      EmptyIsMalformed(cfg.cmd);
      OkMeansAccepted(request, cfg.cmd);
      assert calls == calls + [];
      if error != GDERROR_OK {
        error, size := ComposeErrorMessage(error, msgout, cap, ERRMSG_0006, ans.textBuffer, rest);
        return;
      }
      var msgType := Word(msgin, 0);
      WordInArray(msgin, msgin_size, 0);
      if msgType == MC_GETSUID_REQ {
        error, size := HandleGetSUIDMessage(msgout, cap, ans, rest);
      } else if msgType == MC_GENAUTHTOKEN_REQ {
        RequestSize(request, cfg.cmd);
        assert msgin[8..8 + REQ_SIZE] == request[8..8 + REQ_SIZE];
        error, size := HandleGenAuthTokenMessage(msgin[8..8 + REQ_SIZE], msgout, cap, ans, rest);
      } else if msgType == MC_VALIDATEAUTHTOKEN_REQ {
        DeliveredSize(request, cfg.cmd);
        assert msgin[8..8 + TOKEN_SIZE] == request[8..8 + TOKEN_SIZE];
        error, size := HandleValidateAuthTokenMessage(msgin[8..8 + TOKEN_SIZE], msgout, cap, ans, rest);
      } else {
        error, size := ComposeErrorMessage(GDERROR_UNKNOWN, msgout, cap, ERRMSG_0007, ans.textBuffer, rest);
      }
    }
  }

  lemma WordInArray(a: array<bv8>, n: nat, at: nat)
    requires at + 4 <= n <= a.Length
    ensures Word(a, at) == U32At(a[..n], at)
  {}

  lemma FramedSize(m: seq<bv8>)
    requires Framed(m)
    ensures |m| >= OVERHEAD && (BodySize(m) <= 1000 ==> |m| >= OVERHEAD + BodySize(m))
  {
    hide SelfChecking, U32At, ToNat, Pack, Complement;
  }

  lemma EmptyIsMalformed(cmd: bv32)
    ensures Verdict([], cmd) == GDERROR_MESSAGE_FORMAT
  {}

  lemma Regroup(a: seq<bv8>, b: seq<bv8>, c: seq<bv8>, d: seq<bv8>)
    ensures a + b + c + d == a + (b + c + d)
  {}

  lemma RequestSize(msg: seq<bv8>, cmd: bv32)
    requires IsTokenRequest(msg, cmd)
    ensures |msg| == OVERHEAD + REQ_SIZE && RequestIn(msg, cmd) == msg[8..8 + REQ_SIZE]
  {
    hide SelfChecking, U32At;
  }

  lemma DeliveredSize(msg: seq<bv8>, cmd: bv32)
    requires IsValidation(msg, cmd)
    ensures |msg| == OVERHEAD + TOKEN_SIZE && DeliveredToken(msg, cmd) == msg[8..8 + TOKEN_SIZE]
  {
    hide SelfChecking, U32At;
  }

  lemma ResultFrameBody(code: gderror)
    ensures ResultFrame(code) == Frame(MC_ERROR, ERROR_SIZE, Le32(code) + Zeros(4))
  {
    hide Frame;
    ZeroWord();
    assert PaddedText("") == [];
    assert Le32(code) + Zeros(4) + [] == Le32(code) + Zeros(4);
  }

  lemma ZeroWord()
    ensures Le32(ToWord(0)) == Zeros(4)
  {}

  lemma FetchedHasNoToken(inst: Instance, cap: nat, ans: Answers)
    requires inst.state == INITIAL
    ensures HandleGetSUID(inst, cap, ans).inst.state != HAVE_AUTHTOK
  {
    hide ErrorFrame, SuidResponse, ERRMSG_0005;
  }

  /** Recording calls is all that distinguishes two compositions of the same message. */
  lemma ComposeWithCalls(inst: Instance, error: gderror, text: string, cap: nat, textBuffer: bool, calls: seq<Event>)
    requires |text| < 4096
    ensures Compose(inst, error, text, cap, textBuffer, calls)
            == Compose(inst, error, text, cap, textBuffer, []).(calls := calls)
  {}

  lemma ClearedIsSame(buffer: seq<bv8>, was: seq<bv8>, front: seq<bv8>, cap: nat, rest: seq<bv8>, n: nat)
    requires Written(was, front, cap, rest) && |front| + n <= cap
    requires buffer == was[..|front|] + Zeros(n) + was[|front| + n..]
    ensures Written(buffer, front, cap, rest)
  {
    WriteExtends(was, front, cap, rest, Zeros(n));
    assert Zeros(cap - |front|) == Zeros(n) + Zeros(cap - |front| - n);
  }

  lemma NoText(buffer: seq<bv8>, front: seq<bv8>, cap: nat, rest: seq<bv8>)
    requires Written(buffer, front, cap, rest)
    ensures Written(buffer, front + PaddedText(""), cap, rest)
  {
    assert PaddedText("") == [];
    assert front + [] == front;
  }
}