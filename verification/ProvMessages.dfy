/**
 The bodies of the provisioning messages as structures, and which frames made of them the
 validator accepts.
 */
module ProvMessages {
  import opened Words
  import opened Bits
  import opened Crc32
  import opened ProvFrame

  type Bytes16 = s: seq<bv8> | |s| == 16 witness Zeros(16)
  type Bytes32 = s: seq<bv8> | |s| == 32 witness Zeros(32)
  type Bytes256 = s: seq<bv8> | |s| == 256 witness Zeros(256)

  /** gdmc_actmsg_req */
  datatype ActivationRequest =
    ActivationRequest(msgType: bv32, suid: Bytes16, kSoCAuth: Bytes32, kid: bv32, dsig: Bytes256)

  function RequestBytes(m: ActivationRequest): (s: seq<bv8>)
    ensures |s| == REQ_SIZE
  {
    Le32(m.msgType) + m.suid + m.kSoCAuth + Le32(m.kid) + m.dsig
  }

  /** The header of gdmc_so_authtok. */
  datatype TokenHeader = TokenHeader(
    contentType: bv32, version: bv32, context: bv32, lifetime: bv32, producerSpid: bv32, producerUuid: Bytes16,
    plainLength: bv32, encryptedLength: bv32)

  /** The plaintext and the encrypted data of gdmc_so_authtok. */
  datatype TokenData = TokenData(
    contType: bv32, contVersion: bv32, contState: bv32, suid: Bytes16, kSoCAuth: Bytes32, md: Bytes32, padding: Bytes16)

  function HeaderBytes(h: TokenHeader): (s: seq<bv8>)
    ensures |s| == 44
  {
    Le32(h.contentType) + Le32(h.version) + Le32(h.context) + Le32(h.lifetime) + Le32(h.producerSpid) + h.producerUuid
    + Le32(h.plainLength) + Le32(h.encryptedLength)
  }

  function DataBytes(d: TokenData): (s: seq<bv8>)
    ensures |s| == 108
  {
    Le32(d.contType) + Le32(d.contVersion) + Le32(d.contState) + d.suid + d.kSoCAuth + d.md + d.padding
  }

  /** gdmc_actmsg_resp */
  function ResponseBytes(msgType: bv32, retcode: bv32, h: TokenHeader, d: TokenData): (s: seq<bv8>)
    ensures |s| == RESP_SIZE
  {
    Le32(msgType) + Le32(retcode) + HeaderBytes(h) + DataBytes(d)
  }

  // ------------------------------------------------------------------------------------------
  // Fields
  // ------------------------------------------------------------------------------------------

  lemma HeaderStart(h: TokenHeader)
    ensures U32At(HeaderBytes(h), 0) == h.contentType && U32At(HeaderBytes(h), 8) == h.context
  {
    hide Le32, U32At;
    var a, b, c := Le32(h.contentType), Le32(h.version), Le32(h.context);
    var d := Le32(h.lifetime) + Le32(h.producerSpid) + h.producerUuid + Le32(h.plainLength) + Le32(h.encryptedLength);
    assert HeaderBytes(h) == [] + a + (b + c + d);
    WordAt([], h.contentType, b + c + d);
    assert HeaderBytes(h) == (a + b) + c + d;
    WordAt(a + b, h.context, d);
  }

  lemma HeaderEnd(h: TokenHeader)
    ensures U32At(HeaderBytes(h), 36) == h.plainLength && U32At(HeaderBytes(h), 40) == h.encryptedLength
  {
    hide Le32, U32At;
    var front := Le32(h.contentType) + Le32(h.version) + Le32(h.context) + Le32(h.lifetime) + Le32(h.producerSpid)
                 + h.producerUuid;
    var e, f := Le32(h.plainLength), Le32(h.encryptedLength);
    WordAt(front, h.plainLength, f);
    assert HeaderBytes(h) == (front + e) + f + [];
    WordAt(front + e, h.encryptedLength, []);
  }

  lemma DataFields(d: TokenData)
    ensures U32At(DataBytes(d), 0) == d.contType && U32At(DataBytes(d), 8) == d.contState
  {
    hide Le32, U32At;
    var a, b, c, e := Le32(d.contType), Le32(d.contVersion), Le32(d.contState), d.suid + d.kSoCAuth + d.md + d.padding;
    assert DataBytes(d) == [] + a + (b + c + e);
    WordAt([], d.contType, b + c + e);
    assert DataBytes(d) == (a + b) + c + e;
    WordAt(a + b, d.contState, e);
  }

  lemma WordWithin(front: seq<bv8>, s: seq<bv8>, back: seq<bv8>, offset: nat)
    requires offset + 4 <= |s|
    ensures U32At(front + s + back, |front| + offset) == U32At(s, offset)
  {
    hide Pack;
    var all := front + s + back;
    assert forall i | 0 <= i < |s| :: all[|front| + i] == s[i];
  }

  lemma ResponseFields(msgType: bv32, retcode: bv32, h: TokenHeader, d: TokenData)
    ensures var s := ResponseBytes(msgType, retcode, h, d);
            && U32At(s, 0) == msgType
            && U32At(s, 8) == h.contentType && U32At(s, 16) == h.context
            && U32At(s, 44) == h.plainLength && U32At(s, 48) == h.encryptedLength
            && U32At(s, 52) == d.contType && U32At(s, 60) == d.contState
  {
    hide Le32, U32At, HeaderBytes, DataBytes;
    var a, b, x, y := Le32(msgType), Le32(retcode), HeaderBytes(h), DataBytes(d);
    var s := ResponseBytes(msgType, retcode, h, d);
    assert s == [] + a + (b + x + y);
    WordAt([], msgType, b + x + y);
    assert s == (a + b) + x + y && s == (a + b + x) + y + [];
    HeaderStart(h);
    HeaderEnd(h);
    WordWithin(a + b, x, y, 0);
    WordWithin(a + b, x, y, 8);
    WordWithin(a + b, x, y, 36);
    WordWithin(a + b, x, y, 40);
    DataFields(d);
    WordWithin(a + b + x, y, [], 0);
    WordWithin(a + b + x, y, [], 8);
  }

  // ------------------------------------------------------------------------------------------
  // What the validator accepts
  // ------------------------------------------------------------------------------------------

  lemma WordOfFrame(t: bv32, size: nat, body: seq<bv8>, offset: nat)
    requires size < U32_RANGE && offset + 4 <= |body|
    ensures U32At(Frame(t, size, body), 8 + offset) == U32At(body, offset)
  {
    hide Le32, Checksum, U32At;
    var msg := Frame(t, size, body);
    assert msg == Le32(t) + Le32(ToWord(size)) + body + (Le32(Complement(t)) + Le32(Checksum(Content(t, size, body))));
    WordWithin(Le32(t) + Le32(ToWord(size)), body, Le32(Complement(t)) + Le32(Checksum(Content(t, size, body))),
               offset);
  }

  /** A frame of the given parts is a frame; whether it is accepted is left to the rules of its type. */
  lemma {:induction false} Composed(t: bv32, size: nat, body: seq<bv8>, cmd: bv32)
    requires size < U32_RANGE && |body| == Align4(size) && |body| + OVERHEAD < U32_RANGE
    ensures var msg := Frame(t, size, body);
            && Framed(msg) && MsgType(msg) == t && BodySize(msg) == size && |msg| == OVERHEAD + |body|
            && (Accepts(msg, cmd) <==> WellFormed(msg, cmd))
  {
    hide SelfChecking, WellFormed, U32At;
    FrameParts(t, size, body);
  }

  /** The types whose rule is a size, and those that no rule allows. */
  lemma {:induction false} AcceptedBySize(t: bv32, size: nat, body: seq<bv8>, cmd: bv32)
    requires size < U32_RANGE && |body| == Align4(size) && |body| + OVERHEAD < U32_RANGE
    requires t != MC_GENAUTHTOKEN_REQ && t != MC_GENAUTHTOKEN_RESP && t != MC_ERROR
    ensures Accepts(Frame(t, size, body), cmd) <==>
              || (t == MC_GETSUID_REQ && size == 0)
              || (t == MC_GETSUID_RESP && size == SUID_LENGTH)
              || (t == MC_VALIDATEAUTHTOKEN_REQ && size == TOKEN_SIZE)
  {
    hide Frame, Framed, Accepts, U32At, MsgType, BodySize;
    Composed(t, size, body, cmd);
  }

  /** An activation request is accepted exactly with the command of the secure world in it. */
  lemma {:induction false} RequestAccepted(m: ActivationRequest, cmd: bv32)
    ensures Accepts(Frame(MC_GENAUTHTOKEN_REQ, REQ_SIZE, RequestBytes(m)), cmd) <==> m.msgType == cmd
  {
    hide Frame, Framed, Accepts, U32At, Le32, MsgType, BodySize;
    var body := RequestBytes(m);
    Composed(MC_GENAUTHTOKEN_REQ, REQ_SIZE, body, cmd);
    WordOfFrame(MC_GENAUTHTOKEN_REQ, REQ_SIZE, body, 0);
    assert body == [] + Le32(m.msgType) + (m.suid + m.kSoCAuth + Le32(m.kid) + m.dsig);
    WordAt([], m.msgType, m.suid + m.kSoCAuth + Le32(m.kid) + m.dsig);
  }

  /** Activation requests and responses have one size each. */
  lemma {:induction false} NoOtherSize(t: bv32, size: nat, body: seq<bv8>, cmd: bv32)
    requires size < U32_RANGE && |body| == Align4(size) && |body| + OVERHEAD < U32_RANGE
    requires (t == MC_GENAUTHTOKEN_REQ && size != REQ_SIZE) || (t == MC_GENAUTHTOKEN_RESP && size != RESP_SIZE)
    ensures !Accepts(Frame(t, size, body), cmd)
  {
    hide Frame, Framed, Accepts, U32At, MsgType, BodySize;
    Composed(t, size, body, cmd);
  }

  const AUTHENTICATION_TOKEN: bv32 := 1
  const CONTEXT_SYSTEM: bv32 := 1
  const CONT_TYPE_SOC: bv32 := 0
  const MC_CONT_STATE_ACTIVATED: bv32 := 2

  /**
   A token response is accepted exactly if it answers the command, and its token is one of an
   activated SoC with a plaintext of a SUID and three words and an encrypted key.
   */
  lemma {:induction false} ResponseAccepted(msgType: bv32, retcode: bv32, h: TokenHeader, d: TokenData, cmd: bv32)
    ensures Accepts(Frame(MC_GENAUTHTOKEN_RESP, RESP_SIZE, ResponseBytes(msgType, retcode, h, d)), cmd) <==>
              && msgType == cmd | 0x8000_0000
              && h.contentType == AUTHENTICATION_TOKEN && h.context == CONTEXT_SYSTEM
              && h.plainLength == 28 && h.encryptedLength == 32
              && d.contType == CONT_TYPE_SOC && d.contState == MC_CONT_STATE_ACTIVATED
  {
    hide Frame, Framed, Accepts, U32At, ResponseBytes, MsgType, BodySize;
    var t, body := MC_GENAUTHTOKEN_RESP, ResponseBytes(msgType, retcode, h, d);
    Composed(t, RESP_SIZE, body, cmd);
    ResponseFields(msgType, retcode, h, d);
    WordOfFrame(t, RESP_SIZE, body, 0);
    WordOfFrame(t, RESP_SIZE, body, 8);
    WordOfFrame(t, RESP_SIZE, body, 16);
    WordOfFrame(t, RESP_SIZE, body, 44);
    WordOfFrame(t, RESP_SIZE, body, 48);
    WordOfFrame(t, RESP_SIZE, body, 52);
    WordOfFrame(t, RESP_SIZE, body, 60);
  }

  /** An error message is accepted exactly if its header counts its own eight bytes and the text it announces. */
  lemma {:induction false} ErrorAccepted(size: nat, error: gderror, length: bv32, text: seq<bv8>, cmd: bv32)
    requires 8 <= size < U32_RANGE && 8 + |text| == Align4(size) && |text| + 24 < U32_RANGE
    ensures Accepts(Frame(MC_ERROR, size, Le32(error) + Le32(length) + text), cmd) <==> size == 8 + ToNat(length)
  {
    hide Frame, Framed, Accepts, U32At, Le32, ToNat, MsgType, BodySize, Align4;
    var body := Le32(error) + Le32(length) + text;
    Composed(MC_ERROR, size, body, cmd);
    WordAt(Le32(error), length, text);
    WordOfFrame(MC_ERROR, size, body, 4);
  }

  /** What is a frame, and still not accepted, is refused for its format. */
  lemma {:induction false} VerdictOfFrame(t: bv32, size: nat, body: seq<bv8>, cmd: bv32)
    requires size < U32_RANGE && |body| == Align4(size) && |body| + OVERHEAD < U32_RANGE
    ensures var msg := Frame(t, size, body);
            Verdict(msg, cmd) == if Accepts(msg, cmd) then GDERROR_OK else GDERROR_MESSAGE_FORMAT
  {
    hide Frame, Framed, SelfChecking, WellFormed;
    FrameParts(t, size, body);
  }
}
