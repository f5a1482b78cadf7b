/**
 Frames of the provisioning protocol: header (type, body size), body padded to a multiple of
 four, trailer (complemented type, checksum).  All words are little endian.
 */
module ProvFrame {
  import opened Words
  import opened Bits
  import opened Crc32

  type gderror = bv32

  const GDERROR_OK: gderror := 0x0000_0000
  const GDERROR_PARAMETER: gderror := 0x0000_0001
  const GDERROR_CANT_GET_SUID: gderror := 0x0000_0008
  const GDERROR_CANT_BUILD_AUTHTOKEN: gderror := 0x0000_0009
  const GDERROR_VALIDATION_FAILURE: gderror := 0x0000_000D
  const GDERROR_MESSAGE_FORMAT: gderror := 0x0000_0011
  const GDERROR_CRC32: gderror := 0x0000_0012
  const GDERROR_UNKNOWN: gderror := 0x0000_001C
  const GDERROR_BUFFER_TOO_SMALL: gderror := 0x0000_001E
  const GDERROR_PROVISIONING_DONE: gderror := 0x1000_0001

  const MC_GETSUID_REQ: bv32 := 0x0100_434D
  const MC_GETSUID_RESP: bv32 := 0x0200_434D
  const MC_GENAUTHTOKEN_REQ: bv32 := 0x0300_434D
  const MC_GENAUTHTOKEN_RESP: bv32 := 0x0400_434D
  const MC_VALIDATEAUTHTOKEN_REQ: bv32 := 0x0500_434D
  const MC_ERROR: bv32 := 0x0600_434D

  const SUID_LENGTH := 16
  const K_SOC_AUTH_LENGTH := 32
  /** sizeof(gdmc_actmsg_req): type, SUID, key, key id, signature. */
  const REQ_SIZE := 312
  /** sizeof(gdmc_so_authtok); the 124 of the comments predates two format changes. */
  const TOKEN_SIZE := 152
  /** sizeof(gdmc_actmsg_resp): type, return code, token. */
  const RESP_SIZE := 160
  /** sizeof(gdmc_error_msg) without its text. */
  const ERROR_SIZE := 8
  /** Header and trailer together. */
  const OVERHEAD := 16

  /** (n + 3) & ~3 in 32-bit arithmetic. */
  function Align4(n: nat): nat {
    ((n + 3) % U32_RANGE) / 4 * 4
  }

  // ------------------------------------------------------------------------------------------
  // Fields
  // ------------------------------------------------------------------------------------------

  function U32At(s: seq<bv8>, offset: nat): bv32
    requires offset + 4 <= |s|
  {
    Pack(s[offset], s[offset + 1], s[offset + 2], s[offset + 3])
  }

  function MsgType(msg: seq<bv8>): bv32
    requires |msg| >= OVERHEAD
  {
    U32At(msg, 0)
  }

  function BodySize(msg: seq<bv8>): nat
    requires |msg| >= OVERHEAD
  {
    ToNat(U32At(msg, 4))
  }

  function Body(msg: seq<bv8>): seq<bv8>
    requires |msg| >= OVERHEAD
  {
    msg[8..|msg| - 8]
  }

  function Magic(msg: seq<bv8>): bv32
    requires |msg| >= OVERHEAD
  {
    U32At(msg, |msg| - 8)
  }

  // ------------------------------------------------------------------------------------------
  // Composing
  // ------------------------------------------------------------------------------------------

  function Seal(content: seq<bv8>): seq<bv8> {
    content + Le32(Checksum(content))
  }

  /** Everything of a frame that its checksum covers. */
  function Content(t: bv32, size: nat, body: seq<bv8>): (content: seq<bv8>)
    requires size < U32_RANGE
    ensures |content| == 12 + |body|
  {
    Le32(t) + Le32(ToWord(size)) + body + Le32(Complement(t))
  }

  /** The frame of type `t` with `size` in its header; `body` is already padded. */
  function Frame(t: bv32, size: nat, body: seq<bv8>): (msg: seq<bv8>)
    requires size < U32_RANGE
    ensures |msg| == OVERHEAD + |body|
  {
    Seal(Content(t, size, body))
  }

  function Zeros(n: nat): (s: seq<bv8>)
    ensures |s| == n && forall i | 0 <= i < n :: s[i] == 0
  {
    seq(n, _ => 0)
  }

  /** The characters of a text as bytes. */
  function Ascii(text: string): (s: seq<bv8>)
    ensures |s| == |text|
  {
    seq(|text|, i requires 0 <= i < |text| => (text[i] as int % 256) as bv8)
  }

  /** Size of a text with its terminator; an empty text is not sent at all. */
  function TextSize(text: string): nat {
    if text == "" then 0 else |text| + 1
  }

  /** A text with its terminator, zero-padded to a multiple of four. */
  function PaddedText(text: string): (s: seq<bv8>)
    requires |text| < U32_RANGE - 4
    ensures |s| == Align4(TextSize(text))
  {
    Ascii(text) + Zeros(Align4(TextSize(text)) - |text|)
  }

  /** Header with the raw size of the text, body with its aligned size. */
  function ErrorFrame(error: gderror, text: string): (msg: seq<bv8>)
    requires |text| < U32_RANGE - 32
    ensures |msg| == OVERHEAD + ERROR_SIZE + Align4(TextSize(text))
  {
    Frame(MC_ERROR, ERROR_SIZE + TextSize(text),
          Le32(error) + Le32(ToWord(Align4(TextSize(text)))) + PaddedText(text))
  }

  // ------------------------------------------------------------------------------------------
  // Validating
  // ------------------------------------------------------------------------------------------

  /** Size, size field and complemented type fit together. */
  predicate Framed(msg: seq<bv8>) {
    && |msg| >= OVERHEAD
    && |msg| % 4 == 0
    && |msg| == (OVERHEAD + Align4(BodySize(msg))) % U32_RANGE
    && MsgType(msg) == Complement(Magic(msg))
  }

  /** What the validator demands of a MC_GENAUTHTOKEN_RESP body. */
  predicate TokenFieldsOk(msg: seq<bv8>, cmd: bv32)
    requires |msg| >= OVERHEAD + RESP_SIZE
  {
    && U32At(msg, 8) == cmd | 0x8000_0000
    && U32At(msg, 16 + 36) == 28
    && U32At(msg, 16 + 40) == 32
    && U32At(msg, 16 + 0) == 1
    && U32At(msg, 16 + 8) == 1
    && U32At(msg, 16 + 44) == 0
    && U32At(msg, 16 + 52) == 2
  }

  /** The rules of each message type; `cmd` is MC_CMP_CMD_GENERATE_AUTH_TOKEN. */
  predicate WellFormed(msg: seq<bv8>, cmd: bv32)
    requires Framed(msg)
  {
    var t, size := MsgType(msg), BodySize(msg);
    if t == MC_GETSUID_REQ then size == 0
    else if t == MC_GETSUID_RESP then size == SUID_LENGTH
    else if t == MC_GENAUTHTOKEN_REQ then size == REQ_SIZE && U32At(msg, 8) == cmd
    else if t == MC_GENAUTHTOKEN_RESP then size == RESP_SIZE && TokenFieldsOk(msg, cmd)
    else if t == MC_VALIDATEAUTHTOKEN_REQ then size == TOKEN_SIZE
    else if t == MC_ERROR then size >= ERROR_SIZE && size == ToNat(U32At(msg, 12)) + ERROR_SIZE
    else false
  }

  predicate Accepts(msg: seq<bv8>, cmd: bv32) {
    Framed(msg) && SelfChecking(msg) && WellFormed(msg, cmd)
  }

  function Verdict(msg: seq<bv8>, cmd: bv32): gderror {
    if !Framed(msg) then GDERROR_MESSAGE_FORMAT
    else if !SelfChecking(msg) then GDERROR_CRC32
    else if !WellFormed(msg, cmd) then GDERROR_MESSAGE_FORMAT
    else GDERROR_OK
  }

  lemma OkMeansAccepted(msg: seq<bv8>, cmd: bv32)
    ensures Verdict(msg, cmd) == GDERROR_OK <==> Accepts(msg, cmd)
    ensures Accepts(msg, cmd) ==> |msg| >= OVERHEAD
  {
    hide SelfChecking, WellFormed;
  }

  // ------------------------------------------------------------------------------------------
  // Composing and taking apart
  // ------------------------------------------------------------------------------------------

  lemma {:induction false} WordAt(front: seq<bv8>, w: bv32, back: seq<bv8>)
    ensures U32At(front + Le32(w) + back, |front|) == w
  {
    hide Le32, Pack;
    var s, word := front + Le32(w) + back, Le32(w);
    U32OfLe32(w);
    assert forall i | 0 <= i < 4 :: s[|front| + i] == word[i];
  }

  lemma {:induction false} WordOfSlice(s: seq<bv8>, at: nat)
    requires at + 4 <= |s|
    ensures Le32(U32At(s, at)) == s[at..at + 4]
  {
    hide Le32, Pack;
    Le32OfU32(s[at..at + 4]);
  }

  lemma {:induction false} ContentFields(t: bv32, size: nat, body: seq<bv8>, tail: seq<bv8>)
    requires size < U32_RANGE
    ensures var msg := Content(t, size, body) + tail;
            && U32At(msg, 0) == t && U32At(msg, 4) == ToWord(size)
            && msg[8..8 + |body|] == body && U32At(msg, 8 + |body|) == Complement(t)
  {
    hide Le32, U32At, Complement, ToWord;
    var msg := Content(t, size, body) + tail;
    var a, b, d := Le32(t), Le32(ToWord(size)), Le32(Complement(t));
    assert msg == [] + a + (b + body + d + tail);
    WordAt([], t, b + body + d + tail);
    assert msg == a + b + (body + d + tail);
    WordAt(a, ToWord(size), body + d + tail);
    assert msg == (a + b + body) + d + tail;
    WordAt(a + b + body, Complement(t), tail);
  }

  lemma AlignedSize(n: nat)
    ensures Align4(n) % 4 == 0 && Align4(n) < U32_RANGE
  {}

  /** Every composed frame is framed, sealed, and gives its three parts back. */
  lemma {:induction false} FrameParts(t: bv32, size: nat, body: seq<bv8>)
    requires size < U32_RANGE && |body| == Align4(size) && |body| + OVERHEAD < U32_RANGE
    ensures var msg := Frame(t, size, body);
            && Framed(msg) && SelfChecking(msg)
            && MsgType(msg) == t && BodySize(msg) == size && Body(msg) == body && Magic(msg) == Complement(t)
  {
    hide Le32, U32, U32At, Checksum, Complement, ToWord, ToNat, Align4, Content;
    var msg, content := Frame(t, size, body), Content(t, size, body);
    var sum := Checksum(content);
    ContentFields(t, size, body, Le32(sum));
    IntRoundTrip(size);
    AlignedSize(size);
    DoubleComplement(t);
    U32OfLe32(sum);
    assert msg[|msg| - 4..] == Le32(sum) && msg[..|msg| - 4] == content;
  }

  lemma {:induction false} ContentOfParts(msg: seq<bv8>)
    requires |msg| >= OVERHEAD && MsgType(msg) == Complement(Magic(msg))
    ensures msg[..|msg| - 4] == Content(MsgType(msg), BodySize(msg), Body(msg))
  {
    hide Le32, U32At, Complement, ToWord, ToNat;
    var n := |msg|;
    WordOfSlice(msg, 0);
    WordOfSlice(msg, 4);
    WordOfSlice(msg, n - 8);
    WordRoundTrip(U32At(msg, 4));
    DoubleComplement(Magic(msg));
    assert msg[..n - 4] == msg[0..4] + msg[4..8] + msg[8..n - 8] + msg[n - 8..n - 4];
  }

  /** A framed message that checks itself is the composition of its parts. */
  lemma {:induction false} FrameOfParts(msg: seq<bv8>)
    requires Framed(msg) && SelfChecking(msg)
    ensures |Body(msg)| == Align4(BodySize(msg))
    ensures msg == Frame(MsgType(msg), BodySize(msg), Body(msg))
  {
    hide Le32, U32, U32At, Checksum, Complement, ToNat, Align4, Content;
    ContentOfParts(msg);
    AlignedSize(BodySize(msg));
    Le32OfU32(msg[|msg| - 4..]);
    assert msg == msg[..|msg| - 4] + msg[|msg| - 4..];
  }

  /** The validator accepts exactly the compositions whose parts obey the rules of their type. */
  lemma {:induction false} AcceptsExactlyFrames(msg: seq<bv8>, cmd: bv32)
    requires |msg| < U32_RANGE
    ensures Accepts(msg, cmd) <==>
            exists t: bv32, size: nat, body: seq<bv8> ::
              && size < U32_RANGE && |body| == Align4(size) && msg == Frame(t, size, body)
              && Framed(msg) && WellFormed(msg, cmd)
  {
    hide SelfChecking, WellFormed, Frame, Checksum;
    if Accepts(msg, cmd) {
      FrameOfParts(msg);
      assert msg == Frame(MsgType(msg), BodySize(msg), Body(msg));
    }
    forall t: bv32, size: nat, body: seq<bv8> |
        size < U32_RANGE && |body| == Align4(size) && msg == Frame(t, size, body) && Framed(msg) && WellFormed(msg, cmd)
      ensures Accepts(msg, cmd)
    {
      FrameParts(t, size, body);
    }
  }

  // ------------------------------------------------------------------------------------------
  // Error detection
  // ------------------------------------------------------------------------------------------

  lemma FramedIsLong(msg: seq<bv8>)
    requires Framed(msg)
    ensures |msg| >= OVERHEAD
  {}

  /**
   Whatever is changed inside some four consecutive bytes of an accepted frame, even across the
   checksum field, the result is not accepted; if it still looks like a frame, the checksum
   is what gives it away.
   */
  lemma {:induction false} BurstDetected(x: seq<bv8>, y: seq<bv8>, at: nat, cmd: bv32)
    requires Accepts(x, cmd) && DifferWithin(x, y, at) && x != y
    ensures !Accepts(y, cmd)
    ensures Verdict(y, cmd) == if Framed(y) then GDERROR_CRC32 else GDERROR_MESSAGE_FORMAT
  {
    hide Framed, WellFormed, SelfChecking, Register;
    FramedIsLong(x);
    Residue(x);
    Residue(y);
    if SelfChecking(y) {
      BurstChangesRegister(x, y, at);
    }
  }

  // ------------------------------------------------------------------------------------------
  // Error messages
  // ------------------------------------------------------------------------------------------

  lemma AlignPastHeader(n: nat)
    requires n < U32_RANGE - 31
    ensures n <= Align4(n) <= n + 3
    ensures Align4(ERROR_SIZE + n) == ERROR_SIZE + Align4(n)
    ensures Align4(n) == n <==> n % 4 == 0
  {}

  /**
   A composed error message is always framed and sealed, and carries the error code.  Its header
   holds the raw size of the text and its body the aligned size, so the validator of the same
   library takes it exactly when the two are equal.
   */
  lemma {:induction false} ErrorFrameAccepted(error: gderror, text: string, cmd: bv32)
    requires |text| < U32_RANGE - 32
    ensures var msg := ErrorFrame(error, text);
            && Framed(msg) && SelfChecking(msg) && MsgType(msg) == MC_ERROR && U32At(msg, 8) == error
            && (Accepts(msg, cmd) <==> TextSize(text) % 4 == 0)
  {
    hide Le32, U32, Pack, Checksum, Complement, ToWord, ToNat, Align4, Content, Frame, Framed, PaddedText;
    var n := TextSize(text);
    var aligned := Align4(n);
    AlignPastHeader(n);
    AlignedSize(n);
    var padded := PaddedText(text);
    var body, msg := Le32(error) + Le32(ToWord(aligned)) + padded, ErrorFrame(error, text);
    FrameParts(MC_ERROR, ERROR_SIZE + n, body);
    assert body == [] + Le32(error) + (Le32(ToWord(aligned)) + padded);
    WordAt([], error, Le32(ToWord(aligned)) + padded);
    WordAt(Le32(error), ToWord(aligned), padded);
    WordInBody(msg, 0);
    WordInBody(msg, 4);
    IntRoundTrip(aligned);
  }

  lemma {:induction false} WordInBody(msg: seq<bv8>, offset: nat)
    requires |msg| >= OVERHEAD && offset + 4 <= |Body(msg)|
    ensures U32At(msg, 8 + offset) == U32At(Body(msg), offset)
  {
    hide Pack;
    assert forall i | 0 <= i < |Body(msg)| :: Body(msg)[i] == msg[8 + i];
  }
}
