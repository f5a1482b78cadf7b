/**
 The file names of the registry: a service provider id is written as eight hexadecimal digits in
 reverse, a UUID as two digits a byte; what the names determine, and that no name of one family
 is one of another.
 */
module RegistryNames {
  import opened Words

  type Spid = x: nat | x < U32_RANGE

  const UUID_LENGTH := 16
  type Uuid = s: seq<byte> | |s| == UUID_LENGTH witness [0, 0, 0, 0, 0, 0, 0, 0, 0, 0, 0, 0, 0, 0, 0, 0]

  // ------------------------------------------------------------------------------------------
  // Digits
  // ------------------------------------------------------------------------------------------

  function Upper(d: nat): (c: char)
    requires d < 16
    ensures c != '/'
  {
    ['0', '1', '2', '3', '4', '5', '6', '7', '8', '9', 'A', 'B', 'C', 'D', 'E', 'F'][d]
  }

  function Lower(d: nat): (c: char)
    requires d < 16
    ensures c != '/' && c != '.'
  {
    ['0', '1', '2', '3', '4', '5', '6', '7', '8', '9', 'a', 'b', 'c', 'd', 'e', 'f'][d]
  }

  /** The value of a digit in either case. */
  function DigitValue(c: char): nat {
    if '0' <= c <= '9' then (c - '0') as int
    else if 'A' <= c <= 'F' then 10 + (c - 'A') as int
    else if 'a' <= c <= 'f' then 10 + (c - 'a') as int
    else 0
  }

  lemma DigitRoundTrip(d: nat)
    requires d < 16
    ensures DigitValue(Upper(d)) == d && DigitValue(Lower(d)) == d
  {}

  // ------------------------------------------------------------------------------------------
  // uint32ToString
  // ------------------------------------------------------------------------------------------

  function Power16(n: nat): (p: nat)
    ensures p > 0
  {
    if n == 0 then 1 else 16 * Power16(n - 1)
  }

  /** snprintf "%08X", for `n` digits */
  function Hex(value: nat, n: nat): (s: string)
    ensures |s| == n && '/' !in s
  {
    if n == 0 then "" else Hex(value / 16, n - 1) + [Upper(value % 16)]
  }

  function Reverse(s: string): (r: string)
    ensures |r| == |s| && forall c :: c in r ==> c in s
  {
    if s == "" then "" else [s[|s| - 1]] + Reverse(s[..|s| - 1])
  }

  /** uint32ToString */
  function SpidName(spid: Spid): (s: string)
    ensures |s| == 8 && '/' !in s
  {
    Reverse(Hex(spid, 8))
  }

  /** Reads digits from the least significant on. */
  function Value(s: string): nat {
    if s == "" then 0 else DigitValue(s[0]) + 16 * Value(s[1..])
  }

  lemma {:induction false} HexRoundTrip(value: nat, n: nat)
    requires value < Power16(n)
    ensures Value(Reverse(Hex(value, n))) == value
  {
    if n > 0 {
      HexRoundTrip(value / 16, n - 1);
      DigitRoundTrip(value % 16);
      var s := Hex(value, n);
      assert s[..|s| - 1] == Hex(value / 16, n - 1);
      assert Reverse(s)[1..] == Reverse(Hex(value / 16, n - 1));
    }
  }

  lemma Powers()
    ensures Power16(8) == U32_RANGE
  {
    assert Power16(4) == 0x1_0000;
  }

  /** The name of a service provider can be read back. */
  lemma {:induction false} SpidRoundTrip(spid: Spid)
    ensures Value(SpidName(spid)) == spid
  {
    Powers();
    HexRoundTrip(spid, 8);
  }

  // ------------------------------------------------------------------------------------------
  // byteArrayToString
  // ------------------------------------------------------------------------------------------

  function BytesName(bytes: seq<byte>): (s: string)
    ensures |s| == 2 * |bytes| && '/' !in s
  {
    if bytes == [] then ""
    else
      var b := bytes[|bytes| - 1] as nat;
      BytesName(bytes[..|bytes| - 1]) + [Lower(b / 16), Lower(b % 16)]
  }

  function BytesValue(s: string): seq<byte>
    requires |s| % 2 == 0
  {
    if s == "" then []
    else
      var v := 16 * DigitValue(s[|s| - 2]) + DigitValue(s[|s| - 1]);
      BytesValue(s[..|s| - 2]) + [(v % 256) as byte]
  }

  lemma TwoDigits(b: nat)
    requires b < 256
    ensures (16 * DigitValue(Lower(b / 16)) + DigitValue(Lower(b % 16))) % 256 == b
  {
    hide DigitValue, Lower;
    DigitRoundTrip(b / 16);
    DigitRoundTrip(b % 16);
  }

  lemma {:induction false} BytesRoundTrip(bytes: seq<byte>)
    ensures BytesValue(BytesName(bytes)) == bytes
  {
    hide DigitValue, Lower;
    if bytes != [] {
      var front, b := bytes[..|bytes| - 1], bytes[|bytes| - 1] as nat;
      BytesRoundTrip(front);
      TwoDigits(b);
      var s := BytesName(bytes);
      assert s[..|s| - 2] == BytesName(front) && s[|s| - 2..] == [Lower(b / 16), Lower(b % 16)];
    }
  }

  // ------------------------------------------------------------------------------------------
  // Names and paths
  // ------------------------------------------------------------------------------------------

  /** What a container is stored under. */
  datatype Key = Root | Sp(spid: Spid) | Tl(uuid: Uuid, owner: Spid)

  const REGISTRY_PATH := "/data/app/mcRegistry"
  const SYSTEM_PATH := "/system/app/mcRegistry"
  const ROOT_FILE_NAME := "00000000.rootcont"
  const SP_CONT_FILE_EXT := ".spcont"
  const TL_CONT_FILE_EXT := ".tlcont"
  const TL_BIN_FILE_EXT := ".tlbin"

  function Name(key: Key): (s: string)
    ensures |s| == match key case Root => 17 case Sp(_) => 15 case Tl(_, _) => 48
    ensures '/' !in s
  {
    match key
    case Root => ROOT_FILE_NAME
    case Sp(spid) => SpidName(spid) + SP_CONT_FILE_EXT
    case Tl(uuid, owner) => BytesName(uuid) + "." + SpidName(owner) + TL_CONT_FILE_EXT
  }

  /** getRootContFilePath, getSpContFilePath, getTlContFilePath */
  function PathOf(key: Key): string {
    REGISTRY_PATH + "/" + Name(key)
  }

  lemma {:induction false} NamesDiffer(key: Key, other: Key)
    ensures Name(key) == Name(other) <==> key == other
  {
    if Name(key) == Name(other) {
      match key {
        case Root =>
        case Sp(spid) =>
          assert Name(key)[..8] == SpidName(spid) && Name(other)[..8] == SpidName(other.spid);
          SpidRoundTrip(spid);
          SpidRoundTrip(other.spid);
        case Tl(uuid, owner) =>
          assert Name(key)[..32] == BytesName(uuid) && Name(other)[..32] == BytesName(other.uuid);
          assert Name(key)[33..41] == SpidName(owner) && Name(other)[33..41] == SpidName(other.owner);
          BytesRoundTrip(uuid);
          BytesRoundTrip(other.uuid);
          SpidRoundTrip(owner);
          SpidRoundTrip(other.owner);
      }
    }
  }

  /** Different keys are different files, within a family and across families. */
  lemma {:induction false} PathsDiffer(key: Key, other: Key)
    ensures PathOf(key) == PathOf(other) <==> key == other
  {
    NamesDiffer(key, other);
    var n := |REGISTRY_PATH| + 1;
    assert PathOf(key)[n..] == Name(key) && PathOf(other)[n..] == Name(other);
  }

  lemma {:induction false} ReverseAt(s: string, i: nat)
    requires i < |s|
    ensures Reverse(s)[i] == s[|s| - 1 - i]
  {
    if i > 0 {
      ReverseAt(s[..|s| - 1], i - 1);
    }
  }

  lemma {:induction false} HexAt(value: nat, n: nat, i: nat)
    requires i < n
    ensures Hex(value, n)[n - 1 - i] == Upper(value / Power16(i) % 16)
  {
    if i > 0 {
      HexAt(value / 16, n - 1, i - 1);
      DivideTwice(value, Power16(i - 1));
    }
  }

  lemma DivideTwice(value: nat, p: nat)
    requires p > 0
    ensures value / 16 / p == value / (16 * p)
  {
    var q, r := value / 16 / p, value / 16 % p;
    assert value == 16 * (q * p + r) + value % 16;
    assert 16 * (q * p + r) == q * (16 * p) + 16 * r;
    QuotientIs(value, 16 * p, q, 16 * r + value % 16);
  }

  lemma QuotientIs(x: nat, m: nat, q: nat, r: nat)
    requires m > 0 && x == q * m + r && r < m
    ensures x / m == q
  {
    var d := x / m - q;
    assert d * m == r - x % m;
    MultipleIsFar(d, m);
  }

  lemma MultipleIsFar(d: int, m: int)
    requires m > 0
    ensures d >= 1 ==> d * m >= m
    ensures d <= -1 ==> d * m <= -m
  {}

  /** An id is spelled with its last digit first, in capitals; a UUID byte by byte, in small letters. */
  lemma {:induction false} SpidSpelled(spid: Spid, i: nat)
    requires i < 8
    ensures SpidName(spid)[i] == Upper(spid / Power16(i) % 16) && Upper(10) == 'A'
  {
    ReverseAt(Hex(spid, 8), i);
    HexAt(spid, 8, i);
  }

  lemma {:induction false} BytesSpelled(bytes: seq<byte>, i: nat)
    requires i < |bytes|
    ensures BytesName(bytes)[2 * i] == Lower(bytes[i] as nat / 16)
    ensures BytesName(bytes)[2 * i + 1] == Lower(bytes[i] as nat % 16) && Lower(10) == 'a'
  {
    if i < |bytes| - 1 {
      BytesSpelled(bytes[..|bytes| - 1], i);
    }
  }

  // ------------------------------------------------------------------------------------------
  // Files that hold no container
  // ------------------------------------------------------------------------------------------

  /** A file in a directory of the registry. */
  function InDirectory(directory: string, name: string): string {
    REGISTRY_PATH + "/" + directory + "/" + name
  }

  lemma {:induction false} NotInDirectory(key: Key, directory: string, name: string)
    ensures PathOf(key) != InDirectory(directory, name)
  {
    var path, n := InDirectory(directory, name), |REGISTRY_PATH| + 1;
    assert path[n..] == directory + "/" + name;
    assert path[n..][|directory|] == '/';
    assert PathOf(key)[n..] == Name(key);
  }

  /** getTlBinFilePath, with whichever root is in use */
  function BinaryPath(base: string, uuid: Uuid): string {
    base + "/" + BytesName(uuid) + TL_BIN_FILE_EXT
  }

  lemma {:induction false} EndsLikeAContainer(key: Key)
    ensures |PathOf(key)| >= 15 && PathOf(key)[|PathOf(key)| - 1] == 't' && PathOf(key)[1] == 'd'
  {
    hide SpidName, BytesName;
    assert PathOf(key)[|PathOf(key)| - 1] == Name(key)[|Name(key)| - 1];
  }

  lemma {:induction false} NotABinary(key: Key, base: string, uuid: Uuid)
    ensures PathOf(key) != BinaryPath(base, uuid)
  {
    hide Name;
    var path := BinaryPath(base, uuid);
    EndsLikeAContainer(key);
    assert path[|path| - 1] == 'n';
  }

  /** What a sweep for the trusted applications of a service provider deletes: .tabin, .spid and secure storage. */
  predicate IsSweepable(path: string) {
    || (|path| >= 6 && path[|path| - 6..] == ".tabin")
    || (|path| >= 5 && path[|path| - 5..] == ".spid")
    || REGISTRY_PATH + "/TbStorage/" <= path
    || SYSTEM_PATH + "/TbStorage/" <= path
  }

  lemma {:induction false} NotSweepable(key: Key)
    ensures !IsSweepable(PathOf(key))
  {
    hide Name;
    var path, n := PathOf(key), |REGISTRY_PATH| + 1;
    EndsLikeAContainer(key);
    assert (SYSTEM_PATH + "/TbStorage/")[1] == 's';
    assert path[n..] == Name(key) && path[n..][9] == path[n + 9];
    assert (REGISTRY_PATH + "/TbStorage/")[n + 9] == '/';
  }
}
