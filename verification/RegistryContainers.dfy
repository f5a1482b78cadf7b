/**
 The root and provider containers as structures: a header, the container with its children, the
 secrets, and hash and padding.
 */
module RegistryContainers {
  import opened Wrappers
  import opened Words
  import opened RegistryNames
  import opened Registry

  const HEADER_SIZE := 44
  const SECRET_SIZE := 32
  const HASH_AND_PAD_SIZE := 48

  type Header = s: seq<byte> | |s| == HEADER_SIZE witness seq(HEADER_SIZE, _ => 0)
  type Word = s: seq<byte> | |s| == 4 witness [0, 0, 0, 0]
  type Suid = s: seq<byte> | |s| == 16 witness seq(16, _ => 0)
  type Tail = s: seq<byte> | |s| == SECRET_SIZE + HASH_AND_PAD_SIZE witness seq(SECRET_SIZE + HASH_AND_PAD_SIZE, _ => 0)
  type Providers = s: seq<Spid> | |s| == CHILDREN_COUNT witness seq(CHILDREN_COUNT, _ => 0)
  type Trustlets = s: seq<Uuid> | |s| == CHILDREN_COUNT witness seq(CHILDREN_COUNT, _ => UUID_FREE)

  /** mcSoRootCont_t; the tail is the secrets, hash and padding. */
  datatype RootStruct = RootStruct(
    header: Header, contType: Word, version: Word, attribs: Word, suid: Suid, rootid: Word,
    children: Providers, tail: Tail)

  /** mcSoSpCont_t */
  datatype SpStruct = SpStruct(
    header: Header, contType: Word, version: Word, attribs: Word, spid: Word, children: Trustlets, tail: Tail)

  function WordBytes(n: Spid): Word {
    [(n % 0x100) as byte, (n / 0x100 % 0x100) as byte, (n / 0x1_0000 % 0x100) as byte, (n / 0x100_0000) as byte]
  }

  /** Equally long elements one after another. */
  function Joined(parts: seq<seq<byte>>, n: nat): (s: seq<byte>)
    requires forall i | 0 <= i < |parts| :: |parts[i]| == n
    ensures |s| == |parts| * n
  {
    if parts == [] then [] else Joined(parts[..|parts| - 1], n) + parts[|parts| - 1]
  }

  lemma {:induction false} PartOf(parts: seq<seq<byte>>, n: nat, i: nat)
    requires (forall k | 0 <= k < |parts| :: |parts[k]| == n) && i < |parts|
    ensures 0 <= i * n <= i * n + n <= |Joined(parts, n)| && Joined(parts, n)[i * n..i * n + n] == parts[i]
  {
    var last := |parts| - 1;
    assert (last + 1) * n == last * n + n;
    if i < last {
      PartOf(parts[..last], n, i);
      var front := Joined(parts[..last], n);
      assert Joined(parts, n)[i * n..i * n + n] == front[i * n..i * n + n];
    }
  }

  function ProviderWords(children: Providers): (ws: seq<seq<byte>>)
    ensures |ws| == CHILDREN_COUNT
    ensures forall i | 0 <= i < CHILDREN_COUNT :: ws[i] == WordBytes(children[i]) && |ws[i]| == 4
  {
    seq(CHILDREN_COUNT, i requires 0 <= i < CHILDREN_COUNT => WordBytes(children[i]))
  }

  function RootBytes(r: RootStruct): RootCont {
    r.header + r.contType + r.version + r.attribs + r.suid + r.rootid + Joined(ProviderWords(r.children), 4) + r.tail
  }

  function SpBytes(s: SpStruct): SpCont {
    s.header + s.contType + s.version + s.attribs + s.spid + Joined(s.children, UUID_LENGTH) + s.tail
  }

  lemma WordRoundTrip(n: Spid)
    ensures var b := WordBytes(n);
            b[0] as nat + 0x100 * b[1] as nat + 0x1_0000 * b[2] as nat + 0x100_0000 * b[3] as nat == n
  {
    var m := n / 0x100;
    assert n == n % 0x100 + 0x100 * m && n / 0x1_0000 == m / 0x100 && n / 0x100_0000 == m / 0x1_0000;
    assert m == m % 0x100 + 0x100 * (m / 0x100 % 0x100) + 0x1_0000 * (m / 0x1_0000);
  }

  lemma Inside(front: seq<byte>, middle: seq<byte>, back: seq<byte>, at: nat, n: nat)
    requires at + n <= |middle|
    ensures (front + middle + back)[|front| + at..|front| + at + n] == middle[at..at + n]
  {}

  /** The cleanup reads the providers that the root container lists. */
  lemma {:induction false} RootLists(r: RootStruct, i: nat)
    requires i < CHILDREN_COUNT
    ensures RootChild(RootBytes(r), i) == r.children[i]
  {
    hide WordBytes, Joined, ProviderWords;
    var front := r.header + r.contType + r.version + r.attribs + r.suid + r.rootid;
    var middle := Joined(ProviderWords(r.children), 4);
    PartOf(ProviderWords(r.children), 4, i);
    Inside(front, middle, r.tail, 4 * i, 4);
    WordRoundTrip(r.children[i]);
    var at, w := ROOT_CHILDREN_OFFSET + 4 * i, WordBytes(r.children[i]);
    var four := RootBytes(r)[at..at + 4];
    assert four == w;
    assert forall k | 0 <= k < 4 :: four[k] == RootBytes(r)[at + k];
  }

  /** And the trustlets that a provider's container lists. */
  lemma {:induction false} SpLists(s: SpStruct, i: nat)
    requires i < CHILDREN_COUNT
    ensures SpChild(SpBytes(s), i) == s.children[i]
  {
    hide Joined;
    var front, middle := s.header + s.contType + s.version + s.attribs + s.spid, Joined(s.children, UUID_LENGTH);
    PartOf(s.children, UUID_LENGTH, i);
    Inside(front, middle, s.tail, UUID_LENGTH * i, UUID_LENGTH);
  }
}
