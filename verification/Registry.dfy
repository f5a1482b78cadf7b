/**
 The registry store over a file system that maps paths to bytes: storing and reading containers,
 and the cleanup that goes from the root container to its service providers to their trustlets.
 */
module Registry {
  import opened Wrappers
  import opened Words
  import opened RegistryNames

  const OK := 0x00
  const ERR_UNKNOWN := 0x06
  const ERR_INVALID_DEVICE_FILE := 0x10
  const ERR_INVALID_PARAMETER := 0x11

  const MAX_SO_CONT_SIZE := 512

  /** Files by path, and the data directories that exist. */
  datatype Fs = Fs(files: map<string, seq<byte>>, dirs: set<string>)

  const EMPTY := Fs(map[], {})

  /**
   What the operating system decides during a call: the files it refuses to open, those it refuses
   to remove, the directories it refuses to remove, the files each sweep for trusted applications
   comes across, and which root the trustlet binaries are under.
   */
  datatype Io = Io(unopened: set<string>, unremoved: set<string>, stuck: set<string>, swept: map<(seq<byte>, nat),
                   set<string>>, binaries: string)

  /** The container stored under a key. */
  function Get(fs: Fs, key: Key): Option<seq<byte>> {
    if PathOf(key) in fs.files then Some(fs.files[PathOf(key)]) else None
  }

  // ------------------------------------------------------------------------------------------
  // Storing and reading
  // ------------------------------------------------------------------------------------------

  /** mcRegistryStoreRoot, mcRegistryStoreSp, mcRegistryStoreTrustletCon; `so` is None for a NULL pointer. */
  function Store(fs: Fs, key: Key, so: Option<seq<byte>>, io: Io): (nat, Fs) {
    if key == Sp(0) || so.None? || |so.value| > 3 * MAX_SO_CONT_SIZE then (ERR_INVALID_PARAMETER, fs)
    else if PathOf(key) in io.unopened then (ERR_INVALID_DEVICE_FILE, fs)
    else (OK, fs.(files := fs.files[PathOf(key) := so.value]))
  }

  function Cut(data: seq<byte>, capacity: nat): seq<byte> {
    if |data| > capacity then data[..capacity] else data
  }

  /** mcRegistryReadRoot, mcRegistryReadSp, mcRegistryReadTrustletCon, into a buffer of `capacity` bytes. */
  function Read(fs: Fs, key: Key, given: bool, capacity: nat, io: Io): (nat, seq<byte>) {
    if key == Sp(0) || !given then (ERR_INVALID_PARAMETER, [])
    else if PathOf(key) in io.unopened then (ERR_INVALID_DEVICE_FILE, [])
    else
      match Get(fs, key)
      case None => (ERR_INVALID_DEVICE_FILE, [])
      case Some(data) => if Cut(data, capacity) == [] then (ERR_INVALID_DEVICE_FILE, []) else (OK, Cut(data, capacity))
  }

  /** A store succeeds exactly with a key, a container of no more than three maximal sizes, and a file that opens. */
  lemma StoreCodes(fs: Fs, key: Key, so: Option<seq<byte>>, io: Io)
    ensures var code, right := Store(fs, key, so, io).0, key != Sp(0) && so.Some? && |so.value| <= 1536;
            && (code == OK <==> right && PathOf(key) !in io.unopened)
            && (code == ERR_INVALID_PARAMETER <==> !right)
            && (code == ERR_INVALID_DEVICE_FILE <==> right && PathOf(key) in io.unopened)
  {
    hide PathOf;
  }

  /** A store sets its own key and no other. */
  lemma {:induction false} StoreSets(fs: Fs, key: Key, so: Option<seq<byte>>, io: Io, other: Key)
    ensures var (code, r) := Store(fs, key, so, io);
            Get(r, other) == if code == OK && other == key then so else Get(fs, other)
  {
    hide PathOf;
    PathsDiffer(key, other);
  }

  // ------------------------------------------------------------------------------------------
  // Removing files that hold no container
  // ------------------------------------------------------------------------------------------

  function RemoveFile(fs: Fs, path: string, io: Io): (bool, Fs) {
    if path in fs.files && path !in io.unremoved then (true, fs.(files := fs.files - {path})) else (false, fs)
  }

  /** An entry of a data directory, hidden ones excepted. */
  predicate IsEntry(directory: string, path: string) {
    var prefix := InDirectory(directory, "");
    |prefix| < |path| && prefix == path[..|prefix|] && path[|prefix|] != '.' && '/' !in path[|prefix|..]
  }

  /** Every name in a directory, but for hidden ones, and nothing further down. */
  lemma EntryExactly(directory: string, name: string)
    ensures IsEntry(directory, InDirectory(directory, name)) <==> name != "" && name[0] != '.' && '/' !in name
  {
    var prefix, path := InDirectory(directory, ""), InDirectory(directory, name);
    assert path == prefix + name;
    assert path[..|prefix|] == prefix && path[|prefix|..] == name;
  }

  function Entries(fs: Fs, directory: string, io: Io): set<string> {
    set p | p in fs.files && IsEntry(directory, p) && p !in io.unremoved
  }

  /** The loop over opendir and readdir, and the rmdir after it. */
  function ClearDirectory(fs: Fs, directory: string, io: Io): (bool, Fs) {
    if directory !in fs.dirs then (true, fs)
    else
      var cleared := fs.(files := fs.files - Entries(fs, directory, io));
      if directory in io.stuck then (false, cleared) else (true, cleared.(dirs := fs.dirs - {directory}))
  }

  function Swept(uuid: seq<byte>, spid: nat, io: Io): set<string> {
    if (uuid, spid) in io.swept then set p | p in io.swept[(uuid, spid)] && IsSweepable(p) else {}
  }

  /** deleteSPTA; `uuid` is empty for a NULL pointer. */
  function Sweep(fs: Fs, uuid: seq<byte>, spid: nat, io: Io): Fs {
    fs.(files := fs.files - Swept(uuid, spid, io))
  }

  lemma {:induction false} ClearDirectoryKeeps(fs: Fs, directory: string, io: Io, key: Key)
    ensures Get(ClearDirectory(fs, directory, io).1, key) == Get(fs, key)
  {
    hide PathOf;
    if IsEntry(directory, PathOf(key)) {
      EntryPath(directory, PathOf(key));
      NotInDirectory(key, directory, PathOf(key)[|InDirectory(directory, "")|..]);
    }
  }

  lemma EntryPath(directory: string, path: string)
    requires IsEntry(directory, path)
    ensures path == InDirectory(directory, path[|InDirectory(directory, "")|..])
  {
    var prefix := InDirectory(directory, "");
    assert path == path[..|prefix|] + path[|prefix|..];
  }

  lemma {:induction false} SweepKeeps(fs: Fs, uuid: seq<byte>, spid: nat, io: Io, key: Key)
    ensures Get(Sweep(fs, uuid, spid, io), key) == Get(fs, key)
  {
    hide PathOf, IsSweepable;
    NotSweepable(key);
  }

  lemma {:induction false} BinaryRemovalKeeps(fs: Fs, uuid: Uuid, io: Io, key: Key)
    ensures Get(RemoveFile(fs, BinaryPath(io.binaries, uuid), io).1, key) == Get(fs, key)
  {
    hide PathOf, BinaryPath;
    NotABinary(key, io.binaries, uuid);
  }

  lemma {:induction false} ContainerRemoval(fs: Fs, key: Key, io: Io, other: Key)
    ensures var (ok, r) := RemoveFile(fs, PathOf(key), io);
            Get(r, other) == if ok && other == key then None else Get(fs, other)
  {
    hide PathOf;
    PathsDiffer(key, other);
  }

  // ------------------------------------------------------------------------------------------
  // mcRegistryCleanupTrustlet
  // ------------------------------------------------------------------------------------------

  function CleanupTrustlet(fs: Fs, uuid: Uuid, spid: Spid, io: Io): (nat, Fs) {
    var (cleared, fs1) := ClearDirectory(fs, BytesName(uuid), io);
    if !cleared then (ERR_UNKNOWN, fs1)
    else
      var (_, fs2) := RemoveFile(fs1, BinaryPath(io.binaries, uuid), io);
      var (removed, fs3) := RemoveFile(Sweep(fs2, uuid, spid, io), PathOf(Tl(uuid, spid)), io);
      (if removed then OK else ERR_UNKNOWN, fs3)
  }

  /** It removes its own container if it succeeds, and no container if it fails. */
  lemma {:induction false} CleanupTrustletExactly(fs: Fs, uuid: Uuid, spid: Spid, io: Io, key: Key)
    ensures var (code, r) := CleanupTrustlet(fs, uuid, spid, io);
            && Get(r, key) == (if code == OK && key == Tl(uuid, spid) then None else Get(fs, key))
            && (code == OK ==> Get(fs, Tl(uuid, spid)).Some?)
  {
    hide PathOf, BinaryPath, ClearDirectory, RemoveFile, Sweep, Get;
    var own := Tl(uuid, spid);
    var fs1 := ClearDirectory(fs, BytesName(uuid), io).1;
    ClearDirectoryKeeps(fs, BytesName(uuid), io, key);
    ClearDirectoryKeeps(fs, BytesName(uuid), io, own);
    BinaryRemovalKeeps(fs1, uuid, io, key);
    BinaryRemovalKeeps(fs1, uuid, io, own);
    var fs2 := RemoveFile(fs1, BinaryPath(io.binaries, uuid), io).1;
    SweepKeeps(fs2, uuid, spid, io, key);
    SweepKeeps(fs2, uuid, spid, io, own);
    ContainerRemoval(Sweep(fs2, uuid, spid, io), own, io, key);
    RemovedExisted(Sweep(fs2, uuid, spid, io), own, io);
  }

  lemma RemovedExisted(fs: Fs, key: Key, io: Io)
    ensures RemoveFile(fs, PathOf(key), io).0 ==> Get(fs, key).Some?
  {
    hide PathOf;
  }

  // ------------------------------------------------------------------------------------------
  // mcRegistryCleanupSp
  // ------------------------------------------------------------------------------------------

  const CHILDREN_COUNT := 16
  const SP_CONT_SIZE := 396
  const SP_CHILDREN_OFFSET := 60

  type SpCont = s: seq<byte> | |s| == SP_CONT_SIZE witness seq(SP_CONT_SIZE, _ => 0)

  const UUID_FREE: Uuid := [0xFF, 0xFF, 0xFF, 0xFF, 0xFF, 0xFF, 0xFF, 0xFF, 0xFF, 0xFF, 0xFF, 0xFF, 0xFF, 0xFF, 0xFF,
                            0xFF]

  function SpChild(cont: SpCont, i: nat): Uuid
    requires i < CHILDREN_COUNT
  {
    cont[SP_CHILDREN_OFFSET + UUID_LENGTH * i..SP_CHILDREN_OFFSET + UUID_LENGTH * i + UUID_LENGTH]
  }

  /** strncmp(a, b, n) == 0 for two stretches of n bytes: it stops at a common zero. */
  predicate StrNCmpEqual(a: seq<byte>, b: seq<byte>)
    requires |a| == |b|
  {
    a == [] || (a[0] == b[0] && (a[0] == 0 || StrNCmpEqual(a[1..], b[1..])))
  }

  /** Against bytes with no zero among them strncmp compares them all. */
  lemma {:induction false} StrNCmpComparesAll(a: seq<byte>, b: seq<byte>)
    requires |a| == |b| && forall k | 0 <= k < |b| :: b[k] != 0
    ensures StrNCmpEqual(a, b) <==> a == b
  {
    if a != [] {
      assert forall k | 0 <= k < |b| - 1 :: b[1..][k] == b[k + 1];
      StrNCmpComparesAll(a[1..], b[1..]);
      assert a == [a[0]] + a[1..] && b == [b[0]] + b[1..];
    }
  }

  /** After `n` rounds of the loop over the children. */
  function ChildrenAfter(fs: Fs, spid: Spid, cont: SpCont, io: Io, n: nat): (nat, Fs)
    requires n <= CHILDREN_COUNT
  {
    if n == 0 then (OK, fs)
    else
      var (code, r) := ChildrenAfter(fs, spid, cont, io, n - 1);
      if code != OK || StrNCmpEqual(SpChild(cont, n - 1), UUID_FREE) then (code, r)
      else CleanupTrustlet(r, SpChild(cont, n - 1), spid, io)
  }

  function CleanupSp(fs: Fs, spid: Spid, io: Io): (nat, Fs) {
    if spid == 0 then (ERR_INVALID_PARAMETER, fs)
    else
      var (code, data) := Read(fs, Sp(spid), true, SP_CONT_SIZE, io);
      if code != OK || |data| != SP_CONT_SIZE then (code, fs)
      else
        var (ret, fs1) := ChildrenAfter(fs, spid, data, io, CHILDREN_COUNT);
        if ret != OK then (ret, fs1)
        else
          var (cleared, fs2) := ClearDirectory(Sweep(fs1, [], spid, io), SpidName(spid), io);
          if !cleared then (ERR_UNKNOWN, fs2)
          else
            var (removed, fs3) := RemoveFile(fs2, PathOf(Sp(spid)), io);
            (if removed then OK else ERR_UNKNOWN, fs3)
  }

  predicate Lists(cont: SpCont, uuid: Uuid, n: nat)
    requires n <= CHILDREN_COUNT
  {
    exists i | 0 <= i < n :: SpChild(cont, i) == uuid && uuid != UUID_FREE
  }

  /** A container of a service provider that is long enough to be acted on. */
  function FullSp(fs: Fs, spid: Spid): Option<SpCont> {
    match Get(fs, Sp(spid))
    case None => None
    case Some(data) => if |data| < SP_CONT_SIZE then None else Some(data[..SP_CONT_SIZE])
  }

  /** The containers that cleaning up a service provider is to remove. */
  predicate ReachedSp(fs: Fs, spid: Spid, key: Key) {
    && FullSp(fs, spid).Some?
    && (key == Sp(spid) || (key.Tl? && key.owner == spid && Lists(FullSp(fs, spid).value, key.uuid, CHILDREN_COUNT)))
  }

  lemma FreeHasNoZero()
    ensures forall k | 0 <= k < UUID_LENGTH :: UUID_FREE[k] != 0
  {}

  lemma {:induction false} ChildrenExactly(fs: Fs, spid: Spid, cont: SpCont, io: Io, n: nat, key: Key)
    requires n <= CHILDREN_COUNT
    ensures var (code, r) := ChildrenAfter(fs, spid, cont, io, n);
            var listed := key.Tl? && key.owner == spid && Lists(cont, key.uuid, n);
            && (!listed ==> Get(r, key) == Get(fs, key))
            && (listed ==> Get(r, key) == Get(fs, key) || Get(r, key) == None)
            && (listed && code == OK ==> Get(r, key) == None)
  {
    hide CleanupTrustlet, Get, SpChild, UUID_FREE, StrNCmpEqual;
    if n > 0 {
      ChildrenExactly(fs, spid, cont, io, n - 1, key);
      var r, uuid := ChildrenAfter(fs, spid, cont, io, n - 1).1, SpChild(cont, n - 1);
      FreeHasNoZero();
      StrNCmpComparesAll(uuid, UUID_FREE);
      CleanupTrustletExactly(r, uuid, spid, io, key);
      if key.Tl? {
        ListsOneMore(cont, key.uuid, n);
      }
    }
  }

  lemma ListsOneMore(cont: SpCont, uuid: Uuid, n: nat)
    requires 0 < n <= CHILDREN_COUNT
    ensures Lists(cont, uuid, n) <==> Lists(cont, uuid, n - 1) || (SpChild(cont, n - 1) == uuid && uuid != UUID_FREE)
  {
    hide SpChild, UUID_FREE;
  }

  lemma ReadIsFull(fs: Fs, spid: Spid, io: Io)
    ensures var (code, data) := Read(fs, Sp(spid), true, SP_CONT_SIZE, io);
            code == OK ==> FullSp(fs, spid) == if |data| == SP_CONT_SIZE then Some(data) else None
  {
    hide PathOf;
    if Get(fs, Sp(spid)).Some? {
      var stored := Get(fs, Sp(spid)).value;
      assert stored == stored[..|stored|];
    }
  }

  /**
   What is not reached is untouched, whatever happens; if all goes well what is reached is gone; if
   not, the provider's own container is still there.
   */
  lemma {:induction false} CleanupSpExactly(fs: Fs, spid: Spid, io: Io, key: Key)
    ensures var (code, r) := CleanupSp(fs, spid, io);
            && (!ReachedSp(fs, spid, key) ==> Get(r, key) == Get(fs, key))
            && (ReachedSp(fs, spid, key) ==> Get(r, key) == Get(fs, key) || Get(r, key) == None)
            && (ReachedSp(fs, spid, key) && code == OK ==> Get(r, key) == None)
            && (key == Sp(spid) && code != OK ==> Get(r, key) == Get(fs, key))
  {
    hide PathOf, ChildrenAfter, ClearDirectory, RemoveFile, Sweep, Get, Read, FullSp, Lists;
    ReadIsFull(fs, spid, io);
    var (code, data) := Read(fs, Sp(spid), true, SP_CONT_SIZE, io);
    if spid != 0 && code == OK && |data| == SP_CONT_SIZE {
      var fs1 := ChildrenAfter(fs, spid, data, io, CHILDREN_COUNT).1;
      ChildrenExactly(fs, spid, data, io, CHILDREN_COUNT, key);
      SweepKeeps(fs1, [], spid, io, key);
      var swept := Sweep(fs1, [], spid, io);
      ClearDirectoryKeeps(swept, SpidName(spid), io, key);
      ContainerRemoval(ClearDirectory(swept, SpidName(spid), io).1, Sp(spid), io, key);
    }
  }

  // ------------------------------------------------------------------------------------------
  // mcRegistryCleanupRoot
  // ------------------------------------------------------------------------------------------

  const ROOT_CONT_SIZE := 220
  const ROOT_CHILDREN_OFFSET := 76
  const SPID_FREE := 0xFFFF_FFFF

  type RootCont = s: seq<byte> | |s| == ROOT_CONT_SIZE witness seq(ROOT_CONT_SIZE, _ => 0)

  /** A little-endian word. */
  function RootChild(cont: RootCont, i: nat): Spid
    requires i < CHILDREN_COUNT
  {
    var at := ROOT_CHILDREN_OFFSET + 4 * i;
    cont[at] as nat + 0x100 * cont[at + 1] as nat + 0x1_0000 * cont[at + 2] as nat + 0x100_0000 * cont[at + 3] as nat
  }

  function ProvidersAfter(fs: Fs, cont: RootCont, io: Io, n: nat): (nat, Fs)
    requires n <= CHILDREN_COUNT
  {
    if n == 0 then (OK, fs)
    else
      var (code, r) := ProvidersAfter(fs, cont, io, n - 1);
      if code != OK || RootChild(cont, n - 1) == SPID_FREE then (code, r)
      else CleanupSp(r, RootChild(cont, n - 1), io)
  }

  function CleanupRoot(fs: Fs, io: Io): (nat, Fs) {
    var (code, data) := Read(fs, Root, true, ROOT_CONT_SIZE, io);
    if code != OK || |data| != ROOT_CONT_SIZE then (code, fs)
    else
      var (ret, fs1) := ProvidersAfter(fs, data, io, CHILDREN_COUNT);
      if ret != OK then (ret, fs1)
      else
        var (removed, fs2) := RemoveFile(fs1, PathOf(Root), io);
        (if removed then OK else ERR_UNKNOWN, fs2)
  }

  function FullRoot(fs: Fs): Option<RootCont> {
    match Get(fs, Root)
    case None => None
    case Some(data) => if |data| < ROOT_CONT_SIZE then None else Some(data[..ROOT_CONT_SIZE])
  }

  /** Reached through one of the first `n` children of a root container. */
  ghost predicate ReachedBy(fs: Fs, cont: RootCont, n: nat, key: Key)
    requires n <= CHILDREN_COUNT
  {
    exists i | 0 <= i < n :: RootChild(cont, i) != SPID_FREE && ReachedSp(fs, RootChild(cont, i), key)
  }

  /** The containers that cleaning up the root is to remove. */
  ghost predicate Reached(fs: Fs, key: Key) {
    FullRoot(fs).Some? && (key == Root || ReachedBy(fs, FullRoot(fs).value, CHILDREN_COUNT, key))
  }

  lemma {:induction false} ProvidersExactly(fs: Fs, cont: RootCont, io: Io, n: nat, key: Key)
    requires n <= CHILDREN_COUNT
    ensures var (code, r) := ProvidersAfter(fs, cont, io, n);
            && (!ReachedBy(fs, cont, n, key) ==> Get(r, key) == Get(fs, key))
            && (ReachedBy(fs, cont, n, key) ==> Get(r, key) == Get(fs, key) || Get(r, key) == None)
            && (ReachedBy(fs, cont, n, key) && code == OK ==> Get(r, key) == None)
  {
    hide CleanupSp, Get, RootChild, ReachedSp;
    if n > 0 {
      var (code, r) := ProvidersAfter(fs, cont, io, n - 1);
      var spid := RootChild(cont, n - 1);
      ProvidersExactly(fs, cont, io, n - 1, key);
      ProvidersExactly(fs, cont, io, n - 1, Sp(spid));
      CleanupSpExactly(r, spid, io, key);
      SameReach(fs, r, spid, key);
      ReadableSp(r, spid, io);
      ReachedOneMore(fs, cont, n, key);
    }
  }

  /** What is reached through a provider depends on its container alone. */
  lemma SameReach(fs: Fs, r: Fs, spid: Spid, key: Key)
    ensures Get(r, Sp(spid)) == Get(fs, Sp(spid)) ==> ReachedSp(r, spid, key) == ReachedSp(fs, spid, key)
    ensures Get(r, Sp(spid)) == None ==> !ReachedSp(r, spid, key)
  {
    hide Get, Lists;
  }

  /** A provider with no container cannot be cleaned up. */
  lemma ReadableSp(fs: Fs, spid: Spid, io: Io)
    ensures Get(fs, Sp(spid)) == None ==> CleanupSp(fs, spid, io).0 != OK
  {
    hide ChildrenAfter, PathOf;
  }

  lemma ReachedOneMore(fs: Fs, cont: RootCont, n: nat, key: Key)
    requires 0 < n <= CHILDREN_COUNT
    ensures ReachedBy(fs, cont, n, key) <==>
              || ReachedBy(fs, cont, n - 1, key)
              || (RootChild(cont, n - 1) != SPID_FREE && ReachedSp(fs, RootChild(cont, n - 1), key))
  {
    hide RootChild, ReachedSp;
  }

  lemma ReadIsFullRoot(fs: Fs, io: Io)
    ensures var (code, data) := Read(fs, Root, true, ROOT_CONT_SIZE, io);
            code == OK ==> FullRoot(fs) == if |data| == ROOT_CONT_SIZE then Some(data) else None
  {
    hide PathOf;
    if Get(fs, Root).Some? {
      var stored := Get(fs, Root).value;
      assert stored == stored[..|stored|];
    }
  }

  /**
   If the cleanup reports success, exactly the containers reached are gone and all others are as
   they were; whatever it reports, a container not reached is as it was; if it fails, the root is.
   */
  lemma {:induction false} CleanupRootExactly(fs: Fs, io: Io, key: Key)
    ensures var (code, r) := CleanupRoot(fs, io);
            && (code == OK ==> Get(r, key) == if Reached(fs, key) then None else Get(fs, key))
            && (!Reached(fs, key) ==> Get(r, key) == Get(fs, key))
            && (Reached(fs, key) ==> Get(r, key) == Get(fs, key) || Get(r, key) == None)
            && (key == Root && code != OK ==> Get(r, key) == Get(fs, key))
  {
    hide PathOf, ProvidersAfter, RemoveFile, Get, Read, ReachedBy, FullRoot;
    ReadIsFullRoot(fs, io);
    var (code, data) := Read(fs, Root, true, ROOT_CONT_SIZE, io);
    if code == OK && |data| == ROOT_CONT_SIZE {
      ProvidersExactly(fs, data, io, CHILDREN_COUNT, key);
      ContainerRemoval(ProvidersAfter(fs, data, io, CHILDREN_COUNT).1, Root, io, key);
      RootIsNobodys(fs, data);
    }
  }

  lemma RootIsNobodys(fs: Fs, cont: RootCont)
    ensures !ReachedBy(fs, cont, CHILDREN_COUNT, Root)
  {
    hide RootChild, FullSp;
  }

  /** The root container and those of the listed providers are at least as long as their structures. */
  ghost predicate AllFull(fs: Fs) {
    && FullRoot(fs).Some?
    && forall i | 0 <= i < CHILDREN_COUNT ::
         RootChild(FullRoot(fs).value, i) != SPID_FREE ==> FullSp(fs, RootChild(FullRoot(fs).value, i)).Some?
  }

  /** A successful cleanup of such a registry leaves no root, no listed provider and none of their listed trustlets. */
  lemma {:induction false} CleanupRootCleans(fs: Fs, io: Io, i: nat, uuid: Uuid)
    requires AllFull(fs) && CleanupRoot(fs, io).0 == OK && i < CHILDREN_COUNT
    ensures var r, spid := CleanupRoot(fs, io).1, RootChild(FullRoot(fs).value, i);
            && Get(r, Root) == None
            && (spid != SPID_FREE ==> Get(r, Sp(spid)) == None)
            && (spid != SPID_FREE && Lists(FullSp(fs, spid).value, uuid, CHILDREN_COUNT) ==>
                  Get(r, Tl(uuid, spid)) == None)
  {
    hide CleanupRoot, Get, RootChild, FullRoot, FullSp, Lists;
    var spid := RootChild(FullRoot(fs).value, i);
    CleanupRootExactly(fs, io, Root);
    CleanupRootExactly(fs, io, Sp(spid));
    CleanupRootExactly(fs, io, Tl(uuid, spid));
  }

  /** When the cleanup reports success, the root container is gone exactly if it was long enough. */
  lemma {:induction false} RootGoneExactly(fs: Fs, io: Io)
    requires CleanupRoot(fs, io).0 == OK
    ensures Get(fs, Root).Some?
    ensures Get(CleanupRoot(fs, io).1, Root) == None <==> |Get(fs, Root).value| >= ROOT_CONT_SIZE
  {
    CleanupRootExactly(fs, io, Root);
    hide ProvidersAfter, PathOf;
  }

  /** A short root container: success is reported and nothing is deleted. */
  lemma {:induction false} ShortRootDoesNothing(fs: Fs, io: Io)
    requires Get(fs, Root).Some? && 0 < |Get(fs, Root).value| < ROOT_CONT_SIZE && PathOf(Root) !in io.unopened
    ensures CleanupRoot(fs, io) == (OK, fs)
  {
    hide PathOf;
  }

  // ------------------------------------------------------------------------------------------
  // Runs
  // ------------------------------------------------------------------------------------------

  datatype Op =
    | StoreOp(key: Key, so: Option<seq<byte>>)
    | CleanupTrustletOp(uuid: Uuid, owner: Spid)
    | CleanupSpOp(spid: Spid)
    | CleanupRootOp

  datatype Event = Event(op: Op, io: Io)

  function Apply(fs: Fs, e: Event): (nat, Fs) {
    match e.op
    case StoreOp(key, so) => Store(fs, key, so, e.io)
    case CleanupTrustletOp(uuid, owner) => CleanupTrustlet(fs, uuid, owner, e.io)
    case CleanupSpOp(spid) => CleanupSp(fs, spid, e.io)
    case CleanupRootOp => CleanupRoot(fs, e.io)
  }

  function After(events: seq<Event>): Fs {
    if events == [] then EMPTY else Apply(After(events[..|events| - 1]), events[|events| - 1]).1
  }

  /** The event may concern the container under `key`; a store or the cleanup of a trustlet that fails concerns none. */
  ghost predicate Concerns(fs: Fs, e: Event, key: Key) {
    match e.op
    case StoreOp(own, _) => own == key && Apply(fs, e).0 == OK
    case CleanupTrustletOp(uuid, owner) => Tl(uuid, owner) == key && Apply(fs, e).0 == OK
    case CleanupSpOp(spid) => ReachedSp(fs, spid, key)
    case CleanupRootOp => Reached(fs, key)
  }

  lemma {:induction false} OthersKept(fs: Fs, e: Event, key: Key)
    requires !Concerns(fs, e, key)
    ensures Get(Apply(fs, e).1, key) == Get(fs, key)
  {
    hide Get, Store, CleanupTrustlet, CleanupSp, CleanupRoot, ReachedSp, Reached;
    match e.op
    case StoreOp(own, so) => StoreSets(fs, own, so, e.io, key);
    case CleanupTrustletOp(uuid, owner) => CleanupTrustletExactly(fs, uuid, owner, e.io, key);
    case CleanupSpOp(spid) => CleanupSpExactly(fs, spid, e.io, key);
    case CleanupRootOp => CleanupRootExactly(fs, e.io, key);
  }

  /** None of the events concerns the container under `key`. */
  ghost predicate LeavesAlone(before: seq<Event>, events: seq<Event>, key: Key) {
    events == [] ||
    var front := events[..|events| - 1];
    LeavesAlone(before, front, key) && !Concerns(After(before + front), events[|events| - 1], key)
  }

  lemma {:induction false} StoredStays(before: seq<Event>, store: Event, since: seq<Event>)
    requires store.op.StoreOp? && Apply(After(before), store).0 == OK
    requires LeavesAlone(before + [store], since, store.op.key)
    ensures store.op.so.Some? && Get(After(before + [store] + since), store.op.key) == store.op.so
  {
    hide Apply, Concerns, Get;
    var key := store.op.key;
    if since == [] {
      assert (before + [store])[..|before|] == before;
      assert before + [store] + since == before + [store];
      AppliedStore(After(before), store);
    } else {
      var front, e := since[..|since| - 1], since[|since| - 1];
      var all := before + [store] + since;
      StoredStays(before, store, front);
      assert all[..|all| - 1] == before + [store] + front && all[|all| - 1] == e;
      OthersKept(After(before + [store] + front), e, key);
    }
  }

  lemma AppliedStore(fs: Fs, e: Event)
    requires e.op.StoreOp? && Apply(fs, e).0 == OK
    ensures e.op.so.Some? && e.op.key != Sp(0) && Get(Apply(fs, e).1, e.op.key) == e.op.so
  {
    hide PathOf;
    StoreSets(fs, e.op.key, e.op.so, e.io, e.op.key);
  }

  /**
   After any run, a read returns the bytes of the last successful store under its key, cut to the
   capacity of the buffer: stores that fail and operations that do not concern the key make no difference.
   */
  lemma {:induction false} ReadReturnsLastStored(before: seq<Event>, store: Event, since: seq<Event>, capacity: nat,
                                                 io: Io)
    requires store.op.StoreOp? && Apply(After(before), store).0 == OK
    requires LeavesAlone(before + [store], since, store.op.key)
    requires PathOf(store.op.key) !in io.unopened
    ensures store.op.so.Some?
    ensures Read(After(before + [store] + since), store.op.key, true, capacity, io)
            == var so := store.op.so.value;
               if |so| == 0 || capacity == 0 then (ERR_INVALID_DEVICE_FILE, []) else (OK, Cut(so, capacity))
  {
    hide PathOf, Apply, LeavesAlone, After, Get;
    StoredStays(before, store, since);
    AppliedStore(After(before), store);
  }
}
