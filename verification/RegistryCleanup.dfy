/**
 When cleaning up the registry succeeds: what the stored containers must be like, and what the
 operating system must allow.  And what becomes of a cleanup that has failed and is called again.
 */
module RegistryCleanup {
  import opened Wrappers
  import opened Words
  import opened RegistryNames
  import opened Registry

  // ------------------------------------------------------------------------------------------
  // What must be stored
  // ------------------------------------------------------------------------------------------

  /** The `i`-th trustlet of a provider is free, or has a container and is not listed before. */
  predicate TrustletThere(fs: Fs, spid: Spid, cont: SpCont, i: nat)
    requires i < CHILDREN_COUNT
  {
    var uuid := SpChild(cont, i);
    uuid != UUID_FREE ==> Get(fs, Tl(uuid, spid)).Some? && !Lists(cont, uuid, i)
  }

  ghost predicate TrustletsThere(fs: Fs, spid: Spid, cont: SpCont, n: nat)
    requires n <= CHILDREN_COUNT
  {
    forall i | 0 <= i < n :: TrustletThere(fs, spid, cont, i)
  }

  /** A container with any bytes under a key. */
  predicate Stored(fs: Fs, key: Key) {
    Get(fs, key).Some? && Get(fs, key).value != []
  }

  /** A container that is too short is passed over; one that is not must list only trustlets that are there. */
  ghost predicate SpCleanable(fs: Fs, spid: Spid) {
    && spid != 0 && Stored(fs, Sp(spid))
    && (FullSp(fs, spid).Some? ==> TrustletsThere(fs, spid, FullSp(fs, spid).value, CHILDREN_COUNT))
  }

  /** One of the first `n` providers of a root container. */
  predicate Earlier(cont: RootCont, spid: Spid, n: nat)
    requires n <= CHILDREN_COUNT
  {
    exists j | 0 <= j < n :: RootChild(cont, j) == spid
  }

  ghost predicate ProviderThere(fs: Fs, cont: RootCont, i: nat)
    requires i < CHILDREN_COUNT
  {
    var spid := RootChild(cont, i);
    spid != SPID_FREE ==> SpCleanable(fs, spid) && (FullSp(fs, spid).Some? ==> !Earlier(cont, spid, i))
  }

  ghost predicate ProvidersThere(fs: Fs, cont: RootCont, n: nat)
    requires n <= CHILDREN_COUNT
  {
    forall i | 0 <= i < n :: ProviderThere(fs, cont, i)
  }

  /**
   The root is stored.  If it is long enough, every provider it lists can be cleaned up, and is
   listed once unless its container is too short.
   */
  ghost predicate Cleanable(fs: Fs) {
    Stored(fs, Root) && (FullRoot(fs).Some? ==> ProvidersThere(fs, FullRoot(fs).value, CHILDREN_COUNT))
  }

  // ------------------------------------------------------------------------------------------
  // What the operating system must allow
  // ------------------------------------------------------------------------------------------

  /** The directories that are there and cannot be removed. */
  function Stuck(fs: Fs, io: Io): set<string> {
    fs.dirs * io.stuck
  }

  predicate TrustletAllowed(fs: Fs, spid: Spid, uuid: Uuid, io: Io) {
    PathOf(Tl(uuid, spid)) !in io.unremoved && BytesName(uuid) !in Stuck(fs, io)
  }

  ghost predicate TrustletsAllowed(fs: Fs, spid: Spid, cont: SpCont, io: Io, n: nat)
    requires n <= CHILDREN_COUNT
  {
    forall i | 0 <= i < n && SpChild(cont, i) != UUID_FREE :: TrustletAllowed(fs, spid, SpChild(cont, i), io)
  }

  ghost predicate SpAllowed(fs: Fs, spid: Spid, io: Io) {
    && PathOf(Sp(spid)) !in io.unopened
    && (FullSp(fs, spid).Some? ==>
          && PathOf(Sp(spid)) !in io.unremoved && SpidName(spid) !in Stuck(fs, io)
          && TrustletsAllowed(fs, spid, FullSp(fs, spid).value, io, CHILDREN_COUNT))
  }

  ghost predicate ProvidersAllowed(fs: Fs, cont: RootCont, io: Io, n: nat)
    requires n <= CHILDREN_COUNT
  {
    forall i | 0 <= i < n && RootChild(cont, i) != SPID_FREE :: SpAllowed(fs, RootChild(cont, i), io)
  }

  ghost predicate Allowed(fs: Fs, io: Io) {
    && PathOf(Root) !in io.unopened
    && (FullRoot(fs).Some? ==>
          PathOf(Root) !in io.unremoved && ProvidersAllowed(fs, FullRoot(fs).value, io, CHILDREN_COUNT))
  }

  // ------------------------------------------------------------------------------------------
  // Trustlets
  // ------------------------------------------------------------------------------------------

  lemma ClearsDirectory(fs: Fs, directory: string, io: Io)
    ensures var (ok, r) := ClearDirectory(fs, directory, io);
            (ok <==> directory !in Stuck(fs, io)) && Stuck(r, io) == Stuck(fs, io)
  {
    hide Entries;
  }

  lemma RemovesFile(fs: Fs, path: string, io: Io)
    ensures var (ok, r) := RemoveFile(fs, path, io);
            (ok <==> path in fs.files && path !in io.unremoved) && r.dirs == fs.dirs
  {}

  lemma Sweeps(fs: Fs, uuid: seq<byte>, spid: nat, io: Io)
    ensures Sweep(fs, uuid, spid, io).dirs == fs.dirs
  {
    hide Swept;
  }

  lemma IsThere(fs: Fs, key: Key)
    ensures PathOf(key) in fs.files <==> Get(fs, key).Some?
  {
    hide PathOf;
  }

  lemma {:induction false} TrustletSucceeds(fs: Fs, uuid: Uuid, spid: Spid, io: Io)
    ensures var (code, r) := CleanupTrustlet(fs, uuid, spid, io);
            && (code == OK <==> Get(fs, Tl(uuid, spid)).Some? && TrustletAllowed(fs, spid, uuid, io))
            && Stuck(r, io) == Stuck(fs, io)
  {
    hide PathOf, BinaryPath, BytesName, ClearDirectory, RemoveFile, Sweep, Get;
    var own := Tl(uuid, spid);
    var fs1 := ClearDirectory(fs, BytesName(uuid), io).1;
    var fs2 := RemoveFile(fs1, BinaryPath(io.binaries, uuid), io).1;
    var fs3 := Sweep(fs2, uuid, spid, io);
    ClearsDirectory(fs, BytesName(uuid), io);
    ClearDirectoryKeeps(fs, BytesName(uuid), io, own);
    RemovesFile(fs1, BinaryPath(io.binaries, uuid), io);
    BinaryRemovalKeeps(fs1, uuid, io, own);
    Sweeps(fs2, uuid, spid, io);
    SweepKeeps(fs2, uuid, spid, io, own);
    RemovesFile(fs3, PathOf(own), io);
    IsThere(fs3, own);
  }

  /** A directory that is cleared keeps no visible file that can be removed, and nothing else is touched. */
  lemma {:induction false} DirectoryCleared(fs: Fs, directory: string, io: Io, path: string)
    ensures var (ok, r) := ClearDirectory(fs, directory, io);
            && r.dirs == (if ok then fs.dirs - {directory} else fs.dirs)
            && (path in r.files <==>
                  path in fs.files && !(directory in fs.dirs && IsEntry(directory, path) && path !in io.unremoved))
            && (path in r.files ==> r.files[path] == fs.files[path])
  {
    hide IsEntry;
  }

  /** The files that cleaning up a trustlet is to remove besides its container. */
  predicate OfTrustlet(fs: Fs, uuid: Uuid, spid: Spid, io: Io, path: string) {
    || (BytesName(uuid) in fs.dirs && IsEntry(BytesName(uuid), path) && path !in io.unremoved)
    || (path == BinaryPath(io.binaries, uuid) && path !in io.unremoved)
    || path in Swept(uuid, spid, io)
  }

  /**
   A cleanup of a trustlet that succeeds removes exactly its container, its data, its binary and what
   the sweep finds.
   */
  lemma {:induction false} TrustletFilesGone(fs: Fs, uuid: Uuid, spid: Spid, io: Io, path: string)
    requires CleanupTrustlet(fs, uuid, spid, io).0 == OK
    ensures var r := CleanupTrustlet(fs, uuid, spid, io).1;
            && r.dirs == fs.dirs - {BytesName(uuid)}
            && (path in r.files <==>
                  path in fs.files && path != PathOf(Tl(uuid, spid)) && !OfTrustlet(fs, uuid, spid, io, path))
            && (path in r.files ==> r.files[path] == fs.files[path])
  {
    hide PathOf, BinaryPath, BytesName, ClearDirectory, Swept, IsEntry;
    DirectoryCleared(fs, BytesName(uuid), io, path);
  }

  lemma OneMoreTrustlet(fs: Fs, spid: Spid, cont: SpCont, io: Io, n: nat)
    requires 0 < n <= CHILDREN_COUNT
    ensures TrustletsThere(fs, spid, cont, n) <==>
                TrustletsThere(fs, spid, cont, n - 1) && TrustletThere(fs, spid, cont, n - 1)
    ensures TrustletsAllowed(fs, spid, cont, io, n) <==>
              && TrustletsAllowed(fs, spid, cont, io, n - 1)
              && (SpChild(cont, n - 1) != UUID_FREE ==> TrustletAllowed(fs, spid, SpChild(cont, n - 1), io))
  {
    hide TrustletThere, TrustletAllowed, SpChild, UUID_FREE;
  }

  lemma NoTrustlets(fs: Fs, spid: Spid, cont: SpCont, io: Io)
    ensures TrustletsThere(fs, spid, cont, 0) && TrustletsAllowed(fs, spid, cont, io, 0)
  {}

  /** The loop over the trustlets. */
  lemma {:induction false} ChildrenSucceed(fs: Fs, spid: Spid, cont: SpCont, io: Io, n: nat)
    requires n <= CHILDREN_COUNT
    ensures var (code, r) := ChildrenAfter(fs, spid, cont, io, n);
            && (code == OK <==> TrustletsThere(fs, spid, cont, n) && TrustletsAllowed(fs, spid, cont, io, n))
            && Stuck(r, io) == Stuck(fs, io)
  {
    hide CleanupTrustlet, Get, SpChild, UUID_FREE, StrNCmpEqual, TrustletsThere, TrustletsAllowed, PathOf, BytesName,
         Stuck, Lists;
    if n == 0 {
      NoTrustlets(fs, spid, cont, io);
    } else {
      var r, uuid := ChildrenAfter(fs, spid, cont, io, n - 1).1, SpChild(cont, n - 1);
      ChildrenSucceed(fs, spid, cont, io, n - 1);
      OneMoreTrustlet(fs, spid, cont, io, n);
      FreeHasNoZero();
      StrNCmpComparesAll(uuid, UUID_FREE);
      ChildrenExactly(fs, spid, cont, io, n - 1, Tl(uuid, spid));
      TrustletSucceeds(r, uuid, spid, io);
    }
  }

  // ------------------------------------------------------------------------------------------
  // Providers
  // ------------------------------------------------------------------------------------------

  lemma ReadsStored(fs: Fs, key: Key, capacity: nat, io: Io)
    requires key != Sp(0) && capacity > 0
    ensures Read(fs, key, true, capacity, io).0 == OK <==> Stored(fs, key) && PathOf(key) !in io.unopened
  {
    hide PathOf;
  }

  /** What follows the loop over the trustlets. */
  lemma {:induction false} ProviderGoes(fs: Fs, spid: Spid, io: Io)
    ensures var (cleared, r) := ClearDirectory(Sweep(fs, [], spid, io), SpidName(spid), io);
            && (cleared <==> SpidName(spid) !in Stuck(fs, io))
            && (RemoveFile(r, PathOf(Sp(spid)), io).0 <==> Get(fs, Sp(spid)).Some? && PathOf(Sp(spid)) !in io.unremoved)
            && Stuck(r, io) == Stuck(fs, io) && Stuck(RemoveFile(r, PathOf(Sp(spid)), io).1, io) == Stuck(fs, io)
  {
    hide PathOf, ClearDirectory, RemoveFile, Sweep, Get, SpidName;
    var swept := Sweep(fs, [], spid, io);
    var r := ClearDirectory(swept, SpidName(spid), io).1;
    Sweeps(fs, [], spid, io);
    SweepKeeps(fs, [], spid, io, Sp(spid));
    ClearsDirectory(swept, SpidName(spid), io);
    ClearDirectoryKeeps(swept, SpidName(spid), io, Sp(spid));
    RemovesFile(r, PathOf(Sp(spid)), io);
    IsThere(r, Sp(spid));
  }

  /** Cleaning up a provider. */
  lemma {:induction false} SpSucceeds(fs: Fs, spid: Spid, io: Io)
    ensures var (code, r) := CleanupSp(fs, spid, io);
            && (code == OK <==> SpCleanable(fs, spid) && SpAllowed(fs, spid, io))
            && Stuck(r, io) == Stuck(fs, io)
  {
    hide PathOf, ChildrenAfter, ClearDirectory, RemoveFile, Sweep, Get, Read, FullSp, TrustletsThere, TrustletsAllowed,
         Stuck, SpidName;
    if spid != 0 {
      ReadsStored(fs, Sp(spid), SP_CONT_SIZE, io);
      ReadIsFull(fs, spid, io);
      var (code, data) := Read(fs, Sp(spid), true, SP_CONT_SIZE, io);
      if code == OK && |data| == SP_CONT_SIZE {
        ChildrenSucceed(fs, spid, data, io, CHILDREN_COUNT);
        ChildrenExactly(fs, spid, data, io, CHILDREN_COUNT, Sp(spid));
        ProviderGoes(ChildrenAfter(fs, spid, data, io, CHILDREN_COUNT).1, spid, io);
      }
    }
  }

  /** What must be stored of a provider is its own container and those of its trustlets. */
  lemma {:induction false} SameProvider(fs: Fs, r: Fs, spid: Spid)
    requires Get(r, Sp(spid)) == Get(fs, Sp(spid))
    requires FullSp(fs, spid).Some? ==> forall uuid :: Get(r, Tl(uuid, spid)) == Get(fs, Tl(uuid, spid))
    ensures FullSp(r, spid) == FullSp(fs, spid) && SpCleanable(r, spid) == SpCleanable(fs, spid)
  {
    hide Get, SpChild, UUID_FREE, Lists;
    if FullSp(fs, spid).Some? {
      var cont := FullSp(fs, spid).value;
      assert forall i | 0 <= i < CHILDREN_COUNT :: TrustletThere(r, spid, cont, i) == TrustletThere(fs, spid, cont, i);
    }
  }

  lemma SameAllowed(fs: Fs, r: Fs, spid: Spid, io: Io)
    requires Stuck(r, io) == Stuck(fs, io) && FullSp(r, spid) == FullSp(fs, spid)
    ensures SpAllowed(r, spid, io) == SpAllowed(fs, spid, io)
  {
    hide Stuck, FullSp, PathOf, SpChild, UUID_FREE, SpidName, BytesName;
  }

  lemma ReachedByOne(fs: Fs, cont: RootCont, n: nat, spid: Spid, key: Key)
    requires n <= CHILDREN_COUNT && spid != SPID_FREE && (key == Sp(spid) || (key.Tl? && key.owner == spid))
    ensures ReachedBy(fs, cont, n, key) <==> Earlier(cont, spid, n) && ReachedSp(fs, spid, key)
  {
    hide RootChild, FullSp, Lists;
  }

  /** A provider after the loop has got through `n` others. */
  lemma {:induction false} NextProvider(fs: Fs, cont: RootCont, io: Io, n: nat, spid: Spid)
    requires n <= CHILDREN_COUNT && spid != SPID_FREE && ProvidersAfter(fs, cont, io, n).0 == OK
    requires Stuck(ProvidersAfter(fs, cont, io, n).1, io) == Stuck(fs, io)
    ensures var r := ProvidersAfter(fs, cont, io, n).1;
            var isThere := SpCleanable(fs, spid) && (FullSp(fs, spid).Some? ==> !Earlier(cont, spid, n));
            && (SpCleanable(r, spid) <==> isThere)
            && (isThere ==> (SpAllowed(r, spid, io) <==> SpAllowed(fs, spid, io)))
  {
    hide ProvidersAfter, Get, SpAllowed, Earlier, ReachedBy, Stuck, TrustletsThere, Lists;
    var r := ProvidersAfter(fs, cont, io, n).1;
    ProvidersExactly(fs, cont, io, n, Sp(spid));
    ReachedByOne(fs, cont, n, spid, Sp(spid));
    if !(FullSp(fs, spid).Some? && Earlier(cont, spid, n)) {
      forall uuid
        ensures Get(r, Tl(uuid, spid)) == Get(fs, Tl(uuid, spid))
      {
        ProvidersExactly(fs, cont, io, n, Tl(uuid, spid));
        ReachedByOne(fs, cont, n, spid, Tl(uuid, spid));
      }
      hide FullSp, SpCleanable;
      SameProvider(fs, r, spid);
      SameAllowed(fs, r, spid, io);
    }
  }

  lemma OneMoreProvider(fs: Fs, cont: RootCont, io: Io, n: nat)
    requires 0 < n <= CHILDREN_COUNT
    ensures ProvidersThere(fs, cont, n) <==> ProvidersThere(fs, cont, n - 1) && ProviderThere(fs, cont, n - 1)
    ensures ProvidersAllowed(fs, cont, io, n) <==>
              && ProvidersAllowed(fs, cont, io, n - 1)
              && (RootChild(cont, n - 1) != SPID_FREE ==> SpAllowed(fs, RootChild(cont, n - 1), io))
  {
    hide ProviderThere, SpAllowed, RootChild;
  }

  lemma NoProviders(fs: Fs, cont: RootCont, io: Io)
    ensures ProvidersThere(fs, cont, 0) && ProvidersAllowed(fs, cont, io, 0)
  {}

  /** The loop over the providers. */
  lemma {:induction false} ProvidersSucceed(fs: Fs, cont: RootCont, io: Io, n: nat)
    requires n <= CHILDREN_COUNT
    ensures var (code, r) := ProvidersAfter(fs, cont, io, n);
            && (code == OK <==> ProvidersThere(fs, cont, n) && ProvidersAllowed(fs, cont, io, n))
            && Stuck(r, io) == Stuck(fs, io)
  {
    hide CleanupSp, RootChild, ProvidersThere, ProvidersAllowed, SpCleanable, SpAllowed, FullSp, Earlier, Stuck;
    if n == 0 {
      NoProviders(fs, cont, io);
    } else {
      var r, spid := ProvidersAfter(fs, cont, io, n - 1).1, RootChild(cont, n - 1);
      ProvidersSucceed(fs, cont, io, n - 1);
      OneMoreProvider(fs, cont, io, n);
      SpSucceeds(r, spid, io);
      if ProvidersAfter(fs, cont, io, n - 1).0 == OK && spid != SPID_FREE {
        NextProvider(fs, cont, io, n - 1, spid);
      }
    }
  }

  // ------------------------------------------------------------------------------------------
  // The root
  // ------------------------------------------------------------------------------------------

  /**
   Cleaning up the root succeeds exactly when the stored containers are such that it can, and the
   operating system allows it.
   */
  lemma {:induction false} SucceedsExactly(fs: Fs, io: Io)
    ensures CleanupRoot(fs, io).0 == OK <==> Cleanable(fs) && Allowed(fs, io)
  {
    hide PathOf, ProvidersAfter, RemoveFile, Get, Read, ReachedBy, FullRoot, ProvidersThere, ProvidersAllowed;
    ReadsStored(fs, Root, ROOT_CONT_SIZE, io);
    ReadIsFullRoot(fs, io);
    var (code, data) := Read(fs, Root, true, ROOT_CONT_SIZE, io);
    if code == OK && |data| == ROOT_CONT_SIZE {
      var left := ProvidersAfter(fs, data, io, CHILDREN_COUNT).1;
      ProvidersSucceed(fs, data, io, CHILDREN_COUNT);
      ProvidersExactly(fs, data, io, CHILDREN_COUNT, Root);
      RootIsNobodys(fs, data);
      RemovesFile(left, PathOf(Root), io);
      IsThere(left, Root);
    }
  }

  /** Nothing is refused. */
  const WILLING := Io({}, {}, {}, map[], "")

  lemma WillingAllows(fs: Fs)
    ensures Allowed(fs, WILLING)
  {
    hide PathOf, RootChild, SpChild, UUID_FREE;
  }

  /** Some cleanup can succeed exactly when the stored containers are such. */
  lemma {:induction false} CleanableExactly(fs: Fs)
    ensures (exists io :: CleanupRoot(fs, io).0 == OK) <==> Cleanable(fs)
  {
    hide CleanupRoot, Cleanable, Allowed;
    WillingAllows(fs);
    SucceedsExactly(fs, WILLING);
    forall io | CleanupRoot(fs, io).0 == OK
      ensures Cleanable(fs)
    {
      SucceedsExactly(fs, io);
    }
  }

  // ------------------------------------------------------------------------------------------
  // Calling it again
  // ------------------------------------------------------------------------------------------

  ghost predicate SameContainers(fs: Fs, r: Fs) {
    forall key :: Get(r, key) == Get(fs, key)
  }

  lemma SameRoot(fs: Fs, r: Fs)
    ensures Get(r, Root) == Get(fs, Root) ==> FullRoot(r) == FullRoot(fs)
  {
    hide Get;
  }

  lemma {:induction false} SameCleanable(fs: Fs, r: Fs)
    requires SameContainers(fs, r)
    ensures Cleanable(r) == Cleanable(fs)
  {
    hide Get, SpCleanable, FullSp, FullRoot, RootChild, Earlier;
    SameRoot(fs, r);
    if FullRoot(fs).Some? {
      var cont := FullRoot(fs).value;
      forall i | 0 <= i < CHILDREN_COUNT
        ensures ProviderThere(r, cont, i) == ProviderThere(fs, cont, i)
      {
        SameProvider(fs, r, RootChild(cont, i));
      }
    }
  }

  /** A container that a failed cleanup has removed is missed by every later one. */
  lemma {:induction false} RemovedIsMissed(fs: Fs, io: Io, key: Key)
    requires CleanupRoot(fs, io).0 != OK && Get(fs, key).Some? && Get(CleanupRoot(fs, io).1, key) == None
    ensures !Cleanable(CleanupRoot(fs, io).1)
  {
    hide CleanupRoot, Get, ReachedSp, RootChild, FullRoot;
    var r := CleanupRoot(fs, io).1;
    CleanupRootExactly(fs, io, key);
    CleanupRootExactly(fs, io, Root);
    SameRoot(fs, r);
    var cont := FullRoot(fs).value;
    var i :| 0 <= i < CHILDREN_COUNT && RootChild(cont, i) != SPID_FREE && ReachedSp(fs, RootChild(cont, i), key);
    var spid := RootChild(cont, i);
    CleanupRootExactly(fs, io, Sp(spid));
    SameReach(fs, r, spid, key);
    Misses(r, spid, key);
    assert !ProviderThere(r, cont, i);
  }

  lemma Misses(fs: Fs, spid: Spid, key: Key)
    requires Get(fs, key) == None && (Get(fs, Sp(spid)) == None || ReachedSp(fs, spid, key))
    ensures !SpCleanable(fs, spid)
  {
    hide Get, SpChild, UUID_FREE;
    if Get(fs, Sp(spid)).Some? {
      var cont := FullSp(fs, spid).value;
      var i :| 0 <= i < CHILDREN_COUNT && SpChild(cont, i) == key.uuid && key.uuid != UUID_FREE;
      assert !TrustletThere(fs, spid, cont, i);
    }
  }

  /**
   After a cleanup that has failed a later one can succeed exactly when what is left can be cleaned
   up; and that is so exactly when it could be before and not one container has been removed.
   */
  lemma {:induction false} RepeatExactly(fs: Fs, io: Io)
    requires CleanupRoot(fs, io).0 != OK
    ensures var r := CleanupRoot(fs, io).1;
            && ((exists again :: CleanupRoot(r, again).0 == OK) <==> Cleanable(r))
            && (Cleanable(r) <==> Cleanable(fs) && SameContainers(fs, r))
  {
    hide CleanupRoot, Get, Cleanable;
    var r := CleanupRoot(fs, io).1;
    CleanableExactly(r);
    if Cleanable(r) {
      forall key
        ensures Get(r, key) == Get(fs, key)
      {
        CleanupRootExactly(fs, io, key);
        if Get(fs, key).Some? && Get(r, key) == None {
          RemovedIsMissed(fs, io, key);
        }
      }
    }
    if SameContainers(fs, r) {
      SameCleanable(fs, r);
    }
  }

  /**
   When removing the root is all that is refused, a cleanup gets through all providers and then
   fails: what can be cleaned up is gone, and the root is left.  A later cleanup can succeed
   exactly when that was nothing: the root lists only providers with short containers.
   */
  lemma {:induction false} RefusedRoot(fs: Fs, io: Io)
    requires Cleanable(fs) && FullRoot(fs).Some? && ProvidersAllowed(fs, FullRoot(fs).value, io, CHILDREN_COUNT)
    requires PathOf(Root) !in io.unopened && PathOf(Root) in io.unremoved
    ensures var (code, r) := CleanupRoot(fs, io);
            && code == ERR_UNKNOWN
            && (forall key :: Get(r, key) == if key != Root && Reached(fs, key) then None else Get(fs, key))
            && (Cleanable(r) <==> forall i | 0 <= i < CHILDREN_COUNT && RootChild(FullRoot(fs).value, i) != SPID_FREE ::
                                    FullSp(fs, RootChild(FullRoot(fs).value, i)).None?)
  {
    var cont, r := FullRoot(fs).value, CleanupRoot(fs, io).1;
    RefusedRootState(fs, io);
    RepeatExactly(fs, io);
    hide CleanupRoot, Get, RootChild, Cleanable, FullRoot, FullSp, PathOf, ProvidersAllowed;
    forall i | 0 <= i < CHILDREN_COUNT && RootChild(cont, i) != SPID_FREE && FullSp(fs, RootChild(cont, i)).Some?
      ensures !SameContainers(fs, r)
    {
      FullIsReached(fs, cont, i);
    }
    if forall i | 0 <= i < CHILDREN_COUNT && RootChild(cont, i) != SPID_FREE :: FullSp(fs, RootChild(cont, i)).None? {
      assert forall key :: !ReachedBy(fs, cont, CHILDREN_COUNT, key);
    }
  }

  lemma FullIsReached(fs: Fs, cont: RootCont, i: nat)
    requires i < CHILDREN_COUNT && RootChild(cont, i) != SPID_FREE && FullSp(fs, RootChild(cont, i)).Some?
    ensures var key := Sp(RootChild(cont, i)); ReachedBy(fs, cont, CHILDREN_COUNT, key) && Get(fs, key).Some?
  {
    hide Get, RootChild;
  }

  lemma {:induction false} RefusedRootState(fs: Fs, io: Io)
    requires Cleanable(fs) && FullRoot(fs).Some? && ProvidersAllowed(fs, FullRoot(fs).value, io, CHILDREN_COUNT)
    requires PathOf(Root) !in io.unopened && PathOf(Root) in io.unremoved
    ensures var (code, r) := CleanupRoot(fs, io);
            && code == ERR_UNKNOWN
            && (forall key :: Get(r, key) == if key != Root && Reached(fs, key) then None else Get(fs, key))
  {
    hide PathOf, ProvidersAfter, RemoveFile, Get, Read, ReachedBy, FullRoot, ProvidersThere, ProvidersAllowed;
    ReadsStored(fs, Root, ROOT_CONT_SIZE, io);
    ReadIsFullRoot(fs, io);
    var data := Read(fs, Root, true, ROOT_CONT_SIZE, io).1;
    ProvidersSucceed(fs, data, io, CHILDREN_COUNT);
    var left := ProvidersAfter(fs, data, io, CHILDREN_COUNT).1;
    RemovesFile(left, PathOf(Root), io);
    RootIsNobodys(fs, data);
    forall key
      ensures Get(RemoveFile(left, PathOf(Root), io).1, key)
              == if key != Root && ReachedBy(fs, data, CHILDREN_COUNT, key) then None else Get(fs, key)
    {
      ProvidersExactly(fs, data, io, CHILDREN_COUNT, key);
      ContainerRemoval(left, Root, io, key);
    }
  }

  // ------------------------------------------------------------------------------------------
  // A registry of one provider
  // ------------------------------------------------------------------------------------------

  /** Lists no trustlet. */
  const NO_TRUSTLETS: SpCont := seq(SP_CONT_SIZE, _ => 0xFF)
  /** Lists the provider with the id 1. */
  const ONE_PROVIDER: RootCont :=
    seq(ROOT_CONT_SIZE, i => if i == ROOT_CHILDREN_OFFSET then 1 else if i < ROOT_CHILDREN_OFFSET + 4 then 0 else 0xFF)
  const SMALL := Fs(map[PathOf(Root) := ONE_PROVIDER, PathOf(Sp(1)) := NO_TRUSTLETS], {})

  lemma SmallHolds()
    ensures Get(SMALL, Root) == Some(ONE_PROVIDER) && Get(SMALL, Sp(1)) == Some(NO_TRUSTLETS)
  {
    PathsDiffer(Root, Sp(1));
    hide PathOf;
  }

  lemma OneListed(i: nat)
    requires i < CHILDREN_COUNT
    ensures RootChild(ONE_PROVIDER, i) == if i == 0 then 1 else SPID_FREE
  {}

  lemma NoneListed()
    ensures forall i | 0 <= i < CHILDREN_COUNT :: SpChild(NO_TRUSTLETS, i) == UUID_FREE
  {}

  lemma {:induction false} SmallIsCleanable()
    ensures FullRoot(SMALL) == Some(ONE_PROVIDER) && FullSp(SMALL, 1) == Some(NO_TRUSTLETS) && Cleanable(SMALL)
  {
    SmallHolds();
    assert ONE_PROVIDER[..ROOT_CONT_SIZE] == ONE_PROVIDER && NO_TRUSTLETS[..SP_CONT_SIZE] == NO_TRUSTLETS;
    hide Get, RootChild, SpChild, UUID_FREE;
    NoneListed();
    assert forall i | 0 <= i < CHILDREN_COUNT :: TrustletThere(SMALL, 1, NO_TRUSTLETS, i);
    forall i | 0 <= i < CHILDREN_COUNT
      ensures ProviderThere(SMALL, ONE_PROVIDER, i)
    {
      OneListed(i);
    }
  }

  lemma {:induction false} SmallAllowed(io: Io)
    requires io == WILLING.(unremoved := {PathOf(Root)})
    ensures ProvidersAllowed(SMALL, ONE_PROVIDER, io, CHILDREN_COUNT)
  {
    SmallIsCleanable();
    PathsDiffer(Root, Sp(1));
    hide PathOf, Get, FullSp, RootChild, SpChild, UUID_FREE;
    forall i | 0 <= i < CHILDREN_COUNT && RootChild(ONE_PROVIDER, i) != SPID_FREE
      ensures SpAllowed(SMALL, RootChild(ONE_PROVIDER, i), io)
    {
      OneListed(i);
      NoneListed();
    }
  }

  /** The file system refuses once to remove the root: no cleanup will ever succeed. */
  lemma {:induction false} RefusedOnce(again: Io)
    ensures var (code, r) := CleanupRoot(SMALL, WILLING.(unremoved := {PathOf(Root)}));
            && CleanupRoot(SMALL, WILLING).0 == OK && code != OK
            && Get(r, Sp(1)) == None && Get(r, Root).Some? && CleanupRoot(r, again).0 != OK
  {
    var io := WILLING.(unremoved := {PathOf(Root)});
    SmallIsCleanable();
    WillingAllows(SMALL);
    SucceedsExactly(SMALL, WILLING);
    OneListed(0);
    SmallAllowed(io);
    RefusedRoot(SMALL, io);
    SmallHolds();
    FullIsReached(SMALL, ONE_PROVIDER, 0);
    SucceedsExactly(CleanupRoot(SMALL, io).1, again);
  }
}
