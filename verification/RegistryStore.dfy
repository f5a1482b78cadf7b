/**
 The registry as an object over its files: the loops of the cleanup and the copies into the
 caller's buffers, proved against the functions of Registry.
 */
module RegistryStore {
  import opened Wrappers
  import opened Words
  import opened RegistryNames
  import opened R = Registry

  class Store {
    var files: map<string, seq<byte>>
    var dirs: set<string>

    function View(): Fs
      reads this
    {
      Fs(files, dirs)
    }

    constructor ()
      ensures View() == EMPTY
    {
      files, dirs := map[], {};
    }

    /** mcRegistryStoreRoot, mcRegistryStoreSp, mcRegistryStoreTrustletCon */
    method StoreContainer(key: Key, so: array?<byte>, size: nat, io: Io) returns (ret: nat)
      requires so != null ==> size <= so.Length
      modifies this`files
      ensures (ret, View()) == R.Store(old(View()), key, if so == null then None else Some(so[..size]), io)
    {
      if key == Sp(0) || so == null || size > 3 * MAX_SO_CONT_SIZE {
        return ERR_INVALID_PARAMETER;
      }
      var path := PathOf(key);
      if path in io.unopened {
        return ERR_INVALID_DEVICE_FILE;
      }
      files := files[path := so[..size]];
      return OK;
    }

    /** fread into the start of a buffer */
    static method Fill(so: array<byte>, data: seq<byte>)
      requires |data| <= so.Length
      modifies so
      ensures so[..] == data + old(so[..])[|data|..]
    {
      for i := 0 to |data|
        invariant forall j | 0 <= j < i :: so[j] == data[j]
        invariant forall j | i <= j < so.Length :: so[j] == old(so[j])
      {
        so[i] := data[i];
      }
    }

    /**
     mcRegistryReadRoot, mcRegistryReadSp, mcRegistryReadTrustletCon: `size` is the capacity, `got`
     what *size becomes.
     */
    method ReadContainer(key: Key, so: array?<byte>, size: nat, io: Io) returns (ret: nat, got: nat)
      requires so != null ==> size <= so.Length
      modifies so
      ensures View() == old(View()) && ret == Read(View(), key, so != null, size, io).0
      ensures ret == OK ==>
                var data := Read(View(), key, so != null, size, io).1;
                so != null && got == |data| <= size && so[..] == data + old(so[..])[got..]
      ensures ret != OK ==> got == size && (so != null ==> so[..] == old(so[..]))
    {
      hide PathOf;
      got := size;
      if key == Sp(0) || so == null {
        return ERR_INVALID_PARAMETER, got;
      }
      var path := PathOf(key);
      if path !in files || path in io.unopened {
        return ERR_INVALID_DEVICE_FILE, got;
      }
      var readBytes := if |files[path]| > size then size else |files[path]|;
      var data := files[path][..readBytes];
      assert data == Cut(files[path], size);
      Fill(so, data);
      if readBytes > 0 {
        return OK, readBytes;
      }
      return ERR_INVALID_DEVICE_FILE, got;
    }

    /** remove */
    method Remove(path: string, io: Io) returns (ok: bool)
      modifies this`files
      ensures (ok, View()) == RemoveFile(old(View()), path, io)
    {
      if path !in files || path in io.unremoved {
        return false;
      }
      files := files - {path};
      return true;
    }

    /** The files are deleted in whatever order readdir lists them; those that cannot be are left. */
    method ClearDirectory(directory: string, io: Io) returns (ok: bool)
      modifies this
      ensures (ok, View()) == R.ClearDirectory(old(View()), directory, io)
    {
      hide IsEntry;
      if directory !in dirs {
        return true;
      }
      var listing := set p | p in files && IsEntry(directory, p);
      ghost var all := Entries(View(), directory, io);
      while listing != {}
        invariant dirs == old(dirs) && listing <= old(files).Keys
        invariant files == old(files) - (all - listing)
        invariant forall p | p in listing :: p in all || p in io.unremoved
        decreases listing
      {
        var p :| p in listing;
        listing := listing - {p};
        ghost var before := files;
        var _ := Remove(p, io);
      }
      assert all - listing == all;
      if directory in io.stuck {
        return false;
      }
      dirs := dirs - {directory};
      return true;
    }

    method DeleteSpTa(uuid: seq<byte>, spid: nat, io: Io)
      modifies this`files
      ensures View() == Sweep(old(View()), uuid, spid, io)
    {
      hide IsSweepable;
      var found := Swept(uuid, spid, io);
      ghost var all := found;
      while found != {}
        invariant found <= all && files == old(files) - (all - found)
        decreases found
      {
        var p :| p in found;
        found := found - {p};
        files := files - {p};
      }
    }

    method CleanupTrustlet(uuid: Uuid, spid: Spid, io: Io) returns (ret: nat)
      modifies this
      ensures (ret, View()) == R.CleanupTrustlet(old(View()), uuid, spid, io)
    {
      hide PathOf, BinaryPath, R.ClearDirectory, RemoveFile, Sweep;
      var cleared := ClearDirectory(BytesName(uuid), io);
      if !cleared {
        return ERR_UNKNOWN;
      }
      var _ := Remove(BinaryPath(io.binaries, uuid), io);
      DeleteSpTa(uuid, spid, io);
      var removed := Remove(PathOf(Tl(uuid, spid)), io);
      if !removed {
        return ERR_UNKNOWN;
      }
      return OK;
    }

    /** strncmp(a, b, n) == 0 */
    static method SameUuid(a: Uuid, b: Uuid) returns (same: bool)
      ensures same == StrNCmpEqual(a, b)
    {
      var i := 0;
      while i < UUID_LENGTH && a[i] == b[i] && a[i] != 0
        invariant i <= UUID_LENGTH && StrNCmpEqual(a, b) == StrNCmpEqual(a[i..], b[i..])
      {
        assert a[i..][1..] == a[i + 1..] && b[i..][1..] == b[i + 1..];
        i := i + 1;
      }
      return i == UUID_LENGTH || a[i] == b[i];
    }

    method CleanupSp(spid: Spid, io: Io) returns (ret: nat)
      modifies this
      ensures (ret, View()) == R.CleanupSp(old(View()), spid, io)
    {
      hide PathOf, R.ClearDirectory, RemoveFile, Sweep, R.CleanupTrustlet, SpChild, StrNCmpEqual, ChildrenAfter, Read;
      if spid == 0 {
        return ERR_INVALID_PARAMETER;
      }
      var data := new byte[SP_CONT_SIZE];
      var len;
      ret, len := ReadContainer(Sp(spid), data, SP_CONT_SIZE, io);
      if ret != OK || len != SP_CONT_SIZE {
        return;
      }
      var cont: SpCont := data[..];
      assert cont == Read(View(), Sp(spid), true, SP_CONT_SIZE, io).1;
      ret := CleanupChildren(cont, spid, io);
      if ret != OK {
        return;
      }
      DeleteSpTa([], spid, io);
      var cleared := ClearDirectory(SpidName(spid), io);
      if !cleared {
        return ERR_UNKNOWN;
      }
      var removed := Remove(PathOf(Sp(spid)), io);
      if !removed {
        return ERR_UNKNOWN;
      }
      return OK;
    }

    /** The loop over the children, which ends at the first failure. */
    method CleanupChildren(cont: SpCont, spid: Spid, io: Io) returns (ret: nat)
      modifies this
      ensures (ret, View()) == ChildrenAfter(old(View()), spid, cont, io, CHILDREN_COUNT)
    {
      hide R.CleanupTrustlet, SpChild, StrNCmpEqual;
      ret := OK;
      var i := 0;
      while i < CHILDREN_COUNT && ret == OK
        invariant i <= CHILDREN_COUNT && (ret, View()) == ChildrenAfter(old(View()), spid, cont, io, i)
        decreases CHILDREN_COUNT - i
      {
        var free := SameUuid(SpChild(cont, i), UUID_FREE);
        if !free {
          ret := CleanupTrustlet(SpChild(cont, i), spid, io);
        }
        i := i + 1;
      }
      FailureStays(old(View()), spid, cont, io, i, CHILDREN_COUNT);
    }

    method CleanupRoot(io: Io) returns (ret: nat)
      modifies this
      ensures (ret, View()) == R.CleanupRoot(old(View()), io)
    {
      hide PathOf, RemoveFile, R.CleanupSp, RootChild, ProvidersAfter, Read;
      var data := new byte[ROOT_CONT_SIZE];
      var len;
      ret, len := ReadContainer(Root, data, ROOT_CONT_SIZE, io);
      if ret != OK || len != ROOT_CONT_SIZE {
        return;
      }
      var cont: RootCont := data[..];
      assert cont == Read(View(), Root, true, ROOT_CONT_SIZE, io).1;
      ret := CleanupProviders(cont, io);
      if ret != OK {
        return;
      }
      var removed := Remove(PathOf(Root), io);
      if !removed {
        return ERR_UNKNOWN;
      }
      return OK;
    }

    /** The loop over the service providers. */
    method CleanupProviders(cont: RootCont, io: Io) returns (ret: nat)
      modifies this
      ensures (ret, View()) == ProvidersAfter(old(View()), cont, io, CHILDREN_COUNT)
    {
      hide R.CleanupSp, RootChild;
      ret := OK;
      var i := 0;
      while i < CHILDREN_COUNT && ret == OK
        invariant i <= CHILDREN_COUNT && (ret, View()) == ProvidersAfter(old(View()), cont, io, i)
        decreases CHILDREN_COUNT - i
      {
        var spid := RootChild(cont, i);
        i := i + 1;
        if spid != SPID_FREE {
          ret := CleanupSp(spid, io);
        }
      }
      ProviderFailureStays(old(View()), cont, io, i, CHILDREN_COUNT);
    }
  }

  lemma {:induction false} FailureStays(fs: Fs, spid: Spid, cont: SpCont, io: Io, n: nat, m: nat)
    requires n <= m <= CHILDREN_COUNT && (n < m ==> ChildrenAfter(fs, spid, cont, io, n).0 != OK)
    ensures ChildrenAfter(fs, spid, cont, io, m) == ChildrenAfter(fs, spid, cont, io, n)
  {
    hide R.CleanupTrustlet;
    if n < m {
      FailureStays(fs, spid, cont, io, n, m - 1);
    }
  }

  lemma {:induction false} ProviderFailureStays(fs: Fs, cont: RootCont, io: Io, n: nat, m: nat)
    requires n <= m <= CHILDREN_COUNT && (n < m ==> ProvidersAfter(fs, cont, io, n).0 != OK)
    ensures ProvidersAfter(fs, cont, io, m) == ProvidersAfter(fs, cont, io, n)
  {
    hide R.CleanupSp;
    if n < m {
      ProviderFailureStays(fs, cont, io, n, m - 1);
    }
  }
}
