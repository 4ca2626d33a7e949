/** `WrapProxyWriter`, the older writer of the archive package: the same overlay, the same
    tombstones and the same operations as `ProxyWriter`, except that `openbin` gates on the
    mode's writing, appending and updating flags, `makedir` returns a directory of the
    overlay store, and `getmeta` is the generic one of a filesystem. */
module ArchiveProxy {
  import opened Utils
  import opened Stores
  import opened Overlay

  /** `openbin(p, mode)` of `WrapProxyWriter`: an exclusive mode is refused on a visible
      path; a mode that does not write needs `p` visible and reads from the backing store
      when the overlay lacks `p`; an appending or updating mode relocates an untouched
      backing file first. Everything else is opened on the overlay. */
  function OpenArchiveSpec(b: Store, o: Store, rm: set<Path>, p: Path, m: Mode): Outcome<Handle>
  {
    if m.exclusive && Visible(b, o, rm, p) then Outcome(Err(FileExists), o, rm)
    else if !m.writing then
      if !Visible(b, o, rm, p) then Outcome(Err(ResourceNotFound), o, rm)
      else if p !in o then Outcome(OpenBacking(b, p, m), o, rm)
      else OpenInOverlay(b, o, rm, p, m)
    else if (m.appending || m.updating) && OnWrappedOnly(b, o, rm, p) then
      var moved := RelocateSpec(b, o, rm, p);
      if moved.result.Err? then Outcome(Err(moved.result.error), moved.overlay, moved.removed)
      else OpenInOverlay(b, moved.overlay, moved.removed, p, m)
    else OpenInOverlay(b, o, rm, p, m)
  }

  /** A mode that does not write, on a path the overlay lacks, is served by the backing
      store and touches neither the overlay nor the tombstones. */
  lemma ArchiveReadServedByBacking(b: Store, o: Store, rm: set<Path>, p: Path, m: Mode)
    requires !m.writing && !m.exclusive && OnWrappedOnly(b, o, rm, p)
    ensures var out := OpenArchiveSpec(b, o, rm, p, m);
      && out.overlay == o && out.removed == rm
      && (b[p].File? ==> out.result == Ok(Handle(BackingStore, p, m, 0)))
      && (b[p].Dir? ==> out.result == Err(FileExpected))
  {
  }

  /** A mode that does not write, on a path the view does not show, is refused. */
  lemma ArchiveReadMissing(b: Store, o: Store, rm: set<Path>, p: Path, m: Mode)
    requires !m.writing && !Visible(b, o, rm, p)
    ensures OpenArchiveSpec(b, o, rm, p, m) == Outcome(Err(ResourceNotFound), o, rm)
  {
  }

  /** An exclusive open of a visible path is refused and changes nothing. */
  lemma ArchiveExclusiveOnVisible(b: Store, o: Store, rm: set<Path>, p: Path, m: Mode)
    requires m.exclusive && Visible(b, o, rm, p)
    ensures OpenArchiveSpec(b, o, rm, p, m) == Outcome(Err(FileExists), o, rm)
  {
  }

  /** Only an appending or updating mode relocates: any other mode leaves the tombstones
      as they are. */
  lemma ArchiveRelocatesOnlyAppendOrUpdate(b: Store, o: Store, rm: set<Path>, p: Path, m: Mode)
    requires !(m.appending || m.updating)
    ensures OpenArchiveSpec(b, o, rm, p, m).removed == rm
  {
  }

  /** `'r+'` on an untouched backing file: `WrapProxyWriter` relocates it and opens the
      overlay copy, holding the backing bytes, at its start, where `ProxyWriter` sends the
      mode to the read-only backing store, which refuses it. */
  lemma UpdateModeDiffers(b: Store, o: Store, rm: set<Path>, p: Path)
    requires Wf(b) && Wf(o)
    requires OnWrappedOnly(b, o, rm, p) && b[p].File?
    requires NoFileOnPath(o, Dirname(p))
    ensures OpenProxySpec(b, o, rm, p, UpdateMode) == Outcome(Err(ResourceReadOnly), o, rm)
    ensures var out := OpenArchiveSpec(b, o, rm, p, UpdateMode);
      && out.result == Ok(Handle(OverlayStore, p, UpdateMode, 0))
      && out.removed == rm + {p}
      && ReadSpec(b, out.overlay, out.removed, p) == Ok(b[p].data)
  {
    RelocateKeepsContent(b, o, rm, p);
    var moved := RelocateSpec(b, o, rm, p);
    AncestorsAreDirs(moved.overlay, p);
    if Dirname(p) in b {
      MakeDirsExisting(moved.overlay, Dirname(p));
    }
  }

  /** On an untouched backing file `'w+'` opens an empty overlay file in both variants,
      but only `WrapProxyWriter` tombstones the path first, since `'+'` updates. */
  lemma TruncateUpdateDiffers(b: Store, o: Store, rm: set<Path>, p: Path)
    requires Wf(b) && Wf(o)
    requires OnWrappedOnly(b, o, rm, p) && b[p].File?
    requires NoFileOnPath(o, Dirname(p))
    ensures var out := OpenProxySpec(b, o, rm, p, TruncateUpdateMode);
      && out.result == Ok(Handle(OverlayStore, p, TruncateUpdateMode, 0))
      && out.removed == rm
      && ReadSpec(b, out.overlay, out.removed, p) == Ok([])
    ensures var out := OpenArchiveSpec(b, o, rm, p, TruncateUpdateMode);
      && out.result == Ok(Handle(OverlayStore, p, TruncateUpdateMode, 0))
      && out.removed == rm + {p}
      && ReadSpec(b, out.overlay, out.removed, p) == Ok([])
  {
    AncestorsAreDirs(b, p);
    var o1 := MakeDirs(o, Dirname(p)).value;
    assert !IsPrefix(p, Dirname(p));
    assert p !in o1;
    RelocateKeepsContent(b, o, rm, p);
    var moved := RelocateSpec(b, o, rm, p);
    AncestorsAreDirs(moved.overlay, p);
    if Dirname(p) in b {
      MakeDirsExisting(moved.overlay, Dirname(p));
    }
  }

  /** With `WrapProxyWriter`'s `openbin` too, tombstones are only ever added. */
  lemma ArchiveTombstonesOnlyGrow(b: Store, o: Store, rm: set<Path>, p: Path, m: Mode)
    ensures rm <= OpenArchiveSpec(b, o, rm, p, m).removed <= rm + {p}
  {
  }

  /** With `WrapProxyWriter`'s `openbin` as well, a successful truncating open reads back
      exactly what is then written. */
  lemma ArchiveTruncatingOpenReadsBack(b: Store, o: Store, rm: set<Path>, p: Path, m: Mode, d: seq<byte>)
    requires m.Wellformed() && m.truncate
    requires OpenArchiveSpec(b, o, rm, p, m).result.Ok?
    ensures var out := OpenArchiveSpec(b, o, rm, p, m);
      && out.result.value == Handle(OverlayStore, p, m, 0)
      && p in out.overlay && out.overlay[p].File? && out.overlay[p].data == []
      && ReadSpec(b, WriteAt(out.overlay, out.result.value, d), out.removed, p) == Ok(d)
  {
  }

  /** The two `openbin` variants agree on every mode except a writing mode that does not
      create (`'r+'`) and a truncating updating one (`'w+'`). */
  lemma OpenVariantsAgree(b: Store, o: Store, rm: set<Path>, p: Path, m: Mode)
    requires m.Wellformed()
    requires m.create == m.writing
    requires !(m.truncate && m.updating)
    ensures OpenArchiveSpec(b, o, rm, p, m) == OpenProxySpec(b, o, rm, p, m)
  {
  }

  class WrapProxyWriter {
    const backing: Store
    /** The standard meta information, computed once from the backing store's. */
    const meta: Meta
    const closeBacking: bool
    var overlay: Store
    var removed: set<Path>
    var closed: bool
    var overlayClosed: bool
    var backingClosed: bool

    ghost predicate Valid()
      reads this
    {
      && Wf(backing) && Wf(overlay)
      && (overlayClosed <==> closed)
      && (backingClosed <==> closed && closeBacking)
    }

    constructor(backing: Store, proxy: Store, closeBacking: bool, backingMeta: map<string, Meta>)
      requires Wf(backing) && Wf(proxy)
      ensures Valid()
      ensures this.backing == backing && overlay == proxy && removed == {}
      ensures this.closeBacking == closeBacking && !closed
      ensures meta == StandardMeta(MetaOf(backingMeta, StandardNamespace))
    {
      this.backing := backing;
      overlay := proxy;
      this.closeBacking := closeBacking;
      meta := StandardMeta(MetaOf(backingMeta, StandardNamespace));
      removed := {};
      closed := false;
      overlayClosed := false;
      backingClosed := false;
    }

    /** `getmeta(namespace)`: the meta information computed at construction for the
        `standard` namespace, nothing for any other. */
    function GetMeta(namespace: string): (r: Meta)
      reads this
      ensures namespace == StandardNamespace ==> r == meta
      ensures namespace != StandardNamespace ==> r == map[]
    {
      if namespace == StandardNamespace then meta else map[]
    }

    /** `exists(p)`. */
    function Exists(p: Path): (r: Result<bool>)
      reads this
      ensures closed ==> r == Err(Closed)
      ensures !closed ==> r == Ok(p in overlay || (p in backing && p !in removed))
    {
      if closed then Err(Closed)
      else if p in overlay then Ok(true)
      else if p in backing then Ok(p !in removed)
      else Ok(false)
    }

    /** `makedir(p, recreate)`, returning a directory object on the overlay store. */
    method MakeDir(p: Path, recreate: bool) returns (r: Result<Side>)
      requires Valid()
      modifies this`overlay
      ensures Valid()
      ensures old(closed) ==> r == Err(Closed) && overlay == old(overlay)
      ensures !old(closed) ==>
        Outcome(r, overlay, removed) == MakeDirSpec(backing, old(overlay), removed, p, recreate, OverlayStore)
    {
      if closed {
        return Err(Closed);
      }
      if Exists(p).value && !recreate {
        return Err(DirectoryExists);
      }
      var parent := Dirname(p);
      if !Exists(parent).value && parent != [] {
        return Err(ResourceNotFound);
      }
      var made := MakeDirs(overlay, p);
      if made.Err? {
        return Err(made.error);
      }
      MakeDirsWf(overlay, p);
      overlay := made.value;
      r := Ok(OverlayStore);
    }

    /** `remove(p)`. */
    method Remove(p: Path) returns (r: Result<()>)
      requires Valid()
      modifies this`overlay, this`removed
      ensures Valid()
      ensures old(closed) ==> r == Err(Closed) && overlay == old(overlay) && removed == old(removed)
      ensures !old(closed) ==> Outcome(r, overlay, removed) == RemoveSpec(backing, old(overlay), old(removed), p)
    {
      if closed {
        return Err(Closed);
      }
      if !Exists(p).value {
        return Err(ResourceNotFound);
      }
      if p in overlay {
        var after := RemoveFile(overlay, p);
        if after.Err? {
          return Err(after.error);
        }
        RemoveFileWf(overlay, p);
        overlay := after.value;
      }
      removed := removed + {p};
      r := Ok(());
    }

    /** `removedir(p)`. */
    method RemoveDir(p: Path) returns (r: Result<()>)
      requires Valid()
      modifies this`overlay, this`removed
      ensures Valid()
      ensures old(closed) ==> r == Err(Closed) && overlay == old(overlay) && removed == old(removed)
      ensures !old(closed) ==> Outcome(r, overlay, removed) == RemoveDirSpec(backing, old(overlay), old(removed), p)
    {
      if closed {
        return Err(Closed);
      }
      if p == [] {
        return Err(RemoveRootError);
      }
      var listing := MergedListDir(backing, overlay, removed, p);
      if listing.Err? {
        return Err(listing.error);
      }
      if listing.value != [] {
        assert listing.value[0] in MergedChildren(backing, overlay, removed, p);
        return Err(DirectoryNotEmpty);
      }
      assert MergedChildren(backing, overlay, removed, p) == {};
      if p in overlay {
        assert Children(overlay, p) == ListedIn(overlay, p);
        RemoveEmptyDirWf(overlay, p);
        overlay := RemoveEmptyDir(overlay, p);
      }
      removed := removed + {p};
      r := Ok(());
    }

    /** `_relocate(p)`. */
    method Relocate(p: Path) returns (r: Result<()>)
      requires Valid()
      modifies this`overlay, this`removed
      ensures Valid()
      ensures Outcome(r, overlay, removed) == RelocateSpec(backing, old(overlay), old(removed), p)
    {
      var made := MakeDirs(overlay, Dirname(p));
      if made.Err? {
        return Err(made.error);
      }
      MakeDirsWf(overlay, Dirname(p));
      overlay := made.value;
      var copied := CopyFile(backing, p, overlay);
      if copied.Err? {
        return Err(copied.error);
      }
      CopyFileWf(backing, p, overlay);
      overlay := copied.value;
      removed := removed + {p};
      r := Ok(());
    }

    /** The tail of `openbin`. */
    method OpenOnOverlay(p: Path, m: Mode) returns (r: Result<Handle>)
      requires Valid()
      modifies this`overlay
      ensures Valid()
      ensures Outcome(r, overlay, removed) == OpenInOverlay(backing, old(overlay), removed, p, m)
    {
      if Dirname(p) in backing {
        var made := MakeDirs(overlay, Dirname(p));
        if made.Err? {
          return Err(made.error);
        }
        MakeDirsWf(overlay, Dirname(p));
        overlay := made.value;
      }
      var open := OpenIn(overlay, p, m);
      if open.Err? {
        return Err(open.error);
      }
      OpenInWf(overlay, p, m);
      overlay := open.value;
      r := Ok(Handle(OverlayStore, p, m, StartPos(overlay, p, m)));
    }

    /** `openbin(p, mode)`. */
    method OpenBin(p: Path, m: Mode) returns (r: Result<Handle>)
      requires Valid()
      modifies this`overlay, this`removed
      ensures Valid()
      ensures old(closed) ==> r == Err(Closed) && overlay == old(overlay) && removed == old(removed)
      ensures !old(closed) ==> Outcome(r, overlay, removed) == OpenArchiveSpec(backing, old(overlay), old(removed), p, m)
    {
      if closed {
        return Err(Closed);
      }
      if m.exclusive && Exists(p).value {
        return Err(FileExists);
      }
      if !m.writing {
        if !Exists(p).value {
          return Err(ResourceNotFound);
        }
        if p !in overlay {
          return OpenBacking(backing, p, m);
        }
      } else if m.appending || m.updating {
        if OnWrappedOnly(backing, overlay, removed, p) {
          var moved := Relocate(p);
          if moved.Err? {
            return Err(moved.error);
          }
        }
      }
      r := OpenOnOverlay(p, m);
    }

    /** `setinfo(p, info)`. */
    method SetInfo(p: Path, info: Info) returns (r: Result<()>)
      requires Valid()
      modifies this`overlay
      ensures Valid()
      ensures old(closed) ==> r == Err(Closed) && overlay == old(overlay)
      ensures !old(closed) ==> Outcome(r, overlay, removed) == SetInfoSpec(backing, old(overlay), removed, p, info)
    {
      if closed {
        return Err(Closed);
      }
      if !Exists(p).value {
        return Err(ResourceNotFound);
      }
      if p in overlay {
        SetInfoWf(overlay, p, info);
        overlay := Stores.SetInfo(overlay, p, info);
      } else {
        // `p` is visible and not in the overlay, so the backing store has it
        var made := MakeDirs(overlay, Dirname(p));
        if made.Err? {
          return Err(made.error);
        }
        MakeDirsWf(overlay, Dirname(p));
        overlay := made.value;
        var copied := CopyFile(backing, p, overlay);
        if copied.Err? {
          return Err(copied.error);
        }
        CopyFileWf(backing, p, overlay);
        SetInfoWf(copied.value, p, info);
        overlay := Stores.SetInfo(copied.value, p, info);
      }
      r := Ok(());
    }

    /** `listdir(p)`. */
    method ListDir(p: Path) returns (r: Result<seq<string>>)
      requires Valid()
      ensures closed ==> r == Err(Closed)
      ensures !closed ==> (r.Err? <==> ListDirError(backing, overlay, removed, p).Some?)
      ensures !closed && r.Err? ==> r.error == ListDirError(backing, overlay, removed, p).value
      ensures r.Ok? ==> Distinct(r.value)
      ensures r.Ok? ==> forall n :: n in r.value <==> Visible(backing, overlay, removed, Join(p, n))
      ensures r.Ok? ==> ListedFirst(r.value, ListedIn(overlay, p))
    {
      if closed {
        return Err(Closed);
      }
      r := MergedListDir(backing, overlay, removed, p);
      MergedChildrenVisible(backing, overlay, removed, p);
    }

    /** `getinfo(p)`. */
    function GetInfo(p: Path): (r: Result<Entry>)
      reads this
      ensures closed ==> r == Err(Closed)
      ensures !closed ==> r == GetInfoSpec(backing, overlay, removed, p)
    {
      if closed then Err(Closed) else GetInfoSpec(backing, overlay, removed, p)
    }

    /** `close()`. */
    method Close()
      requires Valid()
      modifies this`closed, this`overlayClosed, this`backingClosed
      ensures Valid() && closed && overlayClosed && backingClosed == closeBacking
      ensures old(closed) ==> unchanged(this)
    {
      if !closed {
        closed := true;
        overlayClosed := true;
        if closeBacking {
          backingClosed := true;
        }
      }
    }
  }
}
