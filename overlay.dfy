/** The copy-on-write overlay shared by `ProxyWriter` and `WrapProxyWriter`: a read-only
    backing store `b`, a writable overlay store `o` and the set `rm` of tombstoned paths.
    Every operation is specified here by a function from the state before the call to an
    `Outcome`: the value or error returned, and the overlay and tombstones after the call.
    The backing store is a parameter only: no operation can change it. */
module Overlay {
  import opened Utils
  import opened Stores

  datatype Outcome<T> = Outcome(result: Result<T>, overlay: Store, removed: set<Path>)

  /** `exists(p)` of the merged view: the overlay has `p`, or the backing store has it and
      it was not tombstoned. */
  predicate Visible(b: Store, o: Store, rm: set<Path>, p: Path)
  {
    p in o || (p in b && p !in rm)
  }

  /** `_on_wrapped_only(p)`: `p` is an untouched backing entry. */
  predicate OnWrappedOnly(b: Store, o: Store, rm: set<Path>, p: Path)
  {
    p in b && p !in o && p !in rm
  }

  /** The entry the merged view shows at `p`: the overlay's shadows the backing's. */
  function Resolve(b: Store, o: Store, rm: set<Path>, p: Path): Option<Entry>
  {
    if p in o then Some(o[p]) else if p in b && p !in rm then Some(b[p]) else None
  }

  /** `isdir(p)` of the merged view. */
  predicate IsDirView(b: Store, o: Store, rm: set<Path>, p: Path)
  {
    Resolve(b, o, rm, p).Some? && Resolve(b, o, rm, p).value.Dir?
  }

  /** The names a store's `listdir(p)` returns, or none when it does not hold `p`. */
  function ListedIn(s: Store, p: Path): set<string>
  {
    if p in s then Children(s, p) else {}
  }

  /** The names the merged `listdir(p)` returns: the overlay's children of `p`, and the
      backing's children of `p` whose joined path is not tombstoned. */
  function MergedChildren(b: Store, o: Store, rm: set<Path>, p: Path): set<string>
  {
    ListedIn(o, p) + set n | n in ListedIn(b, p) && Join(p, n) !in rm
  }

  /** The merged listing of a directory names exactly its visible children. */
  lemma MergedChildrenVisible(b: Store, o: Store, rm: set<Path>, p: Path)
    requires Wf(b) && Wf(o)
    ensures forall n :: n in MergedChildren(b, o, rm, p) <==> Visible(b, o, rm, Join(p, n))
  {
    ChildrenAreJoins(o, p);
    ChildrenAreJoins(b, p);
    if p !in o {
      ChildrenOfNonDir(o, p);
    }
    if p !in b {
      ChildrenOfNonDir(b, p);
    }
  }

  /** Why `listdir(p)` fails, checked in the order the operation checks: `p` is not
      visible, the merged view has no directory at `p`, or the backing store has a file
      where the merged view has a directory. */
  function ListDirError(b: Store, o: Store, rm: set<Path>, p: Path): Option<Error>
  {
    if !Visible(b, o, rm, p) then Some(ResourceNotFound)
    else if !IsDirView(b, o, rm, p) then Some(DirectoryExpected)
    else if p in b && b[p].File? then Some(DirectoryExpected)
    else None
  }

  /** The names in `names` that belong to `first` come before all the others. */
  predicate ListedFirst(names: seq<string>, first: set<string>)
  {
    forall i, j :: 0 <= i < j < |names| && names[j] in first ==> names[i] in first
  }

  /** `listdir(p)` of the merged view: the overlay's listing followed by the backing's
      untombstoned names, passed through `unique`. */
  method MergedListDir(b: Store, o: Store, rm: set<Path>, p: Path) returns (r: Result<seq<string>>)
    ensures r.Err? <==> ListDirError(b, o, rm, p).Some?
    ensures r.Err? ==> r.error == ListDirError(b, o, rm, p).value
    ensures r.Ok? ==> Distinct(r.value)
    ensures r.Ok? ==> forall n :: n in r.value <==> n in MergedChildren(b, o, rm, p)
    ensures r.Ok? ==> ListedFirst(r.value, ListedIn(o, p))
  {
    if !Visible(b, o, rm, p) {
      return Err(ResourceNotFound);
    }
    if !IsDirView(b, o, rm, p) {
      return Err(DirectoryExpected);
    }
    var content: seq<string> := [];
    if p in o {
      content := ListNames(o, p);
    }
    ghost var fromOverlay := content;
    if p in b {
      if b[p].File? {
        return Err(DirectoryExpected);
      }
      var names := ListNames(b, p);
      ghost var kept: seq<string> := [];
      var i := 0;
      while i < |names|
        invariant 0 <= i <= |names|
        invariant content == fromOverlay + kept
        invariant forall n :: n in kept <==> n in names[..i] && Join(p, n) !in rm
      {
        if Join(p, names[i]) !in rm {
          content := content + [names[i]];
          kept := kept + [names[i]];
        }
        assert names[..i + 1] == names[..i] + [names[i]];
        i := i + 1;
      }
      assert names[..i] == names;
    }
    var listed := Unique(content);
    assert content[..|fromOverlay|] == fromOverlay;
    ListingProperties(content, fromOverlay, ListedIn(o, p));
    r := Ok(listed);
  }

  /** De-duplicating a listing whose distinct head names exactly `first` keeps `first`
      ahead of the rest. */
  lemma ListingProperties(content: seq<string>, head: seq<string>, first: set<string>)
    requires |head| <= |content| && content[..|head|] == head
    requires Distinct(head) && forall n :: n in head <==> n in first
    ensures Distinct(DedupFrom(content, {}))
    ensures forall n :: n in DedupFrom(content, {}) <==> n in content
    ensures ListedFirst(DedupFrom(content, {}), first)
  {
    DedupDistinct(content, {});
    DedupMembers(content, {});
    var tail := content[|head|..];
    var rest := DedupFrom(tail, first);
    assert DedupFrom(content, {}) == head + rest by {
      assert content == head + tail;
      DedupAppend(head, tail, {});
      assert {} + (set x | x in head) == first;
      DedupOfDistinct(head, {});
    }
    assert forall n :: n in rest ==> n !in first by {
      DedupMembers(tail, first);
    }
    HeadFirst(head, rest, first);
  }

  /** A list made of the names of `first` followed by names outside it lists `first`
      first. */
  lemma HeadFirst(head: seq<string>, rest: seq<string>, first: set<string>)
    requires forall n :: n in head ==> n in first
    requires forall n :: n in rest ==> n !in first
    ensures ListedFirst(head + rest, first)
  {
    var out := head + rest;
    forall k | |head| <= k < |out|
      ensures out[k] !in first
    {
      assert out[k] == rest[k - |head|];
    }
  }

  /** `makedir(p, recreate)`: a visible `p` is refused unless `recreate`, a missing parent
      other than the root is refused, and then `makedirs(p)` runs on the overlay. The
      directory handle returned is bound to `view`. */
  function MakeDirSpec(b: Store, o: Store, rm: set<Path>, p: Path, recreate: bool, view: Side): Outcome<Side>
  {
    if Visible(b, o, rm, p) && !recreate then Outcome(Err(DirectoryExists), o, rm)
    else if !Visible(b, o, rm, Dirname(p)) && Dirname(p) != [] then Outcome(Err(ResourceNotFound), o, rm)
    else match MakeDirs(o, p)
      case Err(e) => Outcome(Err(e), o, rm)
      case Ok(o1) => Outcome(Ok(view), o1, rm)
  }

  /** The errors of `makedir`, in order, and that a failure changes nothing. */
  lemma MakeDirErrors(b: Store, o: Store, rm: set<Path>, p: Path, recreate: bool, view: Side)
    ensures var out := MakeDirSpec(b, o, rm, p, recreate, view);
      && (out.result == Err(DirectoryExists) <==> Visible(b, o, rm, p) && !recreate)
      && ((!(Visible(b, o, rm, p) && !recreate) && !Visible(b, o, rm, Dirname(p)) && Dirname(p) != [])
            ==> out.result == Err(ResourceNotFound))
      && (out.result.Err? ==> out.overlay == o && out.removed == rm)
      && (out.result.Ok? <==> && !(Visible(b, o, rm, p) && !recreate)
                              && (Visible(b, o, rm, Dirname(p)) || Dirname(p) == [])
                              && NoFileOnPath(o, p))
  {
  }

  /** A successful `makedir` shows `p` and every directory above it as directories, keeps
      every other path of the view as it was, and touches only the overlay. */
  lemma MakeDirShowsDirectories(b: Store, o: Store, rm: set<Path>, p: Path, recreate: bool, view: Side)
    requires MakeDirSpec(b, o, rm, p, recreate, view).result.Ok?
    ensures var out := MakeDirSpec(b, o, rm, p, recreate, view);
      && out.result.value == view
      && out.removed == rm
      && (forall q :: IsPrefix(q, p) ==> IsDirView(b, out.overlay, rm, q))
      && (forall q :: !IsPrefix(q, p) ==> Resolve(b, out.overlay, rm, q) == Resolve(b, o, rm, q))
      && (forall q :: q in o ==> q in out.overlay && out.overlay[q] == o[q])
  {
  }

  /** `remove(p)`: refused when `p` is not visible; an overlay entry is removed from the
      overlay (the overlay store refuses a directory), and `p` is tombstoned. */
  function RemoveSpec(b: Store, o: Store, rm: set<Path>, p: Path): Outcome<()>
  {
    if !Visible(b, o, rm, p) then Outcome(Err(ResourceNotFound), o, rm)
    else if p in o then
      match RemoveFile(o, p)
      case Err(e) => Outcome(Err(e), o, rm)
      case Ok(o1) => Outcome(Ok(()), o1, rm + {p})
    else Outcome(Ok(()), o, rm + {p})
  }

  /** `remove` succeeds exactly on a visible path that is not a directory of the overlay,
      and then hides that path and no other while the backing store keeps it. */
  lemma RemoveHidesPath(b: Store, o: Store, rm: set<Path>, p: Path)
    ensures var out := RemoveSpec(b, o, rm, p);
      && (out.result.Ok? <==> Visible(b, o, rm, p) && (p in o ==> o[p].File?))
      && (!Visible(b, o, rm, p) ==> out.result == Err(ResourceNotFound))
      && (out.result.Err? ==> out.overlay == o && out.removed == rm)
      && (out.result.Ok? ==>
            && !Visible(b, out.overlay, out.removed, p)
            && out.removed == rm + {p}
            && (forall q :: q != p ==> Resolve(b, out.overlay, out.removed, q) == Resolve(b, o, rm, q)))
  {
  }

  /** `remove` does not look at what a backing-only path is: a backing directory is
      tombstoned like a file, and the entries below it stay visible. */
  lemma RemoveBackingDirKeepsChildren(b: Store, o: Store, rm: set<Path>, p: Path, child: Path)
    requires OnWrappedOnly(b, o, rm, p) && b[p].Dir?
    requires child in b && child !in rm && Dirname(child) == p && child != p
    ensures RemoveSpec(b, o, rm, p).result.Ok?
    ensures !Visible(b, RemoveSpec(b, o, rm, p).overlay, RemoveSpec(b, o, rm, p).removed, p)
    ensures Visible(b, RemoveSpec(b, o, rm, p).overlay, RemoveSpec(b, o, rm, p).removed, child)
  {
  }

  /** `removedir(p)`: the root is refused, then `isempty(p)` runs the merged `listdir(p)`
      (whose errors propagate) and a non-empty listing is refused; an overlay directory is
      removed from the overlay, and `p` is tombstoned. */
  function RemoveDirSpec(b: Store, o: Store, rm: set<Path>, p: Path): Outcome<()>
  {
    if p == [] then Outcome(Err(RemoveRootError), o, rm)
    else if ListDirError(b, o, rm, p).Some? then Outcome(Err(ListDirError(b, o, rm, p).value), o, rm)
    else if MergedChildren(b, o, rm, p) != {} then Outcome(Err(DirectoryNotEmpty), o, rm)
    else if p in o then Outcome(Ok(()), RemoveEmptyDir(o, p), rm + {p})
    else Outcome(Ok(()), o, rm + {p})
  }

  /** The errors of `removedir`, in order. */
  lemma RemoveDirErrors(b: Store, o: Store, rm: set<Path>, p: Path)
    requires Wf(b) && Wf(o)
    ensures var out := RemoveDirSpec(b, o, rm, p);
      && (p == [] ==> out.result == Err(RemoveRootError))
      && (p != [] && !Visible(b, o, rm, p) ==> out.result == Err(ResourceNotFound))
      && (p != [] && Visible(b, o, rm, p) && !IsDirView(b, o, rm, p) ==> out.result == Err(DirectoryExpected))
      && ((p != [] && ListDirError(b, o, rm, p).None? && exists n :: Visible(b, o, rm, Join(p, n)))
            ==> out.result == Err(DirectoryNotEmpty))
      && (out.result.Err? ==> out.overlay == o && out.removed == rm)
  {
    MergedChildrenVisible(b, o, rm, p);
  }

  /** A successful `removedir` leaves the directory hidden, every other path of the view
      as it was, and keeps the overlay well-formed. */
  lemma RemoveDirHidesPath(b: Store, o: Store, rm: set<Path>, p: Path)
    requires Wf(b) && Wf(o)
    requires RemoveDirSpec(b, o, rm, p).result.Ok?
    ensures var out := RemoveDirSpec(b, o, rm, p);
      && p != [] && IsDirView(b, o, rm, p)
      && (forall n :: !Visible(b, o, rm, Join(p, n)))
      && !Visible(b, out.overlay, out.removed, p)
      && out.removed == rm + {p}
      && (forall q :: q != p ==> Resolve(b, out.overlay, out.removed, q) == Resolve(b, o, rm, q))
      && Wf(out.overlay)
  {
    MergedChildrenVisible(b, o, rm, p);
    if p in o {
      RemoveEmptyDirWf(o, p);
    }
  }

  /** Once every backing entry below the root is tombstoned and the overlay holds only
      its root, the root lists empty. */
  lemma EmptyRootAfterTreeRemoved(b: Store, o: Store, rm: set<Path>)
    requires Wf(b) && Wf(o)
    requires forall q :: q in b && q != [] ==> q in rm
    requires forall q :: q in o ==> q == []
    ensures ListDirError(b, o, rm, []).None?
    ensures MergedChildren(b, o, rm, []) == {}
  {
    MergedChildrenVisible(b, o, rm, []);
    forall n
      ensures !Visible(b, o, rm, Join([], n))
    {
      assert Join([], n) != [];
    }
  }

  /** `_relocate(p)`: `makedirs(dirname(p))` on the overlay, then `copy_file` of `p` from
      the backing store, then `p` is tombstoned. A failed copy keeps the directories made
      before it. */
  function RelocateSpec(b: Store, o: Store, rm: set<Path>, p: Path): Outcome<()>
  {
    match MakeDirs(o, Dirname(p))
    case Err(e) => Outcome(Err(e), o, rm)
    case Ok(o1) =>
      match CopyFile(b, p, o1)
      case Err(e) => Outcome(Err(e), o1, rm)
      case Ok(o2) => Outcome(Ok(()), o2, rm + {p})
  }

  /** Relocating an untouched backing file copies its bytes into the overlay and tombstones
      it; the merged view shows the same bytes, and nothing the view showed disappears. */
  lemma RelocateKeepsContent(b: Store, o: Store, rm: set<Path>, p: Path)
    requires Wf(o)
    requires OnWrappedOnly(b, o, rm, p) && b[p].File?
    requires NoFileOnPath(o, Dirname(p))
    ensures var out := RelocateSpec(b, o, rm, p);
      && out.result.Ok?
      && out.removed == rm + {p}
      && p in out.overlay && out.overlay[p].File? && out.overlay[p].data == b[p].data
      && (forall q :: q in o ==> q in out.overlay && out.overlay[q] == o[q])
      && (forall q :: Visible(b, o, rm, q) ==> Visible(b, out.overlay, out.removed, q))
      && Wf(out.overlay)
  {
    var o1 := MakeDirs(o, Dirname(p)).value;
    MakeDirsWf(o, Dirname(p));
    assert !IsPrefix(p, Dirname(p));
    CopyFileWf(b, p, o1);
  }

  /** Relocating a backing directory fails in `copy_file`, after `makedirs` has already
      changed the overlay: the relocation is not atomic. */
  lemma RelocateDirectoryFails(b: Store, o: Store, rm: set<Path>, p: Path)
    requires OnWrappedOnly(b, o, rm, p) && b[p].Dir?
    requires NoFileOnPath(o, Dirname(p))
    ensures var out := RelocateSpec(b, o, rm, p);
      && out.result == Err(FileExpected)
      && out.overlay == MakeDirs(o, Dirname(p)).value
      && out.removed == rm
  {
  }

  /** Opening `p` on the read-only backing store: a writing mode is refused, and so is a
      directory. */
  function OpenBacking(b: Store, p: Path, m: Mode): Result<Handle>
    requires p in b
  {
    if m.writing then Err(ResourceReadOnly)
    else if b[p].Dir? then Err(FileExpected)
    else Ok(Handle(BackingStore, p, m, 0))
  }

  /** Opening `p` on the overlay store itself, as its `openbin` does. */
  function OpenOverlayFile(o: Store, rm: set<Path>, p: Path, m: Mode): Outcome<Handle>
  {
    match OpenIn(o, p, m)
    case Err(e) => Outcome(Err(e), o, rm)
    case Ok(o1) => Outcome(Ok(Handle(OverlayStore, p, m, StartPos(o1, p, m))), o1, rm)
  }

  /** The common tail of `openbin`: when the backing store has `dirname(p)`, the overlay
      gets it by `makedirs`; then `p` is opened on the overlay. */
  function OpenInOverlay(b: Store, o: Store, rm: set<Path>, p: Path, m: Mode): Outcome<Handle>
  {
    if Dirname(p) in b then
      match MakeDirs(o, Dirname(p))
      case Err(e) => Outcome(Err(e), o, rm)
      case Ok(o1) => OpenOverlayFile(o1, rm, p, m)
    else OpenOverlayFile(o, rm, p, m)
  }

  /** `openbin(p, mode)` of `ProxyWriter`: an exclusive mode is refused on a visible path;
      a mode that does not create needs `p` visible and reads from the backing store when
      the overlay lacks `p`; a creating mode that does not truncate relocates an untouched
      backing file first. Everything else is opened on the overlay. */
  function OpenProxySpec(b: Store, o: Store, rm: set<Path>, p: Path, m: Mode): Outcome<Handle>
  {
    if m.exclusive && Visible(b, o, rm, p) then Outcome(Err(FileExists), o, rm)
    else if !m.create then
      if !Visible(b, o, rm, p) then Outcome(Err(ResourceNotFound), o, rm)
      else if p !in o then Outcome(OpenBacking(b, p, m), o, rm)
      else OpenInOverlay(b, o, rm, p, m)
    else if !m.truncate && OnWrappedOnly(b, o, rm, p) then
      var moved := RelocateSpec(b, o, rm, p);
      if moved.result.Err? then Outcome(Err(moved.result.error), moved.overlay, moved.removed)
      else OpenInOverlay(b, moved.overlay, moved.removed, p, m)
    else OpenInOverlay(b, o, rm, p, m)
  }

  /** The store a file object reads and writes. */
  function HandleStore(b: Store, o: Store, h: Handle): Store
  {
    if h.side == BackingStore then b else o
  }

  /** `readbytes(p)` of the merged view: the bytes of the file the view shows. */
  function ReadSpec(b: Store, o: Store, rm: set<Path>, p: Path): Result<seq<byte>>
  {
    match Resolve(b, o, rm, p)
    case None => Err(ResourceNotFound)
    case Some(e) => if e.Dir? then Err(FileExpected) else Ok(e.data)
  }

  /** Opening for reading changes nothing, fails as reading fails, and the file object it
      returns reads what the merged view shows. */
  lemma OpenForReadingMatchesView(b: Store, o: Store, rm: set<Path>, p: Path)
    requires Wf(b) && Wf(o)
    ensures var out := OpenProxySpec(b, o, rm, p, ReadMode);
      && out.overlay == o && out.removed == rm
      && (out.result.Ok? <==> ReadSpec(b, o, rm, p).Ok?)
      && (out.result.Err? ==> out.result.error == ReadSpec(b, o, rm, p).error)
      && (out.result.Ok? ==>
            && out.result.value.side == (if p in o then OverlayStore else BackingStore)
            && p in HandleStore(b, o, out.result.value)
            && HandleStore(b, o, out.result.value)[p].data == ReadSpec(b, o, rm, p).value)
  {
    if p in o {
      AncestorsAreDirs(o, p);
      if Dirname(p) in b {
        forall q | IsPrefix(q, Dirname(p))
          ensures q in o && o[q].Dir?
        {
          if p != [] {
            assert IsPrefix(q, p) && q != p;
          }
        }
        MakeDirsExisting(o, Dirname(p));
      }
    }
  }

  /** An exclusive open of a visible path is refused and changes nothing. */
  lemma OpenExclusiveOnVisible(b: Store, o: Store, rm: set<Path>, p: Path, m: Mode)
    requires m.exclusive && Visible(b, o, rm, p)
    ensures OpenProxySpec(b, o, rm, p, m) == Outcome(Err(FileExists), o, rm)
  {
  }

  /** Opening a path the view does not show, in a mode that does not create, is refused
      and changes nothing. */
  lemma OpenMissingWithoutCreate(b: Store, o: Store, rm: set<Path>, p: Path, m: Mode)
    requires !m.create && !Visible(b, o, rm, p)
    ensures OpenProxySpec(b, o, rm, p, m) == Outcome(Err(ResourceNotFound), o, rm)
  {
  }

  /** A mode that does not create, on a path only the backing store shows, is served by
      the backing store: reading modes get a backing file object, `'r+'` is refused by the
      read-only store; neither touches the overlay or the tombstones. */
  lemma OpenUntouchedWithoutCreate(b: Store, o: Store, rm: set<Path>, p: Path, m: Mode)
    requires !m.create && !m.exclusive && OnWrappedOnly(b, o, rm, p)
    ensures var out := OpenProxySpec(b, o, rm, p, m);
      && out.overlay == o && out.removed == rm
      && (m.writing ==> out.result == Err(ResourceReadOnly))
      && (!m.writing && b[p].File? ==> out.result == Ok(Handle(BackingStore, p, m, 0)))
  {
  }

  /** Appending to an untouched backing file: the file is relocated, the file object is on
      the overlay at the end of the old bytes, and after a write the view shows the old
      bytes followed by the new ones. The backing store keeps the old bytes because no
      operation of the writer takes it as an output. */
  lemma AppendToUntouchedFile(b: Store, o: Store, rm: set<Path>, p: Path, d: seq<byte>)
    requires Wf(b) && Wf(o)
    requires OnWrappedOnly(b, o, rm, p) && b[p].File?
    requires NoFileOnPath(o, Dirname(p))
    ensures var out := OpenProxySpec(b, o, rm, p, AppendMode);
      && out.result.Ok?
      && out.result.value == Handle(OverlayStore, p, AppendMode, |b[p].data|)
      && out.removed == rm + {p}
      && p in out.overlay && out.overlay[p].File?
      && ReadSpec(b, out.overlay, out.removed, p) == Ok(b[p].data)
      && ReadSpec(b, WriteAt(out.overlay, out.result.value, d), out.removed, p) == Ok(b[p].data + d)
  {
    RelocateKeepsContent(b, o, rm, p);
    var moved := RelocateSpec(b, o, rm, p);
    AncestorsAreDirs(moved.overlay, p);
    if Dirname(p) in b {
      MakeDirsExisting(moved.overlay, Dirname(p));
    }
  }

  /** Writing over an untouched backing file with `'w'`: no relocation and no tombstone,
      the overlay file starts empty and after a write the view shows exactly the new
      bytes. As with appending, the backing store is left as it was. */
  lemma TruncateUntouchedFile(b: Store, o: Store, rm: set<Path>, p: Path, d: seq<byte>)
    requires Wf(b) && Wf(o)
    requires OnWrappedOnly(b, o, rm, p) && b[p].File?
    requires NoFileOnPath(o, Dirname(p))
    ensures var out := OpenProxySpec(b, o, rm, p, WriteMode);
      && out.result.Ok?
      && out.result.value == Handle(OverlayStore, p, WriteMode, 0)
      && out.removed == rm
      && p in out.overlay && out.overlay[p].File? && out.overlay[p].data == []
      && ReadSpec(b, WriteAt(out.overlay, out.result.value, d), out.removed, p) == Ok(d)
  {
    AncestorsAreDirs(b, p);
    var o1 := MakeDirs(o, Dirname(p)).value;
    assert !IsPrefix(p, Dirname(p));
    assert p !in o1;
  }

  /** A successful open with a truncating mode yields a file object on an empty overlay
      file, and the view reads back exactly what is then written through it. */
  lemma TruncatingOpenReadsBack(b: Store, o: Store, rm: set<Path>, p: Path, m: Mode, d: seq<byte>)
    requires m.Wellformed() && m.truncate
    requires OpenProxySpec(b, o, rm, p, m).result.Ok?
    ensures var out := OpenProxySpec(b, o, rm, p, m);
      && out.result.value == Handle(OverlayStore, p, m, 0)
      && p in out.overlay && out.overlay[p].File? && out.overlay[p].data == []
      && ReadSpec(b, WriteAt(out.overlay, out.result.value, d), out.removed, p) == Ok(d)
  {
  }

  /** `setinfo(p, info)`: refused when `p` is not visible; applied on the overlay when it
      has `p`; otherwise the backing entry is copied into the overlay first (after
      `makedirs(dirname(p))`), without tombstoning it. */
  function SetInfoSpec(b: Store, o: Store, rm: set<Path>, p: Path, info: Info): Outcome<()>
  {
    if !Visible(b, o, rm, p) then Outcome(Err(ResourceNotFound), o, rm)
    else if p in o then Outcome(Ok(()), SetInfo(o, p, info), rm)
    else
      match MakeDirs(o, Dirname(p))
      case Err(e) => Outcome(Err(e), o, rm)
      case Ok(o1) =>
        match CopyFile(b, p, o1)
        case Err(e) => Outcome(Err(e), o1, rm)
        case Ok(o2) => Outcome(Ok(()), SetInfo(o2, p, info), rm)
  }

  /** `setinfo` on a path the view does not show is refused and changes nothing. */
  lemma SetInfoMissing(b: Store, o: Store, rm: set<Path>, p: Path, info: Info)
    requires !Visible(b, o, rm, p)
    ensures SetInfoSpec(b, o, rm, p, info) == Outcome(Err(ResourceNotFound), o, rm)
  {
  }

  /** `setinfo` on an untouched backing file copies it into the overlay: afterwards both
      stores hold `p`, the tombstones are unchanged, the view shows the same bytes and
      `getinfo` reports every key that was set. */
  lemma SetInfoCopiesUntouchedFile(b: Store, o: Store, rm: set<Path>, p: Path, info: Info)
    requires Wf(o)
    requires OnWrappedOnly(b, o, rm, p) && b[p].File?
    requires NoFileOnPath(o, Dirname(p))
    ensures var out := SetInfoSpec(b, o, rm, p, info);
      && out.result.Ok?
      && p in out.overlay && p in b
      && out.removed == rm
      && ReadSpec(b, out.overlay, out.removed, p) == ReadSpec(b, o, rm, p)
      && GetInfoSpec(b, out.overlay, out.removed, p).Ok?
      && (forall k :: k in info ==> GetInfoSpec(b, out.overlay, out.removed, p).value.info[k] == info[k])
  {
    var o1 := MakeDirs(o, Dirname(p)).value;
    assert !IsPrefix(p, Dirname(p));
    assert p !in o1;
  }

  /** `setinfo` on a path the overlay has: the entry keeps its kind and bytes, `getinfo`
      reports the old info updated by the new keys, and no other path changes. */
  lemma SetInfoOnOverlay(b: Store, o: Store, rm: set<Path>, p: Path, info: Info)
    requires p in o
    ensures var out := SetInfoSpec(b, o, rm, p, info);
      && out.result.Ok? && out.removed == rm
      && ReadSpec(b, out.overlay, rm, p) == ReadSpec(b, o, rm, p)
      && GetInfoSpec(b, out.overlay, rm, p).Ok?
      && GetInfoSpec(b, out.overlay, rm, p).value.info == o[p].info + info
      && (forall q :: q != p ==> Resolve(b, out.overlay, rm, q) == Resolve(b, o, rm, q))
  {
  }

  /** `getinfo(p)`: refused when `p` is not visible; the overlay answers when it has `p`,
      the backing store otherwise. */
  function GetInfoSpec(b: Store, o: Store, rm: set<Path>, p: Path): (r: Result<Entry>)
    ensures r.Ok? <==> Visible(b, o, rm, p)
    ensures r.Err? ==> r.error == ResourceNotFound
    ensures r.Ok? ==> Some(r.value) == Resolve(b, o, rm, p)
  {
    if !Visible(b, o, rm, p) then Err(ResourceNotFound)
    else if p in o then Ok(o[p])
    else Ok(b[p])
  }

  const StandardNamespace := "standard"
  const InvalidPathChars := "invalid_path_chars"
  const ReadOnlyKey := "read_only"

  /** The `standard` namespace the writers report: the backing store's, with
      `invalid_path_chars` defaulting to NUL and `read_only` set to false. */
  function StandardMeta(m: Meta): (r: Meta)
    ensures r.Keys == m.Keys + {InvalidPathChars, ReadOnlyKey}
    ensures r[ReadOnlyKey] == Flag(false)
    ensures r[InvalidPathChars] == if InvalidPathChars in m then m[InvalidPathChars] else Text("\0")
    ensures forall k :: k in m && k != ReadOnlyKey ==> r[k] == m[k]
  {
    (if InvalidPathChars in m then m else m[InvalidPathChars := Text("\0")])[ReadOnlyKey := Flag(false)]
  }

  /** Tombstones are never taken back: `remove`, `removedir` and `_relocate` only add to
      them, and `makedir` and `setinfo` leave them as they were. */
  lemma TombstonesOnlyGrow(b: Store, o: Store, rm: set<Path>, p: Path, info: Info,
                           recreate: bool, view: Side)
    ensures rm <= RemoveSpec(b, o, rm, p).removed
    ensures rm <= RemoveDirSpec(b, o, rm, p).removed
    ensures rm <= RelocateSpec(b, o, rm, p).removed
    ensures MakeDirSpec(b, o, rm, p, recreate, view).removed == rm
    ensures SetInfoSpec(b, o, rm, p, info).removed == rm
  {
  }

  /** `openbin` only adds to the tombstones, and only by relocating. */
  lemma OpenTombstonesOnlyGrow(b: Store, o: Store, rm: set<Path>, p: Path, m: Mode)
    ensures rm <= OpenProxySpec(b, o, rm, p, m).removed <= rm + {p}
  {
    assert OpenInOverlay(b, o, rm, p, m).removed == rm;
    var moved := RelocateSpec(b, o, rm, p);
    assert rm <= moved.removed <= rm + {p};
    assert OpenInOverlay(b, moved.overlay, moved.removed, p, m).removed == moved.removed;
  }
}
