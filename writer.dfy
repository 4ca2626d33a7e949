/** `ProxyWriter` and `SwapWriter`: a read-only backing store made writable by an overlay
    store and a set of tombstoned paths. Each operation first runs `check()`, which fails
    once the writer is closed (and, in `SwapWriter`, may swap the overlay store), and then
    does exactly what its specification function in `Overlay` says. */
module ProxyWriters {
  import opened Utils
  import opened Stores
  import opened Overlay

  class ProxyWriter {
    /** The wrapped store, never written. */
    const backing: Store
    /** The meta information the backing store declares, per namespace. */
    const backingMeta: map<string, Meta>
    /** Whether closing the writer closes the backing store. */
    const closeBacking: bool
    /** The proxy store that receives every change. */
    var overlay: Store
    /** The tombstones: backing paths the merged view no longer shows as they are. */
    var removed: set<Path>
    var closed: bool
    var overlayClosed: bool
    var backingClosed: bool

    ghost predicate Valid()
      reads this
    {
      && Wf(backing) && Wf(overlay)
      && (overlayClosed <==> closed)
      && (backingClosed <==> closed && closeBacking)
    }

    constructor(backing: Store, overlay: Store, closeBacking: bool, backingMeta: map<string, Meta>)
      requires Wf(backing) && Wf(overlay)
      ensures Valid()
      ensures this.backing == backing && this.overlay == overlay && removed == {}
      ensures this.closeBacking == closeBacking && this.backingMeta == backingMeta
      ensures !closed
    {
      this.backing := backing;
      this.overlay := overlay;
      this.closeBacking := closeBacking;
      this.backingMeta := backingMeta;
      removed := {};
      closed := false;
      overlayClosed := false;
      backingClosed := false;
    }

    /** `getmeta(namespace)`: the backing store's meta information, with the `standard`
        namespace marked writable. */
    function GetMeta(namespace: string): (r: Meta)
      ensures namespace == StandardNamespace ==> r == StandardMeta(MetaOf(backingMeta, namespace))
      ensures namespace != StandardNamespace ==> r == MetaOf(backingMeta, namespace)
    {
      var meta := MetaOf(backingMeta, namespace);
      if namespace == StandardNamespace then StandardMeta(meta) else meta
    }

    /** `exists(p)`: fails once closed; otherwise true exactly when the overlay has `p`, or
        the backing store has it and it is not tombstoned. */
    function Exists(p: Path): (r: Result<bool>)
      reads this
      ensures closed ==> r == Err(Closed)
      ensures !closed ==> r == Ok(p in overlay || (p in backing && p !in removed))
    {
      if closed then Err(Closed)
      else if p in overlay then Ok(true)
      else if p in backing then Ok(p !in removed)
      else Ok(false)
    }

    /** `makedir(p, recreate)`, returning a directory object on the merged view. */
    method MakeDir(p: Path, recreate: bool) returns (r: Result<Side>)
      requires Valid()
      modifies this`overlay
      ensures Valid()
      ensures old(closed) ==> r == Err(Closed) && overlay == old(overlay)
      ensures !old(closed) ==>
        Outcome(r, overlay, removed) == MakeDirSpec(backing, old(overlay), removed, p, recreate, MergedView)
    {
      if closed {
        return Err(Closed);
      }
      if Exists(p).value && !recreate {
        return Err(DirectoryExists);
      }
      var parent := Dirname(p);
      if !Exists(parent).value && parent != [] {
        return Err(ResourceNotFound);
      }
      var made := MakeDirs(overlay, p);
      if made.Err? {
        return Err(made.error);
      }
      MakeDirsWf(overlay, p);
      overlay := made.value;
      r := Ok(MergedView);
    }

    /** `remove(p)`. */
    method Remove(p: Path) returns (r: Result<()>)
      requires Valid()
      modifies this`overlay, this`removed
      ensures Valid()
      ensures old(closed) ==> r == Err(Closed) && overlay == old(overlay) && removed == old(removed)
      ensures !old(closed) ==> Outcome(r, overlay, removed) == RemoveSpec(backing, old(overlay), old(removed), p)
    {
      if closed {
        return Err(Closed);
      }
      if !Exists(p).value {
        return Err(ResourceNotFound);
      }
      if p in overlay {
        var after := RemoveFile(overlay, p);
        if after.Err? {
          return Err(after.error);
        }
        RemoveFileWf(overlay, p);
        overlay := after.value;
      }
      removed := removed + {p};
      r := Ok(());
    }

    /** `removedir(p)`; `isempty(p)` is the merged `listdir(p)` being empty. */
    method RemoveDir(p: Path) returns (r: Result<()>)
      requires Valid()
      modifies this`overlay, this`removed
      ensures Valid()
      ensures old(closed) ==> r == Err(Closed) && overlay == old(overlay) && removed == old(removed)
      ensures !old(closed) ==> Outcome(r, overlay, removed) == RemoveDirSpec(backing, old(overlay), old(removed), p)
    {
      if closed {
        return Err(Closed);
      }
      if p == [] {
        return Err(RemoveRootError);
      }
      var listing := MergedListDir(backing, overlay, removed, p);
      if listing.Err? {
        return Err(listing.error);
      }
      if listing.value != [] {
        assert listing.value[0] in MergedChildren(backing, overlay, removed, p);
        return Err(DirectoryNotEmpty);
      }
      assert MergedChildren(backing, overlay, removed, p) == {};
      if p in overlay {
        assert Children(overlay, p) == ListedIn(overlay, p);
        RemoveEmptyDirWf(overlay, p);
        overlay := RemoveEmptyDir(overlay, p);
      }
      removed := removed + {p};
      r := Ok(());
    }

    /** `_relocate(p)`: the backing file is copied into the overlay and tombstoned. */
    method Relocate(p: Path) returns (r: Result<()>)
      requires Valid()
      modifies this`overlay, this`removed
      ensures Valid()
      ensures Outcome(r, overlay, removed) == RelocateSpec(backing, old(overlay), old(removed), p)
    {
      var made := MakeDirs(overlay, Dirname(p));
      if made.Err? {
        return Err(made.error);
      }
      MakeDirsWf(overlay, Dirname(p));
      overlay := made.value;
      var copied := CopyFile(backing, p, overlay);
      if copied.Err? {
        return Err(copied.error);
      }
      CopyFileWf(backing, p, overlay);
      overlay := copied.value;
      removed := removed + {p};
      r := Ok(());
    }

    /** The tail of `openbin`: the parent directory is made on the overlay when the
        backing store has it, then the file is opened on the overlay. */
    method OpenOnOverlay(p: Path, m: Mode) returns (r: Result<Handle>)
      requires Valid()
      modifies this`overlay
      ensures Valid()
      ensures Outcome(r, overlay, removed) == OpenInOverlay(backing, old(overlay), removed, p, m)
    {
      if Dirname(p) in backing {
        var made := MakeDirs(overlay, Dirname(p));
        if made.Err? {
          return Err(made.error);
        }
        MakeDirsWf(overlay, Dirname(p));
        overlay := made.value;
      }
      var open := OpenIn(overlay, p, m);
      if open.Err? {
        return Err(open.error);
      }
      OpenInWf(overlay, p, m);
      overlay := open.value;
      r := Ok(Handle(OverlayStore, p, m, StartPos(overlay, p, m)));
    }

    /** `openbin(p, mode)`. */
    method OpenBin(p: Path, m: Mode) returns (r: Result<Handle>)
      requires Valid()
      modifies this`overlay, this`removed
      ensures Valid()
      ensures old(closed) ==> r == Err(Closed) && overlay == old(overlay) && removed == old(removed)
      ensures !old(closed) ==> Outcome(r, overlay, removed) == OpenProxySpec(backing, old(overlay), old(removed), p, m)
    {
      if closed {
        return Err(Closed);
      }
      if m.exclusive && Exists(p).value {
        return Err(FileExists);
      }
      if !m.create {
        if !Exists(p).value {
          return Err(ResourceNotFound);
        }
        if p !in overlay {
          return OpenBacking(backing, p, m);
        }
      } else if !m.truncate {
        if OnWrappedOnly(backing, overlay, removed, p) {
          var moved := Relocate(p);
          if moved.Err? {
            return Err(moved.error);
          }
        }
      }
      r := OpenOnOverlay(p, m);
    }

    /** One write through a file object: only a writable file object on the overlay
        accepts bytes. */
    method Write(h: Handle, d: seq<byte>) returns (r: Result<nat>)
      requires Valid()
      modifies this`overlay
      ensures Valid()
      ensures r.Ok? <==> h.side == OverlayStore && h.mode.writing && h.path in old(overlay) && old(overlay)[h.path].File?
      ensures r.Ok? ==> r.value == |d| && overlay == WriteAt(old(overlay), h, d)
      ensures r.Err? ==> overlay == old(overlay)
    {
      if h.side != OverlayStore || !h.mode.writing {
        return Err(Unsupported);
      }
      if h.path !in overlay || overlay[h.path].Dir? {
        return Err(ResourceNotFound);
      }
      WriteAtWf(overlay, h, d);
      overlay := WriteAt(overlay, h, d);
      r := Ok(|d|);
    }

    /** `setinfo(p, info)`. */
    method SetInfo(p: Path, info: Info) returns (r: Result<()>)
      requires Valid()
      modifies this`overlay
      ensures Valid()
      ensures old(closed) ==> r == Err(Closed) && overlay == old(overlay)
      ensures !old(closed) ==> Outcome(r, overlay, removed) == SetInfoSpec(backing, old(overlay), removed, p, info)
    {
      if closed {
        return Err(Closed);
      }
      if !Exists(p).value {
        return Err(ResourceNotFound);
      }
      if p in overlay {
        SetInfoWf(overlay, p, info);
        overlay := Stores.SetInfo(overlay, p, info);
      } else {
        // `p` is visible and not in the overlay, so the backing store has it
        var made := MakeDirs(overlay, Dirname(p));
        if made.Err? {
          return Err(made.error);
        }
        MakeDirsWf(overlay, Dirname(p));
        overlay := made.value;
        var copied := CopyFile(backing, p, overlay);
        if copied.Err? {
          return Err(copied.error);
        }
        CopyFileWf(backing, p, overlay);
        SetInfoWf(copied.value, p, info);
        overlay := Stores.SetInfo(copied.value, p, info);
      }
      r := Ok(());
    }

    /** `listdir(p)`. */
    method ListDir(p: Path) returns (r: Result<seq<string>>)
      requires Valid()
      ensures closed ==> r == Err(Closed)
      ensures !closed ==> (r.Err? <==> ListDirError(backing, overlay, removed, p).Some?)
      ensures !closed && r.Err? ==> r.error == ListDirError(backing, overlay, removed, p).value
      ensures r.Ok? ==> Distinct(r.value)
      ensures r.Ok? ==> forall n :: n in r.value <==> Visible(backing, overlay, removed, Join(p, n))
      ensures r.Ok? ==> ListedFirst(r.value, ListedIn(overlay, p))
    {
      if closed {
        return Err(Closed);
      }
      r := MergedListDir(backing, overlay, removed, p);
      MergedChildrenVisible(backing, overlay, removed, p);
    }

    /** `getinfo(p)`. */
    function GetInfo(p: Path): (r: Result<Entry>)
      reads this
      ensures closed ==> r == Err(Closed)
      ensures !closed ==> r == GetInfoSpec(backing, overlay, removed, p)
    {
      if closed then Err(Closed) else GetInfoSpec(backing, overlay, removed, p)
    }

    /** `close()`: closes the overlay store, and the backing store when asked to; a second
        call does nothing. */
    method Close()
      requires Valid()
      modifies this`closed, this`overlayClosed, this`backingClosed
      ensures Valid() && closed && overlayClosed && backingClosed == closeBacking
      ensures old(closed) ==> unchanged(this)
    {
      if !closed {
        closed := true;
        overlayClosed := true;
        if closeBacking {
          backingClosed := true;
        }
      }
    }
  }

  /** The size a store's details report for an entry: a file's byte count, 0 for a
      directory. */
  function EntrySize(e: Entry): nat
  {
    if e.File? then |e.data| else 0
  }

  /** The sizes of all entries of a store added up. */
  ghost function SizeOf(s: Store): nat
    decreases |s.Keys|
  {
    if s == map[] then 0
    else
      var p :| p in s;
      EntrySize(s[p]) + SizeOf(s - {p})
  }

  /** The sum does not depend on the order the entries are taken in. */
  lemma {:induction false} SizeOfRemove(s: Store, p: Path)
    requires p in s
    ensures SizeOf(s) == EntrySize(s[p]) + SizeOf(s - {p})
    decreases |s.Keys|
  {
    var q :| q in s && SizeOf(s) == EntrySize(s[q]) + SizeOf(s - {q});
    if q != p {
      SizeOfRemove(s - {q}, p);
      SizeOfRemove(s - {p}, q);
      assert s - {q} - {p} == s - {p} - {q};
    }
  }

  /** A file counts in full towards the size of the store holding it. */
  lemma SizeOfAtLeast(s: Store, p: Path)
    requires p in s && s[p].File?
    ensures SizeOf(s) >= |s[p].data|
  {
    SizeOfRemove(s, p);
  }

  /** `memory_usage`: a walk over every entry of a store, adding up the sizes. */
  method Usage(s: Store) returns (total: nat)
    ensures total == SizeOf(s)
  {
    total := 0;
    var left := s;
    while left != map[]
      invariant total + SizeOf(left) == SizeOf(s)
      decreases |left.Keys|
    {
      var p :| p in left;
      SizeOfRemove(left, p);
      total := total + EntrySize(left[p]);
      left := left - {p};
    }
  }

  /** What `check()` and `swap()` leave: the result, the active overlay store and whether
      the swap store is the active one. */
  datatype CheckOutcome = CheckOutcome(result: Result<()>, active: Store, swapped: bool)

  /** `swap()`: once only, the swap store becomes the active overlay and receives a copy of
      the previous one (`copy_fs`); when the copy fails the swap store is active all the
      same. */
  function SwapSpec(active: Store, swapStore: Store, swapped: bool): CheckOutcome
  {
    if swapped then CheckOutcome(Ok(()), active, true)
    else match CopyAll(active, swapStore)
      case Ok(s) => CheckOutcome(Ok(()), s, true)
      case Err(e) => CheckOutcome(Err(e), swapStore, true)
  }

  /** `check()` of `SwapWriter`: fails once closed, and swaps when the usage of the active
      overlay exceeds the limit. */
  ghost function CheckSpec(closed: bool, active: Store, swapStore: Store, swapped: bool, limit: int): CheckOutcome
  {
    if closed then CheckOutcome(Err(Closed), active, swapped)
    else if SizeOf(active) > limit then SwapSpec(active, swapStore, swapped)
    else CheckOutcome(Ok(()), active, swapped)
  }

  /** A swap is forward only: once the swap store is active, `swap()` changes nothing. */
  lemma SwapForwardOnly(active: Store, swapStore: Store)
    ensures SwapSpec(active, swapStore, true) == CheckOutcome(Ok(()), active, true)
  {
  }

  /** Over the limit, `check()` makes the swap store active; below it, nothing changes. */
  lemma CheckSwapsOverLimit(active: Store, swapStore: Store, swapped: bool, limit: int)
    ensures var c := CheckSpec(false, active, swapStore, swapped, limit);
      && (SizeOf(active) > limit ==> c.swapped)
      && (SizeOf(active) <= limit ==> c == CheckOutcome(Ok(()), active, swapped))
  {
  }

  /** Swapping a well-formed overlay into a fresh swap store keeps the tree: the merged
      view shows the same paths with the same kinds and bytes. */
  lemma SwapIntoFreshStoreKeepsView(b: Store, active: Store, rm: set<Path>)
    requires Wf(active)
    ensures var c := SwapSpec(active, EmptyStore(), false);
      && c.result.Ok? && c.swapped && SameTree(active, c.active)
      && (forall p :: Visible(b, c.active, rm, p) <==> Visible(b, active, rm, p))
      && (forall p :: ReadSpec(b, c.active, rm, p) == ReadSpec(b, active, rm, p))
  {
    CopyAllIntoEmpty(active);
  }

  /** `SwapWriter`: a `ProxyWriter` whose overlay starts in memory and is swapped, once, to
      a backup store when its usage exceeds `limit`. */
  class SwapWriter {
    /** The proxy writer whose overlay is the active store. */
    const writer: ProxyWriter
    /** `MEMORY_USAGE_LIMIT`. */
    const limit: int
    /** The swap store's contents, until it becomes the active overlay. */
    var swapStore: Store
    /** `proxy_fs() is _swap_fs`. */
    var swapped: bool
    var primaryClosed: bool
    var swapClosed: bool
    /** The flag `memory_usage` sets while it runs. `check()` looks for it under another
        attribute name, so it never prevents the capacity check. */
    var checkingMemoryUsage: bool

    ghost predicate Valid()
      reads this, writer
    {
      && writer.Valid()
      && Wf(swapStore)
      && (!swapped ==> primaryClosed == writer.closed)
      && (swapClosed <==> writer.closed)
      && !checkingMemoryUsage
    }

    constructor(backing: Store, proxy: Store, swapStore: Store, closeBacking: bool, limit: int,
                backingMeta: map<string, Meta>)
      requires Wf(backing) && Wf(proxy) && Wf(swapStore)
      ensures Valid() && fresh(writer)
      ensures writer.backing == backing && writer.overlay == proxy && writer.removed == {}
      ensures writer.closeBacking == closeBacking && !writer.closed
      ensures this.swapStore == swapStore && this.limit == limit && !swapped
    {
      writer := new ProxyWriter(backing, proxy, closeBacking, backingMeta);
      this.limit := limit;
      this.swapStore := swapStore;
      swapped := false;
      primaryClosed := false;
      swapClosed := false;
      checkingMemoryUsage := false;
    }

    /** `memory_usage`: the usage of the active overlay store. */
    method MemoryUsage() returns (usage: nat)
      requires Valid()
      modifies this`checkingMemoryUsage
      ensures Valid()
      ensures usage == SizeOf(writer.overlay)
    {
      checkingMemoryUsage := true;
      usage := Usage(writer.overlay);
      checkingMemoryUsage := false;
    }

    /** `swap()`. */
    method Swap() returns (r: Result<()>)
      requires Valid()
      modifies this`swapped, this`primaryClosed, writer`overlay
      ensures Valid()
      ensures CheckOutcome(r, writer.overlay, swapped) == SwapSpec(old(writer.overlay), swapStore, old(swapped))
      ensures old(swapped) ==> primaryClosed == old(primaryClosed)
      ensures !old(swapped) ==> (primaryClosed <==> r.Ok? || old(primaryClosed))
    {
      if !swapped {
        var primary := writer.overlay;
        swapped := true;
        writer.overlay := swapStore;
        var copied := CopyAll(primary, swapStore);
        if copied.Err? {
          return Err(copied.error);
        }
        CopyAllWf(primary, swapStore);
        writer.overlay := copied.value;
        primaryClosed := true;
      }
      r := Ok(());
    }

    /** `check()`. */
    method Check() returns (r: Result<()>)
      requires Valid()
      modifies this`swapped, this`primaryClosed, this`checkingMemoryUsage, writer`overlay
      ensures Valid()
      ensures CheckOutcome(r, writer.overlay, swapped) ==
              CheckSpec(writer.closed, old(writer.overlay), swapStore, old(swapped), limit)
    {
      if writer.closed {
        return Err(Closed);
      }
      var usage := MemoryUsage();
      if usage > limit {
        r := Swap();
      } else {
        r := Ok(());
      }
    }

    /** `exists(p)`. */
    method Exists(p: Path) returns (r: Result<bool>)
      requires Valid()
      modifies this`swapped, this`primaryClosed, this`checkingMemoryUsage, writer`overlay
      ensures Valid()
      ensures var c := CheckSpec(writer.closed, old(writer.overlay), swapStore, old(swapped), limit);
        && writer.overlay == c.active && swapped == c.swapped
        && (c.result.Err? ==> r == Err(c.result.error))
        && (c.result.Ok? ==> r == Ok(Visible(writer.backing, c.active, writer.removed, p)))
    {
      var c := Check();
      if c.Err? {
        return Err(c.error);
      }
      r := writer.Exists(p);
    }

    /** `makedir(p, recreate)`. */
    method MakeDir(p: Path, recreate: bool) returns (r: Result<Side>)
      requires Valid()
      modifies this`swapped, this`primaryClosed, this`checkingMemoryUsage, writer`overlay
      ensures Valid()
      ensures var c := CheckSpec(writer.closed, old(writer.overlay), swapStore, old(swapped), limit);
        && swapped == c.swapped
        && (c.result.Err? ==> r == Err(c.result.error) && writer.overlay == c.active)
        && (c.result.Ok? ==> Outcome(r, writer.overlay, writer.removed) ==
                             MakeDirSpec(writer.backing, c.active, writer.removed, p, recreate, MergedView))
    {
      var c := Check();
      if c.Err? {
        return Err(c.error);
      }
      r := writer.MakeDir(p, recreate);
    }

    /** `remove(p)`. */
    method Remove(p: Path) returns (r: Result<()>)
      requires Valid()
      modifies this`swapped, this`primaryClosed, this`checkingMemoryUsage, writer`overlay, writer`removed
      ensures Valid()
      ensures var c := CheckSpec(writer.closed, old(writer.overlay), swapStore, old(swapped), limit);
        && swapped == c.swapped
        && (c.result.Err? ==> r == Err(c.result.error) && writer.overlay == c.active && writer.removed == old(writer.removed))
        && (c.result.Ok? ==> Outcome(r, writer.overlay, writer.removed) ==
                             RemoveSpec(writer.backing, c.active, old(writer.removed), p))
    {
      var c := Check();
      if c.Err? {
        return Err(c.error);
      }
      r := writer.Remove(p);
    }

    /** `removedir(p)`. */
    method RemoveDir(p: Path) returns (r: Result<()>)
      requires Valid()
      modifies this`swapped, this`primaryClosed, this`checkingMemoryUsage, writer`overlay, writer`removed
      ensures Valid()
      ensures var c := CheckSpec(writer.closed, old(writer.overlay), swapStore, old(swapped), limit);
        && swapped == c.swapped
        && (c.result.Err? ==> r == Err(c.result.error) && writer.overlay == c.active && writer.removed == old(writer.removed))
        && (c.result.Ok? ==> Outcome(r, writer.overlay, writer.removed) ==
                             RemoveDirSpec(writer.backing, c.active, old(writer.removed), p))
    {
      var c := Check();
      if c.Err? {
        return Err(c.error);
      }
      r := writer.RemoveDir(p);
    }

    /** `openbin(p, mode)`. */
    method OpenBin(p: Path, m: Mode) returns (r: Result<Handle>)
      requires Valid()
      modifies this`swapped, this`primaryClosed, this`checkingMemoryUsage, writer`overlay, writer`removed
      ensures Valid()
      ensures var c := CheckSpec(writer.closed, old(writer.overlay), swapStore, old(swapped), limit);
        && swapped == c.swapped
        && (c.result.Err? ==> r == Err(c.result.error) && writer.overlay == c.active && writer.removed == old(writer.removed))
        && (c.result.Ok? ==> Outcome(r, writer.overlay, writer.removed) ==
                             OpenProxySpec(writer.backing, c.active, old(writer.removed), p, m))
    {
      var c := Check();
      if c.Err? {
        return Err(c.error);
      }
      r := writer.OpenBin(p, m);
    }

    /** `setinfo(p, info)`. */
    method SetInfo(p: Path, info: Info) returns (r: Result<()>)
      requires Valid()
      modifies this`swapped, this`primaryClosed, this`checkingMemoryUsage, writer`overlay
      ensures Valid()
      ensures var c := CheckSpec(writer.closed, old(writer.overlay), swapStore, old(swapped), limit);
        && swapped == c.swapped
        && (c.result.Err? ==> r == Err(c.result.error) && writer.overlay == c.active)
        && (c.result.Ok? ==> Outcome(r, writer.overlay, writer.removed) ==
                             SetInfoSpec(writer.backing, c.active, writer.removed, p, info))
    {
      var c := Check();
      if c.Err? {
        return Err(c.error);
      }
      r := writer.SetInfo(p, info);
    }

    /** `listdir(p)`. */
    method ListDir(p: Path) returns (r: Result<seq<string>>)
      requires Valid()
      modifies this`swapped, this`primaryClosed, this`checkingMemoryUsage, writer`overlay
      ensures Valid()
      ensures var c := CheckSpec(writer.closed, old(writer.overlay), swapStore, old(swapped), limit);
        && writer.overlay == c.active && swapped == c.swapped
        && (c.result.Err? ==> r == Err(c.result.error))
        && (c.result.Ok? ==> (r.Err? <==> ListDirError(writer.backing, c.active, writer.removed, p).Some?))
        && (r.Ok? ==> Distinct(r.value))
        && (c.result.Ok? && r.Err? ==> r.error == ListDirError(writer.backing, c.active, writer.removed, p).value)
        && (r.Ok? ==> forall n :: n in r.value <==> Visible(writer.backing, c.active, writer.removed, Join(p, n)))
        && (r.Ok? ==> ListedFirst(r.value, ListedIn(c.active, p)))
    {
      var c := Check();
      if c.Err? {
        return Err(c.error);
      }
      r := writer.ListDir(p);
    }

    /** `getinfo(p)`. */
    method GetInfo(p: Path) returns (r: Result<Entry>)
      requires Valid()
      modifies this`swapped, this`primaryClosed, this`checkingMemoryUsage, writer`overlay
      ensures Valid()
      ensures var c := CheckSpec(writer.closed, old(writer.overlay), swapStore, old(swapped), limit);
        && writer.overlay == c.active && swapped == c.swapped
        && (c.result.Err? ==> r == Err(c.result.error))
        && (c.result.Ok? ==> r == GetInfoSpec(writer.backing, c.active, writer.removed, p))
    {
      var c := Check();
      if c.Err? {
        return Err(c.error);
      }
      r := writer.GetInfo(p);
    }

    /** `close()`: closes the active store, the swap store, and the backing store when
        asked to; a second call does nothing. */
    method Close()
      requires Valid()
      modifies this`primaryClosed, this`swapClosed, writer`closed, writer`overlayClosed, writer`backingClosed
      ensures Valid() && writer.closed && swapClosed && writer.backingClosed == writer.closeBacking
      ensures !swapped ==> primaryClosed
      ensures old(writer.closed) ==> unchanged(this) && unchanged(writer)
    {
      if !writer.closed {
        writer.Close();
        swapClosed := true;
        if !swapped {
          primaryClosed := true;
        }
      }
    }
  }

  /** A write of 1024 bytes with a 512-byte limit: the next operation swaps the overlay. */
  method SwapOnOversizedWrite() returns (swappedAfter: bool)
    ensures swappedAfter
  {
    var w := WriteOversizedFile();
    CheckSwapsOverLimit(w.writer.overlay, w.swapStore, w.swapped, w.limit);
    var listing := w.ListDir([]);
    swappedAfter := w.swapped;
  }

  /** The first half of SwapOnOversizedWrite: a fresh writer with a 512-byte limit, after
      1024 bytes were written to `foo.txt`, and before anything checks the usage. */
  method WriteOversizedFile() returns (w: SwapWriter)
    ensures fresh(w) && fresh(w.writer) && w.Valid() && !w.writer.closed && !w.swapped
    ensures SizeOf(w.writer.overlay) > w.limit
  {
    w := new SwapWriter(EmptyStore(), EmptyStore(), EmptyStore(), true, 512, map[]);
    var name: Path := ["foo.txt"];
    assert Dirname(name) == [];
    var open := w.OpenBin(name, WriteMode);
    var data := seq(1024, _ => 97 as byte);
    var written := w.writer.Write(open.value, data);
    SizeOfAtLeast(w.writer.overlay, name);
  }
}
