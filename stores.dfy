/** The stores the overlay filesystem composes: the read-only backing store and the
    writable overlay store. Each is modelled as a map from paths to entries; the store
    primitives the overlay calls (`makedirs`, `copy_file`, `remove`, `removedir`,
    `openbin`, `setinfo`, `listdir`) are functions on that map, with the error each one
    raises. */
module Stores {
  import opened Utils

  newtype byte = b: int | 0 <= b < 256

  /** A normalised absolute path, as its list of components; `[]` is the root. */
  type Path = seq<string>

  /** The parent of a path; the root is its own parent. */
  function Dirname(p: Path): Path
  {
    if p == [] then [] else p[..|p| - 1]
  }

  function Join(p: Path, name: string): Path
  {
    p + [name]
  }

  predicate IsPrefix(q: Path, p: Path)
  {
    |q| <= |p| && q == p[..|q|]
  }

  /** Raw resource info (namespaced keys flattened to strings). */
  type Info = map<string, string>

  datatype Entry = File(data: seq<byte>, info: Info) | Dir(info: Info)

  type Store = map<Path, Entry>

  /** A fresh store (a new memory or temporary filesystem): only the root directory. */
  function EmptyStore(): Store
  {
    map[[] := Dir(map[])]
  }

  /** A well-formed filesystem: the root is a directory and every other entry sits in a
      directory. */
  ghost predicate Wf(s: Store)
  {
    && [] in s && s[[]].Dir?
    && forall q :: q in s && q != [] ==> Dirname(q) in s && s[Dirname(q)].Dir?
  }

  datatype Error =
    | Closed
    | ResourceNotFound
    | DirectoryExists
    | FileExists
    | RemoveRootError
    | DirectoryNotEmpty
    | DirectoryExpected
    | FileExpected
    | ResourceReadOnly
    | Unsupported

  datatype Result<T> = Ok(value: T) | Err(error: Error)

  /** The flags of an open mode string (`'r'`, `'w'`, `'a'`, `'x'`, with `'+'`). */
  datatype Mode = Mode(reading: bool, writing: bool, create: bool, truncate: bool,
                       exclusive: bool, appending: bool, updating: bool)
  {
    /** This model's reading of the flags a mode string sets (the mode parser is not part
        of this model): exactly one of `'r'`, `'w'`, `'a'`, `'x'`, optionally with `'+'`.
        `'w'` truncates, `'a'` appends, `'x'` is exclusive and does not truncate, and each
        of the three creates; `'+'` updates, that is reads and writes. */
    predicate Wellformed()
    {
      && (create <==> truncate || appending || exclusive)
      && !(truncate && appending) && !(truncate && exclusive) && !(appending && exclusive)
      && (writing <==> create || updating)
      && (reading <==> !create || updating)
    }
  }

  /** A value of a filesystem's meta information. */
  datatype MetaValue = Text(text: string) | Flag(flag: bool) | Number(number: int)

  type Meta = map<string, MetaValue>

  /** A store's `getmeta(namespace)`: what it declares for the namespace, or nothing. */
  function MetaOf(declared: map<string, Meta>, namespace: string): Meta
  {
    if namespace in declared then declared[namespace] else map[]
  }

  /** Which store an open file or a directory view is bound to. */
  datatype Side = MergedView | OverlayStore | BackingStore

  /** An open binary file: the store it was opened on, its path, its mode and the current
      position. */
  datatype Handle = Handle(side: Side, path: Path, mode: Mode, pos: nat)

  /** The names of the entries directly under `p`. */
  function Children(s: Store, p: Path): set<string>
  {
    set q | q in s && |q| == |p| + 1 && q[..|p|] == p :: q[|p|]
  }

  lemma ChildrenAreJoins(s: Store, p: Path)
    ensures forall n :: n in Children(s, p) <==> Join(p, n) in s
  {
    forall n
      ensures n in Children(s, p) <==> Join(p, n) in s
    {
      if Join(p, n) in s {
        assert Join(p, n)[..|p|] == p;
      }
      if n in Children(s, p) {
        var q :| q in s && |q| == |p| + 1 && q[..|p|] == p && q[|p|] == n;
        assert q == Join(p, n);
      }
    }
  }

  /** In a well-formed store only a directory has children. */
  lemma {:induction false} ChildrenOfNonDir(s: Store, p: Path)
    requires Wf(s)
    requires p !in s || s[p].File?
    ensures Children(s, p) == {}
  {
    ChildrenAreJoins(s, p);
  }

  /** `makedirs(p, recreate=True)`: every missing directory on the way to `p` (and `p`
      itself) is created; it fails with DirectoryExpected, changing nothing, when one of
      them is a file. */
  function MakeDirs(s: Store, p: Path): (r: Result<Store>)
    ensures r.Ok? <==> forall q :: IsPrefix(q, p) && q in s ==> s[q].Dir?
    ensures r.Err? ==> r.error == DirectoryExpected
    ensures r.Ok? ==> forall q :: q in r.value <==> q in s || IsPrefix(q, p)
    ensures r.Ok? ==> forall q :: q in s ==> r.value[q] == s[q]
    ensures r.Ok? ==> forall q :: IsPrefix(q, p) ==> r.value[q].Dir?
    decreases |p|
  {
    if p == [] then
      if [] in s && s[[]].File? then Err(DirectoryExpected)
      else if [] in s then Ok(s)
      else Ok(s[[] := Dir(map[])])
    else
      var parent := Dirname(p);
      assert forall q :: IsPrefix(q, p) <==> IsPrefix(q, parent) || q == p;
      match MakeDirs(s, parent)
      case Err(e) => Err(e)
      case Ok(s1) =>
        if p in s1 then
          if s1[p].Dir? then Ok(s1) else Err(DirectoryExpected)
        else
          Ok(s1[p := Dir(map[])])
  }

  lemma {:induction false} MakeDirsWf(s: Store, p: Path)
    requires Wf(s) && MakeDirs(s, p).Ok?
    ensures Wf(MakeDirs(s, p).value)
  {
    var s' := MakeDirs(s, p).value;
    forall q | q in s' && q != []
      ensures Dirname(q) in s' && s'[Dirname(q)].Dir?
    {
      if q in s {
        assert s'[Dirname(q)] == s[Dirname(q)];
      } else {
        DirnameOfPrefix(q, p);
      }
    }
  }

  /** The parent of a non-root prefix of `p` is a prefix of `p` too. */
  lemma DirnameOfPrefix(q: Path, p: Path)
    requires IsPrefix(q, p) && q != []
    ensures IsPrefix(Dirname(q), p)
  {
  }

  /** The info a file written at `p` carries: an existing file keeps its own, a new one
      starts empty. */
  function InfoAt(s: Store, p: Path): Info
  {
    if p in s then s[p].info else map[]
  }

  /** `copy_file(src, p, dst, p)`: the bytes of the source file are written to `p` in the
      destination (the source's resource info is not carried over). Opening a directory as
      a file fails with FileExpected; writing needs the parent directory in the
      destination. */
  function CopyFile(src: Store, p: Path, dst: Store): (r: Result<Store>)
    ensures r.Ok? <==> && p in src && src[p].File?
                       && Dirname(p) in dst && dst[Dirname(p)].Dir?
                       && (p in dst ==> dst[p].File?)
    ensures r.Ok? ==> r.value == dst[p := File(src[p].data, InfoAt(dst, p))]
    ensures p in src && src[p].Dir? ==> r == Err(FileExpected)
  {
    if p !in src then Err(ResourceNotFound)
    else if src[p].Dir? then Err(FileExpected)
    else if Dirname(p) !in dst || dst[Dirname(p)].File? then Err(ResourceNotFound)
    else if p in dst && dst[p].Dir? then Err(FileExpected)
    else Ok(dst[p := File(src[p].data, InfoAt(dst, p))])
  }

  lemma CopyFileWf(src: Store, p: Path, dst: Store)
    requires Wf(dst) && CopyFile(src, p, dst).Ok?
    ensures Wf(CopyFile(src, p, dst).value)
  {
  }

  /** `remove(p)` on the store: only a file can be removed. */
  function RemoveFile(s: Store, p: Path): (r: Result<Store>)
    requires p in s
    ensures r.Ok? <==> s[p].File?
    ensures r.Ok? ==> r.value == s - {p}
    ensures r.Err? ==> r.error == FileExpected
  {
    if s[p].Dir? then Err(FileExpected) else Ok(s - {p})
  }

  lemma RemoveFileWf(s: Store, p: Path)
    requires Wf(s) && p in s && s[p].File?
    ensures Wf(s - {p})
  {
  }

  /** `removedir(p)` on the store, for an empty directory other than the root. */
  function RemoveEmptyDir(s: Store, p: Path): (r: Store)
    requires p in s && s[p].Dir? && Children(s, p) == {}
    ensures r.Keys == s.Keys - {p}
    ensures forall q :: q in r ==> r[q] == s[q]
  {
    s - {p}
  }

  lemma RemoveEmptyDirWf(s: Store, p: Path)
    requires Wf(s) && p != [] && p in s && s[p].Dir? && Children(s, p) == {}
    ensures Wf(RemoveEmptyDir(s, p))
  {
    ChildrenAreJoins(s, p);
    forall q | q in s && q != [] && q != p
      ensures Dirname(q) != p
    {
      LastStep(q);
    }
  }

  /** A non-root path is its parent joined with its last component. */
  lemma LastStep(q: Path)
    requires q != []
    ensures q == Join(Dirname(q), q[|q| - 1])
  {
  }

  /** `setinfo(p, info)` on the store: the given raw info keys override the entry's. */
  function SetInfo(s: Store, p: Path, info: Info): (r: Store)
    requires p in s
    ensures r.Keys == s.Keys && r[p].info == s[p].info + info
    ensures r[p].File? == s[p].File? && (s[p].File? ==> r[p].data == s[p].data)
    ensures forall q :: q in s && q != p ==> r[q] == s[q]
  {
    s[p := match s[p] case File(d, i) => File(d, i + info) case Dir(i) => Dir(i + info)]
  }

  lemma SetInfoWf(s: Store, p: Path, info: Info)
    requires Wf(s) && p in s
    ensures Wf(SetInfo(s, p, info))
  {
  }

  /** `openbin(p, mode)` on the store: the store after the file is opened. A creating mode
      needs the parent directory, creates a missing file empty and empties an existing one
      when it truncates; an exclusive mode refuses an existing file; any other mode needs
      the file to exist. A directory cannot be opened. */
  function OpenIn(s: Store, p: Path, m: Mode): (r: Result<Store>)
    ensures r.Ok? ==> p in r.value && r.value[p].File?
    ensures r.Ok? ==> forall q :: q != p ==> (q in r.value <==> q in s) && (q in s ==> r.value[q] == s[q])
    ensures r.Ok? && m.create && (m.truncate || p !in s) ==> r.value[p].data == []
    ensures r.Ok? && !(m.create && (m.truncate || p !in s)) ==> p in s && r.value[p] == s[p]
    ensures p in s && s[p].Dir? ==> r.Err?
  {
    if m.create then
      if Dirname(p) !in s || s[Dirname(p)].File? then Err(ResourceNotFound)
      else if p in s && s[p].Dir? then Err(FileExpected)
      else if p in s && m.exclusive then Err(FileExists)
      else if p in s && !m.truncate then Ok(s)
      else Ok(s[p := File([], InfoAt(s, p))])
    else if p !in s then Err(ResourceNotFound)
    else if s[p].Dir? then Err(FileExpected)
    else Ok(s)
  }

  lemma OpenInWf(s: Store, p: Path, m: Mode)
    requires Wf(s) && OpenIn(s, p, m).Ok?
    ensures Wf(OpenIn(s, p, m).value)
  {
  }

  /** The modes `'r'`, `'w'`, `'a'`, `'r+'` and `'x'`. */
  const ReadMode := Mode(true, false, false, false, false, false, false)
  const WriteMode := Mode(false, true, true, true, false, false, false)
  const AppendMode := Mode(false, true, true, false, false, true, false)
  const UpdateMode := Mode(true, true, false, false, false, false, true)
  const ExclusiveMode := Mode(false, true, true, false, true, false, false)
  /** `'w+'`: truncates, and reads as well as writes. */
  const TruncateUpdateMode := Mode(true, true, true, true, false, false, true)

  /** Where a freshly opened file is positioned: at its end when appending. */
  function StartPos(s: Store, p: Path, m: Mode): nat
  {
    if m.appending && p in s && s[p].File? then |s[p].data| else 0
  }

  /** The bytes of `c` after writing `d` at position `pos`. */
  function Overwrite(c: seq<byte>, pos: nat, d: seq<byte>): (r: seq<byte>)
    ensures |r| == if pos + |d| > |c| then (if pos < |c| then pos else |c|) + |d| else |c|
    ensures pos >= |c| ==> r == c + d
    ensures pos <= |c| ==> r[..pos] == c[..pos] && r[pos..pos + |d|] == d
  {
    var at := if pos < |c| then pos else |c|;
    c[..at] + d + (if at + |d| < |c| then c[at + |d|..] else [])
  }

  /** One write of `d` through a file object opened on `s`: an appending file object
      writes at the end of the file, any other at its position. */
  function WriteAt(s: Store, h: Handle, d: seq<byte>): (r: Store)
    requires h.path in s && s[h.path].File?
    ensures r.Keys == s.Keys && r[h.path].File? && r[h.path].info == s[h.path].info
    ensures forall q :: q in s && q != h.path ==> r[q] == s[q]
    ensures h.mode.appending || h.pos >= |s[h.path].data| ==> r[h.path].data == s[h.path].data + d
  {
    var f := s[h.path];
    s[h.path := File(Overwrite(f.data, if h.mode.appending then |f.data| else h.pos, d), f.info)]
  }

  lemma WriteAtWf(s: Store, h: Handle, d: seq<byte>)
    requires Wf(s) && h.path in s && s[h.path].File?
    ensures Wf(WriteAt(s, h, d))
  {
  }

  /** No file stands in the way of the directories on `p`: `makedirs(p)` succeeds. */
  predicate NoFileOnPath(s: Store, p: Path)
  {
    forall q :: IsPrefix(q, p) && q in s ==> s[q].Dir?
  }

  /** In a well-formed store, every proper ancestor of an entry is a directory. */
  lemma {:induction false} AncestorsAreDirs(s: Store, p: Path)
    requires Wf(s) && p in s
    ensures forall q :: IsPrefix(q, p) && q != p ==> q in s && s[q].Dir?
    decreases |p|
  {
    if p != [] {
      AncestorsAreDirs(s, Dirname(p));
      forall q | IsPrefix(q, p) && q != p
        ensures IsPrefix(q, Dirname(p))
      {
      }
    }
  }

  /** `makedirs` on a path whose directories all exist changes nothing. */
  lemma MakeDirsExisting(s: Store, p: Path)
    requires forall q :: IsPrefix(q, p) ==> q in s && s[q].Dir?
    ensures MakeDirs(s, p) == Ok(s)
  {
    assert MakeDirs(s, p).value == s;
  }

  /** A directory of the source that is a file in the destination, or the reverse. */
  predicate KindClash(src: Store, dst: Store, q: Path)
  {
    q in src && q in dst && src[q].Dir? != dst[q].Dir?
  }

  /** The entry `copy_fs` leaves at a path of `src.Keys + dst.Keys` when nothing clashes. */
  function Copied(src: Store, dst: Store, q: Path): Entry
    requires q in src || q in dst
  {
    if q !in src then dst[q]
    else if src[q].Dir? then (if q in dst then dst[q] else Dir(map[]))
    else File(src[q].data, InfoAt(dst, q))
  }

  /** `copy_fs(src, dst)`: every directory of `src` is made in `dst` (an existing one is
      kept) and every file of `src` is written over `dst`'s. A directory of `src` that is a
      file in `dst` fails with DirectoryExpected, a file that is a directory in `dst` with
      FileExpected. */
  function CopyAll(src: Store, dst: Store): (r: Result<Store>)
    ensures r.Ok? <==> forall q :: !KindClash(src, dst, q)
    ensures r.Ok? ==> r.value.Keys == src.Keys + dst.Keys
    ensures r.Ok? ==> forall q :: q in src ==> r.value[q].Dir? == src[q].Dir?
    ensures r.Ok? ==> forall q :: q in src && src[q].File? ==> r.value[q].data == src[q].data
    ensures r.Ok? ==> forall q :: q in dst && q !in src ==> r.value[q] == dst[q]
  {
    if exists q :: q in src && KindClash(src, dst, q) && src[q].Dir? then Err(DirectoryExpected)
    else if exists q :: q in src && KindClash(src, dst, q) then Err(FileExpected)
    else Ok(map q | q in src.Keys + dst.Keys :: Copied(src, dst, q))
  }

  lemma CopyAllWf(src: Store, dst: Store)
    requires Wf(src) && Wf(dst) && CopyAll(src, dst).Ok?
    ensures Wf(CopyAll(src, dst).value)
  {
  }

  /** Two stores hold the same tree: the same paths, the same kinds and the same file
      contents (resource info aside). */
  predicate SameTree(a: Store, b: Store)
  {
    && a.Keys == b.Keys
    && (forall q :: q in a ==> a[q].Dir? == b[q].Dir?)
    && (forall q :: q in a && a[q].File? ==> a[q].data == b[q].data)
  }

  /** Copying a well-formed store into a fresh one reproduces its tree. */
  lemma CopyAllIntoEmpty(src: Store)
    requires Wf(src)
    ensures CopyAll(src, EmptyStore()).Ok?
    ensures SameTree(src, CopyAll(src, EmptyStore()).value)
  {
    assert forall q :: !KindClash(src, EmptyStore(), q);
  }

  /** The store's `listdir(p)` on a directory: its child names, each once, in the store's
      own (unspecified) order. */
  method ListNames(s: Store, p: Path) returns (names: seq<string>)
    ensures Distinct(names)
    ensures forall n :: n in names <==> n in Children(s, p)
  {
    var left := Children(s, p);
    names := [];
    while left != {}
      invariant forall n :: n in names ==> n !in left
      invariant forall n :: n in names || n in left <==> n in Children(s, p)
      invariant Distinct(names)
      decreases left
    {
      var n :| n in left;
      names := names + [n];
      left := left - {n};
    }
  }
}
