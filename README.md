# Copy-on-write overlay writers

This project models the writers of `fs.proxy` and `fs.archive`. Each wraps a read-only
filesystem (the *backing* store) and makes it writable. Every change goes to a second,
writable *overlay* store (the proxy filesystem), and a set of tombstoned paths (`_removed`)
hides backing entries or detaches them from the merged view. The backing store itself is
never written.

- `utils.dfy`, module `Utils`: the fallback `unique(iterable, key=None)` generator of
  `fs/archive/_utils.py`. `Unique` and `UniqueBy` are loops with a `seen` set, proved
  against the recursive functions `DedupFrom` and `DedupByFrom`. The lemmas state what the
  generator promises, and the three examples of its tests are checked.
- `stores.dfy`, module `Stores`: the stores the writers compose, as maps from paths (lists
  of components, `[]` is the root) to files and directories. A well-formed store (`Wf`)
  has a root directory, and every other entry sits in a directory. It also holds the
  store operations the writers call (`makedirs`, `copy_file`, `copy_fs`, `remove`,
  `removedir`, `setinfo`, `openbin`, `listdir`), with the errors they raise, and the mode
  flags.
- `overlay.dfy`, module `Overlay`: the merged view and one specification function per
  operation. The merged view is:
  - `Visible`: the overlay has the path, or the backing store has it and it is not
    tombstoned;
  - `Resolve`: the overlay's entry shadows the backing's.

  Each specification function maps the overlay and tombstones before a call to an
  `Outcome`: the value or error returned, and the overlay and tombstones after it. The
  lemmas state the promised properties of these functions: error cases, what becomes
  visible or hidden, relocation, append and truncate round trips, and the listing.
- `writer.dfy`, module `ProxyWriters`:
  - class `ProxyWriter`, whose methods update the overlay and the tombstones step by step,
    as the source does; each is proved equal to its specification function;
  - the usage sum `memory_usage`;
  - class `SwapWriter`, which holds a `ProxyWriter` whose overlay is the active store. It
    runs its own `check()`, which swaps that store for the swap store once usage exceeds
    the limit, and then the writer's operation.
- `archive_proxy.dfy`, module `ArchiveProxy`: class `WrapProxyWriter`. It shares the
  specification functions, except that its `openbin` gates on the writing, appending and
  updating flags. Lemmas compare the two `openbin` variants.

Behaviour worth knowing, proved about the model:

- `remove` on a directory the backing store alone holds tombstones it without complaint,
  and the entries below it stay visible (`Overlay.RemoveBackingDirKeepsChildren`).
- `setinfo` on an untouched backing file copies it into the overlay without tombstoning it
  (`Overlay.SetInfoCopiesUntouchedFile`). `_relocate` does tombstone the file.
- Relocation is not atomic. When `copy_file` fails, the directories `makedirs` created
  stay in the overlay (`Overlay.RelocateDirectoryFails`).
- The two `openbin` variants differ on `'r+'` (`ArchiveProxy.UpdateModeDiffers`) and on
  `'w+'`, where only `WrapProxyWriter` tombstones the file
  (`ArchiveProxy.TruncateUpdateDiffers`). They agree on every other mode
  (`ArchiveProxy.OpenVariantsAgree`).
- Tombstones are never taken back (`Overlay.TombstonesOnlyGrow`,
  `Overlay.OpenTombstonesOnlyGrow`).
- The flag `memory_usage` raises is stored under a name-mangled attribute, and `check()`
  reads a different name. So the flag never suppresses the capacity check. The model
  keeps the flag as a field that `check()` does not read.

## Model

| member | source | states |
|---|---|---|
| Utils.Unique | fs/archive/_utils.py:13-21 | the loop with a `seen` set yields exactly the order-preserving de-duplication `DedupFrom(xs, {})` |
| Utils.UniqueBy | fs/archive/_utils.py:22-27 | the keyed loop yields exactly `DedupByFrom(xs, key, {})`: an element is kept iff its key is new |
| Utils.DedupMembers | fs/archive/_utils.py:18-21 | an element is yielded iff it occurs in the input and was not seen before |
| Utils.DedupDistinct | fs/archive/_utils.py:16-21 | no element is yielded twice |
| Utils.DedupSubsequence | fs/archive/_utils.py:19-21 | the output is a subsequence of the input: relative order is kept |
| Utils.DedupAppend | fs/archive/_utils.py:16-21 | de-duplicating `xs + ys` is de-duplicating `xs`, then `ys` against everything `xs` holds |
| Utils.DedupOfDistinct | fs/archive/_utils.py:19-21 | a repetition-free input none of whose elements was seen comes out unchanged |
| Utils.DedupIsDedupByIdentity | fs/archive/_utils.py:18-27 | the key-less branch behaves as the keyed branch with the identity key |
| Utils.DedupByKeysDistinct | fs/archive/_utils.py:22-27 | the keys of the yielded elements are pairwise distinct and none was seen before |
| Utils.DedupByCoversKeys | fs/archive/_utils.py:22-27 | every key occurring in the input is the key of some yielded element |
| Utils.DedupByKeepsFirst | fs/archive/_utils.py:22-27 | each yielded element is the first input element carrying its key |
| Utils.DedupBySubsequence | fs/archive/_utils.py:22-27 | with a key, the output is a subsequence of the input |
| Utils.UniqueExampleRuns | tests/test_utils.py:16 | `'AAABBCCCCDD'` de-duplicates to `'ABCD'` |
| Utils.UniqueExampleMixedCase | tests/test_utils.py:17 | `'AaAABbCCCDd'` de-duplicates to `'AaBbCDd'` |
| Utils.UniqueExampleLowerKey | tests/test_utils.py:18 | `'AaBbcCDd'` with a lower-casing key gives `'ABcD'` |
| Stores.MakeDirs | fs/proxy/writer.py:128 | `makedirs(p, recreate=True)` succeeds iff no prefix of `p` is a file; then every prefix is a directory, old entries are kept and nothing else is added |
| Stores.MakeDirsWf | fs/proxy/writer.py:128 | `makedirs` keeps the overlay well-formed |
| Stores.CopyFile | fs/proxy/writer.py:96 | `copy_file` succeeds iff the source holds a file and the destination has its parent directory and no directory at `p`; it writes the source bytes at `p` |
| Stores.OpenIn | fs/proxy/writer.py:177 | the overlay's `openbin`: afterwards `p` is a file; only `p` changes; creating a missing file or truncating gives empty content, anything else keeps the entry; a directory is refused |
| Stores.RemoveFile | fs/proxy/writer.py:139 | the overlay's `remove` succeeds iff `p` is a file, and then drops only `p` |
| Stores.RemoveEmptyDir | fs/proxy/writer.py:152 | the overlay's `removedir` on an empty directory drops only `p` |
| Stores.SetInfo | fs/proxy/writer.py:185 | the store's `setinfo` merges the new keys into the entry's info, keeps its kind and bytes and changes no other path |
| Stores.CopyAll | fs/proxy/writer.py:288 | `copy_fs` succeeds iff no path is a directory on one side and a file on the other; then every source path has its kind and bytes in the result and destination-only paths are kept |
| Stores.CopyAllIntoEmpty | fs/proxy/writer.py:286-289 | copying a well-formed overlay into a fresh store reproduces its tree |
| Stores.ListNames | fs/proxy/writer.py:202 | a store's `listdir` lists each child name of `p` exactly once |
| Stores.WriteAt | tests/test_proxy_writer.py:62-65 | a write through a file object changes only that file; after appending (or writing at the end) the file holds the old bytes followed by the new |
| Stores.AncestorsAreDirs | fs/proxy/writer.py:174-175 | in a well-formed store every proper ancestor of an entry is a directory |
| Stores.MakeDirsExisting | fs/proxy/writer.py:174-175 | `makedirs` on a path whose directories all exist changes nothing |
| Overlay.MergedChildrenVisible | fs/proxy/writer.py:201-206 | a name is in the merged listing of `p` iff `p/name` is visible |
| Overlay.MergedListDir | fs/proxy/writer.py:191-208 | `listdir` fails with ResourceNotFound on a hidden path and DirectoryExpected on a non-directory; otherwise it lists each visible child exactly once, with the overlay's names first |
| Overlay.MakeDirErrors | fs/proxy/writer.py:118-128 | `makedir` fails with DirectoryExists iff `p` is visible and `recreate` is false, then with ResourceNotFound on a hidden non-root parent; a failure changes nothing |
| Overlay.MakeDirShowsDirectories | fs/proxy/writer.py:128-130 | after `makedir`, `p` and all its ancestors are directories in the view, nothing else in the view changes, the overlay only gains entries and the tombstones are unchanged |
| Overlay.RemoveHidesPath | fs/proxy/writer.py:132-141 | `remove` succeeds iff `p` is visible and not an overlay directory; afterwards `p` alone is hidden and tombstoned; a failure changes nothing |
| Overlay.RemoveBackingDirKeepsChildren | fs/proxy/writer.py:135-141 | `remove` tombstones a backing-only directory and its children stay visible |
| Overlay.RemoveDirErrors | fs/proxy/writer.py:143-149 | `removedir` fails with RemoveRootError on the root, ResourceNotFound on a hidden path, DirectoryExpected on a non-directory, DirectoryNotEmpty when a child is visible; a failure changes nothing |
| Overlay.RemoveDirHidesPath | fs/proxy/writer.py:151-154 | a successful `removedir` was on an empty directory, hides it, tombstones it, changes nothing else in the view and keeps the overlay well-formed |
| Overlay.EmptyRootAfterTreeRemoved | tests/test_proxy_writer.py:39-42 | once every backing path below the root is tombstoned and the overlay holds only its root, the root lists empty |
| Overlay.RelocateKeepsContent | fs/proxy/writer.py:86-97 | `_relocate` of an untouched backing file copies its bytes into the overlay, tombstones it, keeps all overlay entries and hides nothing |
| Overlay.RelocateDirectoryFails | fs/proxy/writer.py:95-97 | relocating a backing directory fails with FileExpected after `makedirs` has changed the overlay, with no tombstone |
| Overlay.OpenForReadingMatchesView | fs/proxy/writer.py:163-168 | opening with `'r'` changes nothing, fails iff reading the merged view fails, and its file object reads what the view shows, from the overlay iff the overlay has `p` |
| Overlay.OpenExclusiveOnVisible | fs/proxy/writer.py:160-161 | an exclusive open of a visible path fails with FileExists and changes nothing |
| Overlay.OpenMissingWithoutCreate | fs/proxy/writer.py:163-165 | a non-creating open of a hidden path fails with ResourceNotFound and changes nothing |
| Overlay.OpenUntouchedWithoutCreate | fs/proxy/writer.py:163-168 | a non-creating open of an untouched backing path is served by the backing store (reading) or refused by it (`'r+'`), and changes neither overlay nor tombstones |
| Overlay.AppendToUntouchedFile | fs/proxy/writer.py:170-177 | `'a'` on an untouched backing file relocates it and tombstones it; the view then shows the old bytes followed by the written ones |
| Overlay.TruncateUntouchedFile | fs/proxy/writer.py:170-177 | `'w'` on an untouched backing file neither relocates nor tombstones; the view then shows exactly the written bytes |
| Overlay.TruncatingOpenReadsBack | fs/proxy/writer.py:156-177 | any successful open with a truncating mode gives a file object at the start of an empty overlay file, and the view reads back exactly what is written through it |
| Overlay.TombstonesOnlyGrow | fs/proxy/writer.py:86-189 | `remove`, `removedir` and `_relocate` only add tombstones; `makedir` and `setinfo` leave them unchanged |
| Overlay.OpenTombstonesOnlyGrow | fs/proxy/writer.py:156-177 | `openbin` keeps every tombstone and adds at most `p` |
| Overlay.SetInfoMissing | fs/proxy/writer.py:179-182 | `setinfo` on a hidden path fails with ResourceNotFound and changes nothing |
| Overlay.SetInfoCopiesUntouchedFile | fs/proxy/writer.py:186-189 | `setinfo` on an untouched backing file leaves it in both stores, untombstoned, with the same bytes, and `getinfo` reports every key set |
| Overlay.SetInfoOnOverlay | fs/proxy/writer.py:184-185 | `setinfo` on an overlay path merges the new keys into its info, keeps its bytes and changes no other path |
| Overlay.GetInfoSpec | fs/proxy/writer.py:210-217 | `getinfo` succeeds iff `p` is visible and returns the entry the view shows, the overlay's shadowing the backing's |
| Overlay.StandardMeta | fs/proxy/writer.py:99-104 | the `standard` meta keeps the backing's keys, defaults `invalid_path_chars` to NUL and sets `read_only` to false |
| ProxyWriters.ProxyWriter.constructor | fs/proxy/writer.py:40-59 | a new writer over the given stores, with no tombstones and open |
| ProxyWriters.ProxyWriter.GetMeta | fs/proxy/writer.py:99-104 | the `standard` namespace is the backing's made writable; other namespaces are the backing's |
| ProxyWriters.ProxyWriter.Exists | fs/proxy/writer.py:109-116 | fails once closed; otherwise true iff the overlay has `p`, or the backing has it and it is not tombstoned; no state changes |
| ProxyWriters.ProxyWriter.MakeDir | fs/proxy/writer.py:118-130 | fails once closed; otherwise result and new overlay are `MakeDirSpec`'s, with a merged-view directory object |
| ProxyWriters.ProxyWriter.Remove | fs/proxy/writer.py:132-141 | fails once closed; otherwise result, overlay and tombstones are `RemoveSpec`'s |
| ProxyWriters.ProxyWriter.RemoveDir | fs/proxy/writer.py:143-154 | fails once closed; otherwise result, overlay and tombstones are `RemoveDirSpec`'s |
| ProxyWriters.ProxyWriter.Relocate | fs/proxy/writer.py:86-97 | result, overlay and tombstones are `RelocateSpec`'s |
| ProxyWriters.ProxyWriter.OpenOnOverlay | fs/proxy/writer.py:174-177 | result and overlay are `OpenInOverlay`'s |
| ProxyWriters.ProxyWriter.OpenBin | fs/proxy/writer.py:156-177 | fails once closed; otherwise result, overlay and tombstones are `OpenProxySpec`'s |
| ProxyWriters.ProxyWriter.Write | tests/test_proxy_writer.py:62-63 | a write succeeds iff the file object is writable and on an overlay file, and then changes the overlay as `WriteAt` |
| ProxyWriters.ProxyWriter.SetInfo | fs/proxy/writer.py:179-189 | fails once closed; otherwise result and overlay are `SetInfoSpec`'s; tombstones unchanged |
| ProxyWriters.ProxyWriter.ListDir | fs/proxy/writer.py:191-208 | fails once closed, then as `ListDirError`; otherwise lists each visible child exactly once, overlay names first |
| ProxyWriters.ProxyWriter.GetInfo | fs/proxy/writer.py:210-217 | fails once closed; otherwise `GetInfoSpec` |
| ProxyWriters.ProxyWriter.Close | fs/proxy/writer.py:219-224 | closes the writer and the overlay, and the backing iff asked to; a second call changes nothing |
| ProxyWriters.SizeOfRemove | fs/proxy/writer.py:267-269 | the usage sum does not depend on the order the entries are visited in |
| ProxyWriters.SizeOfAtLeast | fs/proxy/writer.py:267-269 | a file's size counts in full towards the usage |
| ProxyWriters.Usage | fs/proxy/writer.py:266-272 | the walk adds up exactly the sizes of all entries of the store |
| ProxyWriters.SwapForwardOnly | fs/proxy/writer.py:286 | once the swap store is active, `swap()` changes nothing |
| ProxyWriters.CheckSwapsOverLimit | fs/proxy/writer.py:274-279 | on an open writer, usage above the limit leaves the swap store active; usage within it changes nothing |
| ProxyWriters.SwapIntoFreshStoreKeepsView | fs/proxy/writer.py:281-290 | swapping into a fresh swap store succeeds and the merged view shows the same paths, kinds and bytes |
| ProxyWriters.SwapWriter.constructor | fs/proxy/writer.py:255-261 | a writer over the given stores with the given swap store and limit, not swapped |
| ProxyWriters.SwapWriter.MemoryUsage | fs/proxy/writer.py:263-272 | returns the usage of the active overlay and leaves the flag cleared |
| ProxyWriters.SwapWriter.Swap | fs/proxy/writer.py:281-290 | result, active store and swapped flag are `SwapSpec`'s; the first store is closed exactly when a first swap succeeds |
| ProxyWriters.SwapWriter.Check | fs/proxy/writer.py:274-279 | result, active store and swapped flag are `CheckSpec`'s: closed fails, usage above the limit swaps |
| ProxyWriters.SwapWriter.Exists | fs/proxy/writer.py:109-116 | `check()`, then `exists` on the active store |
| ProxyWriters.SwapWriter.MakeDir | fs/proxy/writer.py:118-130 | `check()`, then `MakeDirSpec` on the active store |
| ProxyWriters.SwapWriter.Remove | fs/proxy/writer.py:132-141 | `check()`, then `RemoveSpec` on the active store |
| ProxyWriters.SwapWriter.RemoveDir | fs/proxy/writer.py:143-154 | `check()`, then `RemoveDirSpec` on the active store |
| ProxyWriters.SwapWriter.OpenBin | fs/proxy/writer.py:156-177 | `check()`, then `OpenProxySpec` on the active store |
| ProxyWriters.SwapWriter.SetInfo | fs/proxy/writer.py:179-189 | `check()`, then `SetInfoSpec` on the active store |
| ProxyWriters.SwapWriter.ListDir | fs/proxy/writer.py:191-208 | `check()`, then the merged listing of the active store: fails exactly when the listing fails, with its error kind; otherwise each visible child exactly once, the overlay's names first |
| ProxyWriters.SwapWriter.GetInfo | fs/proxy/writer.py:210-217 | `check()`, then `GetInfoSpec` on the active store |
| ProxyWriters.SwapWriter.Close | fs/proxy/writer.py:292-298 | closes the writer, the active store, the swap store and the backing iff asked to; a second call changes nothing |
| ProxyWriters.SwapOnOversizedWrite | tests/test_proxy_writer.py:111-119 | with a 512-byte limit, writing 1024 bytes and then listing the root leaves the swap store active |
| ArchiveProxy.ArchiveReadServedByBacking | fs/archive/_proxy.py:139-144 | a non-writing open of an untouched backing path is served by the backing store and changes nothing |
| ArchiveProxy.ArchiveReadMissing | fs/archive/_proxy.py:139-141 | a non-writing open of a hidden path fails with ResourceNotFound and changes nothing |
| ArchiveProxy.ArchiveExclusiveOnVisible | fs/archive/_proxy.py:136-137 | an exclusive open of a visible path fails with FileExists and changes nothing |
| ArchiveProxy.ArchiveRelocatesOnlyAppendOrUpdate | fs/archive/_proxy.py:146-148 | a mode that neither appends nor updates never tombstones |
| ArchiveProxy.UpdateModeDiffers | fs/archive/_proxy.py:139-148 | on an untouched backing file `'r+'` is refused by `ProxyWriter` but relocated and opened with the backing bytes by `WrapProxyWriter` |
| ArchiveProxy.TruncateUpdateDiffers | fs/archive/_proxy.py:146-153 | on an untouched backing file `'w+'` opens an empty overlay file in both variants, but only `WrapProxyWriter` tombstones the path |
| ArchiveProxy.ArchiveTombstonesOnlyGrow | fs/archive/_proxy.py:132-153 | `WrapProxyWriter`'s `openbin` keeps every tombstone and adds at most `p` |
| ArchiveProxy.ArchiveTruncatingOpenReadsBack | fs/archive/_proxy.py:132-153 | with `WrapProxyWriter` too, a successful truncating open reads back exactly what is written |
| ArchiveProxy.OpenVariantsAgree | fs/archive/_proxy.py:132-153 | both `openbin` variants give the same outcome on every well-formed mode except `'r+'` and `'w+'` |
| ArchiveProxy.WrapProxyWriter.constructor | fs/archive/_proxy.py:47-56 | a new writer with no tombstones, open, whose meta is the backing's standard meta made writable |
| ArchiveProxy.WrapProxyWriter.GetMeta | fs/archive/_proxy.py:54-56 | the meta computed at construction for `standard`, nothing for other namespaces |
| ArchiveProxy.WrapProxyWriter.Exists | fs/archive/_proxy.py:85-92 | fails once closed; otherwise true iff the overlay has `p`, or the backing has it and it is not tombstoned |
| ArchiveProxy.WrapProxyWriter.MakeDir | fs/archive/_proxy.py:94-106 | fails once closed; otherwise `MakeDirSpec` with a directory object on the overlay store |
| ArchiveProxy.WrapProxyWriter.Remove | fs/archive/_proxy.py:108-117 | fails once closed; otherwise `RemoveSpec` |
| ArchiveProxy.WrapProxyWriter.RemoveDir | fs/archive/_proxy.py:119-130 | fails once closed; otherwise `RemoveDirSpec` |
| ArchiveProxy.WrapProxyWriter.Relocate | fs/archive/_proxy.py:78-83 | `RelocateSpec` |
| ArchiveProxy.WrapProxyWriter.OpenOnOverlay | fs/archive/_proxy.py:150-153 | `OpenInOverlay` |
| ArchiveProxy.WrapProxyWriter.OpenBin | fs/archive/_proxy.py:132-153 | fails once closed; otherwise `OpenArchiveSpec` |
| ArchiveProxy.WrapProxyWriter.SetInfo | fs/archive/_proxy.py:155-165 | fails once closed; otherwise `SetInfoSpec` |
| ArchiveProxy.WrapProxyWriter.ListDir | fs/archive/_proxy.py:167-184 | fails once closed, then as `ListDirError`; otherwise lists each visible child exactly once, overlay names first |
| ArchiveProxy.WrapProxyWriter.GetInfo | fs/archive/_proxy.py:186-193 | fails once closed; otherwise `GetInfoSpec` |
| ArchiveProxy.WrapProxyWriter.Close | fs/archive/_proxy.py:195-200 | closes the writer and the overlay, and the backing iff asked to; a second call changes nothing |

## Left out

- Path handling (`validatepath`, `relpath`, normalisation, invalid characters): paths are already-normalised lists of components. `validatepath` is modelled only as the closed check it runs first.
- Concrete stores (`MemoryFS`, `TempFS`, `open_fs` URLs, `WrapReadOnly`): every store is a map. The backing store is read-only, as under `WrapReadOnly`, so opening it in a writing mode fails with ResourceReadOnly.
- Resource info is a flat map of raw keys. Namespaces, the `details` sizes of directories and the filtering a real store applies to `setinfo` are not modelled.
- `Mode` parsing and its ValueError on a bad mode string: the mode parser is not part of this model. A mode is a record of flags, and `Mode.Wellformed` is this model's own reading of which flag combinations a mode string sets.
- File objects: buffering, reading and seeking are not modelled. A file object is a `Handle` naming its store, path, mode and start position, and `ProxyWriter.Write` models one write through it.
- The derived operations of the filesystem base class (`removetree`, `walk`, `settext`, `appendbytes`, `isempty`, `isdir`, `opendir`) are not modelled. `isdir` is `Overlay.IsDirView`, and `isempty` is the merged `listdir` being empty.
- `copy_fs`: walk order and partial copies are not modelled. `Stores.CopyAll` reports one error kind per conflict kind. `SwapWriter.Swap` leaves the swap store's previous contents active when the copy fails.
- File objects opened before a swap: a `Handle` on the overlay names whichever overlay is active, so one opened before a swap writes into the swap store after it. In the source that file object keeps writing into the retired first store.
- `SwapWriter` after a swap: the swap store's contents are tracked by the writer's overlay field alone; the `swapStore` field keeps its contents from before the swap.
- Locks, threads and concurrent access.
- `MEMORY_USAGE_LIMIT` from `psutil.virtual_memory()`: the limit is a constructor parameter.
- The `ProxyMeta` and `WrapProxyWriterMeta` method-resolution metaclasses.
- `__repr__`, `__str__`, and the copying of meta dictionaries.
- The `tlz` import branch of `unique`.
- The default stores of the constructors (a fresh memory or temporary store): callers pass stores explicitly, `Stores.EmptyStore` being the fresh one.
