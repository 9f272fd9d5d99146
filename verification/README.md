# Fritzing crash-recovery lock manager, modelled in Dafny

Fritzing keeps crash-recovery backups in per-process folders below a user
data directory. Each process marks a folder as its own by touching a lock
file (`___lockfile___.txt`) inside it on a repeating timer. The lock manager
in `src/utils/lockmanager.cpp` does two jobs:

* It keeps the process-wide bookkeeping. A multimap sends each touch
  frequency to the locked files registered under it, and there is one
  repeating timer per frequency. Operations register a file
  (`makeLockedFile`), create and lock the caller's own folder
  (`initLockedFiles`), touch the files of the firing timer (`touchFiles`),
  release a caller's files (`releaseLockedFiles`, both overloads) and drop
  all timers (`cleanup`).
* It decides, at start-up, what to do with each left-over backup folder
  (`checkLockedFiles`, with the descendant search `checkLockedFilesAux`).
  A folder is deleted when it is empty and stale. It is left alone when it
  is empty but young, or when its lock is fresh. Otherwise it is claimed:
  it gets locked and its files go into the caller's backup list.

The model is functional. The registry is an immutable `Registry` value, and
each mutex-guarded section is one transition. The file system is an input
snapshot (`Dir` trees of `FileEntry` listings) plus recorded `Effect`s
(`MakeDir`, `Touch`, `RemoveDir`). Clock readings are integers in
milliseconds. `checkLockedFiles` reads the clock afresh for every folder it
judges. For any one folder only one of its two reads runs: the one for an
empty folder or the one for a lock file. So the loop takes a sequence
`times` holding one reading per folder.

Modules:

* `Wrappers` (`wrappers.dfy`): the `Option` type.
* `LockRegistry` (`registry.dfy`): the registry, its representation
  invariant `Valid`, and the operations on it.
* `BackupSnapshot` (`snapshot.dfy`): the directory tree, the
  `checkLockedFilesAux` search, and a reference definition of "some
  descendant holds a file" given by index paths.
* `BackupScan` (`scan.dfy`): the per-folder verdict and the
  `checkLockedFiles` loop.

Modelling decisions:

* A `LockedFile*` has identity. Each one gets a fresh `id` from
  `Registry.nextId`, so two files with equal paths are still distinct, as
  two heap objects are.
* `values(key)` of the multimap returns the most recently inserted value
  first. So `TouchFiles` touches the registered files in reverse order of
  registration.
* Removing the last value of a key removes the key. `Valid` records this,
  together with two more facts: every file sits under its own frequency,
  and every timer is repeating, with its key narrowed to an `int` as its
  interval.
* Touch frequencies are `long` and a timer interval is an `int` (32
  bits). On 64-bit Linux and macOS builds `long` is 64 bits, and
  `setInterval(touchFrequency)` keeps the value modulo 2^32, read as a
  signed number (`ToInt32`). On Windows `long` is 32 bits and `ToInt32` is
  the identity on every frequency. The touch slot looks up the files
  under the timer's interval, not under the frequency it was made for. So
  on 64-bit `long` builds, a frequency outside the `int` range whose
  narrowed interval is zero or positive (2^32 + 2000 narrows to 2000, for
  example) has a timer that touches another key's files.
  `TouchFilesTouchesExactly` and `WideFrequencyTouchesAnotherKey` state
  this. A negative narrowed interval gives a timer that never fires (see
  "## Left out").
* The lock file is an ordinary file, so it is part of the folder's file
  listing. Its existence and timestamp are read from that listing
  (`LockStamp`). So a folder is never both "empty" and "locked". A folder
  whose only file is a stale lock file is claimed, and the lock file itself
  goes into the backup list, as the code does.
* `initLockedFiles` does not check the result of `cd(prefix)`. When that
  fails, the folder is made directly in the top-level directory
  (`prefixExists` = false).
* `releaseLockedFiles` walks the keys of a hash in an order that is not
  specified. `ReleaseLockedFiles` picks the keys in an arbitrary order and
  is proved to give the same registry for every order. Its loop is split
  into two loops. `UnregisterEach` does the unregistering and `RemoveEach`
  the folder removals. The removals are a set of effects, so running them
  in a separate loop changes nothing.
* `QHash::insert` replaces an existing key. If `initLockedFiles` or
  `checkLockedFiles` locks a folder whose name is already in the caller's
  map, the older locked file stays registered but no longer appears in the
  map. The contracts state this: the other keys are kept, and the key of
  the new folder maps to the new file.
* `cleanup` drops the timers but keeps every registered file. A later
  `makeLockedFile` starts a fresh timer.

## Model

| member | source | states |
|---|---|---|
| `LockRegistry.InitialIsValid` | src/utils/lockmanager.cpp:36-39 | the empty start state (no files, no timers) satisfies the registry invariant |
| `LockRegistry.MakeLockedFile` | src/utils/lockmanager.cpp:103-119 | the new file is fresh and is appended under its own frequency, every other key is unchanged, a timer for the frequency exists afterwards, an existing timer is reused, a new one (repeating, interval = frequency narrowed to an `int`) is made only when none was present, the touch of the new file's path is recorded, and the invariant is kept |
| `LockRegistry.ToInt32` | src/utils/lockmanager.cpp:112 | the `long` frequency passed to `setInterval` becomes a signed 32-bit value congruent to it modulo 2^32, equal to it whenever it fits |
| `LockRegistry.TouchFiles` | src/utils/lockmanager.cpp:80-88 | a sender that is not a timer touches nothing; a firing timer touches each file under its interval exactly as often as it is registered, most recently registered first |
| `LockRegistry.TouchFilesTouchesExactly` | src/utils/lockmanager.cpp:80-88 | in a valid registry, the timer of frequency `f` touches a file if and only if that file is registered with frequency `f` narrowed to an `int`; for an `f` that fits in an `int`, exactly the files of frequency `f` |
| `LockRegistry.WideFrequencyTouchesAnotherKey` | src/utils/lockmanager.cpp:85 | the timer made for a frequency of 2^32 + 2000 ms touches a registered file if and only if that file's frequency is 2000 |
| `LockRegistry.Cleanup` | src/utils/lockmanager.cpp:70-78 | no timer survives cleanup, and the registered files and the invariant are kept |
| `LockRegistry.CleanupThenMakeStartsOneTimer` | src/utils/lockmanager.cpp:70-78 | after cleanup, registering a file leaves exactly one timer: a new repeating one for that file's frequency |
| `LockRegistry.Unregister` | src/utils/lockmanager.cpp:138-140 | removing a file under its frequency keeps every other file of that key, keeps every other key, timers and identities, and keeps the invariant |
| `LockRegistry.MakeThenUnregisterRestores` | src/utils/lockmanager.cpp:103-119 | unregistering a file just made gives back exactly the multimap that existed before |
| `LockRegistry.InitLockedFiles` | src/utils/lockmanager.cpp:90-101 | the folder is `<top>[/<prefix>]/<sub>`; for a positive frequency, exactly one entry keyed `sub` is added or replaced in the caller's map, and it holds a fresh file for the folder's lock path registered under that frequency; otherwise the map and the registry are unchanged and only the folder is made |
| `LockRegistry.UnregisterEach` | src/utils/lockmanager.cpp:136-140 | whatever order the keys are visited in, each frequency loses exactly the caller's files registered under it, and timers, identities and the invariant are kept |
| `LockRegistry.RemoveEach` | src/utils/lockmanager.cpp:136-143 | whatever order the keys are visited in, the removal effects are exactly one `RemoveDir` of `<parent>/<key>` for each of the caller's keys |
| `LockRegistry.ReleaseLockedFiles` | src/utils/lockmanager.cpp:128-147 | whatever order the keys are visited in, every caller file is removed from its own frequency's key and nothing else is, the caller's map ends empty, folders are removed only when `remove` holds (then exactly `<parent>/<key>` for each key), timers stay, and a failed `cdUp` leaves everything unchanged |
| `LockRegistry.ReleaseLockedFilesAndFolders` | src/utils/lockmanager.cpp:122-126 | the two-argument release always removes the folder of every released key and otherwise behaves as the three-argument one |
| `LockRegistry.InitThenReleaseRestores` | src/utils/lockmanager.cpp:128-147 | releasing the map that initLockedFiles filled gives every frequency back the files it had before the init |
| `BackupSnapshot.CheckLockedFilesAux` | src/utils/lockmanager.cpp:198-211 | the search succeeds only when `parent` has subdirectories, and it always succeeds when one of them holds a file itself |
| `BackupSnapshot.AnyFileFrom` | src/utils/lockmanager.cpp:201-208 | the loop from subdirectory `i` on succeeds only while subdirectories remain, and it always succeeds when a subdirectory at index `i` or later holds a file itself |
| `BackupSnapshot.CheckLockedFilesAuxFindsDescendantFile` | src/utils/lockmanager.cpp:198-211 | checkLockedFilesAux answers true if and only if some strict descendant directory holds at least one file |
| `BackupSnapshot.AnyFileFromFindsLaterFile` | src/utils/lockmanager.cpp:201-208 | the loop from subdirectory `i` on succeeds if and only if a file lies in or below a subdirectory at index `i` or later |
| `BackupSnapshot.FirstFileBelowIsFirstInPreorder` | src/utils/lockmanager.cpp:198-211 | the search stops at the directory that comes first in depth-first pre-order among those holding a file, fails only when there is none, and its verdict is checkLockedFilesAux's |
| `BackupSnapshot.FirstFileFromAgreesWithSearch` | src/utils/lockmanager.cpp:201-208 | from every subdirectory index, the search that records its stopping point succeeds exactly when the search loop does |
| `BackupSnapshot.FirstFileFromIsFirstInPreorder` | src/utils/lockmanager.cpp:201-208 | from subdirectory `i` on, the search returns the pre-order-first file-holding directory at index `i` or later, or fails when there is none |
| `BackupScan.LockStamp` | src/utils/lockmanager.cpp:180-182 | the lock is absent if and only if no listed file has exactly the lock-file name (letter case included); otherwise its time is that of a listed lock file |
| `BackupScan.Classify` | src/utils/lockmanager.cpp:162-187 | a folder with no content (no own file, and with `recurse` no file below) is deleted if and only if its time is strictly before `now - 2000 - touchFrequency`, and is otherwise left alone; a folder with content is skipped if and only if its lock time is at or after that threshold, and is claimed otherwise; `now` is the one clock reading the folder's branch takes |
| `BackupScan.LockedFolderNeverRemoved` | src/utils/lockmanager.cpp:167-187 | a folder with a lock file is never deleted; a lock time exactly at the threshold counts as owned, and a folder time exactly at the threshold is not deleted |
| `BackupScan.Visit` | src/utils/lockmanager.cpp:157-195 | a skipped folder changes nothing; a stale empty folder is only removed; a claimed folder gets one fresh lock, registered under the touch frequency at `<folder>/___lockfile___.txt`, is entered under its name in the caller's map, and its own files are appended to the backup list in listing order |
| `BackupScan.ClaimedForDescendantAppendsNothing` | src/utils/lockmanager.cpp:162-194 | a folder claimed only because a descendant holds a file is locked but appends nothing to the backup list |
| `BackupScan.VisitAppendsOwnFiles` | src/utils/lockmanager.cpp:189-194 | one folder's visit appends exactly its own files to the backup list when it is claimed, and nothing otherwise |
| `BackupScan.VisitLocksOwnName` | src/utils/lockmanager.cpp:189-191 | one folder's visit adds exactly its own name to the caller's map when it is claimed, keeps every other entry, and a claim leaves a timer for the touch frequency |
| `BackupScan.VisitAll` | src/utils/lockmanager.cpp:157-195 | judging folder `i` against clock reading `times[i]`, the loop only ever appends to the touch frequency's files, leaves other frequencies and existing timers untouched, and keeps the invariant |
| `BackupScan.VisitAllAppendsClaimedFiles` | src/utils/lockmanager.cpp:157-195 | the backup list grows by exactly the files of the claimed folders, folder by folder in listing order |
| `BackupScan.VisitAllLocksExactlyClaimedNames` | src/utils/lockmanager.cpp:189-191 | the caller's map gains exactly the names of the claimed folders and keeps every other entry, and any claim leaves a timer for the touch frequency |
| `BackupScan.VisitAllRemovesStaleEmptyFolders` | src/utils/lockmanager.cpp:167-178 | a folder is removed if and only if it is one of the listed folders classified as stale and empty |
| `BackupScan.VisitAllLocksClaimedFolders` | src/utils/lockmanager.cpp:189-191 | for each claimed folder (the last one of its name), the caller's map holds a file registered under the touch frequency at that folder's lock path |
| `BackupScan.CheckLockedFiles` | src/utils/lockmanager.cpp:149-196 | if the prefix folder cannot be entered, nothing changes; otherwise, with one clock reading per folder, the backup list grows by exactly the claimed folders' files, the map gains the claimed names, other frequencies are untouched, and the invariant is kept |

## Left out

- `src/items/itembase.h`: a declaration-only GUI scene item with rendering, event handling and pixmap caching. It has no logic that can be stated from this file.
- The file system itself: directory listings, `mkdir`, `cd`/`cdUp`, `FolderUtils::rmdir` and the write in `LockedFile::touch`. Listings are snapshot inputs, the success of `cd`/`cdUp` is a parameter, and the writes are recorded `Effect`s. The `bool` that `touch` returns is ignored by every caller and is not modelled.
- Qt timers and signal/slot wiring: only the set of live timers and their configuration (interval, repeating) are modelled. Which timer fires is the `Sender` parameter of `TouchFiles`.
- `QMutex`: each guarded section is one atomic step. Interleavings with other threads are not modelled.
- `TextUtils::getRandText` and `FolderUtils::getTopLevelUserDataStorePath` are parameters (`sub`, `topLevel`). `DebugDialog` logging is dropped.
- The wall clock: each reading of `QDateTime::currentDateTime()` is an input. `Classify` and `Visit` take it as `now`, and `VisitAll` and `CheckLockedFiles` take one reading per folder in `times`. Nothing constrains how the readings relate to each other.
- The destructor `~LockManager`: it stops and forgets the timers like `cleanup` but does not delete them. Object lifetime is not modelled, so it would be identical to `Cleanup`.
- `delete lockedFile` and memory ownership: a released file simply leaves the registry. The double deletion that would happen if two caller keys shared one file is outside the model.
- `long` overflow of `-2000 - touchFrequency` (64 bits on Linux and macOS, 32 bits on Windows) and 64-bit overflow of millisecond times: integers are unbounded.
- A directory, or a symbolic link, named `___lockfile___.txt` would also make `QFileInfo::exists` true. The listings leave out symbolic links, and the model reads the lock only from the regular-file listing.
- BackupScan.LockStamp: matches the lock-file name by exact, case-sensitive string equality. On a case-insensitive file system (Windows NTFS, default macOS APFS), `QFileInfo::exists` also finds a file whose name differs from `___lockfile___.txt` only in letter case, such as `___LOCKFILE___.TXT`. There the code sees a lock, while the model sees none and may claim a folder the code would skip. File-system case folding is not modelled.
- Timers that never fire: `QTimer::start` refuses a negative interval, so such a timer never runs. This happens for a frequency whose narrowed interval is negative, such as 2^31, or for a negative `touchFrequency` passed to `checkLockedFiles`, which, unlike `initLockedFiles`, has no `> 0` guard. The model still records such a timer in `timers`, and the `Sender` parameter of `TouchFiles` does not rule out a firing by it. `TouchFiles` states only what the slot does when a given timer fires.
- Path resolution by `QDir::cd` and `absoluteFilePath`: an empty or `.` prefix, an absolute prefix, and `..` components are not resolved. Folders are always `<top>/<prefix>/<name>` (or `<top>/<name>`) as plain string joins with `/`.
- BackupSnapshot.CheckLockedFilesAux: its own contract gives only a necessary and a sufficient condition. The exact meaning, "some strict descendant holds a file", is the lemma `CheckLockedFilesAuxFindsDescendantFile`.
- BackupSnapshot.AnyFileFrom: likewise, the exact meaning is the lemma `AnyFileFromFindsLaterFile`.
- BackupScan.VisitAll: its own contract states only the registry facts. The backup list is the lemma `VisitAllAppendsClaimedFiles`, and the lock map is `VisitAllLocksExactlyClaimedNames`.
- The order in which `entryInfoList` lists directories and files (name order by default) is not computed: the snapshot sequences are taken to be in listing order already.
