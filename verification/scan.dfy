/** The claim rule for left-over backup folders (checkLockedFiles): every
    subdirectory of the backup prefix is deleted, skipped or claimed, and a
    claimed one is locked and its files handed to the caller for recovery. */
module BackupScan {
  import opened Wrappers
  import opened LockRegistry
  import opened BackupSnapshot

  /** The slack, in milliseconds, added to the touch frequency before a
      folder or lock counts as abandoned. */
  const Grace: int := 2000

  /** The oldest time that still counts as alive: `now - 2000 - touchFrequency`. */
  function Threshold(now: int, touchFrequency: int): int {
    now - Grace - touchFrequency
  }

  /** The modification time of the directory's lock file, if it has one.
      The lock file is a regular file, so it appears in the listing. */
  function LockStamp(files: seq<FileEntry>): (r: Option<int>)
    ensures r.None? <==> forall i :: 0 <= i < |files| ==> files[i].name != LockedFileName
    ensures r.Some? ==> exists i :: 0 <= i < |files| && files[i].name == LockedFileName && files[i].modified == r.value
  {
    if files == [] then None
    else if files[0].name == LockedFileName then Some(files[0].modified)
    else LockStamp(files[1..])
  }

  /** The folder has something to recover: a file of its own or, when the
      search recurses, a file in some descendant. */
  ghost predicate HasContent(d: Dir, recurse: bool) {
    d.files != [] || (recurse && HoldsFileBelow(d))
  }

  /** Another process touched the folder's lock file recently enough. */
  predicate LockFresh(d: Dir, touchFrequency: int, now: int) {
    var stamp := LockStamp(d.files);
    stamp.Some? && stamp.value >= Threshold(now, touchFrequency)
  }

  /** What happens to one backup folder: deleted as stale and empty, left
      alone as empty but young, left alone as owned by a live process, or
      claimed by this process. */
  datatype Verdict = Remove | Young | Owned | Claim

  function Classify(d: Dir, recurse: bool, touchFrequency: int, now: int): (v: Verdict)
    ensures v == Remove <==> !HasContent(d, recurse) && d.modified < Threshold(now, touchFrequency)
    ensures v == Young <==> !HasContent(d, recurse) && d.modified >= Threshold(now, touchFrequency)
    ensures v == Owned <==> HasContent(d, recurse) && LockFresh(d, touchFrequency, now)
    ensures v == Claim <==> HasContent(d, recurse) && !LockFresh(d, touchFrequency, now)
  {
    CheckLockedFilesAuxFindsDescendantFile(d);
    var gotRecurse := recurse && d.files == [] && CheckLockedFilesAux(d);
    if d.files == [] && !gotRecurse then
      if d.modified < Threshold(now, touchFrequency) then Remove else Young
    else if LockFresh(d, touchFrequency, now) then Owned
    else Claim
  }

  /** A folder whose lock file exists is never deleted, and exactly at the
      threshold both the folder and its lock still count as alive. */
  lemma LockedFolderNeverRemoved(d: Dir, recurse: bool, touchFrequency: int, now: int)
    ensures LockStamp(d.files).Some? ==> Classify(d, recurse, touchFrequency, now) in {Owned, Claim}
    ensures LockStamp(d.files) == Some(Threshold(now, touchFrequency)) ==>
      Classify(d, recurse, touchFrequency, now) == Owned
    ensures d.modified == Threshold(now, touchFrequency) ==> Classify(d, recurse, touchFrequency, now) != Remove
  {
  }

  /** A file of the backup list: its absolute path and modification time. */
  datatype FileInfo = FileInfo(path: string, modified: int)

  /** The state checkLockedFiles threads through the folders: the registry,
      the caller's lock map, the caller's backup list and the effects on
      the file system so far. */
  datatype Scan = Scan(reg: Registry, lockedFiles: map<string, LockedFile>,
                       backupList: seq<FileInfo>, effects: seq<Effect>)

  /** The listing `files` of the folder at `dirPath` as backup-list entries. */
  function Infos(dirPath: string, files: seq<FileEntry>): (r: seq<FileInfo>)
    ensures |r| == |files|
  {
    seq(|files|, i requires 0 <= i < |files| => FileInfo(Join(dirPath, files[i].name), files[i].modified))
  }

  /** One iteration of checkLockedFiles for the folder `d` of the backup
      directory `base`. */
  function Visit(s: Scan, base: string, d: Dir, recurse: bool, touchFrequency: int, now: int): (r: Scan)
    ensures var v := Classify(d, recurse, touchFrequency, now);
      && (v in {Young, Owned} ==> r == s)
      && (v == Remove ==> r == s.(effects := s.effects + [RemoveDir(Join(base, d.name))]))
      && (v == Claim ==>
            var lockPath := Join(Join(base, d.name), LockedFileName);
            && r.lockedFiles.Keys == s.lockedFiles.Keys + {d.name}
            && (forall k :: k in s.lockedFiles && k != d.name ==> r.lockedFiles[k] == s.lockedFiles[k])
            && r.lockedFiles[d.name].path == lockPath
            && r.lockedFiles[d.name].frequency == touchFrequency
            && (Valid(s.reg) ==> !Registered(s.reg, r.lockedFiles[d.name]))
            && Files(r.reg, touchFrequency) == Files(s.reg, touchFrequency) + [r.lockedFiles[d.name]]
            && touchFrequency in r.reg.timers
            && r.backupList == s.backupList + Infos(Join(base, d.name), d.files)
            && r.effects == s.effects + [Touch(lockPath)])
    ensures forall g :: g != touchFrequency ==> Files(r.reg, g) == Files(s.reg, g)
    ensures forall g :: g in s.reg.timers ==> g in r.reg.timers && r.reg.timers[g] == s.reg.timers[g]
    ensures Valid(s.reg) ==> Valid(r.reg)
  {
    var dirPath := Join(base, d.name);
    match Classify(d, recurse, touchFrequency, now)
    case Remove => s.(effects := s.effects + [RemoveDir(dirPath)])
    case Young => s
    case Owned => s
    case Claim =>
      var lockPath := Join(dirPath, LockedFileName);
      var m := MakeLockedFile(s.reg, lockPath, touchFrequency);
      Scan(m.reg, s.lockedFiles[d.name := m.file], s.backupList + Infos(dirPath, d.files),
           s.effects + [m.touch])
  }

  /** A folder claimed only for a descendant's files is locked but adds
      nothing to the backup list. */
  lemma ClaimedForDescendantAppendsNothing(s: Scan, base: string, d: Dir, touchFrequency: int, now: int)
    requires d.files == [] && HoldsFileBelow(d)
    ensures var r := Visit(s, base, d, true, touchFrequency, now);
      r.backupList == s.backupList && d.name in r.lockedFiles
  {
  }

  /** The backup-list entries folder `d` contributes: its own files when it
      is claimed, none otherwise. */
  function OwnFiles(base: string, d: Dir, recurse: bool, touchFrequency: int, now: int): seq<FileInfo> {
    if Classify(d, recurse, touchFrequency, now) == Claim then Infos(Join(base, d.name), d.files) else []
  }

  /** One folder's visit appends exactly that folder's own contribution. */
  lemma VisitAppendsOwnFiles(s: Scan, base: string, d: Dir, recurse: bool, touchFrequency: int, now: int)
    ensures Visit(s, base, d, recurse, touchFrequency, now).backupList
      == s.backupList + OwnFiles(base, d, recurse, touchFrequency, now)
  {
  }

  /** The backup-list entries the folders of `dirs` contribute: the files of
      each claimed folder, folder by folder in listing order.  Folder `i` is
      judged against the clock reading `times[i]`. */
  function ClaimedFiles(base: string, dirs: seq<Dir>, recurse: bool, touchFrequency: int, times: seq<int>): seq<FileInfo>
    requires |times| == |dirs|
  {
    if dirs == [] then []
    else
      OwnFiles(base, dirs[0], recurse, touchFrequency, times[0])
      + ClaimedFiles(base, dirs[1..], recurse, touchFrequency, times[1..])
  }

  /** The names of the folders of `dirs` that are claimed. */
  function ClaimedNames(dirs: seq<Dir>, recurse: bool, touchFrequency: int, times: seq<int>): set<string>
    requires |times| == |dirs|
  {
    set i | 0 <= i < |dirs| && Classify(dirs[i], recurse, touchFrequency, times[i]) == Claim :: dirs[i].name
  }

  /** The name folder `d` adds to the lock map: its own when it is
      claimed, none otherwise. */
  function OwnName(d: Dir, recurse: bool, touchFrequency: int, now: int): set<string> {
    if Classify(d, recurse, touchFrequency, now) == Claim then {d.name} else {}
  }

  /** One folder's visit adds exactly that folder's own name to the lock
      map, keeps every other entry, and leaves a timer when it claims. */
  lemma VisitLocksOwnName(s: Scan, base: string, d: Dir, recurse: bool, touchFrequency: int, now: int)
    ensures var r := Visit(s, base, d, recurse, touchFrequency, now);
      && r.lockedFiles.Keys == s.lockedFiles.Keys + OwnName(d, recurse, touchFrequency, now)
      && (forall k :: k in s.lockedFiles && k !in OwnName(d, recurse, touchFrequency, now) ==>
            r.lockedFiles[k] == s.lockedFiles[k])
      && (OwnName(d, recurse, touchFrequency, now) != {} ==> touchFrequency in r.reg.timers)
  {
  }

  lemma ClaimedNamesStep(dirs: seq<Dir>, recurse: bool, touchFrequency: int, times: seq<int>)
    requires dirs != [] && |times| == |dirs|
    ensures ClaimedNames(dirs, recurse, touchFrequency, times)
      == OwnName(dirs[0], recurse, touchFrequency, times[0])
         + ClaimedNames(dirs[1..], recurse, touchFrequency, times[1..])
  {
    var all := ClaimedNames(dirs, recurse, touchFrequency, times);
    var rest := ClaimedNames(dirs[1..], recurse, touchFrequency, times[1..]);
    forall n | n in rest
      ensures n in all
    {
      var j :| 0 <= j < |dirs[1..]| && Classify(dirs[1..][j], recurse, touchFrequency, times[1..][j]) == Claim
               && dirs[1..][j].name == n;
      assert dirs[j + 1] == dirs[1..][j] && times[j + 1] == times[1..][j];
    }
    forall n | n in all
      ensures n in rest || (n == dirs[0].name && Classify(dirs[0], recurse, touchFrequency, times[0]) == Claim)
    {
      var j :| 0 <= j < |dirs| && Classify(dirs[j], recurse, touchFrequency, times[j]) == Claim && dirs[j].name == n;
      if j > 0 {
        assert dirs[1..][j - 1] == dirs[j] && times[1..][j - 1] == times[j];
      }
    }
  }

  /** The loop of checkLockedFiles over the folders `dirs`, in listing
      order.  The clock is read afresh for every folder: `times[i]` is the
      reading folder `i` is judged against. */
  function VisitAll(s: Scan, base: string, dirs: seq<Dir>, recurse: bool, touchFrequency: int, times: seq<int>): (r: Scan)
    requires |times| == |dirs|
    ensures forall g :: g != touchFrequency ==> Files(r.reg, g) == Files(s.reg, g)
    ensures Files(s.reg, touchFrequency) <= Files(r.reg, touchFrequency)
    ensures forall g :: g in s.reg.timers ==> g in r.reg.timers && r.reg.timers[g] == s.reg.timers[g]
    ensures Valid(s.reg) ==> Valid(r.reg)
    decreases |dirs|
  {
    if dirs == [] then s
    else
      var next := Visit(s, base, dirs[0], recurse, touchFrequency, times[0]);
      VisitAll(next, base, dirs[1..], recurse, touchFrequency, times[1..])
  }

  /** The backup list grows by exactly the files of the claimed folders,
      folder by folder in listing order. */
  lemma {:induction false} VisitAllAppendsClaimedFiles(s: Scan, base: string, dirs: seq<Dir>,
                                                       recurse: bool, touchFrequency: int, times: seq<int>)
    requires |times| == |dirs|
    ensures VisitAll(s, base, dirs, recurse, touchFrequency, times).backupList
      == s.backupList + ClaimedFiles(base, dirs, recurse, touchFrequency, times)
    decreases |dirs|
  {
    if dirs != [] {
      var d, t, ds, ts := dirs[0], times[0], dirs[1..], times[1..];
      var next := Visit(s, base, d, recurse, touchFrequency, t);
      var own := OwnFiles(base, d, recurse, touchFrequency, t);
      var rest := ClaimedFiles(base, ds, recurse, touchFrequency, ts);
      VisitAllAppendsClaimedFiles(next, base, ds, recurse, touchFrequency, ts);
      VisitAppendsOwnFiles(s, base, d, recurse, touchFrequency, t);
      assert VisitAll(s, base, dirs, recurse, touchFrequency, times)
          == VisitAll(next, base, ds, recurse, touchFrequency, ts);
      assert ClaimedFiles(base, dirs, recurse, touchFrequency, times) == own + rest;
      assert (s.backupList + own) + rest == s.backupList + (own + rest);
    }
  }

  /** The lock map gains exactly the names of the claimed folders, every
      other entry stays, and a claim leaves a timer for the touch frequency. */
  lemma {:induction false} VisitAllLocksExactlyClaimedNames(s: Scan, base: string, dirs: seq<Dir>,
                                                            recurse: bool, touchFrequency: int, times: seq<int>)
    requires |times| == |dirs|
    ensures var r := VisitAll(s, base, dirs, recurse, touchFrequency, times);
      && r.lockedFiles.Keys == s.lockedFiles.Keys + ClaimedNames(dirs, recurse, touchFrequency, times)
      && (forall k :: k in s.lockedFiles && k !in ClaimedNames(dirs, recurse, touchFrequency, times) ==>
            r.lockedFiles[k] == s.lockedFiles[k])
      && (ClaimedNames(dirs, recurse, touchFrequency, times) != {} ==> touchFrequency in r.reg.timers)
    decreases |dirs|
  {
    if dirs != [] {
      var d, t, ds, ts := dirs[0], times[0], dirs[1..], times[1..];
      var next := Visit(s, base, d, recurse, touchFrequency, t);
      ClaimedNamesStep(dirs, recurse, touchFrequency, times);
      VisitLocksOwnName(s, base, d, recurse, touchFrequency, t);
      VisitAllLocksExactlyClaimedNames(next, base, ds, recurse, touchFrequency, ts);
      assert VisitAll(s, base, dirs, recurse, touchFrequency, times)
          == VisitAll(next, base, ds, recurse, touchFrequency, ts);
    }
  }

  /** The folders removed are exactly the stale empty ones. */
  lemma {:induction false} VisitAllRemovesStaleEmptyFolders(s: Scan, base: string, dirs: seq<Dir>,
                                                            recurse: bool, touchFrequency: int, times: seq<int>, p: string)
    requires |times| == |dirs|
    ensures RemoveDir(p) in VisitAll(s, base, dirs, recurse, touchFrequency, times).effects
      <==> RemoveDir(p) in s.effects
           || exists i :: 0 <= i < |dirs| && Classify(dirs[i], recurse, touchFrequency, times[i]) == Remove
                          && p == Join(base, dirs[i].name)
    decreases |dirs|
  {
    if dirs != [] {
      var next := Visit(s, base, dirs[0], recurse, touchFrequency, times[0]);
      VisitAllRemovesStaleEmptyFolders(next, base, dirs[1..], recurse, touchFrequency, times[1..], p);
      forall i | 0 < i < |dirs|
        ensures dirs[i] == dirs[1..][i - 1] && times[i] == times[1..][i - 1]
      {
      }
      if exists i :: 0 <= i < |dirs[1..]| && Classify(dirs[1..][i], recurse, touchFrequency, times[1..][i]) == Remove
                     && p == Join(base, dirs[1..][i].name) {
        var i :| 0 <= i < |dirs[1..]| && Classify(dirs[1..][i], recurse, touchFrequency, times[1..][i]) == Remove
                 && p == Join(base, dirs[1..][i].name);
        assert dirs[i + 1] == dirs[1..][i] && times[i + 1] == times[1..][i];
      }
    }
  }

  /** Every claimed folder ends up locked: the lock map entry under its name
      (from the last claimed folder of that name) is a file registered under
      the touch frequency at the folder's lock-file path. */
  lemma {:induction false} VisitAllLocksClaimedFolders(s: Scan, base: string, dirs: seq<Dir>,
                                                       recurse: bool, touchFrequency: int, times: seq<int>, i: int)
    requires |times| == |dirs|
    requires 0 <= i < |dirs|
    requires Classify(dirs[i], recurse, touchFrequency, times[i]) == Claim
    requires forall j :: i < j < |dirs| ==> dirs[j].name != dirs[i].name
    ensures var r := VisitAll(s, base, dirs, recurse, touchFrequency, times);
      && dirs[i].name in r.lockedFiles
      && r.lockedFiles[dirs[i].name].path == Join(Join(base, dirs[i].name), LockedFileName)
      && r.lockedFiles[dirs[i].name] in Files(r.reg, touchFrequency)
    decreases |dirs|
  {
    var next := Visit(s, base, dirs[0], recurse, touchFrequency, times[0]);
    var r := VisitAll(s, base, dirs, recurse, touchFrequency, times);
    if i == 0 {
      var x := next.lockedFiles[dirs[0].name];
      assert x in Files(next.reg, touchFrequency);
      ClaimedNamesFrom(dirs[1..], recurse, touchFrequency, times[1..], dirs[0].name);
      VisitAllLocksExactlyClaimedNames(next, base, dirs[1..], recurse, touchFrequency, times[1..]);
      assert r.lockedFiles[dirs[0].name] == x;
    } else {
      assert dirs[1..][i - 1] == dirs[i] && times[1..][i - 1] == times[i];
      forall j | i - 1 < j < |dirs[1..]|
        ensures dirs[1..][j].name != dirs[1..][i - 1].name
      {
        assert dirs[1..][j] == dirs[j + 1];
      }
      VisitAllLocksClaimedFolders(next, base, dirs[1..], recurse, touchFrequency, times[1..], i - 1);
    }
  }

  lemma ClaimedNamesFrom(dirs: seq<Dir>, recurse: bool, touchFrequency: int, times: seq<int>, n: string)
    requires |times| == |dirs|
    requires forall j :: 0 <= j < |dirs| ==> dirs[j].name != n
    ensures n !in ClaimedNames(dirs, recurse, touchFrequency, times)
  {
  }

  /** checkLockedFiles: when the backup prefix cannot be entered nothing
      changes; otherwise its folders are visited in listing order, folder
      `i` against the clock reading `times[i]`. */
  function CheckLockedFiles(s: Scan, topLevel: string, prefix: string, prefixExists: bool,
                            dirs: seq<Dir>, recurse: bool, touchFrequency: int, times: seq<int>): (r: Scan)
    requires |times| == |dirs|
    ensures !prefixExists ==> r == s
    ensures s.backupList <= r.backupList
    ensures prefixExists ==>
      r.backupList == s.backupList + ClaimedFiles(Join(topLevel, prefix), dirs, recurse, touchFrequency, times)
    ensures prefixExists ==>
      r.lockedFiles.Keys == s.lockedFiles.Keys + ClaimedNames(dirs, recurse, touchFrequency, times)
    ensures forall g :: g != touchFrequency ==> Files(r.reg, g) == Files(s.reg, g)
    ensures Valid(s.reg) ==> Valid(r.reg)
  {
    if !prefixExists then s
    else
      var base := Join(topLevel, prefix);
      VisitAllAppendsClaimedFiles(s, base, dirs, recurse, touchFrequency, times);
      VisitAllLocksExactlyClaimedNames(s, base, dirs, recurse, touchFrequency, times);
      VisitAll(s, base, dirs, recurse, touchFrequency, times)
  }
}
