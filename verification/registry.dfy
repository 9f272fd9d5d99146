/** The process-wide lock bookkeeping: the multimap from touch frequency to
    locked files, the one repeating timer per frequency, and the operations
    that register, touch and release locked files.  Every mutex-guarded
    section is one atomic transition of an immutable `Registry` value. */
module LockRegistry {
  import opened Wrappers

  /** Name of the lock file written inside every backup folder. */
  const LockedFileName: string := "___lockfile___.txt"

  /** A locked file.  `id` stands for the identity of the heap object: two
      locked files made by two calls are different even when path and
      frequency agree. */
  datatype LockedFile = LockedFile(id: nat, path: string, frequency: int)

  /** A timer as configured when it is created: its interval in
      milliseconds and whether it fires only once. */
  datatype Timer = Timer(interval: int, singleShot: bool)

  /** The `int` a `long` becomes when it is passed where an `int` is
      expected: the value modulo 2^32, read as a signed 32-bit number.
      Touch frequencies are `long`, timer intervals are `int`.  Where
      `long` is 32 bits wide every frequency is in range and this is the
      identity. */
  function ToInt32(x: int): (r: int)
    ensures -0x8000_0000 <= r < 0x8000_0000
    ensures (x - r) % 0x1_0000_0000 == 0
    ensures -0x8000_0000 <= x < 0x8000_0000 ==> r == x
  {
    (x + 0x8000_0000) % 0x1_0000_0000 - 0x8000_0000
  }

  /** The timer that makeLockedFile starts for a touch frequency: repeating,
      with the frequency narrowed to an `int` as its interval. */
  function TimerFor(touchFrequency: int): Timer {
    Timer(ToInt32(touchFrequency), false)
  }

  /** The global state.  `files` maps a frequency to the locked files
      registered under it, oldest first; `timers` holds the live timer of
      each frequency; `nextId` is the identity the next locked file gets. */
  datatype Registry = Registry(files: map<int, seq<LockedFile>>, timers: map<int, Timer>, nextId: nat)

  /** Who invoked the touch slot: one of the timers, or some other object. */
  datatype Sender = TimerSender(timer: Timer) | OtherSender

  /** File-system effects the model records instead of performing them. */
  datatype Effect = MakeDir(path: string) | Touch(path: string) | RemoveDir(path: string)

  /** A registry together with the locked file just added to it and the
      touch that wrote that file. */
  datatype Made = Made(reg: Registry, file: LockedFile, touch: Effect)

  /** The registry before any lock has been taken. */
  const Initial: Registry := Registry(map[], map[], 0)

  /** `dir/name`, the absolute path of an entry inside a directory. */
  function Join(dir: string, name: string): string {
    dir + "/" + name
  }

  /** The files registered under frequency `f`; none when the key is absent. */
  function Files(reg: Registry, f: int): seq<LockedFile> {
    if f in reg.files then reg.files[f] else []
  }

  ghost predicate Registered(reg: Registry, x: LockedFile) {
    exists f :: f in reg.files && x in reg.files[f]
  }

  /** The representation invariant every reachable registry keeps: no key
      without files (the multimap drops a key with its last value), every
      file stored under its own frequency and older than `nextId`, and every
      timer a repeating one whose interval is its key narrowed to an `int`. */
  ghost predicate Valid(reg: Registry) {
    && (forall f :: f in reg.files ==> reg.files[f] != [])
    && (forall f, i :: f in reg.files && 0 <= i < |reg.files[f]| ==>
          reg.files[f][i].frequency == f && reg.files[f][i].id < reg.nextId)
    && (forall f :: f in reg.timers ==> reg.timers[f] == TimerFor(f))
  }

  lemma InitialIsValid()
    ensures Valid(Initial)
    ensures forall f :: Files(Initial, f) == []
  {
  }

  /** Registers a new locked file for `path` and makes sure a repeating timer
      for its frequency runs (makeLockedFile).  The touch of the file that
      precedes the registration is an effect the callers record. */
  function MakeLockedFile(reg: Registry, path: string, touchFrequency: int): (m: Made)
    ensures m.file.path == path && m.file.frequency == touchFrequency
    ensures m.touch == Touch(path)
    ensures Valid(reg) ==> !Registered(reg, m.file)
    ensures Files(m.reg, touchFrequency) == Files(reg, touchFrequency) + [m.file]
    ensures forall g :: g != touchFrequency ==> Files(m.reg, g) == Files(reg, g)
    ensures touchFrequency in m.reg.timers
    ensures touchFrequency !in reg.timers ==> m.reg.timers[touchFrequency] == TimerFor(touchFrequency)
    ensures m.reg.timers.Keys == reg.timers.Keys + {touchFrequency}
    ensures forall g :: g in reg.timers ==> m.reg.timers[g] == reg.timers[g]
    ensures m.reg.nextId > reg.nextId
    ensures Valid(reg) ==> Valid(m.reg)
  {
    var x := LockedFile(reg.nextId, path, touchFrequency);
    var files := reg.files[touchFrequency := Files(reg, touchFrequency) + [x]];
    var timers := if touchFrequency in reg.timers then reg.timers
                  else reg.timers[touchFrequency := TimerFor(touchFrequency)];
    Made(Registry(files, timers, reg.nextId + 1), x, Touch(path))
  }

  /** `s` read back to front: the multimap hands out the values of a key
      most recently inserted first. */
  function Reverse<T>(s: seq<T>): (r: seq<T>)
    ensures |r| == |s|
    ensures forall i :: 0 <= i < |s| ==> r[i] == s[|s| - 1 - i]
    ensures multiset(r) == multiset(s)
  {
    if s == [] then [] else
      assert s == [s[0]] + s[1..];
      Reverse(s[1..]) + [s[0]]
  }

  /** The locked files the touch slot writes to, in the order it writes
      them (touchFiles): nothing unless a timer fired, else every file
      registered under the firing timer's interval. */
  function TouchFiles(reg: Registry, sender: Sender): (r: seq<LockedFile>)
    ensures sender.OtherSender? ==> r == []
    ensures sender.TimerSender? ==> multiset(r) == multiset(Files(reg, sender.timer.interval))
    ensures sender.TimerSender? ==>
      var fs := Files(reg, sender.timer.interval);
      |r| == |fs| && forall i :: 0 <= i < |fs| ==> r[i] == fs[|fs| - 1 - i]
  {
    match sender
    case OtherSender => []
    case TimerSender(t) => Reverse(Files(reg, t.interval))
  }

  /** When the timer of frequency `f` fires, it touches exactly the files
      registered with frequency `f` narrowed to an `int`: for every
      frequency that fits in an `int` these are the files of `f` itself,
      for a wider one they are another key's files.  A timer whose narrowed
      interval is negative is refused by Qt and never fires at all. */
  lemma {:induction false} TouchFilesTouchesExactly(reg: Registry, f: int, x: LockedFile)
    requires Valid(reg)
    requires f in reg.timers
    ensures x in TouchFiles(reg, TimerSender(reg.timers[f])) <==> Registered(reg, x) && x.frequency == ToInt32(f)
    ensures -0x8000_0000 <= f < 0x8000_0000 ==>
      (x in TouchFiles(reg, TimerSender(reg.timers[f])) <==> Registered(reg, x) && x.frequency == f)
  {
    var touched := TouchFiles(reg, TimerSender(reg.timers[f]));
    var key := ToInt32(f);
    assert reg.timers[f].interval == key;
    assert x in touched <==> x in multiset(touched);
    assert x in Files(reg, key) <==> x in multiset(Files(reg, key));
    if x in touched {
      assert x in reg.files[key];
      var i :| 0 <= i < |reg.files[key]| && reg.files[key][i] == x;
    }
    if Registered(reg, x) && x.frequency == key {
      var g :| g in reg.files && x in reg.files[g];
      var i :| 0 <= i < |reg.files[g]| && reg.files[g][i] == x;
      assert g == key;
    }
  }

  /** A frequency of 2^32 + 2000 ms gets a timer with the 2000 ms interval,
      so its own files are never touched while those of 2000 ms are. */
  lemma WideFrequencyTouchesAnotherKey(reg: Registry, x: LockedFile)
    requires Valid(reg)
    requires 0x1_0000_07D0 in reg.timers
    requires Registered(reg, x)
    ensures x in TouchFiles(reg, TimerSender(reg.timers[0x1_0000_07D0])) <==> x.frequency == 2000
  {
    TouchFilesTouchesExactly(reg, 0x1_0000_07D0, x);
  }

  /** Stops and forgets every timer (cleanup).  The registered files stay. */
  function Cleanup(reg: Registry): (r: Registry)
    ensures r.timers == map[]
    ensures r.files == reg.files && r.nextId == reg.nextId
    ensures Valid(reg) ==> Valid(r)
  {
    reg.(timers := map[])
  }

  /** After a cleanup no timer survives, so the next registration for a
      frequency starts the only timer there is. */
  lemma CleanupThenMakeStartsOneTimer(reg: Registry, path: string, f: int)
    ensures MakeLockedFile(Cleanup(reg), path, f).reg.timers == map[f := TimerFor(f)]
  {
  }

  /** `s` without the files of `gone` that carry frequency `f`: what the
      multimap keeps under key `f` after `remove(f, x)` for each `x` in `gone`. */
  function Drop(s: seq<LockedFile>, f: int, gone: set<LockedFile>): (r: seq<LockedFile>)
    ensures forall y :: y in r <==> y in s && !(y in gone && y.frequency == f)
    ensures |r| <= |s|
  {
    if s == [] then []
    else if s[0] in gone && s[0].frequency == f then Drop(s[1..], f, gone)
    else [s[0]] + Drop(s[1..], f, gone)
  }

  /** Dropping nothing that occurs leaves the sequence as it was. */
  lemma {:induction false} DropNothing(s: seq<LockedFile>, f: int, gone: set<LockedFile>)
    requires forall y :: y in s ==> !(y in gone && y.frequency == f)
    ensures Drop(s, f, gone) == s
  {
    if s != [] {
      DropNothing(s[1..], f, gone);
      assert s == [s[0]] + s[1..];
    }
  }

  /** Two rounds of removal are one removal of both sets. */
  lemma {:induction false} DropTwice(s: seq<LockedFile>, f: int, g: set<LockedFile>, h: set<LockedFile>)
    ensures Drop(Drop(s, f, g), f, h) == Drop(s, f, g + h)
  {
    if s != [] {
      DropTwice(s[1..], f, g, h);
      if !(s[0] in g && s[0].frequency == f) {
        assert Drop(s, f, g) == [s[0]] + Drop(s[1..], f, g);
        assert Drop(s, f, g)[0] == s[0];
        assert Drop(s, f, g)[1..] == Drop(s[1..], f, g);
      }
    }
  }

  /** Removes one locked file from its own frequency's key, deleting the key
      with its last file (the guarded `remove` in releaseLockedFiles). */
  function Unregister(reg: Registry, x: LockedFile): (r: Registry)
    ensures forall y :: y in Files(r, x.frequency) <==> y in Files(reg, x.frequency) && y != x
    ensures Files(r, x.frequency) == Drop(Files(reg, x.frequency), x.frequency, {x})
    ensures forall g :: g != x.frequency ==> Files(r, g) == Files(reg, g)
    ensures r.timers == reg.timers && r.nextId == reg.nextId
    ensures Valid(reg) ==> Valid(r)
  {
    var f := x.frequency;
    if f !in reg.files then reg
    else
      var rest := Drop(reg.files[f], f, {x});
      if rest == [] then reg.(files := reg.files - {f})
      else reg.(files := reg.files[f := rest])
  }

  /** Registering a file and unregistering it again restores the multimap. */
  lemma MakeThenUnregisterRestores(reg: Registry, path: string, f: int)
    requires Valid(reg)
    ensures var m := MakeLockedFile(reg, path, f);
      Unregister(m.reg, m.file).files == reg.files
  {
    var m := MakeLockedFile(reg, path, f);
    var r := Unregister(m.reg, m.file);
    assert !Registered(reg, m.file);
    if f in reg.files {
      assert m.file !in reg.files[f];
    }
    assert Drop(Files(reg, f) + [m.file], f, {m.file}) == Files(reg, f) by {
      DropAppendGone(Files(reg, f), m.file);
    }
    assert Valid(r);
    forall g
      ensures Files(r, g) == Files(reg, g)
    {
    }
    FilesDetermineValid(r, reg);
  }

  lemma {:induction false} DropAppendGone(s: seq<LockedFile>, x: LockedFile)
    requires x !in s
    ensures Drop(s + [x], x.frequency, {x}) == s
  {
    if s == [] {
      assert [x][1..] == [];
    } else {
      assert (s + [x])[1..] == s[1..] + [x];
      DropAppendGone(s[1..], x);
      assert s == [s[0]] + s[1..];
    }
  }

  /** Two valid registries with the same files under every key hold the
      same multimap. */
  lemma FilesDetermineValid(a: Registry, b: Registry)
    requires Valid(a) && Valid(b)
    requires forall g :: Files(a, g) == Files(b, g)
    ensures a.files == b.files
  {
    forall g | g in a.files
      ensures g in b.files && a.files[g] == b.files[g]
    {
      assert Files(a, g) != [];
    }
    forall g | g in b.files
      ensures g in a.files
    {
      assert Files(b, g) != [];
    }
  }

  /** Creates the caller's own backup folder `sub` and, for a positive touch
      frequency, locks it (initLockedFiles).  When `cd(prefix)` fails the
      folder is made directly in the top-level directory. */
  datatype Init = Init(folder: string, lockedFiles: map<string, LockedFile>, reg: Registry, effects: seq<Effect>)

  function InitLockedFiles(reg: Registry, topLevel: string, prefix: string, prefixExists: bool,
                           sub: string, lockedFiles: map<string, LockedFile>, touchFrequency: int): (r: Init)
    ensures r.folder == Join(if prefixExists then Join(topLevel, prefix) else topLevel, sub)
    ensures touchFrequency <= 0 ==>
      r.lockedFiles == lockedFiles && r.reg == reg && r.effects == [MakeDir(r.folder)]
    ensures touchFrequency > 0 ==>
      && r.lockedFiles.Keys == lockedFiles.Keys + {sub}
      && (forall k :: k in lockedFiles && k != sub ==> r.lockedFiles[k] == lockedFiles[k])
      && r.lockedFiles[sub].path == Join(r.folder, LockedFileName)
      && r.lockedFiles[sub].frequency == touchFrequency
      && Files(r.reg, touchFrequency) == Files(reg, touchFrequency) + [r.lockedFiles[sub]]
      && (forall g :: g != touchFrequency ==> Files(r.reg, g) == Files(reg, g))
      && touchFrequency in r.reg.timers
      && r.effects == [MakeDir(r.folder), Touch(Join(r.folder, LockedFileName))]
    ensures touchFrequency > 0 && Valid(reg) ==> !Registered(reg, r.lockedFiles[sub])
    ensures Valid(reg) ==> Valid(r.reg)
  {
    var base := if prefixExists then Join(topLevel, prefix) else topLevel;
    var folder := Join(base, sub);
    if touchFrequency > 0 then
      var lockPath := Join(folder, LockedFileName);
      var m := MakeLockedFile(reg, lockPath, touchFrequency);
      Init(folder, lockedFiles[sub := m.file], m.reg, [MakeDir(folder), m.touch])
    else
      Init(folder, lockedFiles, reg, [MakeDir(folder)])
  }

  /** The locked files the caller's map holds under `keys`. */
  function ValuesOf(lockedFiles: map<string, LockedFile>, keys: set<string>): set<LockedFile> {
    set k | k in keys && k in lockedFiles :: lockedFiles[k]
  }

  /** The removals of the folders named `keys` below `parent`. */
  function FoldersOf(parent: string, keys: set<string>): set<Effect> {
    set k | k in keys :: RemoveDir(Join(parent, k))
  }

  lemma KeysOneMore(lockedFiles: map<string, LockedFile>, parent: string, keys: set<string>, k: string)
    requires k in lockedFiles
    ensures ValuesOf(lockedFiles, keys + {k}) == ValuesOf(lockedFiles, keys) + {lockedFiles[k]}
    ensures FoldersOf(parent, keys + {k}) == FoldersOf(parent, keys) + {RemoveDir(Join(parent, k))}
  {
  }

  lemma AllKeys(lockedFiles: map<string, LockedFile>, parent: string)
    ensures ValuesOf(lockedFiles, lockedFiles.Keys) == lockedFiles.Values
    ensures FoldersOf(parent, lockedFiles.Keys) == set sub | sub in lockedFiles :: RemoveDir(Join(parent, sub))
    ensures ValuesOf(lockedFiles, {}) == {} && FoldersOf(parent, {}) == {}
  {
  }

  /** `r` is `reg` with the files of `gone` unregistered. */
  ghost predicate DroppedFrom(reg: Registry, r: Registry, gone: set<LockedFile>) {
    forall f :: Files(r, f) == Drop(Files(reg, f), f, gone)
  }

  /** One more unregistration extends the set of files already dropped. */
  lemma UnregisterOneMore(reg: Registry, r: Registry, gone: set<LockedFile>, x: LockedFile)
    requires DroppedFrom(reg, r, gone)
    ensures DroppedFrom(reg, Unregister(r, x), gone + {x})
  {
    forall f
      ensures Files(Unregister(r, x), f) == Drop(Files(reg, f), f, gone + {x})
    {
      DropTwice(Files(reg, f), f, gone, {x});
      if f != x.frequency {
        DropNothing(Drop(Files(reg, f), f, gone), f, {x});
      }
    }
  }

  /** Unregistering the file of one more key extends what has been dropped
      to the files of that key too. */
  lemma UnregisterKeyStep(reg: Registry, r: Registry, lockedFiles: map<string, LockedFile>,
                          done: set<string>, sub: string)
    requires sub in lockedFiles
    requires DroppedFrom(reg, r, ValuesOf(lockedFiles, done))
    ensures DroppedFrom(reg, Unregister(r, lockedFiles[sub]), ValuesOf(lockedFiles, done + {sub}))
  {
    KeysOneMore(lockedFiles, "", done, sub);
    UnregisterOneMore(reg, r, ValuesOf(lockedFiles, done), lockedFiles[sub]);
  }

  /** The unregistering half of the loop of releaseLockedFiles once the
      parent folder is reached: each of the caller's files is unregistered
      under its own frequency.  The keys are visited in an unspecified
      order. */
  method UnregisterEach(reg: Registry, lockedFiles: map<string, LockedFile>)
    returns (r: Registry)
    ensures forall f :: Files(r, f) == Drop(Files(reg, f), f, lockedFiles.Values)
    ensures r.timers == reg.timers && r.nextId == reg.nextId
    ensures Valid(reg) ==> Valid(r)
  {
    r := reg;
    var todo := lockedFiles.Keys;
    ghost var done: set<string> := {};
    AllKeys(lockedFiles, "");
    forall f
      ensures Files(r, f) == Drop(Files(reg, f), f, {})
    {
      DropNothing(Files(reg, f), f, {});
    }
    while todo != {}
      invariant todo !! done && todo + done == lockedFiles.Keys
      invariant DroppedFrom(reg, r, ValuesOf(lockedFiles, done))
      invariant r.timers == reg.timers && r.nextId == reg.nextId
      invariant Valid(reg) ==> Valid(r)
      decreases |todo|
    {
      var sub :| sub in todo;
      UnregisterKeyStep(reg, r, lockedFiles, done, sub);
      r := Unregister(r, lockedFiles[sub]);
      todo := todo - {sub};
      done := done + {sub};
    }
    assert done == lockedFiles.Keys;
  }

  /** The folder-removing half of the same loop: the folder of each key
      below `parent` is removed, in an unspecified order. */
  method RemoveEach(parent: string, lockedFiles: map<string, LockedFile>)
    returns (removedDirs: set<Effect>)
    ensures removedDirs == set sub | sub in lockedFiles :: RemoveDir(Join(parent, sub))
  {
    removedDirs := {};
    var todo := lockedFiles.Keys;
    ghost var done: set<string> := {};
    AllKeys(lockedFiles, parent);
    while todo != {}
      invariant todo !! done && todo + done == lockedFiles.Keys
      invariant removedDirs == FoldersOf(parent, done)
      decreases |todo|
    {
      var sub :| sub in todo;
      KeysOneMore(lockedFiles, parent, done, sub);
      removedDirs := removedDirs + {RemoveDir(Join(parent, sub))};
      todo := todo - {sub};
      done := done + {sub};
    }
    assert done == lockedFiles.Keys;
  }

  /** Releases the caller's locked files (releaseLockedFiles with `remove`):
      each is unregistered under its own frequency, its folder below the
      parent of `folder` is removed when `remove` holds, and the caller's
      map ends empty.  `parent` is what `cdUp` reaches; when it fails
      nothing changes. */
  method ReleaseLockedFiles(reg: Registry, parent: Option<string>,
                            lockedFiles: map<string, LockedFile>, remove: bool)
    returns (r: Registry, remaining: map<string, LockedFile>, removedDirs: set<Effect>)
    ensures parent.None? ==> r == reg && remaining == lockedFiles && removedDirs == {}
    ensures parent.Some? ==> remaining == map[]
    ensures parent.Some? ==> forall f :: Files(r, f) == Drop(Files(reg, f), f, lockedFiles.Values)
    ensures r.timers == reg.timers && r.nextId == reg.nextId
    ensures parent.Some? && remove ==>
      removedDirs == set sub | sub in lockedFiles :: RemoveDir(Join(parent.value, sub))
    ensures !remove ==> removedDirs == {}
    ensures Valid(reg) ==> Valid(r)
  {
    if parent.None? {
      return reg, lockedFiles, {};
    }
    r := UnregisterEach(reg, lockedFiles);
    removedDirs := {};
    if remove {
      removedDirs := RemoveEach(parent.value, lockedFiles);
    }
    remaining := map[];
  }

  /** The two-argument releaseLockedFiles: a clean exit, which always
      removes the released folders. */
  method ReleaseLockedFilesAndFolders(reg: Registry, parent: Option<string>, lockedFiles: map<string, LockedFile>)
    returns (r: Registry, remaining: map<string, LockedFile>, removedDirs: set<Effect>)
    ensures parent.None? ==> r == reg && remaining == lockedFiles && removedDirs == {}
    ensures parent.Some? ==> remaining == map[]
    ensures parent.Some? ==> forall f :: Files(r, f) == Drop(Files(reg, f), f, lockedFiles.Values)
    ensures parent.Some? ==> removedDirs == set sub | sub in lockedFiles :: RemoveDir(Join(parent.value, sub))
    ensures r.timers == reg.timers && r.nextId == reg.nextId
    ensures Valid(reg) ==> Valid(r)
  {
    r, remaining, removedDirs := ReleaseLockedFiles(reg, parent, lockedFiles, true);
  }

  /** Releasing what initLockedFiles locked, into an empty caller map,
      gives every key back the files it had before. */
  lemma InitThenReleaseRestores(reg: Registry, topLevel: string, prefix: string, prefixExists: bool,
                                sub: string, touchFrequency: int, f: int)
    requires Valid(reg)
    ensures var i := InitLockedFiles(reg, topLevel, prefix, prefixExists, sub, map[], touchFrequency);
      Drop(Files(i.reg, f), f, i.lockedFiles.Values) == Files(reg, f)
  {
    var i := InitLockedFiles(reg, topLevel, prefix, prefixExists, sub, map[], touchFrequency);
    if touchFrequency > 0 {
      var x := i.lockedFiles[sub];
      assert i.lockedFiles == map[sub := x];
      assert i.lockedFiles.Values == {x};
      if f == touchFrequency {
        assert !Registered(reg, x);
        assert x !in Files(reg, f);
        DropAppendGone(Files(reg, f), x);
      } else {
        DropNothing(Files(reg, f), f, {x});
      }
    } else {
      assert i.lockedFiles.Values == {};
      DropNothing(Files(reg, f), f, {});
    }
  }
}
