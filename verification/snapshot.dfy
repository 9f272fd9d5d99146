/** A snapshot of the backup directory tree, as the directory listings
    report it, and the depth-first search for a file in some descendant
    directory (checkLockedFilesAux). */
module BackupSnapshot {
  import opened Wrappers

  /** A regular file in a listing: its name and modification time (ms). */
  datatype FileEntry = FileEntry(name: string, modified: int)

  /** A directory: its name, modification time (ms), the regular files it
      holds and its subdirectories, each in listing order. */
  datatype Dir = Dir(name: string, modified: int, files: seq<FileEntry>, subdirs: seq<Dir>)

  /** Whether some directory below `parent` holds a file (checkLockedFilesAux).
      Its exact meaning is `CheckLockedFilesAuxFindsDescendantFile`. */
  predicate CheckLockedFilesAux(parent: Dir)
    ensures CheckLockedFilesAux(parent) ==> parent.subdirs != []
    ensures (exists j :: 0 <= j < |parent.subdirs| && parent.subdirs[j].files != []) ==> CheckLockedFilesAux(parent)
    decreases parent, 1, 0
  {
    AnyFileFrom(parent, 0)
  }

  /** The search loop from the `i`-th subdirectory of `parent` on: a
      subdirectory with files ends it, otherwise that subdirectory is
      searched before its next sibling.  It can only succeed while
      subdirectories remain, and it succeeds whenever one of them holds a
      file itself. */
  predicate AnyFileFrom(parent: Dir, i: nat)
    ensures AnyFileFrom(parent, i) ==> i < |parent.subdirs|
    ensures (exists j :: i <= j < |parent.subdirs| && parent.subdirs[j].files != []) ==> AnyFileFrom(parent, i)
    decreases parent, 0, |parent.subdirs| - i
  {
    if i >= |parent.subdirs| then false
    else
      parent.subdirs[i].files != []
      || CheckLockedFilesAux(parent.subdirs[i])
      || AnyFileFrom(parent, i + 1)
  }

  /** The directory reached from `d` by following subdirectory indices `p`. */
  function Reach(d: Dir, p: seq<int>): (r: Option<Dir>)
    ensures p == [] ==> r == Some(d)
    decreases |p|
  {
    if p == [] then Some(d)
    else if 0 <= p[0] < |d.subdirs| then Reach(d.subdirs[p[0]], p[1..])
    else None
  }

  /** `p` leads from `d` to a strict descendant that holds a file. */
  ghost predicate FileAt(d: Dir, p: seq<int>) {
    p != [] && Reach(d, p).Some? && Reach(d, p).value.files != []
  }

  ghost predicate HoldsFileBelow(d: Dir) {
    exists p :: FileAt(d, p)
  }

  lemma ReachStep(d: Dir, i: int, q: seq<int>)
    requires 0 <= i < |d.subdirs|
    ensures Reach(d, [i] + q) == Reach(d.subdirs[i], q)
  {
  }

  /** checkLockedFilesAux answers yes exactly when some strict descendant
      of `parent` holds a file. */
  lemma {:induction false} CheckLockedFilesAuxFindsDescendantFile(parent: Dir)
    ensures CheckLockedFilesAux(parent) <==> HoldsFileBelow(parent)
    decreases parent, 1, 0
  {
    AnyFileFromFindsLaterFile(parent, 0);
    if HoldsFileBelow(parent) {
      var p :| FileAt(parent, p);
      assert 0 <= p[0];
    }
  }

  /** The loop from index `i` finds a file exactly when one lies below a
      subdirectory at index `i` or later. */
  lemma {:induction false} AnyFileFromFindsLaterFile(parent: Dir, i: nat)
    ensures AnyFileFrom(parent, i) <==> exists p :: FileAt(parent, p) && i <= p[0]
    decreases parent, 0, |parent.subdirs| - i
  {
    if i < |parent.subdirs| {
      var child := parent.subdirs[i];
      AnyFileFromFindsLaterFile(parent, i + 1);
      CheckLockedFilesAuxFindsDescendantFile(child);
      if AnyFileFrom(parent, i) {
        if child.files != [] {
          ReachStep(parent, i, []);
          assert FileAt(parent, [i as int]);
        } else if CheckLockedFilesAux(child) {
          var q :| FileAt(child, q);
          ReachStep(parent, i, q);
          assert FileAt(parent, [i as int] + q);
        }
      }
      if exists p :: FileAt(parent, p) && i <= p[0] {
        var p :| FileAt(parent, p) && i <= p[0];
        if p[0] == i {
          ReachStep(parent, i, p[1..]);
          assert p == [i as int] + p[1..];
          if p[1..] != [] {
            assert FileAt(child, p[1..]);
          }
        } else {
          assert i + 1 <= p[0];
        }
      }
    }
  }

  /** Pre-order position: `q` is visited before `p` by a depth-first walk
      that looks at a directory before its subdirectories and at
      subdirectories in listing order. */
  predicate Before(q: seq<int>, p: seq<int>)
    decreases |q|
  {
    if q == [] then p != []
    else p != [] && (q[0] < p[0] || (q[0] == p[0] && Before(q[1..], p[1..])))
  }

  lemma BeforeStep(i: int, a: seq<int>, b: seq<int>)
    ensures Before([i] + a, [i] + b) == Before(a, b)
  {
  }

  /** The path of the directory whose files end the search of
      checkLockedFilesAux, if the search succeeds. */
  function FirstFileBelow(parent: Dir): Option<seq<int>>
    decreases parent, 1, 0
  {
    FirstFileFrom(parent, 0)
  }

  function FirstFileFrom(parent: Dir, i: nat): Option<seq<int>>
    decreases parent, 0, |parent.subdirs| - i
  {
    if i >= |parent.subdirs| then None
    else if parent.subdirs[i].files != [] then Some([i as int])
    else match FirstFileBelow(parent.subdirs[i])
      case Some(q) => Some([i as int] + q)
      case None => FirstFileFrom(parent, i + 1)
  }

  /** The search stops at the first directory, in depth-first pre-order,
      that holds a file, and fails only when no descendant holds one; its
      verdict is that of checkLockedFilesAux. */
  lemma {:induction false} FirstFileBelowIsFirstInPreorder(parent: Dir)
    ensures FirstFileBelow(parent).Some? <==> CheckLockedFilesAux(parent)
    ensures FirstFileBelow(parent).None? ==> forall q :: !FileAt(parent, q)
    ensures FirstFileBelow(parent).Some? ==>
      var p := FirstFileBelow(parent).value;
      FileAt(parent, p) && forall q :: FileAt(parent, q) ==> !Before(q, p)
    decreases parent, 1, 0
  {
    FirstFileFromIsFirstInPreorder(parent, 0);
    CheckLockedFilesAuxFindsDescendantFile(parent);
    forall q | FileAt(parent, q)
      ensures 0 <= q[0]
    {
    }
  }

  /** The search that records where it stops succeeds, from every index,
      exactly when the search loop of checkLockedFilesAux does. */
  lemma {:induction false} FirstFileFromAgreesWithSearch(parent: Dir, i: nat)
    ensures FirstFileFrom(parent, i).Some? <==> AnyFileFrom(parent, i)
  {
    FirstFileFromIsFirstInPreorder(parent, i);
    AnyFileFromFindsLaterFile(parent, i);
  }

  lemma {:induction false} FirstFileFromIsFirstInPreorder(parent: Dir, i: nat)
    ensures FirstFileFrom(parent, i).None? ==> forall q :: FileAt(parent, q) ==> q[0] < i
    ensures FirstFileFrom(parent, i).Some? ==>
      var p := FirstFileFrom(parent, i).value;
      && FileAt(parent, p) && i <= p[0]
      && forall q :: FileAt(parent, q) && i <= q[0] ==> !Before(q, p)
    decreases parent, 0, |parent.subdirs| - i
  {
    if i < |parent.subdirs| {
      var child := parent.subdirs[i];
      // A file-holding path that starts at index `i` leads into `child`.
      forall q | FileAt(parent, q) && q[0] == i && q != [i as int]
        ensures FileAt(child, q[1..])
      {
        ReachStep(parent, i, q[1..]);
        assert q == [i as int] + q[1..];
      }
      if child.files != [] {
        ReachStep(parent, i, []);
        assert FileAt(parent, [i as int]);
      } else {
        assert !FileAt(parent, [i as int]) by {
          ReachStep(parent, i, []);
        }
        FirstFileBelowIsFirstInPreorder(child);
        match FirstFileBelow(child)
        case Some(q0) =>
          ReachStep(parent, i, q0);
          assert FileAt(parent, [i as int] + q0);
          forall q | FileAt(parent, q) && i <= q[0]
            ensures !Before(q, [i as int] + q0)
          {
            if q[0] == i {
              assert q == [i as int] + q[1..];
              BeforeStep(i, q[1..], q0);
            }
          }
        case None =>
          FirstFileFromIsFirstInPreorder(parent, i + 1);
      }
    }
  }
}
