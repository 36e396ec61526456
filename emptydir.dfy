/**
 * The pruner.  It walks the tree under a root contents-first, so that a directory is
 * judged only after everything below it was visited, and deletes every directory the
 * deletability decision approves, counting deletions and failed removals.  Then it
 * climbs from the root's parent towards `/`, deleting while the decision approves and
 * stopping at the first ancestor it refuses.
 *
 * The specification is a pair of functions over a `State`: `WalkFold` replays the walk
 * entry by entry on the current filesystem, `Climb` replays the ancestor climb.  The
 * `Pruner` class runs the same steps with loops and is proved to end in the state
 * `Run` describes.
 */
module Emptydir {
  import opened Wrappers
  import opened FileTree
  import opened Deletability

  datatype EmptydirResult = EmptydirResult(countDeleted: nat, countErrors: nat)

  /**
   * The progress of a run: the filesystem, the two counters and, in order, the paths
   * deleted so far (the lines the pruner prints).
   */
  datatype State = State(fs: Fs, deleted: nat, errors: nat, log: seq<Path>)

  /** The decision on `p`, taken on the filesystem as it is now, is `CanDelete`. */
  predicate Approved(fs: Fs, p: Path) {
    Approves(p, ListingOf(fs, p))
  }

  /**
   * Whether `remove_dir_all(p)` succeeds: `p` must be an existing directory, and
   * `failing` holds the paths whose removal the environment makes fail.
   */
  predicate RemoveSucceeds(fs: Fs, failing: set<Path>, p: Path) {
    p in fs && fs[p] == Dir && p !in failing
  }

  /**
   * Removing an approved directory: exactly one of the counters goes up.  A success
   * takes `p` away and logs it; a failure changes nothing but the error count.
   */
  function Remove(s: State, failing: set<Path>, p: Path): (r: State)
    ensures r.deleted + r.errors == s.deleted + s.errors + 1
    ensures r.deleted == s.deleted + 1 <==> RemoveSucceeds(s.fs, failing, p)
    ensures r.deleted > s.deleted ==> p !in r.fs && r.log == s.log + [p]
    ensures r.deleted == s.deleted ==> r.fs == s.fs && r.log == s.log
  {
    if RemoveSucceeds(s.fs, failing, p) then
      State(RemoveTree(s.fs, p), s.deleted + 1, s.errors, s.log + [p])
    else
      s.(errors := s.errors + 1)
  }

  /** One directory of the walk: judged on the current filesystem, removed and counted once if approved. */
  function Visit(s: State, failing: set<Path>, p: Path): (r: State)
    ensures r.deleted + r.errors == s.deleted + s.errors + (if Approved(s.fs, p) then 1 else 0)
    ensures !Approved(s.fs, p) ==> r == s
  {
    if Approved(s.fs, p) then Remove(s, failing, p) else s
  }

  /**
   * The walk loop: the directories of `walk`, visited in order.  Each counts at most
   * once, and the log grows by one path per deletion.
   */
  function WalkFold(s: State, failing: set<Path>, walk: seq<Path>): (r: State)
    ensures s.deleted <= r.deleted && s.errors <= r.errors
    ensures r.deleted + r.errors <= s.deleted + s.errors + |walk|
    ensures s.log <= r.log && |r.log| - |s.log| == r.deleted - s.deleted
    decreases |walk|
  {
    if walk == [] then s
    else Visit(WalkFold(s, failing, walk[..|walk| - 1]), failing, walk[|walk| - 1])
  }

  /**
   * The ancestor climb from `current`: stop at `/`'s parent or at the first refused
   * ancestor; otherwise remove it (success or not) and go on with its parent.
   */
  function Climb(s: State, failing: set<Path>, current: Option<Path>): (r: State)
    ensures s.deleted <= r.deleted && s.errors <= r.errors
    ensures r.deleted + r.errors <= s.deleted + s.errors + (if current.Some? then |current.value| + 1 else 0)
    ensures s.log <= r.log && |r.log| - |s.log| == r.deleted - s.deleted
    decreases if current.Some? then |current.value| + 1 else 0
  {
    match current
    case None => s
    case Some(a) =>
      if !Approved(s.fs, a) then s else Climb(Remove(s, failing, a), failing, Parent(a))
  }

  /**
   * `emptydir(root)`: the walk from zero counters, then the climb from the root's
   * parent.  Each walked directory and each ancestor counts at most once, and the log
   * holds one path per deletion.
   */
  function Run(fs: Fs, failing: set<Path>, root: Path, walk: seq<Path>): (r: State)
    ensures r.deleted + r.errors <= |walk| + |root|
    ensures |r.log| == r.deleted
  {
    Climb(WalkFold(State(fs, 0, 0, []), failing, walk), failing, Parent(root))
  }

  /**
   * What `WalkDir::new(root).contents_first(true)`, kept to its directories, yields:
   * every directory at or below `root` once, and never a directory before something
   * below it.  When `root` is missing or is a file the walk has no directories.
   */
  ghost predicate ContentsFirst(fs: Fs, root: Path, walk: seq<Path>) {
    && (forall i | 0 <= i < |walk| :: walk[i] in fs && fs[walk[i]] == Dir && root <= walk[i])
    && (forall q | q in fs && fs[q] == Dir && root <= q :: q in walk)
    && (forall i, j | 0 <= i < j < |walk| :: !(walk[i] <= walk[j]))
  }

  /**
   * The loop invariant of `WalkDir`: `walk` is a contents-first walk of the subtrees
   * of the children of `root` named in `done`.
   */
  ghost predicate CoversChildren(fs: Fs, root: Path, walk: seq<Path>, done: set<string>) {
    && (forall i | 0 <= i < |walk| ::
          walk[i] in fs && fs[walk[i]] == Dir && |walk[i]| > |root| && root <= walk[i] && walk[i][|root|] in done)
    && (forall q | q in fs && fs[q] == Dir && |q| > |root| && root <= q && q[|root|] in done :: q in walk)
    && (forall i, j | 0 <= i < j < |walk| :: !(walk[i] <= walk[j]))
  }

  lemma NoDirectoriesBelowNonDirectory(fs: Fs, root: Path)
    requires WellFormed(fs) && !(root in fs && fs[root] == Dir)
    ensures ContentsFirst(fs, root, [])
  {
    forall q | q in fs && fs[q] == Dir && root <= q ensures false {
      PrefixClosed(fs, q, root);
    }
  }

  lemma CoversNextChild(fs: Fs, root: Path, walk: seq<Path>, done: set<string>, n: string, sub: seq<Path>)
    requires CoversChildren(fs, root, walk, done) && n !in done
    requires ContentsFirst(fs, root + [n], sub)
    ensures CoversChildren(fs, root, walk + sub, done + {n})
  {
    SubWalkBelowChild(fs, root, n, sub);
    ChildSubtreeWalked(fs, root, n, sub);
    SubWalkAfterSiblings(root, walk, done, n, sub);
    ExtendedWalkBelow(fs, root, walk, done, n, sub);
    ExtendedWalkCovers(fs, root, walk, done, n, sub);
  }

  lemma ExtendedWalkBelow(fs: Fs, root: Path, walk: seq<Path>, done: set<string>, n: string, sub: seq<Path>)
    requires forall i | 0 <= i < |walk| ::
               walk[i] in fs && fs[walk[i]] == Dir && |walk[i]| > |root| && root <= walk[i] && walk[i][|root|] in done
    requires forall i | 0 <= i < |sub| :: sub[i] in fs && fs[sub[i]] == Dir
    requires forall i | 0 <= i < |sub| :: |sub[i]| > |root| && root <= sub[i] && sub[i][|root|] == n
    ensures forall i | 0 <= i < |walk + sub| ::
              var w := (walk + sub)[i];
              w in fs && fs[w] == Dir && |w| > |root| && root <= w && w[|root|] in done + {n}
  {
    forall i | 0 <= i < |walk + sub|
      ensures var w := (walk + sub)[i];
              w in fs && fs[w] == Dir && |w| > |root| && root <= w && w[|root|] in done + {n}
    {
      if i < |walk| {
        assert (walk + sub)[i] == walk[i];
      } else {
        assert (walk + sub)[i] == sub[i - |walk|];
      }
    }
  }

  lemma ExtendedWalkCovers(fs: Fs, root: Path, walk: seq<Path>, done: set<string>, n: string, sub: seq<Path>)
    requires forall q | q in fs && fs[q] == Dir && |q| > |root| && root <= q && q[|root|] in done :: q in walk
    requires forall q | q in fs && fs[q] == Dir && |q| > |root| && root <= q && q[|root|] == n :: q in sub
    ensures forall q | q in fs && fs[q] == Dir && |q| > |root| && root <= q && q[|root|] in done + {n} :: q in walk + sub
  {
  }

  lemma SubWalkBelowChild(fs: Fs, root: Path, n: string, sub: seq<Path>)
    requires ContentsFirst(fs, root + [n], sub)
    ensures forall i | 0 <= i < |sub| :: |sub[i]| > |root| && root <= sub[i] && sub[i][|root|] == n
  {
    forall i | 0 <= i < |sub| ensures |sub[i]| > |root| && root <= sub[i] && sub[i][|root|] == n {
      assert root + [n] <= sub[i];
    }
  }

  lemma ChildSubtreeWalked(fs: Fs, root: Path, n: string, sub: seq<Path>)
    requires ContentsFirst(fs, root + [n], sub)
    ensures forall q | q in fs && fs[q] == Dir && |q| > |root| && root <= q && q[|root|] == n :: q in sub
  {
    forall q | q in fs && fs[q] == Dir && |q| > |root| && root <= q && q[|root|] == n ensures q in sub {
      assert root + [n] == q[..|root| + 1];
    }
  }

  lemma SubWalkAfterSiblings(root: Path, walk: seq<Path>, done: set<string>, n: string, sub: seq<Path>)
    requires forall i | 0 <= i < |walk| :: |walk[i]| > |root| && root <= walk[i] && walk[i][|root|] in done
    requires forall i, j | 0 <= i < j < |walk| :: !(walk[i] <= walk[j])
    requires forall i | 0 <= i < |sub| :: |sub[i]| > |root| && root <= sub[i] && sub[i][|root|] == n
    requires forall i, j | 0 <= i < j < |sub| :: !(sub[i] <= sub[j])
    requires n !in done
    ensures forall i, j | 0 <= i < j < |walk + sub| :: !((walk + sub)[i] <= (walk + sub)[j])
  {
    var w := walk + sub;
    forall i, j | 0 <= i < j < |w| ensures !(w[i] <= w[j]) {
      if j < |walk| {
        assert w[i] == walk[i] && w[j] == walk[j];
      } else if i >= |walk| {
        assert w[i] == sub[i - |walk|] && w[j] == sub[j - |walk|];
      } else {
        assert w[i] == walk[i] && w[j] == sub[j - |walk|];
        assert w[i][|root|] != w[j][|root|];
      }
    }
  }

  lemma DescendantBelowChild(fs: Fs, root: Path, q: Path)
    requires WellFormed(fs) && q in fs && |q| > |root| && root <= q
    ensures q[|root|] in Children(fs, root)
  {
    PrefixClosed(fs, q, q[..|root| + 1]);
    assert q[..|root| + 1] == root + [q[|root|]];
  }

  lemma AllDescendantsWalked(fs: Fs, root: Path, walk: seq<Path>)
    requires WellFormed(fs) && root in fs && fs[root] == Dir
    requires CoversChildren(fs, root, walk, Children(fs, root))
    ensures forall q | q in fs && fs[q] == Dir && root <= q :: q in walk + [root]
  {
    forall q | q in fs && fs[q] == Dir && root <= q ensures q in walk + [root] {
      if q != root {
        assert |q| > |root|;
        DescendantBelowChild(fs, root, q);
      }
    }
  }

  lemma RootAfterDescendants(root: Path, walk: seq<Path>)
    requires forall i | 0 <= i < |walk| :: |walk[i]| > |root|
    requires forall i, j | 0 <= i < j < |walk| :: !(walk[i] <= walk[j])
    ensures forall i, j | 0 <= i < j < |walk + [root]| :: !((walk + [root])[i] <= (walk + [root])[j])
  {
    var w := walk + [root];
    forall i, j | 0 <= i < j < |w| ensures !(w[i] <= w[j]) {
      if j < |walk| {
        assert w[i] == walk[i] && w[j] == walk[j];
      } else {
        assert w[i] == walk[i] && w[j] == root;
      }
    }
  }

  lemma CoversAllChildren(fs: Fs, root: Path, walk: seq<Path>)
    requires WellFormed(fs) && root in fs && fs[root] == Dir
    requires CoversChildren(fs, root, walk, Children(fs, root))
    ensures ContentsFirst(fs, root, walk + [root])
  {
    WalkedAreBelow(fs, root, walk);
    AllDescendantsWalked(fs, root, walk);
    RootAfterDescendants(root, walk);
  }

  lemma WalkedAreBelow(fs: Fs, root: Path, walk: seq<Path>)
    requires root in fs && fs[root] == Dir
    requires forall i | 0 <= i < |walk| :: walk[i] in fs && fs[walk[i]] == Dir && root <= walk[i]
    ensures forall i | 0 <= i < |walk + [root]| ::
              (walk + [root])[i] in fs && fs[(walk + [root])[i]] == Dir && root <= (walk + [root])[i]
  {
    var w := walk + [root];
    forall i | 0 <= i < |w| ensures w[i] in fs && fs[w[i]] == Dir && root <= w[i] {
      if i < |walk| {
        assert w[i] == walk[i];
      } else {
        assert w[i] == root;
      }
    }
  }

  lemma MoveToDone(pending: set<string>, done: set<string>, n: string, all: set<string>)
    requires pending + done == all && pending !! done && n in pending
    ensures (pending - {n}) + (done + {n}) == all && (pending - {n}) !! (done + {n})
    ensures n !in done
  {
  }

  /** The contents-first walk: each child's subtree in turn, then the directory itself. */
  method WalkDir(fs: Fs, root: Path) returns (walk: seq<Path>)
    requires WellFormed(fs)
    ensures ContentsFirst(fs, root, walk)
    decreases Subtree(fs, root)
  {
    if !(root in fs && fs[root] == Dir) {
      NoDirectoriesBelowNonDirectory(fs, root);
      return [];
    }
    walk := [];
    var pending := Children(fs, root);
    ghost var done: set<string> := {};
    while pending != {}
      invariant pending + done == Children(fs, root) && pending !! done
      invariant CoversChildren(fs, root, walk, done)
      decreases pending
    {
      var n :| n in pending;
      SubtreeShrinks(fs, root, n);
      var sub := WalkDir(fs, root + [n]);
      CoversNextChild(fs, root, walk, done, n, sub);
      MoveToDone(pending, done, n, Children(fs, root));
      walk := walk + sub;
      pending, done := pending - {n}, done + {n};
    }
    assert done == Children(fs, root);
    CoversAllChildren(fs, root, walk);
    walk := walk + [root];
  }

  /** The filesystem and the two counters that `emptydir` updates. */
  class Pruner {
    var fs: Fs
    /** The paths whose `remove_dir_all` fails (permissions, races): the environment, fixed for a run. */
    const failing: set<Path>
    var countDeleted: nat
    var countErrors: nat
    /** The deleted paths in deletion order: what is printed on standard output. */
    ghost var log: seq<Path>

    ghost predicate Valid()
      reads this
    {
      WellFormed(fs)
    }

    ghost function Snapshot(): State
      reads this
    {
      State(fs, countDeleted, countErrors, log)
    }

    constructor (fs: Fs, failing: set<Path>)
      requires WellFormed(fs)
      ensures Valid()
      ensures this.fs == fs && this.failing == failing
      ensures countDeleted == 0 && countErrors == 0 && log == []
    {
      this.fs := fs;
      this.failing := failing;
      countDeleted, countErrors := 0, 0;
      log := [];
    }

    /** `fs::remove_dir_all`: on success `p` and everything below it are gone; on failure nothing changes. */
    method RemoveDirAll(p: Path) returns (ok: bool)
      requires Valid()
      modifies this`fs
      ensures Valid()
      ensures ok == RemoveSucceeds(old(fs), failing, p)
      ensures fs == if ok then RemoveTree(old(fs), p) else old(fs)
    {
      ok := RemoveSucceeds(fs, failing, p);
      if ok {
        RemoveTreeWellFormed(fs, p);
        fs := RemoveTree(fs, p);
      }
    }

    /** `can_be_deleted(p)` on the filesystem as it is now, read as approved when it is `CanDelete`. */
    method IsApproved(p: Path) returns (approved: bool)
      ensures approved == Approved(fs, p)
    {
      var decision := CanBeDeleted(p, ListingOf(fs, p));
      approved := decision == CanDelete;
    }

    /** Removes an approved directory and counts the outcome, as both loops of `emptydir` do. */
    method RemoveAndCount(p: Path)
      requires Valid()
      modifies this`fs, this`countDeleted, this`countErrors, this`log
      ensures Valid()
      ensures Snapshot() == Remove(old(Snapshot()), failing, p)
    {
      var ok := RemoveDirAll(p);
      if ok {
        log := log + [p];
        countDeleted := countDeleted + 1;
      } else {
        countErrors := countErrors + 1;
      }
    }

    /** The walk loop of `emptydir`: each directory of the walk in order, judged and removed if approved. */
    method DeleteWalked(directories: seq<Path>)
      requires Valid()
      modifies this`fs, this`countDeleted, this`countErrors, this`log
      ensures Valid()
      ensures Snapshot() == WalkFold(old(Snapshot()), failing, directories)
    {
      ghost var start := Snapshot();
      for i := 0 to |directories|
        invariant Valid()
        invariant Snapshot() == WalkFold(start, failing, directories[..i])
      {
        var dir := directories[i];
        var approved := IsApproved(dir);
        if approved {
          RemoveAndCount(dir);
        }
        assert directories[..i + 1][..i] == directories[..i];
      }
      assert directories[..|directories|] == directories;
    }

    /** The climb loop of `emptydir`: from the root's parent upwards until an ancestor is refused. */
    method ClimbParents(root: Path)
      requires Valid()
      modifies this`fs, this`countDeleted, this`countErrors, this`log
      ensures Valid()
      ensures Snapshot() == Climb(old(Snapshot()), failing, Parent(root))
    {
      ghost var goal := Climb(Snapshot(), failing, Parent(root));
      var currentParent := Parent(root);
      while currentParent.Some?
        invariant Valid()
        invariant Climb(Snapshot(), failing, currentParent) == goal
        decreases if currentParent.Some? then |currentParent.value| + 1 else 0
      {
        var parent := currentParent.value;
        var approved := IsApproved(parent);
        if !approved {
          break;
        }
        RemoveAndCount(parent);
        currentParent := Parent(parent);
      }
    }

    /**
     * `emptydir(root)`.  The walk visits the directories in the contents-first order
     * that `walk` records, each judged on the filesystem as the earlier removals left
     * it; the climb then starts at `root`'s parent and ends at the first refusal.
     */
    method Emptydir(root: Path) returns (r: EmptydirResult, ghost walk: seq<Path>)
      requires Valid()
      modifies this`fs, this`countDeleted, this`countErrors, this`log
      ensures Valid()
      ensures ContentsFirst(old(fs), root, walk)
      ensures Snapshot() == Run(old(fs), failing, root, walk)
      ensures r == EmptydirResult(countDeleted, countErrors)
    {
      var directories := WalkDir(fs, root);
      walk := directories;
      countDeleted, countErrors := 0, 0;
      log := [];
      DeleteWalked(directories);
      ClimbParents(root);
      r := EmptydirResult(countDeleted, countErrors);
    }
  }
}
