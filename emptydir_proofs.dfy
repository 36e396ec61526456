/**
 * What a run of the pruner does, stated without reference to the order in which the
 * walk lists siblings.  `FateOf` says, for each directory of the tree as it was
 * before the run, whether the walk deletes it, fails to remove it, or leaves it:
 * a directory is approved exactly when it is outside `.git` and each of its direct
 * entries either has a junk name or is a subdirectory the walk deleted first.
 */
module EmptydirProofs {
  import opened Wrappers
  import opened FileTree
  import opened Deletability
  import opened Emptydir

  datatype Fate = Rejected | Deleted | RemoveFailed

  /** An entry name on the allow-list, once lowercased. */
  predicate Junk(n: string) {
    AsciiLower(n) in DeletableNames
  }

  /** The fate, in the walk, of a directory of the tree as it was before the run. */
  ghost function FateOf(fs: Fs, failing: set<Path>, q: Path): Fate
    requires WellFormed(fs) && q in fs && fs[q] == Dir
    decreases Subtree(fs, q)
  {
    if && !IsInGitRepository(q)
       && forall n | n in Children(fs, q) ::
            || Junk(n)
            || (fs[q + [n]] == Dir && (SubtreeShrinks(fs, q, n); FateOf(fs, failing, q + [n]) == Deleted))
    then (if q in failing then RemoveFailed else Deleted)
    else Rejected
  }

  /** The directories at or below `root` with the given fate. */
  ghost function DirsWithFate(fs: Fs, failing: set<Path>, root: Path, f: Fate): set<Path>
    requires WellFormed(fs)
  {
    set q | q in fs && fs[q] == Dir && root <= q && FateOf(fs, failing, q) == f
  }

  /** The filesystem without the subtrees rooted at the paths of `gone`. */
  ghost function Pruned(fs: Fs, gone: set<Path>): Fs {
    map k | k in fs && (forall d | d in gone :: !(d <= k)) :: fs[k]
  }

  /** The judgement on an existing directory reads only the names of its direct entries. */
  lemma ApprovedIff(fs: Fs, q: Path)
    requires q in fs && fs[q] == Dir
    ensures Approved(fs, q) <==> !IsInGitRepository(q) && forall n | n in Children(fs, q) :: Junk(n)
  {
    var l := ListingOf(fs, q);
    assert ListingReadable(l);
    if forall n | n in Children(fs, q) :: Junk(n) {
      forall x | x in LowercasedNames(l) ensures x in DeletableNames {
        var e :| e in l.entries && AsciiLower(e.name) == x;
        assert e.name in Children(fs, q);
      }
    } else {
      var n :| n in Children(fs, q) && !Junk(n);
      assert Named(n) in l.entries;
      assert AsciiLower(n) in LowercasedNames(l);
    }
  }

  /** Child `n` of `q` is a directory that the walk deletes. */
  ghost predicate Gone(fs: Fs, failing: set<Path>, q: Path, n: string)
    requires WellFormed(fs) && q + [n] in fs
  {
    fs[q + [n]] == Dir && FateOf(fs, failing, q + [n]) == Deleted
  }

  /** Child `n` of `q` does not keep `q` alive: it is junk, or the walk deletes it first. */
  ghost predicate Cleared(fs: Fs, failing: set<Path>, q: Path, n: string)
    requires WellFormed(fs) && q + [n] in fs
  {
    Junk(n) || Gone(fs, failing, q, n)
  }

  lemma FateOfUnfold(fs: Fs, failing: set<Path>, q: Path)
    requires WellFormed(fs) && q in fs && fs[q] == Dir
    ensures FateOf(fs, failing, q) != Rejected
            <==> !IsInGitRepository(q) && forall n | n in Children(fs, q) :: Cleared(fs, failing, q, n)
    ensures FateOf(fs, failing, q) == Deleted <==> FateOf(fs, failing, q) != Rejected && q !in failing
  {
  }

  /** The directories of a walk prefix with the given fate. */
  ghost function FatesAmong(fs: Fs, failing: set<Path>, walk: seq<Path>, f: Fate): set<Path>
    requires WellFormed(fs)
  {
    set q | q in walk && q in fs && fs[q] == Dir && FateOf(fs, failing, q) == f
  }

  /** The filesystem the walk leaves before entry `i`, if exactly its deleted entries are gone. */
  ghost function Before(fs: Fs, failing: set<Path>, root: Path, walk: seq<Path>, i: nat): Fs
    requires WellFormed(fs) && ContentsFirst(fs, root, walk) && i <= |walk|
  {
    Pruned(fs, FatesAmong(fs, failing, walk[..i], Deleted))
  }

  /** Entry `i` is still there when the walk reaches it: nothing deleted earlier lies above it. */
  lemma EntryStillPresent(fs: Fs, failing: set<Path>, root: Path, walk: seq<Path>, i: nat)
    requires WellFormed(fs) && ContentsFirst(fs, root, walk) && i < |walk|
    ensures walk[i] in Before(fs, failing, root, walk, i)
  {
    var gone := FatesAmong(fs, failing, walk[..i], Deleted);
    forall d | d in gone ensures !(d <= walk[i]) {
      var j :| 0 <= j < i && walk[..i][j] == d;
      assert walk[j] == d;
    }
  }

  /** A proper prefix of `q + [n]` is a prefix of `q`. */
  lemma PrefixOfChild(d: Path, q: Path, n: string)
    requires d <= q + [n] && d != q + [n]
    ensures d <= q
  {
    assert |d| <= |q|;
    assert d == (q + [n])[..|d|] == q[..|d|];
  }

  /** A child directory the walk deletes comes before its parent in the walk. */
  lemma GoneChildDeletedEarlier(fs: Fs, failing: set<Path>, root: Path, walk: seq<Path>, i: nat, n: string)
    requires WellFormed(fs) && ContentsFirst(fs, root, walk) && i < |walk|
    requires n in Children(fs, walk[i]) && Gone(fs, failing, walk[i], n)
    ensures walk[i] + [n] in FatesAmong(fs, failing, walk[..i], Deleted)
  {
    var c := walk[i] + [n];
    assert root <= walk[i] <= c;
    assert c in walk;
    var j :| 0 <= j < |walk| && walk[j] == c;
    assert j < i by {
      assert walk[i] <= walk[j] && walk[i] != walk[j];
    }
    assert walk[..i][j] == c;
  }

  /** A child the walk does not delete is still there when the walk reaches its parent. */
  lemma KeptChildPresent(fs: Fs, failing: set<Path>, root: Path, walk: seq<Path>, i: nat, n: string)
    requires WellFormed(fs) && ContentsFirst(fs, root, walk) && i < |walk|
    requires n in Children(fs, walk[i]) && !Gone(fs, failing, walk[i], n)
    ensures walk[i] + [n] in Before(fs, failing, root, walk, i)
  {
    var q := walk[i];
    var c := q + [n];
    var gone := FatesAmong(fs, failing, walk[..i], Deleted);
    EntryStillPresent(fs, failing, root, walk, i);
    forall d | d in gone ensures !(d <= c) {
      assert !(d <= q);
      if d <= c && d != c {
        PrefixOfChild(d, q, n);
      }
    }
  }

  /** A child of entry `i` is still there exactly when the walk did not delete it earlier. */
  lemma ChildPresentIff(fs: Fs, failing: set<Path>, root: Path, walk: seq<Path>, i: nat, n: string)
    requires WellFormed(fs) && ContentsFirst(fs, root, walk) && i < |walk|
    requires n in Children(fs, walk[i])
    ensures walk[i] + [n] in Before(fs, failing, root, walk, i) <==> !Gone(fs, failing, walk[i], n)
  {
    if Gone(fs, failing, walk[i], n) {
      GoneChildDeletedEarlier(fs, failing, root, walk, i, n);
      assert walk[i] + [n] <= walk[i] + [n];
    } else {
      KeptChildPresent(fs, failing, root, walk, i, n);
    }
  }

  /** Entry `i` is approved, on the filesystem the earlier entries left, exactly when its fate is not `Rejected`. */
  lemma EntryApprovedIff(fs: Fs, failing: set<Path>, root: Path, walk: seq<Path>, i: nat)
    requires WellFormed(fs) && ContentsFirst(fs, root, walk) && i < |walk|
    ensures Approved(Before(fs, failing, root, walk, i), walk[i]) <==> FateOf(fs, failing, walk[i]) != Rejected
  {
    var q := walk[i];
    var p := Before(fs, failing, root, walk, i);
    EntryStillPresent(fs, failing, root, walk, i);
    ApprovedIff(p, q);
    FateOfUnfold(fs, failing, q);
    assert Children(p, q) <= Children(fs, q);
    if forall n | n in Children(p, q) :: Junk(n) {
      forall n | n in Children(fs, q) ensures Cleared(fs, failing, q, n) {
        ChildPresentIff(fs, failing, root, walk, i, n);
      }
    }
    if forall n | n in Children(fs, q) :: Cleared(fs, failing, q, n) {
      forall n | n in Children(p, q) ensures Junk(n) {
        ChildPresentIff(fs, failing, root, walk, i, n);
      }
    }
  }

  lemma FatesAmongStep(fs: Fs, failing: set<Path>, walk: seq<Path>, i: nat, f: Fate)
    requires WellFormed(fs) && i < |walk|
    requires forall j | 0 <= j < |walk| :: walk[j] in fs && fs[walk[j]] == Dir
    ensures FatesAmong(fs, failing, walk[..i + 1], f)
            == FatesAmong(fs, failing, walk[..i], f) + (if FateOf(fs, failing, walk[i]) == f then {walk[i]} else {})
    ensures walk[i] !in FatesAmong(fs, failing, walk[..i], f) <== (forall j | 0 <= j < i :: walk[j] != walk[i])
  {
    PrefixExtends(walk, i);
    FreshEntry(walk, i);
  }

  /** The entries of the prefix up to `i + 1` are those up to `i` and entry `i`. */
  lemma PrefixExtends(walk: seq<Path>, i: nat)
    requires i < |walk|
    ensures forall q :: q in walk[..i + 1] <==> q in walk[..i] || q == walk[i]
  {
    assert walk[..i + 1] == walk[..i] + [walk[i]];
  }

  /** An entry distinct from the ones before it is not among them. */
  lemma FreshEntry(walk: seq<Path>, i: nat)
    requires i < |walk|
    ensures walk[i] !in walk[..i] <== (forall j | 0 <= j < i :: walk[j] != walk[i])
  {
    if forall j | 0 <= j < i :: walk[j] != walk[i] {
      forall j | 0 <= j < i ensures walk[..i][j] != walk[i] {
        assert walk[..i][j] == walk[j];
      }
    }
  }

  /** Pruning one more subtree is removing it. */
  lemma PrunedAdd(fs: Fs, gone: set<Path>, q: Path)
    ensures RemoveTree(Pruned(fs, gone), q) == Pruned(fs, gone + {q})
  {
    var a := RemoveTree(Pruned(fs, gone), q);
    var b := Pruned(fs, gone + {q});
    assert forall k :: k in a <==> k in b;
  }

  /** Removing entry `i` from the filesystem before it leaves the filesystem before entry `i + 1`. */
  lemma RemoveEntryPrunes(fs: Fs, failing: set<Path>, root: Path, walk: seq<Path>, i: nat)
    requires WellFormed(fs) && ContentsFirst(fs, root, walk) && i < |walk|
    requires FateOf(fs, failing, walk[i]) == Deleted
    ensures RemoveTree(Before(fs, failing, root, walk, i), walk[i]) == Before(fs, failing, root, walk, i + 1)
  {
    FatesAmongStep(fs, failing, walk, i, Deleted);
    PrunedAdd(fs, FatesAmong(fs, failing, walk[..i], Deleted), walk[i]);
  }

  /** One step of the walk, from the state before entry `i` to the state before entry `i + 1`. */
  lemma VisitEntry(fs: Fs, failing: set<Path>, root: Path, walk: seq<Path>, i: nat, s: State)
    requires WellFormed(fs) && ContentsFirst(fs, root, walk) && i < |walk|
    requires s.fs == Before(fs, failing, root, walk, i)
    ensures var t := Visit(s, failing, walk[i]);
            && t.fs == Before(fs, failing, root, walk, i + 1)
            && t.deleted == s.deleted + (if FateOf(fs, failing, walk[i]) == Deleted then 1 else 0)
            && t.errors == s.errors + (if FateOf(fs, failing, walk[i]) == RemoveFailed then 1 else 0)
  {
    var q := walk[i];
    EntryApprovedIff(fs, failing, root, walk, i);
    EntryStillPresent(fs, failing, root, walk, i);
    FateOfUnfold(fs, failing, q);
    FatesAmongStep(fs, failing, walk, i, Deleted);
    if FateOf(fs, failing, q) == Deleted {
      RemoveEntryPrunes(fs, failing, root, walk, i);
    }
  }

  /** The counts and the filesystem that the walk up to entry `i` has reached. */
  ghost predicate WalkedUpTo(fs: Fs, failing: set<Path>, root: Path, walk: seq<Path>, i: nat, s0: State, s: State)
    requires WellFormed(fs) && ContentsFirst(fs, root, walk) && i <= |walk|
  {
    && s.fs == Before(fs, failing, root, walk, i)
    && s.deleted == s0.deleted + |FatesAmong(fs, failing, walk[..i], Deleted)|
    && s.errors == s0.errors + |FatesAmong(fs, failing, walk[..i], RemoveFailed)|
  }

  lemma WalkedUpToStart(fs: Fs, failing: set<Path>, root: Path, walk: seq<Path>, s0: State)
    requires WellFormed(fs) && ContentsFirst(fs, root, walk) && s0.fs == fs
    ensures WalkedUpTo(fs, failing, root, walk, 0, s0, s0)
  {
    assert walk[..0] == [];
    NoFatesAmongNothing(fs, failing, Deleted);
    NoFatesAmongNothing(fs, failing, RemoveFailed);
    PrunedNothing(fs);
  }

  lemma NoFatesAmongNothing(fs: Fs, failing: set<Path>, f: Fate)
    requires WellFormed(fs)
    ensures FatesAmong(fs, failing, [], f) == {}
  {
  }

  lemma PrunedNothing(fs: Fs)
    ensures Pruned(fs, {}) == fs
  {
  }

  lemma WalkedUpToStep(fs: Fs, failing: set<Path>, root: Path, walk: seq<Path>, k: nat, s0: State, s: State)
    requires WellFormed(fs) && ContentsFirst(fs, root, walk) && k < |walk|
    requires WalkedUpTo(fs, failing, root, walk, k, s0, s)
    ensures WalkedUpTo(fs, failing, root, walk, k + 1, s0, Visit(s, failing, walk[k]))
  {
    VisitEntry(fs, failing, root, walk, k, s);
    CountStep(fs, failing, root, walk, k, Deleted);
    CountStep(fs, failing, root, walk, k, RemoveFailed);
  }

  /** Entry `k` adds one to the count of its own fate and nothing to the others. */
  lemma CountStep(fs: Fs, failing: set<Path>, root: Path, walk: seq<Path>, k: nat, f: Fate)
    requires WellFormed(fs) && ContentsFirst(fs, root, walk) && k < |walk|
    ensures |FatesAmong(fs, failing, walk[..k + 1], f)|
            == |FatesAmong(fs, failing, walk[..k], f)| + (if FateOf(fs, failing, walk[k]) == f then 1 else 0)
  {
    assert forall j | 0 <= j < k :: walk[j] != walk[k];
    FatesAmongStep(fs, failing, walk, k, f);
  }

  lemma WalkFoldPrefix(s0: State, failing: set<Path>, walk: seq<Path>, k: nat)
    requires k < |walk|
    ensures WalkFold(s0, failing, walk[..k + 1]) == Visit(WalkFold(s0, failing, walk[..k]), failing, walk[k])
  {
    assert walk[..k + 1][..k] == walk[..k];
    assert walk[..k + 1][k] == walk[k];
  }

  /** The walk up to entry `i`: what it removed and what it counted. */
  lemma {:induction false} WalkPrefixFates(fs: Fs, failing: set<Path>, root: Path, walk: seq<Path>, i: nat, s0: State)
    requires WellFormed(fs) && ContentsFirst(fs, root, walk) && i <= |walk| && s0.fs == fs
    ensures WalkedUpTo(fs, failing, root, walk, i, s0, WalkFold(s0, failing, walk[..i]))
  {
    if i == 0 {
      WalkedUpToStart(fs, failing, root, walk, s0);
      assert walk[..0] == [];
    } else {
      var k := i - 1;
      WalkPrefixFates(fs, failing, root, walk, k, s0);
      WalkedUpToStep(fs, failing, root, walk, k, s0, WalkFold(s0, failing, walk[..k]));
      WalkFoldPrefix(s0, failing, walk, k);
    }
  }

  /**
   * The walk, in any contents-first order, deletes exactly the directories whose fate
   * is `Deleted` (with all they contain), counts one deletion for each of them and one
   * error for each directory whose fate is `RemoveFailed`.
   */
  lemma WalkFates(fs: Fs, failing: set<Path>, root: Path, walk: seq<Path>, s0: State)
    requires WellFormed(fs) && ContentsFirst(fs, root, walk) && s0.fs == fs
    ensures var s := WalkFold(s0, failing, walk);
            && s.fs == Pruned(fs, DirsWithFate(fs, failing, root, Deleted))
            && s.deleted == s0.deleted + |DirsWithFate(fs, failing, root, Deleted)|
            && s.errors == s0.errors + |DirsWithFate(fs, failing, root, RemoveFailed)|
  {
    WalkPrefixFates(fs, failing, root, walk, |walk|, s0);
    assert walk[..|walk|] == walk;
    WholeWalkFates(fs, failing, root, walk, Deleted);
    WholeWalkFates(fs, failing, root, walk, RemoveFailed);
  }

  /** A contents-first walk holds exactly the directories at or below the root. */
  lemma WholeWalkFates(fs: Fs, failing: set<Path>, root: Path, walk: seq<Path>, f: Fate)
    requires WellFormed(fs) && ContentsFirst(fs, root, walk)
    ensures FatesAmong(fs, failing, walk[..|walk|], f) == DirsWithFate(fs, failing, root, f)
  {
    assert walk[..|walk|] == walk;
  }

  /** The order in which `read_dir` lists siblings does not change what the walk removes or counts. */
  lemma WalkOrderIrrelevant(fs: Fs, failing: set<Path>, root: Path, w1: seq<Path>, w2: seq<Path>, s0: State)
    requires WellFormed(fs) && ContentsFirst(fs, root, w1) && ContentsFirst(fs, root, w2) && s0.fs == fs
    ensures WalkFold(s0, failing, w1).fs == WalkFold(s0, failing, w2).fs
    ensures WalkFold(s0, failing, w1).deleted == WalkFold(s0, failing, w2).deleted
    ensures WalkFold(s0, failing, w1).errors == WalkFold(s0, failing, w2).errors
  {
    WalkFates(fs, failing, root, w1, s0);
    WalkFates(fs, failing, root, w2, s0);
  }

  /**
   * What every state of a run keeps: the filesystem is well formed, each deletion is
   * logged once, no logged path is at or above a later one, and nothing still present
   * lies at or below a logged path.
   */
  ghost predicate Consistent(s: State) {
    && WellFormed(s.fs)
    && |s.log| == s.deleted
    && (forall i, j | 0 <= i < j < |s.log| :: !(s.log[i] <= s.log[j]))
    && (forall i, k | 0 <= i < |s.log| && k in s.fs :: !(s.log[i] <= k))
  }

  lemma RemoveConsistent(s: State, failing: set<Path>, p: Path)
    requires Consistent(s)
    ensures Consistent(Remove(s, failing, p))
  {
    if RemoveSucceeds(s.fs, failing, p) {
      RemoveTreeWellFormed(s.fs, p);
      LogAppendOrdered(s.log, p, s.fs);
      LogAppendClears(s.log, p, s.fs, RemoveTree(s.fs, p));
    }
  }

  /** Logging a path that is still present keeps every logged path off the later ones. */
  lemma LogAppendOrdered(log: seq<Path>, p: Path, fs: Fs)
    requires forall i, j | 0 <= i < j < |log| :: !(log[i] <= log[j])
    requires forall i, k | 0 <= i < |log| && k in fs :: !(log[i] <= k)
    requires p in fs
    ensures forall i, j | 0 <= i < j < |log + [p]| :: !((log + [p])[i] <= (log + [p])[j])
  {
    var t := log + [p];
    forall i, j | 0 <= i < j < |t| ensures !(t[i] <= t[j]) {
      if j < |log| {
        assert t[i] == log[i] && t[j] == log[j];
      } else {
        assert t[i] == log[i] && t[j] == p;
      }
    }
  }

  /** After removing the subtree at `p`, nothing left lies at or below a logged path or `p`. */
  lemma LogAppendClears(log: seq<Path>, p: Path, fs: Fs, fs': Fs)
    requires forall i, k | 0 <= i < |log| && k in fs :: !(log[i] <= k)
    requires forall k | k in fs' :: k in fs && !(p <= k)
    ensures forall i, k | 0 <= i < |log + [p]| && k in fs' :: !((log + [p])[i] <= k)
  {
    var t := log + [p];
    forall i, k | 0 <= i < |t| && k in fs' ensures !(t[i] <= k) {
      if i < |log| {
        assert t[i] == log[i];
      } else {
        assert t[i] == p;
      }
    }
  }

  lemma {:induction false} WalkFoldConsistent(s: State, failing: set<Path>, walk: seq<Path>)
    requires Consistent(s)
    ensures Consistent(WalkFold(s, failing, walk))
    decreases |walk|
  {
    if walk != [] {
      var w := walk[..|walk| - 1];
      WalkFoldConsistent(s, failing, w);
      RemoveConsistent(WalkFold(s, failing, w), failing, walk[|walk| - 1]);
    }
  }

  lemma {:induction false} ClimbConsistent(s: State, failing: set<Path>, current: Option<Path>)
    requires Consistent(s)
    ensures Consistent(Climb(s, failing, current))
    decreases if current.Some? then |current.value| + 1 else 0
  {
    if current.Some? && Approved(s.fs, current.value) {
      RemoveConsistent(s, failing, current.value);
      ClimbConsistent(Remove(s, failing, current.value), failing, Parent(current.value));
    }
  }

  /**
   * A run deletes contents first and logs each deletion: the log has one entry per
   * deletion, none at or above a later one, and none above anything that is left.
   */
  lemma RunConsistent(fs: Fs, failing: set<Path>, root: Path, walk: seq<Path>)
    requires WellFormed(fs)
    ensures Consistent(Run(fs, failing, root, walk))
  {
    var s0 := State(fs, 0, 0, []);
    WalkFoldConsistent(s0, failing, walk);
    ClimbConsistent(WalkFold(s0, failing, walk), failing, Parent(root));
  }

  /** The climb only removes: what is left was there before, unchanged. */
  lemma {:induction false} ClimbShrinks(s: State, failing: set<Path>, current: Option<Path>)
    ensures forall k | k in Climb(s, failing, current).fs :: k in s.fs && Climb(s, failing, current).fs[k] == s.fs[k]
    decreases if current.Some? then |current.value| + 1 else 0
  {
    if current.Some? && Approved(s.fs, current.value) {
      ClimbShrinks(Remove(s, failing, current.value), failing, Parent(current.value));
    }
  }

  /**
   * The climb removes nothing deeper than where it starts that is not below a removed
   * ancestor: if a path longer than the start survives, so does everything below it.
   */
  lemma {:induction false} ClimbFrame(s: State, failing: set<Path>, current: Option<Path>, k: Path, k2: Path)
    requires current.Some? ==> |current.value| < |k|
    requires k in Climb(s, failing, current).fs && k2 in s.fs && k <= k2
    ensures k2 in Climb(s, failing, current).fs
    decreases if current.Some? then |current.value| + 1 else 0
  {
    if current.Some? && Approved(s.fs, current.value) {
      var a := current.value;
      var s2 := Remove(s, failing, a);
      ClimbShrinks(s2, failing, Parent(a));
      ClimbFrame(s2, failing, Parent(a), k, k2);
    }
  }

  /** A second climb over what a climb left, from the same start and with the same removals failing, deletes nothing and changes nothing. */
  lemma {:induction false} ClimbAgain(s: State, t: State, failing: set<Path>, current: Option<Path>)
    requires t.fs == Climb(s, failing, current).fs
    ensures Climb(t, failing, current).fs == t.fs
    ensures Climb(t, failing, current).deleted == t.deleted
    ensures Climb(t, failing, current).log == t.log
    decreases if current.Some? then |current.value| + 1 else 0
  {
    if current.Some? && Approved(s.fs, current.value) {
      var a := current.value;
      var s2 := Remove(s, failing, a);
      ClimbShrinks(s2, failing, Parent(a));
      if !RemoveSucceeds(s.fs, failing, a) && Approved(t.fs, a) {
        assert !RemoveSucceeds(t.fs, failing, a);
        ClimbAgain(s2, Remove(t, failing, a), failing, Parent(a));
      }
    }
  }

  /**
   * After a run, no directory it left at or below the root would be deleted by the
   * walk of a second run: each one was refused, or failed to be removed, the first time,
   * and what made it so is still there.
   */
  lemma SurvivorsNotDeleted(fs: Fs, fs1: Fs, kept: Fs, failing: set<Path>, root: Path, q: Path)
    requires WellFormed(fs) && WellFormed(fs1)
    requires kept == Pruned(fs, DirsWithFate(fs, failing, root, Deleted))
    requires forall k | k in fs1 :: k in kept && fs1[k] == kept[k]
    requires forall c | c in kept && |c| > |root| && root <= c && c[..|c| - 1] in fs1 :: c in fs1
    requires q in fs1 && fs1[q] == Dir && root <= q
    ensures FateOf(fs1, failing, q) != Deleted
    decreases Subtree(fs1, q)
  {
    var gone := DirsWithFate(fs, failing, root, Deleted);
    assert q in kept;
    assert q !in gone by {
      assert q <= q;
    }
    FateOfUnfold(fs, failing, q);
    FateOfUnfold(fs1, failing, q);
    if q !in failing && !IsInGitRepository(q) {
      var n :| n in Children(fs, q) && !Cleared(fs, failing, q, n);
      KeptChildSurvives(fs, fs1, kept, failing, root, q, n);
      if fs1[q + [n]] == Dir {
        SubtreeShrinks(fs1, q, n);
        SurvivorsNotDeleted(fs, fs1, kept, failing, root, q + [n]);
      }
      assert !Cleared(fs1, failing, q, n);
    }
  }

  /** A child the walk kept, of a directory that survives the run, survives it too. */
  lemma KeptChildSurvives(fs: Fs, fs1: Fs, kept: Fs, failing: set<Path>, root: Path, q: Path, n: string)
    requires WellFormed(fs) && WellFormed(fs1)
    requires kept == Pruned(fs, DirsWithFate(fs, failing, root, Deleted))
    requires forall k | k in fs1 :: k in kept && fs1[k] == kept[k]
    requires forall c | c in kept && |c| > |root| && root <= c && c[..|c| - 1] in fs1 :: c in fs1
    requires q in fs1 && q in fs && root <= q && n in Children(fs, q) && !Gone(fs, failing, q, n)
    ensures q + [n] in fs1 && fs1[q + [n]] == fs[q + [n]]
  {
    var gone := DirsWithFate(fs, failing, root, Deleted);
    var c := q + [n];
    assert q in kept;
    forall d | d in gone ensures !(d <= c) {
      assert !(d <= q);
      if d <= c && d != c {
        PrefixOfChild(d, q, n);
      }
    }
    assert c in kept;
    assert c[..|c| - 1] == q;
  }

  /** After a run, no directory left at or below the root is one that a walk would delete. */
  lemma RunLeavesNothingToDelete(fs: Fs, failing: set<Path>, root: Path, walk: seq<Path>)
    requires WellFormed(fs) && ContentsFirst(fs, root, walk)
    ensures WellFormed(Run(fs, failing, root, walk).fs)
    ensures DirsWithFate(Run(fs, failing, root, walk).fs, failing, root, Deleted) == {}
  {
    var s0 := State(fs, 0, 0, []);
    var t := WalkFold(s0, failing, walk);
    WalkFates(fs, failing, root, walk, s0);
    RunConsistent(fs, failing, root, walk);
    var fs1 := Climb(t, failing, Parent(root)).fs;
    ClimbShrinks(t, failing, Parent(root));
    forall c | c in t.fs && |c| > |root| && root <= c && c[..|c| - 1] in fs1 ensures c in fs1 {
      ClimbFrame(t, failing, Parent(root), c[..|c| - 1], c);
    }
    forall q | q in fs1 && fs1[q] == Dir && root <= q ensures FateOf(fs1, failing, q) != Deleted {
      SurvivorsNotDeleted(fs, fs1, t.fs, failing, root, q);
    }
  }

  /**
   * Running the pruner a second time on what the first run left deletes nothing and
   * changes nothing, whatever the order of either walk, provided the same removals fail
   * in both runs.
   */
  lemma RunTwiceDeletesNothing(fs: Fs, failing: set<Path>, root: Path, w1: seq<Path>, w2: seq<Path>)
    requires WellFormed(fs) && ContentsFirst(fs, root, w1)
    requires ContentsFirst(Run(fs, failing, root, w1).fs, root, w2)
    ensures var fs1 := Run(fs, failing, root, w1).fs;
            && Run(fs1, failing, root, w2).fs == fs1
            && Run(fs1, failing, root, w2).deleted == 0
            && Run(fs1, failing, root, w2).log == []
  {
    var t := WalkFold(State(fs, 0, 0, []), failing, w1);
    var fs1 := Run(fs, failing, root, w1).fs;
    RunLeavesNothingToDelete(fs, failing, root, w1);
    var u := WalkFold(State(fs1, 0, 0, []), failing, w2);
    WalkOverNothingToDelete(fs1, failing, root, w2);
    ClimbAgain(t, u, failing, Parent(root));
  }

  /** A walk over a tree where nothing is to be deleted deletes nothing and logs nothing. */
  lemma WalkOverNothingToDelete(fs: Fs, failing: set<Path>, root: Path, walk: seq<Path>)
    requires WellFormed(fs) && ContentsFirst(fs, root, walk)
    requires DirsWithFate(fs, failing, root, Deleted) == {}
    ensures var u := WalkFold(State(fs, 0, 0, []), failing, walk);
            u.fs == fs && u.deleted == 0 && u.log == []
  {
    var u0 := State(fs, 0, 0, []);
    WalkFates(fs, failing, root, walk, u0);
    WalkFoldConsistent(u0, failing, walk);
    PrunedNothing(fs);
  }


  /** A directory outside `.git` whose direct entries are all junk is deleted by the walk, whatever those entries hold. */
  lemma JunkOnlyDirectoryDeleted(fs: Fs, failing: set<Path>, q: Path)
    requires WellFormed(fs) && q in fs && fs[q] == Dir && !IsInGitRepository(q) && q !in failing
    requires forall n | n in Children(fs, q) :: Junk(n)
    ensures FateOf(fs, failing, q) == Deleted
  {
    FateOfUnfold(fs, failing, q);
  }

  /** When no removal fails, no directory has the fate `RemoveFailed`. */
  lemma NoFailuresNoRemoveFailed(fs: Fs, root: Path)
    requires WellFormed(fs)
    ensures DirsWithFate(fs, {}, root, RemoveFailed) == {}
  {
    forall q | q in fs && fs[q] == Dir ensures FateOf(fs, {}, q) != RemoveFailed {
      FateOfUnfold(fs, {}, q);
    }
  }

  /** An entry that is not junk and that the walk keeps keeps its directory too. */
  lemma KeptEntryKeepsDirectory(fs: Fs, failing: set<Path>, q: Path, n: string)
    requires WellFormed(fs) && q in fs && fs[q] == Dir && q + [n] in fs && !Junk(n)
    requires fs[q + [n]] == File || FateOf(fs, failing, q + [n]) != Deleted
    ensures FateOf(fs, failing, q) == Rejected
  {
    FateOfUnfold(fs, failing, q);
    assert n in Children(fs, q) && !Cleared(fs, failing, q, n);
  }

  /** No logged deletion is of a path with a `.git` component. */
  ghost predicate LogOutsideGit(s: State) {
    forall i | 0 <= i < |s.log| :: !IsInGitRepository(s.log[i])
  }

  lemma {:induction false} WalkFoldOutsideGit(s: State, failing: set<Path>, walk: seq<Path>)
    requires LogOutsideGit(s)
    ensures LogOutsideGit(WalkFold(s, failing, walk))
    decreases |walk|
  {
    if walk != [] {
      WalkFoldOutsideGit(s, failing, walk[..|walk| - 1]);
    }
  }

  lemma {:induction false} ClimbOutsideGit(s: State, failing: set<Path>, current: Option<Path>)
    requires LogOutsideGit(s)
    ensures LogOutsideGit(Climb(s, failing, current))
    decreases if current.Some? then |current.value| + 1 else 0
  {
    if current.Some? && Approved(s.fs, current.value) {
      ClimbOutsideGit(Remove(s, failing, current.value), failing, Parent(current.value));
    }
  }

  /** A run never removes, by its own judgement, a directory that is or lies inside `.git`. */
  lemma RunLogsNoGitPath(fs: Fs, failing: set<Path>, root: Path, walk: seq<Path>)
    ensures LogOutsideGit(Run(fs, failing, root, walk))
  {
    var s0 := State(fs, 0, 0, []);
    WalkFoldOutsideGit(s0, failing, walk);
    ClimbOutsideGit(WalkFold(s0, failing, walk), failing, Parent(root));
  }
}
