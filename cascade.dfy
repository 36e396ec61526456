/**
 * The ancestor climb at work.  A run started at an empty directory deletes it in the
 * walk, and the climb then deletes the parent that this left empty.  A removal that
 * fails in the climb is counted as an error and the climb goes on with the next
 * ancestor, which may still be deleted.
 */
module EmptydirCascade {
  import opened Wrappers
  import opened FileTree
  import opened Deletability
  import opened Emptydir
  import opened EmptydirProofs
  import opened EmptydirScenarios

  /** The empty directory `/tmp/t/a`, the only entry of the temporary directory. */
  const Leaf: Path := ["tmp", "t", "a"]

  function CascadeTree(): Fs {
    EmptyTree()[Leaf := Dir]
  }

  lemma CascadeTreeWellFormed()
    ensures WellFormed(CascadeTree())
  {
    var fs := CascadeTree();
    forall p | p in fs && |p| > 0 ensures p[..|p| - 1] in fs && fs[p[..|p| - 1]] == Dir {
      if |p| == 1 {
        assert p[..0] == [];
      } else if |p| == 2 {
        assert p[..1] == ["tmp"];
      } else {
        assert p[..2] == Root;
      }
    }
  }

  lemma LeafIsEmpty()
    ensures Leaf in CascadeTree() && CascadeTree()[Leaf] == Dir
    ensures Children(CascadeTree(), Leaf) == {}
  {
    forall n ensures Leaf + [n] !in CascadeTree() {
      assert |Leaf + [n]| == 4;
    }
  }

  lemma LeafRemoved()
    ensures RemoveTree(CascadeTree(), Leaf) == EmptyTree()
  {
    forall k | k in EmptyTree() ensures !(Leaf <= k) {
      assert |k| <= 2;
    }
    var r := RemoveTree(CascadeTree(), Leaf);
    assert forall k :: k in r <==> k in EmptyTree();
  }

  lemma LeafFacts()
    ensures !IsInGitRepository(Leaf)
    ensures Parent(Leaf) == Some(Root)
    ensures Leaf != Root
  {
    assert Leaf[..2] == Root;
  }

  /** The walk from `a` deletes `a`, and nothing else. */
  lemma CascadeWalk(failing: set<Path>, walk: seq<Path>)
    requires Leaf !in failing && ContentsFirst(CascadeTree(), Leaf, walk)
    ensures WalkFold(State(CascadeTree(), 0, 0, []), failing, walk) == State(EmptyTree(), 1, 0, [Leaf])
  {
    CascadeTreeWellFormed();
    LeafIsEmpty();
    LeafFacts();
    LeafRemoved();
    EmptyDirectoryWalk(CascadeTree(), failing, Leaf, walk);
  }

  /** `/tmp` holds the unrelated file `other`, so a climb reaching `/tmp` stops there and changes nothing. */
  lemma ClimbStopsAtTmp(s: State, failing: set<Path>)
    requires ["tmp"] in s.fs && s.fs[["tmp"]] == Dir && ["tmp", "other"] in s.fs
    ensures Climb(s, failing, Some(["tmp"])) == s
  {
    OtherIsNotJunk();
    assert ["tmp"] + ["other"] == ["tmp", "other"];
    ClimbStopsAtKeptEntry(s, failing, ["tmp"], "other");
  }

  /** Once `a` is gone the temporary directory is empty, and so approved. */
  lemma EmptiedRootApproved()
    ensures Approved(EmptyTree(), Root)
    ensures Parent(Root) == Some(["tmp"])
  {
    EmptyTreeFacts();
    RootOutsideGit();
    ApprovedIff(EmptyTree(), Root);
    RootInTmp();
  }

  lemma CascadeClimb(failing: set<Path>)
    requires Root !in failing
    ensures Climb(State(EmptyTree(), 1, 0, [Leaf]), failing, Some(Root)) == State(Outside(), 2, 0, [Leaf, Root])
  {
    EmptiedRootApproved();
    EmptyTreeFacts();
    var s1 := State(EmptyTree(), 1, 0, [Leaf]);
    var s2 := State(Outside(), 2, 0, [Leaf, Root]);
    assert Remove(s1, failing, Root) == s2;
    ClimbStopsAtTmp(s2, failing);
  }

  lemma CascadeClimbFails(failing: set<Path>)
    requires Root in failing
    ensures Climb(State(EmptyTree(), 1, 0, [Leaf]), failing, Some(Root)) == State(EmptyTree(), 1, 1, [Leaf])
  {
    EmptiedRootApproved();
    EmptyTreeFacts();
    var s1 := State(EmptyTree(), 1, 0, [Leaf]);
    var s2 := State(EmptyTree(), 1, 1, [Leaf]);
    assert Remove(s1, failing, Root) == s2;
    ClimbStopsAtTmp(s2, failing);
  }

  /**
   * A run from `a` deletes `a` in the walk and then, in the climb, the temporary
   * directory that this left empty: two deletions, logged child first.
   */
  lemma ParentDeletedByClimb(walk: seq<Path>)
    requires ContentsFirst(CascadeTree(), Leaf, walk)
    ensures Run(CascadeTree(), {}, Leaf, walk) == State(Outside(), 2, 0, [Leaf, Root])
  {
    CascadeWalk({}, walk);
    LeafFacts();
    CascadeClimb({});
  }

  /** When removing the temporary directory fails, the run counts one deletion and one error. */
  lemma ClimbFailureCounted(walk: seq<Path>)
    requires ContentsFirst(CascadeTree(), Leaf, walk)
    ensures Run(CascadeTree(), {Root}, Leaf, walk) == State(EmptyTree(), 1, 1, [Leaf])
  {
    LeafFacts();
    CascadeWalk({Root}, walk);
    CascadeClimbFails({Root});
  }

  /** `/tmp/.venv/.venv/a`, empty, in `/tmp/.venv/.venv`, in `/tmp/.venv`. */
  const Nest: Path := ["tmp", ".venv"]
  const NestInner: Path := ["tmp", ".venv", ".venv"]
  const NestLeaf: Path := ["tmp", ".venv", ".venv", "a"]

  /** The nested tree once `a` is gone. */
  function ChainAfterLeaf(): Fs {
    Outside()[Nest := Dir][NestInner := Dir]
  }

  function ChainTree(): Fs {
    ChainAfterLeaf()[NestLeaf := Dir]
  }

  lemma ChainTreeWellFormed()
    ensures WellFormed(ChainTree())
  {
    var fs := ChainTree();
    forall p | p in fs && |p| > 0 ensures p[..|p| - 1] in fs && fs[p[..|p| - 1]] == Dir {
      if |p| == 1 {
        assert p[..0] == [];
      } else if |p| == 2 {
        assert p[..1] == ["tmp"];
      } else if |p| == 3 {
        assert p[..2] == Nest;
      } else {
        assert p[..3] == NestInner;
      }
    }
  }

  lemma NestLeafIsEmpty()
    ensures NestLeaf in ChainTree() && ChainTree()[NestLeaf] == Dir
    ensures Children(ChainTree(), NestLeaf) == {}
  {
    forall n ensures NestLeaf + [n] !in ChainTree() {
      assert |NestLeaf + [n]| == 5;
    }
  }

  lemma NestLeafRemoved()
    ensures RemoveTree(ChainTree(), NestLeaf) == ChainAfterLeaf()
  {
    forall k | k in ChainAfterLeaf() ensures !(NestLeaf <= k) {
      assert |k| <= 3;
    }
    var r := RemoveTree(ChainTree(), NestLeaf);
    assert forall k :: k in r <==> k in ChainAfterLeaf();
  }

  /** No component of the nested paths is `.git`, and each one's parent is the next one up. */
  lemma NestFacts()
    ensures !IsInGitRepository(NestLeaf) && !IsInGitRepository(NestInner) && !IsInGitRepository(Nest)
    ensures Parent(NestLeaf) == Some(NestInner) && Parent(NestInner) == Some(Nest) && Parent(Nest) == Some(["tmp"])
    ensures NestLeaf != NestInner && Nest != NestInner
  {
    assert NestLeaf[..3] == NestInner;
    assert NestInner[..2] == Nest;
    assert Nest[..1] == ["tmp"];
  }

  lemma InnerApproved()
    ensures Approved(ChainAfterLeaf(), NestInner)
  {
    forall n ensures NestInner + [n] !in ChainAfterLeaf() {
      assert |NestInner + [n]| == 4;
    }
    assert Children(ChainAfterLeaf(), NestInner) == {};
    NestFacts();
    ApprovedIff(ChainAfterLeaf(), NestInner);
  }

  /** `/tmp/.venv` holds only `.venv`, an allow-listed name, so it is approved even while that entry is still there. */
  lemma NestApproved()
    ensures Approved(ChainAfterLeaf(), Nest)
  {
    var fs := ChainAfterLeaf();
    forall n | n in Children(fs, Nest) ensures Junk(n) {
      assert Nest + [n] in fs && |Nest + [n]| == 3;
      assert Nest + [n] == NestInner;
      assert n == NestInner[2];
      LowercaseNameIsJunk(n);
    }
    NestFacts();
    ApprovedIff(fs, Nest);
  }

  lemma NestRemoved()
    ensures RemoveTree(ChainAfterLeaf(), Nest) == Outside()
  {
    forall k | k in Outside() ensures !(Nest <= k) {
      OutsideNotBelow(k, Nest);
    }
    var r := RemoveTree(ChainAfterLeaf(), Nest);
    assert forall k :: k in r <==> k in Outside();
  }

  lemma ChainWalk(walk: seq<Path>)
    requires ContentsFirst(ChainTree(), NestLeaf, walk)
    ensures WalkFold(State(ChainTree(), 0, 0, []), {NestInner}, walk) == State(ChainAfterLeaf(), 1, 0, [NestLeaf])
  {
    ChainTreeWellFormed();
    NestLeafIsEmpty();
    NestFacts();
    NestLeafRemoved();
    EmptyDirectoryWalk(ChainTree(), {NestInner}, NestLeaf, walk);
  }

  /** The failed removal of `/tmp/.venv/.venv` is counted, and the climb goes on at `/tmp/.venv`. */
  lemma ChainClimbPastFailure()
    ensures Climb(State(ChainAfterLeaf(), 1, 0, [NestLeaf]), {NestInner}, Some(NestInner))
         == Climb(State(ChainAfterLeaf(), 1, 1, [NestLeaf]), {NestInner}, Some(Nest))
  {
    InnerApproved();
    NestFacts();
    var s1 := State(ChainAfterLeaf(), 1, 0, [NestLeaf]);
    assert Remove(s1, {NestInner}, NestInner) == State(ChainAfterLeaf(), 1, 1, [NestLeaf]);
  }

  /** `/tmp/.venv` is then removed, with the directory whose removal failed inside it. */
  lemma ChainClimbDeletesNest()
    ensures Climb(State(ChainAfterLeaf(), 1, 1, [NestLeaf]), {NestInner}, Some(Nest))
         == State(Outside(), 2, 1, [NestLeaf, Nest])
  {
    NestApproved();
    NestFacts();
    NestRemoved();
    var s2 := State(ChainAfterLeaf(), 1, 1, [NestLeaf]);
    var s3 := State(Outside(), 2, 1, [NestLeaf, Nest]);
    assert Remove(s2, {NestInner}, Nest) == s3;
    ClimbStopsAtTmp(s3, {NestInner});
  }

  /**
   * A failure in the climb does not end it: removing `/tmp/.venv/.venv` fails and is
   * counted as an error, and the climb still deletes `/tmp/.venv` above it before
   * stopping at `/tmp`.
   */
  lemma ClimbGoesOnAfterFailure(walk: seq<Path>)
    requires ContentsFirst(ChainTree(), NestLeaf, walk)
    ensures Run(ChainTree(), {NestInner}, NestLeaf, walk) == State(Outside(), 2, 1, [NestLeaf, Nest])
  {
    ChainWalk(walk);
    NestFacts();
    ChainClimbPastFailure();
    ChainClimbDeletesNest();
  }
}
