/**
 * The situations of the pruner's unit tests, on a temporary directory `/tmp/t` whose
 * parent `/tmp` also holds an unrelated file, so that the climb stops there.  Each
 * lemma holds for every contents-first walk order.
 */
module EmptydirScenarios {
  import opened Wrappers
  import opened FileTree
  import opened Deletability
  import opened Emptydir
  import opened EmptydirProofs

  const Root: Path := ["tmp", "t"]

  /** `/`, `/tmp` and the unrelated `/tmp/other`. */
  function Outside(): Fs {
    map[[] := Dir, ["tmp"] := Dir, ["tmp", "other"] := File]
  }

  /** The climb stops at a directory holding an entry that is not junk. */
  lemma ClimbStopsAtKeptEntry(s: State, failing: set<Path>, a: Path, n: string)
    requires a in s.fs && s.fs[a] == Dir && a + [n] in s.fs && !Junk(n)
    ensures Climb(s, failing, Some(a)) == s
  {
    ApprovedIff(s.fs, a);
    assert n in Children(s.fs, a);
  }

  /** A run on a root that does not exist, inside a directory that does not exist either, changes nothing. */
  lemma NonexistentRootUntouched(fs: Fs, failing: set<Path>, root: Path, walk: seq<Path>)
    requires WellFormed(fs) && ContentsFirst(fs, root, walk)
    requires root !in fs && (root == [] || root[..|root| - 1] !in fs)
    ensures Run(fs, failing, root, walk) == State(fs, 0, 0, [])
  {
    if walk != [] {
      PrefixClosed(fs, walk[0], root);
    }
  }

  /** The tree of the test with an empty temporary directory. */
  function EmptyTree(): Fs {
    Outside()[Root := Dir]
  }

  lemma EmptyTreeWellFormed()
    ensures WellFormed(EmptyTree())
  {
    var fs := EmptyTree();
    forall p | p in fs && |p| > 0 ensures p[..|p| - 1] in fs && fs[p[..|p| - 1]] == Dir {
      if |p| == 1 {
        assert p[..0] == [];
      } else {
        assert p[..1] == ["tmp"];
      }
    }
  }

  /** No directory appears twice in a contents-first walk. */
  lemma WalkEntriesDistinct(fs: Fs, root: Path, walk: seq<Path>)
    requires ContentsFirst(fs, root, walk)
    ensures forall i, j | 0 <= i < j < |walk| :: walk[i] != walk[j]
  {
    forall i, j | 0 <= i < j < |walk| ensures walk[i] != walk[j] {
      assert !(walk[i] <= walk[j]);
    }
  }

  /** A directory strictly below `root` passes through one of its direct entries, which is a directory. */
  lemma DescendantHasChild(fs: Fs, root: Path, q: Path)
    requires WellFormed(fs) && q in fs && fs[q] == Dir && root <= q && q != root
    ensures q[|root|] in Children(fs, root) && fs[root + [q[|root|]]] == Dir
  {
    var c := q[..|root| + 1];
    assert c == root + [q[|root|]];
    PrefixClosed(fs, q, c);
  }

  /** The only contents-first walk of a directory without subdirectories is the directory alone. */
  lemma WalkOfLeafDirectory(fs: Fs, root: Path, walk: seq<Path>)
    requires WellFormed(fs) && root in fs && fs[root] == Dir
    requires forall n | n in Children(fs, root) :: fs[root + [n]] == File
    requires ContentsFirst(fs, root, walk)
    ensures walk == [root]
  {
    assert root in walk;
    WalkEntriesDistinct(fs, root, walk);
    forall i | 0 <= i < |walk| ensures walk[i] == root {
      if walk[i] != root {
        DescendantHasChild(fs, root, walk[i]);
      }
    }
    assert walk[0] == walk[|walk| - 1];
  }

  lemma EmptyTreeFacts()
    ensures WellFormed(EmptyTree())
    ensures Children(EmptyTree(), Root) == {}
    ensures RemoveTree(EmptyTree(), Root) == Outside()
    ensures Root in EmptyTree() && EmptyTree()[Root] == Dir && ["tmp", "other"] in EmptyTree()
  {
    EmptyTreeWellFormed();
    EmptyTreeRootEmpty();
    EmptyTreeRemoved();
  }

  lemma EmptyTreeRootEmpty()
    ensures Children(EmptyTree(), Root) == {}
  {
    forall n ensures Root + [n] !in EmptyTree() {
      assert |Root + [n]| == 3;
    }
  }

  lemma EmptyTreeRemoved()
    ensures RemoveTree(EmptyTree(), Root) == Outside()
  {
    forall k | k in Outside() ensures !(Root <= k) {
      OutsideNotBelow(k, Root);
    }
    var r := RemoveTree(EmptyTree(), Root);
    assert forall k :: k in r <==> k in Outside();
  }

  /**
   * An empty directory outside `.git` whose removal succeeds is deleted, and the climb
   * stops at its parent because the parent holds another entry that is not junk.
   */
  lemma EmptyDirectoryRun(fs: Fs, failing: set<Path>, root: Path, walk: seq<Path>, other: string)
    requires WellFormed(fs) && root in fs && fs[root] == Dir && Children(fs, root) == {}
    requires !IsInGitRepository(root) && root !in failing
    requires |root| > 0 && other != root[|root| - 1] && !Junk(other) && root[..|root| - 1] + [other] in fs
    requires ContentsFirst(fs, root, walk)
    ensures Run(fs, failing, root, walk) == State(RemoveTree(fs, root), 1, 0, [root])
  {
    EmptyDirectoryWalk(fs, failing, root, walk);
    var a := root[..|root| - 1];
    assert !(root <= a + [other]);
    ClimbStopsAtKeptEntry(State(RemoveTree(fs, root), 1, 0, [root]), failing, a, other);
  }

  /** The walk over an empty directory outside `.git` deletes it. */
  lemma EmptyDirectoryWalk(fs: Fs, failing: set<Path>, root: Path, walk: seq<Path>)
    requires WellFormed(fs) && root in fs && fs[root] == Dir && Children(fs, root) == {}
    requires !IsInGitRepository(root) && root !in failing
    requires ContentsFirst(fs, root, walk)
    ensures WalkFold(State(fs, 0, 0, []), failing, walk) == State(RemoveTree(fs, root), 1, 0, [root])
  {
    WalkOfLeafDirectory(fs, root, walk);
    ApprovedIff(fs, root);
    var s0 := State(fs, 0, 0, []);
    assert [root][..0] == [];
    assert WalkFold(s0, failing, [root]) == Visit(s0, failing, root);
    assert Visit(s0, failing, root) == Remove(s0, failing, root);
  }

  lemma OtherIsNotJunk()
    ensures !Junk("other")
  {
    assert |AsciiLower("other")| == 5;
    assert AsciiLower("other")[0] == 'o';
  }

  /** The temporary directory `t` sits in `/tmp`, beside `other`. */
  lemma RootInTmp()
    ensures |Root| > 0 && Root[..|Root| - 1] == ["tmp"] && Root[|Root| - 1] == "t"
    ensures ["tmp"] + ["other"] == ["tmp", "other"] && "other" != Root[|Root| - 1]
  {
  }

  lemma RootOutsideGit()
    ensures !IsInGitRepository(Root)
  {
  }

  /** The empty temporary directory is deleted, and nothing else. */
  lemma EmptyRootDeleted(walk: seq<Path>)
    requires ContentsFirst(EmptyTree(), Root, walk)
    ensures Run(EmptyTree(), {}, Root, walk) == State(Outside(), 1, 0, [Root])
  {
    EmptyTreeFacts();
    OtherIsNotJunk();
    RootOutsideGit();
    RootInTmp();
    EmptyDirectoryRun(EmptyTree(), {}, Root, walk, "other");
  }

  /**
   * A directory holding an entry that is not junk, and no subdirectory, is kept, and
   * so is its parent, which holds it: the run changes nothing.
   */
  lemma DirectoryWithFileKept(fs: Fs, failing: set<Path>, root: Path, walk: seq<Path>, n: string)
    requires WellFormed(fs) && root in fs && fs[root] == Dir && root + [n] in fs && !Junk(n)
    requires forall c | c in Children(fs, root) :: fs[root + [c]] == File
    requires |root| > 0 && !Junk(root[|root| - 1])
    requires ContentsFirst(fs, root, walk)
    ensures Run(fs, failing, root, walk) == State(fs, 0, 0, [])
  {
    LeafDirectoryWalkKeeps(fs, failing, root, walk, n);
    var a := root[..|root| - 1];
    assert Parent(root) == Some(a);
    assert a + [root[|root| - 1]] == root;
    ClimbStopsAtKeptEntry(State(fs, 0, 0, []), failing, a, root[|root| - 1]);
  }

  lemma LeafDirectoryWalkKeeps(fs: Fs, failing: set<Path>, root: Path, walk: seq<Path>, n: string)
    requires WellFormed(fs) && root in fs && fs[root] == Dir && root + [n] in fs && !Junk(n)
    requires forall c | c in Children(fs, root) :: fs[root + [c]] == File
    requires ContentsFirst(fs, root, walk)
    ensures WalkFold(State(fs, 0, 0, []), failing, walk) == State(fs, 0, 0, [])
  {
    WalkOfLeafDirectory(fs, root, walk);
    ApprovedIff(fs, root);
    assert n in Children(fs, root);
    var s0 := State(fs, 0, 0, []);
    assert [root][..0] == [];
    assert WalkFold(s0, failing, [root]) == Visit(s0, failing, root);
  }

  lemma NameTIsNotJunk()
    ensures !Junk("t")
  {
    assert |AsciiLower("t")| == 1;
  }

  lemma RootNameIsNotJunk()
    ensures |Root| > 0 && !Junk(Root[|Root| - 1])
  {
    NameTIsNotJunk();
    assert Root[|Root| - 1] == "t";
  }

  /** A name whose length no allow-listed name has is not junk. */
  lemma UnlistedLengthNotJunk(n: string)
    requires |n| !in {5, 9, 11, 13, 18}
    ensures !Junk(n)
  {
    assert forall d | d in DeletableNames :: |d| in {5, 9, 11, 13, 18};
  }

  lemma GreetingIsNotJunk()
    ensures !Junk("greeting.txt")
  {
    UnlistedLengthNotJunk("greeting.txt");
  }

  lemma DsStoreIsJunk()
    ensures Junk(".DS_Store")
  {
    DsStoreLowercase(".DS_Store");
  }

  lemma DsStoreLowercase(n: string)
    requires n == ".DS_Store"
    ensures AsciiLower(n) == ".ds_store"
  {
    var r := AsciiLower(n);
    assert |r| == 9;
    assert r[0] == '.' && r[1] == 'd' && r[2] == 's' && r[3] == '_' && r[4] == 's';
    assert r[5] == 't' && r[6] == 'o' && r[7] == 'r' && r[8] == 'e';
    assert r == ".ds_store";
  }

  /** The temporary directory with a text file, and with a `.DS_Store` beside it. */
  function MixedTree(): Fs {
    Outside()[Root := Dir][["tmp", "t", "greeting.txt"] := File][["tmp", "t", ".DS_Store"] := File]
  }

  lemma MixedTreeFacts()
    ensures WellFormed(MixedTree())
    ensures forall c | c in Children(MixedTree(), Root) :: MixedTree()[Root + [c]] == File
    ensures Root in MixedTree() && MixedTree()[Root] == Dir && Root + ["greeting.txt"] in MixedTree()
  {
    MixedTreeWellFormed();
    MixedTreeEntriesAreFiles();
    assert Root + ["greeting.txt"] == ["tmp", "t", "greeting.txt"];
  }

  lemma MixedTreeWellFormed()
    ensures WellFormed(MixedTree())
  {
    var fs := MixedTree();
    forall p | p in fs && |p| > 0 ensures p[..|p| - 1] in fs && fs[p[..|p| - 1]] == Dir {
      if |p| == 1 {
        assert p[..0] == [];
      } else if |p| == 2 {
        assert p[..1] == ["tmp"];
      } else {
        assert p[..2] == Root;
      }
    }
  }

  lemma MixedTreeEntriesAreFiles()
    ensures forall c | c in Children(MixedTree(), Root) :: MixedTree()[Root + [c]] == File
  {
    var fs := MixedTree();
    forall c | c in Children(fs, Root) ensures fs[Root + [c]] == File {
      assert Root + [c] in fs;
      assert |Root + [c]| == 3;
    }
  }

  /** A text file keeps the temporary directory, whether or not a `.DS_Store` lies beside it. */
  lemma MixedEntriesKept(walk: seq<Path>)
    requires ContentsFirst(MixedTree(), Root, walk)
    ensures Run(MixedTree(), {}, Root, walk) == State(MixedTree(), 0, 0, [])
  {
    MixedTreeFacts();
    GreetingIsNotJunk();
    RootNameIsNotJunk();
    DirectoryWithFileKept(MixedTree(), {}, Root, walk, "greeting.txt");
  }

  /** A lowercase name whose first letter starts no allow-listed name is not junk. */
  lemma UnlistedInitialNotJunk(n: string)
    requires |n| > 0 && 'a' <= n[0] <= 'z' && n[0] !in {'d', 't'}
    ensures !Junk(n)
  {
    assert AsciiLower(n)[0] == n[0];
    assert forall d | d in DeletableNames :: d[0] in {'.', '_', 'd', 't'};
  }

  lemma LowercaseNameIsJunk(n: string)
    requires n in DeletableNames
    ensures Junk(n)
  {
    DeletableNamesAreLowercase();
  }

  const Venv: Path := ["tmp", "t", ".venv"]
  const VenvBin: Path := ["tmp", "t", ".venv", "bin"]
  const Checkpoints: Path := ["tmp", "t", ".ipynb_checkpoints"]
  const Pycache: Path := ["tmp", "t", "__pycache__"]

  /**
   * The temporary directory holding only allow-listed entries, some of them
   * directories with files of their own.
   */
  function SafeOnlyTree(): Fs {
    Outside()
      [Root := Dir]
      [Venv := Dir]
      [VenvBin := Dir]
      [["tmp", "t", ".venv", "bin", "mypython.py"] := File]
      [Checkpoints := Dir]
      [["tmp", "t", ".ipynb_checkpoints", "analysis-checkpoint.ipynb"] := File]
      [Pycache := Dir]
      [["tmp", "t", "__pycache__", "myfile.pyc"] := File]
      [["tmp", "t", ".DS_Store"] := File]
  }

  /** What the proofs below need to know about the safe-only tree. */
  ghost predicate SafeOnlyShape(fs: Fs) {
    && WellFormed(fs)
    && Root in fs && fs[Root] == Dir
    && VenvBin + ["mypython.py"] in fs && fs[VenvBin + ["mypython.py"]] == File
    && Venv + ["bin"] == VenvBin && fs[VenvBin] == Dir
    && Checkpoints + ["analysis-checkpoint.ipynb"] in fs && fs[Checkpoints + ["analysis-checkpoint.ipynb"]] == File
    && Pycache + ["myfile.pyc"] in fs && fs[Pycache + ["myfile.pyc"]] == File
    && fs[Venv] == Dir && fs[Checkpoints] == Dir && fs[Pycache] == Dir
    && (forall n | n in Children(fs, Root) :: n in {".venv", ".ipynb_checkpoints", "__pycache__", ".DS_Store"})
    && (forall q | q in fs && fs[q] == Dir && Root <= q ::
          q == Root || q == Venv || q == VenvBin || q == Checkpoints || q == Pycache)
    && ["tmp"] in fs && fs[["tmp"]] == Dir && ["tmp", "other"] in fs
  }

  lemma SafeOnlyTreeWellFormed()
    ensures WellFormed(SafeOnlyTree())
  {
    var fs := SafeOnlyTree();
    forall p | p in fs && |p| > 0 ensures p[..|p| - 1] in fs && fs[p[..|p| - 1]] == Dir {
      if |p| == 1 {
        assert p[..0] == [];
      } else if |p| == 2 {
        assert p[..1] == ["tmp"];
      } else if |p| == 3 {
        assert p[..2] == Root;
      } else if |p| == 4 {
        assert p[..3] == Venv || p[..3] == Checkpoints || p[..3] == Pycache;
      } else {
        assert p[..4] == VenvBin;
      }
    }
  }

  lemma SafeOnlyTreeRootEntries()
    ensures forall n | n in Children(SafeOnlyTree(), Root) ::
              n in {".venv", ".ipynb_checkpoints", "__pycache__", ".DS_Store"}
  {
    forall n | n in Children(SafeOnlyTree(), Root)
      ensures n in {".venv", ".ipynb_checkpoints", "__pycache__", ".DS_Store"}
    {
      assert Root + [n] in SafeOnlyTree();
    }
  }

  lemma SafeOnlyTreeDirectories()
    ensures forall q | q in SafeOnlyTree() && SafeOnlyTree()[q] == Dir && Root <= q ::
              q == Root || q == Venv || q == VenvBin || q == Checkpoints || q == Pycache
  {
  }

  lemma SafeOnlyTreeFiles()
    ensures var fs := SafeOnlyTree();
            && VenvBin + ["mypython.py"] in fs && fs[VenvBin + ["mypython.py"]] == File
            && Checkpoints + ["analysis-checkpoint.ipynb"] in fs && fs[Checkpoints + ["analysis-checkpoint.ipynb"]] == File
            && Pycache + ["myfile.pyc"] in fs && fs[Pycache + ["myfile.pyc"]] == File
  {
    assert VenvBin + ["mypython.py"] == ["tmp", "t", ".venv", "bin", "mypython.py"];
    assert Checkpoints + ["analysis-checkpoint.ipynb"] == ["tmp", "t", ".ipynb_checkpoints", "analysis-checkpoint.ipynb"];
    assert Pycache + ["myfile.pyc"] == ["tmp", "t", "__pycache__", "myfile.pyc"];
  }

  lemma SafeOnlyTreeKinds()
    ensures var fs := SafeOnlyTree();
            && Root in fs && fs[Root] == Dir
            && fs[Venv] == Dir && fs[VenvBin] == Dir && fs[Checkpoints] == Dir && fs[Pycache] == Dir
            && ["tmp"] in fs && fs[["tmp"]] == Dir && ["tmp", "other"] in fs
            && Venv + ["bin"] == VenvBin
  {
  }

  lemma SafeOnlyTreeShape()
    ensures SafeOnlyShape(SafeOnlyTree())
  {
    SafeOnlyTreeWellFormed();
    SafeOnlyTreeRootEntries();
    SafeOnlyTreeDirectories();
    SafeOnlyTreeFiles();
    SafeOnlyTreeKinds();
  }

  lemma SafeNamesAreJunk()
    ensures forall n | n in {".venv", ".ipynb_checkpoints", "__pycache__", ".DS_Store"} :: Junk(n)
  {
    LowercaseNameIsJunk(".venv");
    LowercaseNameIsJunk(".ipynb_checkpoints");
    LowercaseNameIsJunk("__pycache__");
    DsStoreIsJunk();
  }

  /** Inside the safe-only tree, each allow-listed directory holds something that is not junk. */
  lemma SafeOnlyInnerDirectoriesKept(fs: Fs)
    requires SafeOnlyShape(fs)
    ensures FateOf(fs, {}, VenvBin) == Rejected && FateOf(fs, {}, Venv) == Rejected
    ensures FateOf(fs, {}, Checkpoints) == Rejected && FateOf(fs, {}, Pycache) == Rejected
  {
    UnlistedInitialNotJunk("mypython.py");
    UnlistedInitialNotJunk("bin");
    KeptEntryKeepsDirectory(fs, {}, VenvBin, "mypython.py");
    KeptEntryKeepsDirectory(fs, {}, Venv, "bin");
    SafeOnlyOtherInnerDirectoriesKept(fs);
  }

  lemma SafeOnlyOtherInnerDirectoriesKept(fs: Fs)
    requires SafeOnlyShape(fs)
    ensures FateOf(fs, {}, Checkpoints) == Rejected && FateOf(fs, {}, Pycache) == Rejected
  {
    CheckpointsKept(fs);
    PycacheKept(fs);
  }

  lemma CheckpointsKept(fs: Fs)
    requires SafeOnlyShape(fs)
    ensures FateOf(fs, {}, Checkpoints) == Rejected
  {
    NotebookIsNotJunk();
    KeptEntryKeepsDirectory(fs, {}, Checkpoints, "analysis-checkpoint.ipynb");
  }

  lemma PycacheKept(fs: Fs)
    requires SafeOnlyShape(fs)
    ensures FateOf(fs, {}, Pycache) == Rejected
  {
    BytecodeIsNotJunk();
    KeptEntryKeepsDirectory(fs, {}, Pycache, "myfile.pyc");
  }

  lemma NotebookIsNotJunk()
    ensures !Junk("analysis-checkpoint.ipynb")
  {
    UnlistedInitialNotJunk("analysis-checkpoint.ipynb");
  }

  lemma BytecodeIsNotJunk()
    ensures !Junk("myfile.pyc")
  {
    UnlistedInitialNotJunk("myfile.pyc");
  }

  lemma SafeOnlyRootFate(fs: Fs)
    requires SafeOnlyShape(fs)
    ensures FateOf(fs, {}, Root) == Deleted
  {
    SafeNamesAreJunk();
    RootOutsideGit();
    JunkOnlyDirectoryDeleted(fs, {}, Root);
  }

  lemma SafeOnlyOnlyRootDeleted(fs: Fs)
    requires SafeOnlyShape(fs)
    ensures forall q | q in DirsWithFate(fs, {}, Root, Deleted) :: q == Root
  {
    forall q | q in DirsWithFate(fs, {}, Root, Deleted) ensures q == Root {
      SafeOnlyDeletedIsRoot(fs, q);
    }
  }

  lemma SafeOnlyDeletedIsRoot(fs: Fs, q: Path)
    requires SafeOnlyShape(fs) && q in fs && fs[q] == Dir && Root <= q
    ensures FateOf(fs, {}, q) == Deleted ==> q == Root
  {
    assert q == Root || q == Venv || q == VenvBin || q == Checkpoints || q == Pycache;
    SafeOnlyInnerDirectoriesKept(fs);
  }

  lemma SafeOnlyRootAmongDeleted(fs: Fs)
    requires SafeOnlyShape(fs)
    ensures Root in DirsWithFate(fs, {}, Root, Deleted)
  {
    SafeOnlyRootFate(fs);
    assert Root <= Root;
  }

  /** The walk over a tree of that shape deletes the temporary directory only, and no removal fails. */
  lemma SafeOnlyFates(fs: Fs)
    requires SafeOnlyShape(fs)
    ensures DirsWithFate(fs, {}, Root, Deleted) == {Root}
    ensures DirsWithFate(fs, {}, Root, RemoveFailed) == {}
  {
    SafeOnlyOnlyRootDeleted(fs);
    SafeOnlyRootAmongDeleted(fs);
    NoFailuresNoRemoveFailed(fs, Root);
  }

  /** Pruning the temporary directory leaves `/tmp` and its unrelated file. */
  lemma OutsideSurvivesPruning(fs: Fs)
    requires ["tmp"] in fs && fs[["tmp"]] == Dir && ["tmp", "other"] in fs
    ensures ["tmp"] in Pruned(fs, {Root}) && Pruned(fs, {Root})[["tmp"]] == Dir
    ensures ["tmp", "other"] in Pruned(fs, {Root})
  {
    assert !(Root <= ["tmp", "other"]) by {
      assert Root[1] != "other";
    }
  }

  /** Pruning the subtree at `gone` leaves `after` when `after` is exactly what lies outside it. */
  lemma PrunedTo(fs: Fs, gone: Path, after: Fs)
    requires forall k | k in fs :: gone <= k || k in after
    requires forall k | k in after :: k in fs && fs[k] == after[k] && !(gone <= k)
    ensures Pruned(fs, {gone}) == after
  {
    var r := Pruned(fs, {gone});
    assert forall k :: k in r <==> k in after;
  }

  lemma OutsideNotBelow(k: Path, p: Path)
    requires k in Outside() && |p| >= 2 && p[1] != "other"
    ensures !(p <= k)
  {
  }

  lemma SafeOnlyTreeSplit()
    ensures forall k | k in SafeOnlyTree() :: Root <= k || k in Outside()
    ensures forall k | k in Outside() :: k in SafeOnlyTree() && SafeOnlyTree()[k] == Outside()[k]
  {
  }

  lemma SafeOnlyTreePruned()
    ensures Pruned(SafeOnlyTree(), {Root}) == Outside()
  {
    SafeOnlyTreeSplit();
    forall k | k in Outside() ensures !(Root <= k) {
      OutsideNotBelow(k, Root);
    }
    PrunedTo(SafeOnlyTree(), Root, Outside());
  }

  /**
   * A run whose walk deletes exactly the directories `gone` and fails no removal,
   * and whose climb meets, at the root's parent, an entry that is not junk.
   */
  lemma RunDeletesExactly(fs: Fs, root: Path, walk: seq<Path>, gone: set<Path>, other: string)
    requires WellFormed(fs) && ContentsFirst(fs, root, walk)
    requires DirsWithFate(fs, {}, root, Deleted) == gone && DirsWithFate(fs, {}, root, RemoveFailed) == {}
    requires |root| > 0 && !Junk(other)
    requires root[..|root| - 1] in Pruned(fs, gone) && Pruned(fs, gone)[root[..|root| - 1]] == Dir
    requires root[..|root| - 1] + [other] in Pruned(fs, gone)
    ensures var r := Run(fs, {}, root, walk);
            r.fs == Pruned(fs, gone) && r.deleted == |gone| && r.errors == 0
  {
    var s := State(fs, 0, 0, []);
    WalkFates(fs, {}, root, walk, s);
    assert Parent(root) == Some(root[..|root| - 1]);
    ClimbStopsAtKeptEntry(WalkFold(s, {}, walk), {}, root[..|root| - 1], other);
  }

  /** A run over a tree of that shape deletes the temporary directory and everything in it, and nothing else. */
  lemma SafeOnlyRun(fs: Fs, walk: seq<Path>)
    requires WellFormed(fs) && ContentsFirst(fs, Root, walk)
    requires DirsWithFate(fs, {}, Root, Deleted) == {Root} && DirsWithFate(fs, {}, Root, RemoveFailed) == {}
    requires ["tmp"] in fs && fs[["tmp"]] == Dir && ["tmp", "other"] in fs
    ensures var r := Run(fs, {}, Root, walk);
            r.fs == Pruned(fs, {Root}) && r.deleted == 1 && r.errors == 0
  {
    OtherIsNotJunk();
    OutsideSurvivesPruning(fs);
    RootInTmp();
    RunDeletesExactly(fs, Root, walk, {Root}, "other");
  }

  /** The temporary directory holding only allow-listed entries is deleted, and counted once. */
  lemma SafeOnlyRootDeleted(walk: seq<Path>)
    requires ContentsFirst(SafeOnlyTree(), Root, walk)
    ensures var r := Run(SafeOnlyTree(), {}, Root, walk);
            r.fs == Outside() && r.deleted == 1 && r.errors == 0
  {
    SafeOnlyTreeShape();
    SafeOnlyFates(SafeOnlyTree());
    SafeOnlyTreePruned();
    SafeOnlyRun(SafeOnlyTree(), walk);
  }

  const Subdir: Path := ["tmp", "t", "subdir"]
  const SubVenv: Path := ["tmp", "t", "subdir", ".venv"]
  const SubVenvBin: Path := ["tmp", "t", "subdir", ".venv", "bin"]
  const SubPycache: Path := ["tmp", "t", "subdir", "__pycache__"]

  /** The temporary directory with a text file and a subdirectory holding only allow-listed entries. */
  function SubdirTree(): Fs {
    Outside()
      [Root := Dir]
      [Subdir := Dir]
      [SubVenv := Dir]
      [SubVenvBin := Dir]
      [["tmp", "t", "subdir", ".venv", "bin", "mypython.py"] := File]
      [SubPycache := Dir]
      [["tmp", "t", "subdir", "__pycache__", "myfile.pyc"] := File]
      [["tmp", "t", "subdir", ".DS_Store"] := File]
      [["tmp", "t", "greeting.txt"] := File]
  }

  /** What is left of it: the temporary directory with its text file. */
  function SubdirTreeAfter(): Fs {
    Outside()[Root := Dir][["tmp", "t", "greeting.txt"] := File]
  }

  /** What the proofs below need to know about the subdirectory tree. */
  ghost predicate SubdirShape(fs: Fs) {
    && WellFormed(fs)
    && Root in fs && fs[Root] == Dir && Root + ["greeting.txt"] in fs && fs[Root + ["greeting.txt"]] == File
    && Subdir in fs && fs[Subdir] == Dir
    && SubVenvBin + ["mypython.py"] in fs && fs[SubVenvBin + ["mypython.py"]] == File
    && SubVenv + ["bin"] == SubVenvBin && fs[SubVenvBin] == Dir && fs[SubVenv] == Dir
    && SubPycache + ["myfile.pyc"] in fs && fs[SubPycache + ["myfile.pyc"]] == File && fs[SubPycache] == Dir
    && (forall n | n in Children(fs, Subdir) :: n in {".venv", ".ipynb_checkpoints", "__pycache__", ".DS_Store"})
    && (forall q | q in fs && fs[q] == Dir && Root <= q ::
          q == Root || q == Subdir || q == SubVenv || q == SubVenvBin || q == SubPycache)
    && ["tmp"] in fs && fs[["tmp"]] == Dir && ["tmp", "other"] in fs
  }

  lemma SubdirTreeWellFormed()
    ensures WellFormed(SubdirTree())
  {
    var fs := SubdirTree();
    forall p | p in fs && |p| > 0 ensures p[..|p| - 1] in fs && fs[p[..|p| - 1]] == Dir {
      if |p| == 1 {
        assert p[..0] == [];
      } else if |p| == 2 {
        assert p[..1] == ["tmp"];
      } else if |p| == 3 {
        assert p[..2] == Root;
      } else if |p| == 4 {
        assert p[..3] == Subdir;
      } else if |p| == 5 {
        assert p[..4] == SubVenv || p[..4] == SubPycache;
      } else {
        assert p[..5] == SubVenvBin;
      }
    }
  }

  lemma SubdirTreeSubdirEntries()
    ensures forall n | n in Children(SubdirTree(), Subdir) ::
              n in {".venv", ".ipynb_checkpoints", "__pycache__", ".DS_Store"}
  {
    forall n | n in Children(SubdirTree(), Subdir)
      ensures n in {".venv", ".ipynb_checkpoints", "__pycache__", ".DS_Store"}
    {
      assert Subdir + [n] in SubdirTree();
    }
  }

  lemma SubdirTreeDirectories()
    ensures forall q | q in SubdirTree() && SubdirTree()[q] == Dir && Root <= q ::
              q == Root || q == Subdir || q == SubVenv || q == SubVenvBin || q == SubPycache
  {
  }

  lemma SubdirTreeFiles()
    ensures var fs := SubdirTree();
            && Root + ["greeting.txt"] in fs && fs[Root + ["greeting.txt"]] == File
            && SubVenvBin + ["mypython.py"] in fs && fs[SubVenvBin + ["mypython.py"]] == File
            && SubPycache + ["myfile.pyc"] in fs && fs[SubPycache + ["myfile.pyc"]] == File
  {
    assert Root + ["greeting.txt"] == ["tmp", "t", "greeting.txt"];
    assert SubVenvBin + ["mypython.py"] == ["tmp", "t", "subdir", ".venv", "bin", "mypython.py"];
    assert SubPycache + ["myfile.pyc"] == ["tmp", "t", "subdir", "__pycache__", "myfile.pyc"];
  }

  lemma SubdirTreeKinds()
    ensures var fs := SubdirTree();
            && Root in fs && fs[Root] == Dir && Subdir in fs && fs[Subdir] == Dir
            && fs[SubVenvBin] == Dir && fs[SubVenv] == Dir && fs[SubPycache] == Dir
            && ["tmp"] in fs && fs[["tmp"]] == Dir && ["tmp", "other"] in fs
            && SubVenv + ["bin"] == SubVenvBin
  {
  }

  lemma SubdirTreeShape()
    ensures SubdirShape(SubdirTree())
  {
    SubdirTreeWellFormed();
    SubdirTreeSubdirEntries();
    SubdirTreeDirectories();
    SubdirTreeFiles();
    SubdirTreeKinds();
  }

  /** Inside the subdirectory, each allow-listed directory holds something that is not junk. */
  lemma SubdirInnerDirectoriesKept(fs: Fs)
    requires SubdirShape(fs)
    ensures FateOf(fs, {}, SubVenvBin) == Rejected && FateOf(fs, {}, SubVenv) == Rejected
    ensures FateOf(fs, {}, SubPycache) == Rejected
  {
    UnlistedInitialNotJunk("mypython.py");
    UnlistedInitialNotJunk("bin");
    UnlistedInitialNotJunk("myfile.pyc");
    KeptEntryKeepsDirectory(fs, {}, SubVenvBin, "mypython.py");
    KeptEntryKeepsDirectory(fs, {}, SubVenv, "bin");
    KeptEntryKeepsDirectory(fs, {}, SubPycache, "myfile.pyc");
  }

  /** The text file keeps the temporary directory. */
  lemma SubdirRootKept(fs: Fs)
    requires SubdirShape(fs)
    ensures FateOf(fs, {}, Root) == Rejected
  {
    GreetingIsNotJunk();
    KeptEntryKeepsDirectory(fs, {}, Root, "greeting.txt");
  }

  lemma SubdirOutsideGit()
    ensures !IsInGitRepository(Subdir)
  {
  }

  /** The subdirectory holds only junk. */
  lemma SubdirFate(fs: Fs)
    requires SubdirShape(fs)
    ensures FateOf(fs, {}, Subdir) == Deleted
  {
    SafeNamesAreJunk();
    SubdirOutsideGit();
    JunkOnlyDirectoryDeleted(fs, {}, Subdir);
  }

  lemma SubdirOnlySubdirDeleted(fs: Fs)
    requires SubdirShape(fs)
    ensures forall q | q in DirsWithFate(fs, {}, Root, Deleted) :: q == Subdir
  {
    forall q | q in DirsWithFate(fs, {}, Root, Deleted) ensures q == Subdir {
      SubdirDeletedIsSubdir(fs, q);
    }
  }

  lemma SubdirDeletedIsSubdir(fs: Fs, q: Path)
    requires SubdirShape(fs) && q in fs && fs[q] == Dir && Root <= q
    ensures FateOf(fs, {}, q) == Deleted ==> q == Subdir
  {
    assert q == Root || q == Subdir || q == SubVenv || q == SubVenvBin || q == SubPycache;
    SubdirInnerDirectoriesKept(fs);
    SubdirRootKept(fs);
  }

  lemma SubdirAmongDeleted(fs: Fs)
    requires SubdirShape(fs)
    ensures Subdir in DirsWithFate(fs, {}, Root, Deleted)
  {
    SubdirFate(fs);
    assert Root <= Subdir;
  }

  /** The walk over a tree of that shape deletes the subdirectory only, and no removal fails. */
  lemma SubdirFates(fs: Fs)
    requires SubdirShape(fs)
    ensures DirsWithFate(fs, {}, Root, Deleted) == {Subdir}
    ensures DirsWithFate(fs, {}, Root, RemoveFailed) == {}
  {
    SubdirOnlySubdirDeleted(fs);
    SubdirAmongDeleted(fs);
    NoFailuresNoRemoveFailed(fs, Root);
  }

  lemma SubdirTreeSplit()
    ensures forall k | k in SubdirTree() :: Subdir <= k || k in SubdirTreeAfter()
    ensures forall k | k in SubdirTreeAfter() :: k in SubdirTree() && SubdirTree()[k] == SubdirTreeAfter()[k]
  {
  }

  lemma AfterNotBelowSubdir(k: Path)
    requires k in SubdirTreeAfter()
    ensures !(Subdir <= k)
  {
    if |k| == 3 {
      assert k == ["tmp", "t", "greeting.txt"];
      assert k[2] != Subdir[2];
    }
  }

  lemma SubdirTreePruned()
    ensures Pruned(SubdirTree(), {Subdir}) == SubdirTreeAfter()
  {
    SubdirTreeSplit();
    forall k | k in SubdirTreeAfter() ensures !(Subdir <= k) {
      AfterNotBelowSubdir(k);
    }
    PrunedTo(SubdirTree(), Subdir, SubdirTreeAfter());
  }

  lemma OutsideSurvivesSubdirPruning(fs: Fs)
    requires ["tmp"] in fs && fs[["tmp"]] == Dir && ["tmp", "other"] in fs
    ensures ["tmp"] in Pruned(fs, {Subdir}) && Pruned(fs, {Subdir})[["tmp"]] == Dir
    ensures ["tmp", "other"] in Pruned(fs, {Subdir})
  {
  }

  lemma SubdirRun(fs: Fs, walk: seq<Path>)
    requires WellFormed(fs) && ContentsFirst(fs, Root, walk)
    requires DirsWithFate(fs, {}, Root, Deleted) == {Subdir} && DirsWithFate(fs, {}, Root, RemoveFailed) == {}
    requires ["tmp"] in fs && fs[["tmp"]] == Dir && ["tmp", "other"] in fs
    ensures var r := Run(fs, {}, Root, walk);
            r.fs == Pruned(fs, {Subdir}) && r.deleted == 1 && r.errors == 0
  {
    OtherIsNotJunk();
    OutsideSurvivesSubdirPruning(fs);
    RootInTmp();
    RunDeletesExactly(fs, Root, walk, {Subdir}, "other");
  }

  /**
   * The subdirectory holding only allow-listed entries is deleted and counted once;
   * the temporary directory and its text file stay.
   */
  lemma JunkSubdirDeleted(walk: seq<Path>)
    requires ContentsFirst(SubdirTree(), Root, walk)
    ensures var r := Run(SubdirTree(), {}, Root, walk);
            r.fs == SubdirTreeAfter() && r.deleted == 1 && r.errors == 0
    ensures var r := Run(SubdirTree(), {}, Root, walk);
            Root in r.fs && Subdir !in r.fs && ["tmp", "t", "greeting.txt"] in r.fs
  {
    SubdirTreeShape();
    SubdirFates(SubdirTree());
    SubdirTreePruned();
    SubdirRun(SubdirTree(), walk);
  }
}
