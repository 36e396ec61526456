/**
 * The filesystem as the pruner sees it: absolute paths, a map from the paths that
 * exist to their kind, the listing that `fs::read_dir` yields for a path, and the
 * effect of `fs::remove_dir_all`.
 */
module FileTree {
  import opened Wrappers

  /** An absolute path as its components below `/`; `[]` is `/` itself. */
  type Path = seq<string>

  datatype Kind = File | Dir

  /** The paths that exist, with their kind. */
  type Fs = map<Path, Kind>

  /** The part of an `io::Error` the model keeps: its message. */
  datatype IoError = IoError(message: string)

  /** One item of a `read_dir` iterator: an entry name, or an error reading that entry. */
  datatype Entry = Named(name: string) | EntryFailed(error: IoError)

  /** What `read_dir` yields: an error opening the directory, or its entries in no particular order. */
  datatype Listing = ListFailed(error: IoError) | Listed(entries: set<Entry>)

  /** `Path::parent`: `None` for `/`, otherwise the path without its last component. */
  function Parent(p: Path): (r: Option<Path>)
    ensures r.Some? <==> |p| > 0
    ensures r.Some? ==> r.value + [p[|p| - 1]] == p
  {
    if |p| == 0 then None else Some(p[..|p| - 1])
  }

  /** Every existing path other than `/` sits inside an existing directory. */
  ghost predicate WellFormed(fs: Fs) {
    forall p | p in fs && |p| > 0 :: p[..|p| - 1] in fs && fs[p[..|p| - 1]] == Dir
  }

  /** The names of the direct entries of `p`. */
  function Children(fs: Fs, p: Path): (names: set<string>)
    ensures forall n :: n in names <==> p + [n] in fs
  {
    var names := set q | q in fs && |q| == |p| + 1 && q[..|p|] == p :: q[|p|];
    assert forall n :: p + [n] in fs ==> n in names by {
      forall n | p + [n] in fs ensures n in names {
        var q := p + [n];
        assert q[..|p|] == p && q[|p|] == n;
      }
    }
    assert forall n :: n in names ==> p + [n] in fs by {
      forall n | n in names ensures p + [n] in fs {
        var q :| q in fs && |q| == |p| + 1 && q[..|p|] == p && q[|p|] == n;
        assert q == p + [n];
      }
    }
    names
  }

  /** Every existing path at or below `p`. */
  ghost function Subtree(fs: Fs, p: Path): set<Path> {
    set q | q in fs && p <= q
  }

  /** `remove_dir_all(p)` when it succeeds: `p` and everything below it are gone. */
  function RemoveTree(fs: Fs, p: Path): (r: Fs)
    ensures forall q :: q in r <==> q in fs && !(p <= q)
    ensures forall q | q in r :: r[q] == fs[q]
  {
    map q | q in fs && !(p <= q) :: fs[q]
  }

  /** What `read_dir(p)` yields on `fs`: the names of the direct entries of a directory, an error otherwise. */
  function ListingOf(fs: Fs, p: Path): (l: Listing)
    ensures l.Listed? <==> p in fs && fs[p] == Dir
    ensures l.Listed? ==> forall e :: e in l.entries <==> e.Named? && p + [e.name] in fs
  {
    if p in fs && fs[p] == Dir then
      Listed(set n | n in Children(fs, p) :: Named(n))
    else if p in fs then
      ListFailed(IoError("Not a directory"))
    else
      ListFailed(IoError("No such file or directory"))
  }

  /** Every prefix of an existing path exists, and every proper prefix is a directory. */
  lemma {:induction false} PrefixClosed(fs: Fs, q: Path, a: Path)
    requires WellFormed(fs) && q in fs && a <= q
    ensures a in fs
    ensures a != q ==> fs[a] == Dir
    decreases |q|
  {
    if a != q {
      var pq := q[..|q| - 1];
      assert a <= pq;
      if a != pq {
        PrefixClosed(fs, pq, a);
      }
    }
  }

  /** Removing a subtree leaves a well-formed filesystem. */
  lemma RemoveTreeWellFormed(fs: Fs, p: Path)
    requires WellFormed(fs)
    ensures WellFormed(RemoveTree(fs, p))
  {
    var r := RemoveTree(fs, p);
    forall q | q in r && |q| > 0
      ensures q[..|q| - 1] in r && r[q[..|q| - 1]] == Dir
    {
      var pq := q[..|q| - 1];
      if p <= pq {
        assert p <= q;
      }
    }
  }

  /** The subtree of a child is strictly smaller than its parent's: the measure of every walk over the tree. */
  lemma SubtreeShrinks(fs: Fs, p: Path, n: string)
    requires p in fs
    ensures Subtree(fs, p + [n]) < Subtree(fs, p)
  {
    forall q | q in Subtree(fs, p + [n]) ensures q in Subtree(fs, p) {
      assert p <= p + [n];
    }
    assert p in Subtree(fs, p) && p !in Subtree(fs, p + [n]);
  }
}
