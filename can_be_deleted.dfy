/**
 * The deletability decision: may a directory be deleted, given its path and what
 * `read_dir` yields for it?  A directory inside `.git` never may; one whose contents
 * cannot be listed may not; otherwise it may exactly when every direct entry, with
 * ASCII letters lowercased, is one of seven known junk names.
 */
module Deletability {
  import opened Wrappers
  import opened FileTree

  /** Why a directory cannot be deleted. */
  datatype Reason =
    | NotEmpty(entries: seq<string>)
    | InGitRepository
    | CannotListContents(error: IoError)

  datatype DeleteDecision = CanDelete | CannotDelete(reason: Reason)

  /** Entry names that never keep a directory alive, all in lower case. */
  const DeletableNames: set<string> :=
    {".ds_store", ".ipynb_checkpoints", ".jekyll-cache", ".venv", "__pycache__", "desktop.ini", "thumbs.db"}

  predicate IsAsciiUpper(c: char) {
    'A' <= c <= 'Z'
  }

  function AsciiLowerChar(c: char): char {
    if IsAsciiUpper(c) then (c as int + 32) as char else c
  }

  /**
   * `to_ascii_lowercase`: the ASCII capitals become small letters and every other
   * character, ASCII or not, is kept.
   */
  function AsciiLower(s: string): (r: string)
    ensures |r| == |s|
    ensures forall i :: 0 <= i < |r| ==> !IsAsciiUpper(r[i])
    ensures forall i :: 0 <= i < |r| ==>
              if IsAsciiUpper(s[i]) then r[i] as int == s[i] as int + 32 else r[i] == s[i]
  {
    if s == [] then [] else [AsciiLowerChar(s[0])] + AsciiLower(s[1..])
  }

  /** Lowercasing twice is lowercasing once. */
  lemma AsciiLowerIdempotent(s: string)
    ensures AsciiLower(AsciiLower(s)) == AsciiLower(s)
  {
    var r := AsciiLower(s);
    assert forall i :: 0 <= i < |r| ==> AsciiLower(r)[i] == r[i];
  }

  /** A name is lowercased exactly when lowercasing leaves it unchanged. */
  lemma AsciiLowerFixesLowercase(s: string)
    requires forall i :: 0 <= i < |s| ==> !IsAsciiUpper(s[i])
    ensures AsciiLower(s) == s
  {
    assert forall i :: 0 <= i < |s| ==> AsciiLower(s)[i] == s[i];
  }

  /** Two names that differ only in the case of ASCII letters lowercase to the same name. */
  lemma AsciiLowerIgnoresCase(s: string, t: string)
    requires |s| == |t|
    requires forall i :: 0 <= i < |s| ==> AsciiLowerChar(s[i]) == AsciiLowerChar(t[i])
    ensures AsciiLower(s) == AsciiLower(t)
  {
    forall i | 0 <= i < |s| ensures AsciiLower(s)[i] == AsciiLower(t)[i] {
      AsciiLowerAt(s, i);
      AsciiLowerAt(t, i);
    }
  }

  lemma AsciiLowerAt(s: string, i: nat)
    requires i < |s|
    ensures AsciiLower(s)[i] == AsciiLowerChar(s[i])
  {
  }

  /**
   * `is_in_git_repository`: some ancestor of the path, the path itself included,
   * has the file name `.git`.  As `Path::ancestors` does, the walk goes from the path
   * up to `/`, which has no file name.
   */
  function IsInGitRepository(path: Path): (r: bool)
    ensures r <==> exists i :: 0 <= i < |path| && path[i] == ".git"
    decreases |path|
  {
    |path| > 0 && (path[|path| - 1] == ".git" || IsInGitRepository(path[..|path| - 1]))
  }

  /** Every entry of the listing could be read. */
  predicate ListingReadable(l: Listing) {
    l.Listed? && forall e | e in l.entries :: e.Named?
  }

  /** The set that `get_names_in_directory` returns on success. */
  function LowercasedNames(l: Listing): set<string>
    requires ListingReadable(l)
  {
    set e | e in l.entries :: AsciiLower(e.name)
  }

  /**
   * The decision is `CanDelete`: no component of the path is `.git`, the directory
   * could be listed, and every entry could be read and has an allow-listed name once
   * lowercased.
   */
  predicate Approves(path: Path, l: Listing)
    ensures Approves(path, l) <==>
              && (forall i :: 0 <= i < |path| ==> path[i] != ".git")
              && l.Listed?
              && (forall e | e in l.entries :: e.Named? && AsciiLower(e.name) in DeletableNames)
  {
    ApprovesPerEntry(l);
    !IsInGitRepository(path) && ListingReadable(l) && LowercasedNames(l) <= DeletableNames
  }

  lemma ApprovesPerEntry(l: Listing)
    ensures ListingReadable(l) && LowercasedNames(l) <= DeletableNames
            <==> l.Listed? && forall e | e in l.entries :: e.Named? && AsciiLower(e.name) in DeletableNames
  {
    if l.Listed? && forall e | e in l.entries :: e.Named? && AsciiLower(e.name) in DeletableNames {
      forall x | x in LowercasedNames(l) ensures x in DeletableNames {
        var e :| e in l.entries && AsciiLower(e.name) == x;
      }
    }
  }

  predicate Distinct(s: seq<string>) {
    forall i, j :: 0 <= i < j < |s| ==> s[i] != s[j]
  }

  /**
   * `get_names_in_directory`: the lowercased names of the direct entries, or the first
   * error met while opening the directory or reading one of its entries.
   */
  method GetNamesInDirectory(l: Listing) returns (r: Result<set<string>, IoError>)
    ensures r.Success? <==> ListingReadable(l)
    ensures r.Success? ==> r.value == LowercasedNames(l)
    ensures r.Failure? && l.ListFailed? ==> r.error == l.error
    ensures r.Failure? && l.Listed? ==> EntryFailed(r.error) in l.entries
  {
    if l.ListFailed? {
      return Failure(l.error);
    }
    var names: seq<string> := [];
    var pending := l.entries;
    while pending != {}
      invariant pending <= l.entries
      invariant forall e | e in l.entries - pending :: e.Named?
      invariant (set x | x in names) == (set e | e in l.entries - pending :: AsciiLower(e.name))
      decreases pending
    {
      var e :| e in pending;
      match e {
        case EntryFailed(err) =>
          return Failure(err);
        case Named(n) =>
          ghost var before := l.entries - pending;
          assert l.entries - (pending - {e}) == before + {e};
          assert (set x | x in names + [AsciiLower(n)]) == (set x | x in names) + {AsciiLower(n)};
          assert (set e' | e' in before + {e} :: AsciiLower(e'.name))
              == (set e' | e' in before :: AsciiLower(e'.name)) + {AsciiLower(n)};
          names := names + [AsciiLower(n)];
      }
      pending := pending - {e};
    }
    assert l.entries - pending == l.entries;
    return Success(set x | x in names);
  }

  /** `iter().cloned().collect()` over a set: each element once, in no particular order. */
  method CollectNames(s: set<string>) returns (r: seq<string>)
    ensures forall x :: x in r <==> x in s
    ensures Distinct(r)
  {
    r := [];
    var pending := s;
    while pending != {}
      invariant pending <= s
      invariant forall x :: x in r <==> x in s - pending
      invariant Distinct(r)
      decreases pending
    {
      var x :| x in pending;
      assert x !in r;
      assert forall i :: 0 <= i < |r| ==> (r + [x])[i] == r[i];
      r := r + [x];
      pending := pending - {x};
    }
  }

  /**
   * `can_be_deleted`.  The `.git` check comes first and reads nothing, so a protected
   * path is reported as such even when it cannot be listed; a listing error comes
   * next; otherwise the directory may go exactly when its lowercased names are all
   * junk, and if not, the decision carries each offending name once.
   */
  method CanBeDeleted(path: Path, l: Listing) returns (d: DeleteDecision)
    ensures IsInGitRepository(path) ==> d == CannotDelete(InGitRepository)
    ensures !IsInGitRepository(path) && l.ListFailed? ==> d == CannotDelete(CannotListContents(l.error))
    ensures !IsInGitRepository(path) && l.Listed? && !ListingReadable(l) ==>
              d.CannotDelete? && d.reason.CannotListContents? && EntryFailed(d.reason.error) in l.entries
    ensures !IsInGitRepository(path) && ListingReadable(l) && LowercasedNames(l) <= DeletableNames ==>
              d == CanDelete
    ensures !IsInGitRepository(path) && ListingReadable(l) && !(LowercasedNames(l) <= DeletableNames) ==>
              && d.CannotDelete? && d.reason.NotEmpty?
              && |d.reason.entries| > 0
              && Distinct(d.reason.entries)
              && (forall x :: x in d.reason.entries <==> x in LowercasedNames(l) - DeletableNames)
    ensures d == CanDelete <==> Approves(path, l)
  {
    if IsInGitRepository(path) {
      return CannotDelete(InGitRepository);
    }
    var names := GetNamesInDirectory(l);
    match names {
      case Failure(err) =>
        d := CannotDelete(CannotListContents(err));
      case Success(ns) =>
        if ns <= DeletableNames {
          d := CanDelete;
        } else {
          var remaining := CollectNames(ns - DeletableNames);
          assert exists x :: x in ns && x !in DeletableNames;
          var x :| x in ns && x !in DeletableNames;
          assert x in remaining;
          d := CannotDelete(NotEmpty(remaining));
        }
    }
  }

  /** The allow-listed names are written with small letters, digits and punctuation. */
  lemma NoCapitalsIn(n: string)
    requires n in DeletableNames
    ensures forall i :: 0 <= i < |n| ==> !IsAsciiUpper(n[i])
  {
    forall i | 0 <= i < |n| ensures !IsAsciiUpper(n[i]) {
      assert n[i] in "._-abcdefghijklmnopqrstuvwxyz";
    }
  }

  /** Every allow-listed name is already in lower case, so the comparison ignores case on both sides. */
  lemma DeletableNamesAreLowercase()
    ensures forall n | n in DeletableNames :: AsciiLower(n) == n
  {
    forall n | n in DeletableNames ensures AsciiLower(n) == n {
      NoCapitalsIn(n);
      AsciiLowerFixesLowercase(n);
    }
  }

  /** The listing with every entry name lowercased. */
  function LowercaseListing(l: Listing): Listing {
    match l
    case ListFailed(e) => ListFailed(e)
    case Listed(es) => Listed(set e | e in es :: if e.Named? then Named(AsciiLower(e.name)) else e)
  }

  /** The decision ignores the case of ASCII letters in entry names: `.DS_Store` counts as `.ds_store`. */
  lemma ApprovesIgnoresCase(path: Path, l: Listing)
    ensures Approves(path, l) == Approves(path, LowercaseListing(l))
  {
    var m := LowercaseListing(l);
    if l.Listed? {
      assert ListingReadable(l) <==> ListingReadable(m) by {
        if !ListingReadable(l) {
          var e :| e in l.entries && e.EntryFailed?;
          assert e in m.entries;
        }
      }
      if ListingReadable(l) {
        forall x | x in LowercasedNames(m) ensures x in LowercasedNames(l) {
          var e' :| e' in m.entries && AsciiLower(e'.name) == x;
          var e :| e in l.entries && e' == Named(AsciiLower(e.name));
          AsciiLowerIdempotent(e.name);
        }
        forall x | x in LowercasedNames(l) ensures x in LowercasedNames(m) {
          var e :| e in l.entries && AsciiLower(e.name) == x;
          AsciiLowerIdempotent(e.name);
          assert Named(AsciiLower(e.name)) in m.entries;
        }
        assert LowercasedNames(l) == LowercasedNames(m);
      }
    }
  }

  /** An empty directory outside `.git` may be deleted. */
  lemma EmptyDirectoryApproved(path: Path)
    requires !IsInGitRepository(path)
    ensures Approves(path, Listed({}))
  {
    assert LowercasedNames(Listed({})) == {};
  }

  /** A path with a `.git` component anywhere, and every path below it, is refused whatever it holds. */
  lemma {:induction false} GitPathsNeverApproved(path: Path, below: Path, l: Listing)
    requires exists i :: 0 <= i < |path| && path[i] == ".git"
    ensures !Approves(path + below, l)
  {
    var i :| 0 <= i < |path| && path[i] == ".git";
    assert (path + below)[i] == ".git";
  }
}
