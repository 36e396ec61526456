/**
 * The `Display` text of a `Reason`: for `NotEmpty`, a header giving the number of
 * entries ("entry" for one, "entries" otherwise) and then one indented line per
 * entry, in sorted order so that the text does not depend on the order in which the
 * entries were collected.
 */
module ReasonDisplay {
  import opened FileTree
  import opened Deletability

  /** The ordering of `str`: lexicographic by code point. */
  predicate LexLe(a: string, b: string)
    decreases |a|
  {
    |a| == 0 || (|b| > 0 && (a[0] < b[0] || (a[0] == b[0] && LexLe(a[1..], b[1..]))))
  }

  lemma {:induction false} LexLeTotal(a: string, b: string)
    ensures LexLe(a, b) || LexLe(b, a)
    decreases |a|
  {
    if |a| > 0 && |b| > 0 && a[0] == b[0] {
      LexLeTotal(a[1..], b[1..]);
    }
  }

  lemma {:induction false} LexLeReflexive(a: string)
    ensures LexLe(a, a)
    decreases |a|
  {
    if |a| > 0 {
      LexLeReflexive(a[1..]);
    }
  }

  lemma {:induction false} LexLeTransitive(a: string, b: string, c: string)
    requires LexLe(a, b) && LexLe(b, c)
    ensures LexLe(a, c)
    decreases |a|
  {
    if |a| > 0 && a[0] == b[0] && b[0] == c[0] {
      LexLeTransitive(a[1..], b[1..], c[1..]);
    }
  }

  lemma {:induction false} LexLeAntisymmetric(a: string, b: string)
    requires LexLe(a, b) && LexLe(b, a)
    ensures a == b
    decreases |a|
  {
    if |a| > 0 {
      LexLeAntisymmetric(a[1..], b[1..]);
      assert a == [a[0]] + a[1..] && b == [b[0]] + b[1..];
    }
  }

  predicate Sorted(s: seq<string>) {
    forall i, j :: 0 <= i < j < |s| ==> LexLe(s[i], s[j])
  }

  /** Inserting into a sorted sequence keeps it sorted and adds exactly the one element. */
  function Insert(x: string, s: seq<string>): (r: seq<string>)
    requires Sorted(s)
    ensures Sorted(r)
    ensures multiset(r) == multiset(s) + multiset{x}
  {
    if s == [] then [x]
    else if LexLe(x, s[0]) then
      InsertInFront(x, s);
      [x] + s
    else
      var t := Insert(x, s[1..]);
      InsertBehind(x, s, t);
      [s[0]] + t
  }

  lemma InsertInFront(x: string, s: seq<string>)
    requires Sorted(s) && s != [] && LexLe(x, s[0])
    ensures Sorted([x] + s)
  {
    forall j | 0 < j < |s| ensures LexLe(x, s[j]) {
      LexLeTransitive(x, s[0], s[j]);
    }
    var r := [x] + s;
    forall i, j | 0 <= i < j < |r| ensures LexLe(r[i], r[j]) {
      if i > 0 {
        assert r[i] == s[i - 1] && r[j] == s[j - 1];
      }
    }
  }

  lemma InsertBehind(x: string, s: seq<string>, t: seq<string>)
    requires Sorted(s) && s != [] && !LexLe(x, s[0])
    requires Sorted(t) && multiset(t) == multiset(s[1..]) + multiset{x}
    ensures Sorted([s[0]] + t)
    ensures multiset([s[0]] + t) == multiset(s) + multiset{x}
  {
    assert s == [s[0]] + s[1..];
    LexLeTotal(x, s[0]);
    forall j | 0 <= j < |t| ensures LexLe(s[0], t[j]) {
      assert t[j] in multiset(t);
      if t[j] != x {
        assert t[j] in s[1..];
        var k :| 0 <= k < |s[1..]| && s[1..][k] == t[j];
        assert s[k + 1] == t[j];
      }
    }
    var r := [s[0]] + t;
    forall i, j | 0 <= i < j < |r| ensures LexLe(r[i], r[j]) {
      if i > 0 {
        assert r[i] == t[i - 1] && r[j] == t[j - 1];
      } else {
        assert r[j] == t[j - 1];
      }
    }
  }

  /** `sort_by_key`: a sorted rearrangement of the entries. */
  function SortEntries(s: seq<string>): (r: seq<string>)
    ensures Sorted(r)
    ensures multiset(r) == multiset(s)
  {
    if s == [] then []
    else
      assert s == [s[0]] + s[1..];
      Insert(s[0], SortEntries(s[1..]))
  }

  /** Two sorted rearrangements of the same entries start with the same entry. */
  lemma SortedHeadsAgree(a: seq<string>, b: seq<string>)
    requires Sorted(a) && Sorted(b) && multiset(a) == multiset(b) && |a| > 0 && |b| > 0
    ensures a[0] == b[0]
  {
    assert a[0] in multiset(b) && b[0] in multiset(a);
    var i :| 0 <= i < |b| && b[i] == a[0];
    var j :| 0 <= j < |a| && a[j] == b[0];
    assert LexLe(b[0], a[0]) by {
      if i > 0 { assert LexLe(b[0], b[i]); } else { LexLeReflexive(a[0]); }
    }
    assert LexLe(a[0], b[0]) by {
      if j > 0 { assert LexLe(a[0], a[j]); } else { LexLeReflexive(b[0]); }
    }
    LexLeAntisymmetric(a[0], b[0]);
  }

  lemma MultisetOfTail(a: seq<string>)
    requires |a| > 0
    ensures multiset(a[1..]) == multiset(a) - multiset{a[0]}
    ensures Sorted(a) ==> Sorted(a[1..])
  {
    assert a == [a[0]] + a[1..];
  }

  /** There is only one sorted rearrangement of a sequence, so the sorted text is determined by the entries alone. */
  lemma {:induction false} SortedPermutationUnique(a: seq<string>, b: seq<string>)
    requires Sorted(a) && Sorted(b) && multiset(a) == multiset(b)
    ensures a == b
    decreases |a|
  {
    assert |a| == |multiset(a)| == |multiset(b)| == |b|;
    if |a| > 0 {
      SortedHeadsAgree(a, b);
      MultisetOfTail(a);
      MultisetOfTail(b);
      SortedPermutationUnique(a[1..], b[1..]);
      assert a == [a[0]] + a[1..] && b == [b[0]] + b[1..];
    }
  }

  function DigitChar(d: nat): char
    requires d < 10
  {
    "0123456789"[d]
  }

  predicate IsDigit(c: char) {
    '0' <= c <= '9'
  }

  /** The value of a string of decimal digits. */
  function DecimalValue(s: string): nat
    requires forall i :: 0 <= i < |s| ==> IsDigit(s[i])
  {
    if s == [] then 0
    else
      var d := s[|s| - 1] as int - '0' as int;
      assert 0 <= d by { assert IsDigit(s[|s| - 1]); }
      DecimalValue(s[..|s| - 1]) * 10 + d
  }

  /** `{}` of a `usize`: decimal digits, with a leading zero only for zero itself. */
  function DecimalString(n: nat): (r: string)
    ensures |r| > 0
    ensures forall i :: 0 <= i < |r| ==> IsDigit(r[i])
    ensures r[0] == '0' <==> n == 0
  {
    if n < 10 then [DigitChar(n)] else DecimalString(n / 10) + [DigitChar(n % 10)]
  }

  /** The digits written for a count read back as that count. */
  lemma {:induction false} DecimalRoundTrip(n: nat)
    ensures DecimalValue(DecimalString(n)) == n
  {
    var r := DecimalString(n);
    if n >= 10 {
      DecimalRoundTrip(n / 10);
      assert r[..|r| - 1] == DecimalString(n / 10);
    }
  }

  /** The first line of the text for `NotEmpty`; it is a single line ending in a colon. */
  function Header(count: nat): (h: string)
    ensures NoNewline(h)
    ensures |h| > 0 && h[|h| - 1] == ':'
  {
    var digits := DecimalString(count);
    assert forall i :: 0 <= i < |digits| ==> digits[i] != '\n';
    "directory is not empty; contains " + digits + " entr" + (if count == 1 then "y" else "ies") + ":"
  }

  /**
   * The text written for the sorted entries: each on a new line after two spaces and a
   * dash, so nothing is written for no entries and otherwise the text opens a new line.
   */
  function Bullets(s: seq<string>): (b: string)
    ensures b == "" <==> s == []
    ensures |b| >= 5 * |s|
    ensures s != [] ==> b[..5] == "\n  - "
  {
    if s == [] then "" else "\n  - " + s[0] + Bullets(s[1..])
  }

  /**
   * `Reason::fmt`.  For `NotEmpty` the text is the header and then the entries in some
   * sorted arrangement; the text of a listing error ends with the error's message.
   */
  function Display(r: Reason): (text: string)
    ensures r.NotEmpty? ==>
              exists sorted: seq<string> ::
                && Sorted(sorted)
                && multiset(sorted) == multiset(r.entries)
                && text == Header(|r.entries|) + Bullets(sorted)
    ensures r.CannotListContents? ==>
              |text| >= |r.error.message| && text[|text| - |r.error.message|..] == r.error.message
  {
    match r
    case NotEmpty(entries) =>
      var sorted := SortEntries(entries);
      Header(|entries|) + Bullets(sorted)
    case CannotListContents(e) => "unable to list directory contents: " + e.message
    case InGitRepository => "directory is inside a .git repository"
  }

  /** The header states the number of entries in decimal and says "entry" exactly when there is one. */
  lemma HeaderReportsCount(count: nat)
    ensures exists digits: string ::
              && (forall i :: 0 <= i < |digits| ==> IsDigit(digits[i]))
              && DecimalValue(digits) == count
              && Header(count) == "directory is not empty; contains " + digits
                                  + (if count == 1 then " entry:" else " entries:")
  {
    var digits := DecimalString(count);
    DecimalRoundTrip(count);
    assert Header(count) == "directory is not empty; contains " + digits
                            + (if count == 1 then " entry:" else " entries:");
  }

  /** The same entries collected in any order give the same text. */
  lemma DisplayIndependentOfOrder(e1: seq<string>, e2: seq<string>)
    requires multiset(e1) == multiset(e2)
    ensures Display(NotEmpty(e1)) == Display(NotEmpty(e2))
  {
    SortedPermutationUnique(SortEntries(e1), SortEntries(e2));
    assert |e1| == |multiset(e1)| == |multiset(e2)| == |e2|;
  }

  predicate NoNewline(s: string) {
    forall i :: 0 <= i < |s| ==> s[i] != '\n'
  }

  /** The lines of a text: the pieces between newline characters. */
  function Lines(s: string): (r: seq<string>)
    ensures |r| > 0
  {
    if s == [] then [""]
    else
      var rest := Lines(s[1..]);
      if s[0] == '\n' then [""] + rest else [[s[0]] + rest[0]] + rest[1..]
  }

  lemma {:induction false} LinesOfLine(a: string)
    requires NoNewline(a)
    ensures Lines(a) == [a]
  {
    if a != [] {
      LinesOfLine(a[1..]);
      assert a == [a[0]] + a[1..];
    }
  }

  lemma {:induction false} LinesSplit(a: string, b: string)
    requires NoNewline(a)
    ensures Lines(a + "\n" + b) == [a] + Lines(b)
  {
    if a == [] {
      assert a + "\n" + b == "\n" + b;
      assert ("\n" + b)[1..] == b;
    } else {
      LinesSplit(a[1..], b);
      assert (a + "\n" + b)[1..] == a[1..] + "\n" + b;
      assert a == [a[0]] + a[1..];
    }
  }

  function BulletLines(s: seq<string>): (r: seq<string>)
    ensures |r| == |s|
    ensures forall i :: 0 <= i < |s| ==> r[i] == "  - " + s[i]
  {
    if s == [] then [] else ["  - " + s[0]] + BulletLines(s[1..])
  }

  lemma {:induction false} LinesOfBullets(h: string, s: seq<string>)
    requires NoNewline(h)
    requires forall i :: 0 <= i < |s| ==> NoNewline(s[i])
    ensures Lines(h + Bullets(s)) == [h] + BulletLines(s)
    decreases |s|
  {
    if s == [] {
      assert h + Bullets(s) == h;
      LinesOfLine(h);
    } else {
      var first := "  - " + s[0];
      assert NoNewline(first) by {
        assert forall i :: 0 <= i < |first| ==> first[i] == ' ' || first[i] == '-' || first[i] == s[0][i - 4];
      }
      LinesOfBullets(first, s[1..]);
      assert h + Bullets(s) == h + "\n" + (first + Bullets(s[1..]));
      LinesSplit(h, first + Bullets(s[1..]));
    }
  }

  /** Sorting neither adds nor loses entries, so it adds no newline either. */
  lemma SortedHasNoNewline(entries: seq<string>)
    requires forall i :: 0 <= i < |entries| ==> NoNewline(entries[i])
    ensures |SortEntries(entries)| == |entries|
    ensures forall i :: 0 <= i < |SortEntries(entries)| ==> NoNewline(SortEntries(entries)[i])
  {
    var sorted := SortEntries(entries);
    assert |sorted| == |multiset(sorted)| == |multiset(entries)| == |entries|;
    forall i | 0 <= i < |sorted| ensures NoNewline(sorted[i]) {
      assert sorted[i] in multiset(entries);
      var j :| 0 <= j < |entries| && entries[j] == sorted[i];
    }
  }

  /**
   * The text for `NotEmpty(entries)`, when no entry holds a newline, is the header
   * line and then one line `  - name` per entry, in sorted order, each entry as
   * often as it occurs among the entries (once, for the distinct names that
   * `CanBeDeleted` reports).
   */
  lemma DisplayNotEmptyLines(entries: seq<string>)
    requires forall i :: 0 <= i < |entries| ==> NoNewline(entries[i])
    ensures var lines := Lines(Display(NotEmpty(entries)));
            && |lines| == |entries| + 1
            && lines[0] == Header(|entries|)
            && exists sorted: seq<string> ::
                 && |sorted| == |entries|
                 && Sorted(sorted)
                 && multiset(sorted) == multiset(entries)
                 && forall i :: 0 <= i < |entries| ==> lines[i + 1] == "  - " + sorted[i]
  {
    var sorted := SortEntries(entries);
    var h := Header(|entries|);
    SortedHasNoNewline(entries);
    LinesOfBullets(h, sorted);
    var lines := Lines(Display(NotEmpty(entries)));
    assert Display(NotEmpty(entries)) == h + Bullets(sorted);
    assert lines == [h] + BulletLines(sorted);
    assert forall i :: 0 <= i < |entries| ==> lines[i + 1] == "  - " + sorted[i];
  }
}
