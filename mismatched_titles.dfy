/** find-mismatched-titles.py: the titles quoted in "For more information" lines of the
    AsciiDoc files are looked up among the headings of every AsciiDoc file, and those
    that no heading contains are collected. */
module MismatchedTitles {
  import opened Wrappers
  import opened Text
  import opened FileTree

  // ---------------------------------------------------------------------------------
  // strip_markup: re.sub(r"(`|_|\*|\.)", "", text)

  /** The characters strip_markup deletes. */
  predicate IsMarkup(c: char) {
    c == '`' || c == '_' || c == '*' || c == '.'
  }

  /** No character of `s` is markup. */
  predicate Plain(s: string) {
    forall i :: 0 <= i < |s| ==> !IsMarkup(s[i])
  }

  /** `s` with every markup character deleted. */
  function StripMarkup(s: string): (r: string)
    ensures Plain(r) && |r| <= |s|
  {
    if s == [] then []
    else if IsMarkup(s[0]) then StripMarkup(s[1..])
    else [s[0]] + StripMarkup(s[1..])
  }

  /** Stripping works piece by piece. */
  lemma {:induction false} StripMarkupAppend(a: string, b: string)
    ensures StripMarkup(a + b) == StripMarkup(a) + StripMarkup(b)
  {
    if a == [] {
      assert a + b == b;
    } else {
      assert (a + b)[0] == a[0] && (a + b)[1..] == a[1..] + b;
      StripMarkupAppend(a[1..], b);
    }
  }

  /** Text without markup is kept as it is. */
  lemma {:induction false} StripMarkupKeepsPlain(s: string)
    requires Plain(s)
    ensures StripMarkup(s) == s
  {
    if s != [] {
      StripMarkupKeepsPlain(s[1..]);
      assert s == [s[0]] + s[1..];
    }
  }

  /** Stripping twice is stripping once. */
  lemma {:induction false} StripMarkupIdempotent(s: string)
    ensures StripMarkup(StripMarkup(s)) == StripMarkup(s)
  {
    StripMarkupKeepsPlain(StripMarkup(s));
  }

  /** Every character other than markup keeps its number of occurrences, and markup has
      none left; with StripMarkupAppend this says the others stay in order. */
  lemma {:induction false} StripMarkupCounts(s: string, c: char)
    ensures multiset(StripMarkup(s))[c] == if IsMarkup(c) then 0 else multiset(s)[c]
  {
    if s != [] {
      StripMarkupCounts(s[1..], c);
      assert s == [s[0]] + s[1..];
      assert multiset(s) == multiset([s[0]]) + multiset(s[1..]);
      if !IsMarkup(s[0]) {
        assert multiset(StripMarkup(s)) == multiset([s[0]]) + multiset(StripMarkup(s[1..]));
      }
    } else {
      assert multiset(StripMarkup(s)) == multiset{};
    }
  }

  // ---------------------------------------------------------------------------------
  // Heading lines: re.match(r"^\={1,6} ", line)

  /** A line opening with one to six `=` and then a space. `={1,6}` is greedy, but giving
      back `=` characters cannot help, as a space must follow them. */
  predicate IsHeading(line: string) {
    var n := RunEnd(line, '=', 0);
    1 <= n <= 6 && n < |line| && line[n] == ' '
  }

  /** The line starts with `k` signs `=` and then a space. */
  predicate MarkerOf(line: string, k: int) {
    1 <= k <= 6 && k < |line| && line[k] == ' ' && forall i :: 0 <= i < k ==> line[i] == '='
  }

  /** A heading is exactly a line with one of the six markers. */
  lemma HeadingIff(line: string)
    ensures IsHeading(line) <==> exists k :: MarkerOf(line, k)
  {
    var n := RunEnd(line, '=', 0);
    if IsHeading(line) {
      assert MarkerOf(line, n);
    }
    forall k | MarkerOf(line, k) ensures IsHeading(line) {
      assert line[k] != '=';
    }
  }

  /** Seven or more `=` make no heading. */
  lemma SevenSignsAreNoHeading(line: string)
    requires |line| >= 7 && forall i :: 0 <= i < 7 ==> line[i] == '='
    ensures !IsHeading(line)
  {
  }

  // ---------------------------------------------------------------------------------
  // search_for_heading_in_directory

  /** A heading line whose stripped, markup-free text contains `title` (already freed of
      markup). */
  predicate HeadingMatches(line: string, title: string) {
    IsHeading(line) && Contains(StripMarkup(Strip(line)), title)
  }

  /** One of the first `n` lines is a matching heading. */
  predicate LinesMatch(lines: seq<string>, title: string, n: int) {
    exists k :: 0 <= k < n && k < |lines| && HeadingMatches(lines[k], title)
  }

  /** An `.adoc` file with a matching heading. */
  predicate FileMatches(f: File, title: string) {
    IsAdoc(f.name) && LinesMatch(f.lines, title, |f.lines|)
  }

  /** One of the first `n` files of the entry matches. */
  predicate FilesMatch(files: seq<File>, title: string, n: int) {
    exists j :: 0 <= j < n && j < |files| && FileMatches(files[j], title)
  }

  /** One of the first `n` entries of the walk has a matching file. */
  predicate WalkMatches(walk: seq<WalkEntry>, title: string, n: int) {
    exists i :: 0 <= i < n && i < |walk| && FilesMatch(walk[i].files, title, |walk[i].files|)
  }

  /** Some heading of some `.adoc` file of the walk contains the title once both are
      freed of markup. */
  predicate HeadingFound(title: string, walk: seq<WalkEntry>) {
    WalkMatches(walk, StripMarkup(title), |walk|)
  }

  /** The same, over the listing of the walk. */
  lemma HeadingFoundIff(title: string, walk: seq<WalkEntry>)
    ensures HeadingFound(title, walk) <==>
            exists i :: 0 <= i < |Listing(walk)| && FileMatches(Listing(walk)[i].file, StripMarkup(title))
  {
    var t := StripMarkup(title);
    ListingMatches(walk, t);
  }

  lemma ListingMatches(walk: seq<WalkEntry>, t: string)
    ensures WalkMatches(walk, t, |walk|) <==>
            exists k :: 0 <= k < |Listing(walk)| && FileMatches(Listing(walk)[k].file, t)
  {
    if WalkMatches(walk, t, |walk|) {
      var i :| 0 <= i < |walk| && FilesMatch(walk[i].files, t, |walk[i].files|);
      var j :| 0 <= j < |walk[i].files| && FileMatches(walk[i].files[j], t);
      ListedFileMatches(walk, i, j, t);
    }
    if exists k :: 0 <= k < |Listing(walk)| && FileMatches(Listing(walk)[k].file, t) {
      var k :| 0 <= k < |Listing(walk)| && FileMatches(Listing(walk)[k].file, t);
      WalkedFileMatches(walk, k, t);
    }
  }

  lemma ListedFileMatches(walk: seq<WalkEntry>, i: int, j: int, t: string)
    requires 0 <= i < |walk| && 0 <= j < |walk[i].files| && FileMatches(walk[i].files[j], t)
    ensures exists k :: 0 <= k < |Listing(walk)| && FileMatches(Listing(walk)[k].file, t)
  {
    ListingIndex(walk, i, j);
    var k := Position(walk, i, j);
    assert Listing(walk)[k].file == walk[i].files[j];
  }

  lemma WalkedFileMatches(walk: seq<WalkEntry>, k: int, t: string)
    requires 0 <= k < |Listing(walk)| && FileMatches(Listing(walk)[k].file, t)
    ensures WalkMatches(walk, t, |walk|)
  {
    ListingSource(walk, k);
    var i, j :| 0 <= i < |walk| && 0 <= j < |walk[i].files| && Listing(walk)[k] == WalkedAt(walk, i, j);
    assert FilesMatch(walk[i].files, t, |walk[i].files|);
  }

  /** search_for_heading_in_directory: every line of every `.adoc` file of the walk is
      looked at, and the result says whether a matching heading was seen. */
  method SearchForHeadingInDirectory(title: string, walk: seq<WalkEntry>) returns (found: bool)
    ensures found == HeadingFound(title, walk)
  {
    var titleStripped := StripMarkup(title);
    found := false;
    var i := 0;
    while i < |walk|
      invariant 0 <= i <= |walk|
      invariant found == WalkMatches(walk, titleStripped, i)
    {
      var files := walk[i].files;
      var j := 0;
      while j < |files|
        invariant 0 <= j <= |files|
        invariant found == (WalkMatches(walk, titleStripped, i) || FilesMatch(files, titleStripped, j))
      {
        var file := files[j];
        ghost var before := found;
        FilesMatchStep(files, titleStripped, j);
        if IsAdoc(file.name) {
          var lines := file.lines;
          var k := 0;
          while k < |lines|
            invariant 0 <= k <= |lines|
            invariant found == (before || LinesMatch(lines, titleStripped, k))
          {
            LinesMatchStep(lines, titleStripped, k);
            if IsHeading(lines[k]) {
              var headingStripped := StripMarkup(Strip(lines[k]));
              if Contains(headingStripped, titleStripped) {
                found := true;
              }
            }
            k := k + 1;
          }
        }
        j := j + 1;
      }
      WalkMatchesStep(walk, titleStripped, i);
      i := i + 1;
    }
  }

  lemma LinesMatchStep(lines: seq<string>, title: string, k: int)
    requires 0 <= k < |lines|
    ensures LinesMatch(lines, title, k + 1) == (LinesMatch(lines, title, k) || HeadingMatches(lines[k], title))
  {
  }

  lemma FilesMatchStep(files: seq<File>, title: string, j: int)
    requires 0 <= j < |files|
    ensures FilesMatch(files, title, j + 1) == (FilesMatch(files, title, j) || FileMatches(files[j], title))
  {
  }

  lemma WalkMatchesStep(walk: seq<WalkEntry>, title: string, i: int)
    requires 0 <= i < |walk|
    ensures WalkMatches(walk, title, i + 1)
            == (WalkMatches(walk, title, i) || FilesMatch(walk[i].files, title, |walk[i].files|))
  {
  }

  // ---------------------------------------------------------------------------------
  // process_file

  /** `re.match(r"^For (more |further )?information", line)`. */
  predicate IsReferenceLine(line: string) {
    StartsWith(line, "For information") || StartsWith(line, "For more information")
    || StartsWith(line, "For further information")
  }

  /** The patterns main passes: lines with any of them are skipped. */
  const ExcludePatterns: seq<string> := ["xref:", "link:", "Additional resources"]

  /** Some pattern occurs in the line (the patterns are literal text). */
  predicate Excluded(line: string, excludes: seq<string>) {
    exists p :: p in excludes && Contains(line, p)
  }

  /** `re.search(r'"([^"]+)"', line)` matches at `i` with the closing quote at `q`. */
  predicate QuotedAt(line: string, i: int, q: int) {
    0 <= i && i + 1 < q < |line| && line[i] == '"' && line[q] == '"' && Avoids(line, '"', i + 1, q)
  }

  /** The leftmost match that starts at or after `from`: the search tries each start in
      turn, and a start needs a `"`, a character other than `"`, and a closing `"`. */
  function QuotedFrom(line: string, from: nat): Option<string>
    requires from <= |line|
    decreases |line| - from
  {
    if from + 1 >= |line| then None
    else if line[from] == '"' && line[from + 1] != '"' && FirstIndexOf(line, '"', from + 1) < |line| then
      Some(line[from + 1..FirstIndexOf(line, '"', from + 1)])
    else QuotedFrom(line, from + 1)
  }

  /** The title quoted first in the line. */
  function FirstQuoted(line: string): Option<string> {
    QuotedFrom(line, 0)
  }

  /** Where the test of QuotedFrom fails, no match starts. */
  lemma NoQuoteAt(line: string, from: nat, q: int)
    requires from + 1 < |line|
    requires !(line[from] == '"' && line[from + 1] != '"' && FirstIndexOf(line, '"', from + 1) < |line|)
    ensures !QuotedAt(line, from, q)
  {
  }

  /** QuotedFrom finds nothing exactly when no match starts at or after `from`, and
      otherwise the text of the leftmost such match. */
  lemma {:induction false} QuotedFromSpec(line: string, from: nat)
    requires from <= |line|
    ensures QuotedFrom(line, from).None? <==> forall i, q :: from <= i ==> !QuotedAt(line, i, q)
    ensures QuotedFrom(line, from).Some? ==>
              exists i, q :: from <= i && QuotedAt(line, i, q) && QuotedFrom(line, from).value == line[i + 1..q]
                             && forall i', q' :: from <= i' && QuotedAt(line, i', q') ==> i <= i'
    decreases |line| - from
  {
    if from + 1 >= |line| {
    } else if line[from] == '"' && line[from + 1] != '"' && FirstIndexOf(line, '"', from + 1) < |line| {
      var q := FirstIndexOf(line, '"', from + 1);
      assert QuotedAt(line, from, q);
    } else {
      QuotedFromSpec(line, from + 1);
      forall q ensures !QuotedAt(line, from, q) {
        NoQuoteAt(line, from, q);
      }
    }
  }

  /** `re.search(r'"([^"]+)"', line)`: no title exactly when the line has no match, and
      otherwise the group of the leftmost match. */
  lemma FirstQuotedSpec(line: string)
    ensures FirstQuoted(line).None? <==> forall i, q :: !QuotedAt(line, i, q)
    ensures FirstQuoted(line).Some? ==>
              exists i, q :: QuotedAt(line, i, q) && FirstQuoted(line).value == line[i + 1..q]
                             && forall i', q' :: QuotedAt(line, i', q') ==> i <= i'
  {
    QuotedFromSpec(line, 0);
  }

  /** `For more information, see "<title>".`, with no quote in the title, yields the
      title. */
  lemma QuotedTitleExample(head: string, title: string, tail: string)
    requires '"' !in head && title != [] && '"' !in title
    ensures FirstQuoted(head + "\"" + title + "\"" + tail) == Some(title)
  {
    var line := head + "\"" + title + "\"" + tail;
    var i, q := |head|, |head| + 1 + |title|;
    assert line[i + 1..q] == title;
    forall k | i + 1 <= k < q ensures line[k] != '"' {
      assert line[k] == title[k - i - 1];
      assert title[k - i - 1] in title;
    }
    forall k | 0 <= k < i ensures line[k] != '"' {
      assert line[k] == head[k];
      assert head[k] in head;
    }
    assert QuotedAt(line, i, q);
    FirstQuotedSpec(line);
  }

  /** An empty pair of quotes gives no title; the search goes on after it. */
  lemma EmptyQuotesSkipped()
    ensures FirstQuoted("\"\"x\"") == Some("x")
  {
    var line := "\"\"x\"";
    assert line[2..3] == "x";
  }

  /** The title a line offers: it must be a reference line with a quote in it, contain
      none of the excluded patterns, and quote a non-empty title. */
  function CandidateTitle(line: string, excludes: seq<string>): Option<string> {
    if IsReferenceLine(line) && '"' in line && !Excluded(line, excludes) then FirstQuoted(line)
    else None
  }

  /** A line offers a title exactly when it is a reference line free of the excluded
      patterns with a quoted run in it (so the test for a `"` adds nothing), and the title
      is the leftmost quoted run. */
  lemma CandidateTitleSpec(line: string, excludes: seq<string>)
    ensures CandidateTitle(line, excludes).Some? <==>
              IsReferenceLine(line) && !Excluded(line, excludes) && exists i, q :: QuotedAt(line, i, q)
    ensures CandidateTitle(line, excludes).Some? ==>
              exists i, q :: QuotedAt(line, i, q) && CandidateTitle(line, excludes).value == line[i + 1..q]
                             && forall i', q' :: QuotedAt(line, i', q') ==> i <= i'
  {
    FirstQuotedSpec(line);
    if exists i, q :: QuotedAt(line, i, q) {
      var i, q :| QuotedAt(line, i, q);
      assert line[i] in line;
    }
  }

  /** An entry of the unmatched-titles list. */
  datatype Unmatched = Unmatched(path: string, title: string)

  /** The entries process_file adds for the first `n` lines of a file: one per offered
      title that no heading of the walk contains, in line order. */
  function FileUnmatched(path: string, lines: seq<string>, excludes: seq<string>,
                         walk: seq<WalkEntry>): (r: seq<Unmatched>)
    ensures |r| <= |lines|
  {
    if lines == [] then []
    else
      var n := |lines| - 1;
      FileUnmatched(path, lines[..n], excludes, walk) + LineUnmatched(path, lines[n], excludes, walk)
  }

  /** The entry one line adds, if any. */
  function LineUnmatched(path: string, line: string, excludes: seq<string>,
                         walk: seq<WalkEntry>): (r: seq<Unmatched>)
    ensures |r| <= 1
  {
    match CandidateTitle(line, excludes)
    case None => []
    case Some(title) => if HeadingFound(title, walk) then [] else [Unmatched(path, title)]
  }

  /** An entry is added exactly for a line that offers its title when no heading
      contains that title, and it carries the file's path. */
  lemma {:induction false} FileUnmatchedMembers(path: string, lines: seq<string>,
                                                excludes: seq<string>, walk: seq<WalkEntry>, u: Unmatched)
    ensures u in FileUnmatched(path, lines, excludes, walk) <==>
            u.path == path && !HeadingFound(u.title, walk)
            && exists k :: 0 <= k < |lines| && CandidateTitle(lines[k], excludes) == Some(u.title)
    decreases |lines|
  {
    if lines != [] {
      var n := |lines| - 1;
      var t := u.title;
      assert u in FileUnmatched(path, lines, excludes, walk) <==>
             u in FileUnmatched(path, lines[..n], excludes, walk)
             || u in LineUnmatched(path, lines[n], excludes, walk);
      assert u in LineUnmatched(path, lines[n], excludes, walk) <==>
             u.path == path && !HeadingFound(t, walk) && CandidateTitle(lines[n], excludes) == Some(t);
      FileUnmatchedMembers(path, lines[..n], excludes, walk, u);
      OffersSnoc(lines, lines[..n], excludes, t);
    }
  }

  /** Some line of `lines` offers `t` exactly when one before the last does or the
      last does. */
  lemma OffersSnoc(lines: seq<string>, init: seq<string>, excludes: seq<string>, t: string)
    requires lines != [] && init == lines[..|lines| - 1]
    ensures (exists k :: 0 <= k < |lines| && CandidateTitle(lines[k], excludes) == Some(t)) <==>
            (exists k :: 0 <= k < |init| && CandidateTitle(init[k], excludes) == Some(t))
            || CandidateTitle(lines[|lines| - 1], excludes) == Some(t)
  {
    var n := |lines| - 1;
    if exists k :: 0 <= k < |lines| && CandidateTitle(lines[k], excludes) == Some(t) {
      var k :| 0 <= k < |lines| && CandidateTitle(lines[k], excludes) == Some(t);
      if k < n {
        assert init[k] == lines[k];
      }
    }
    if exists k :: 0 <= k < n && CandidateTitle(init[k], excludes) == Some(t) {
      var k :| 0 <= k < n && CandidateTitle(init[k], excludes) == Some(t);
      assert init[k] == lines[k];
    }
  }

  /** The unmatched titles found so far. */
  class UnmatchedTitles {
    var entries: seq<Unmatched>

    constructor ()
      ensures entries == []
    {
      entries := [];
    }

    /** process_file: each offered title is searched for, and appended with the file's
        path when no heading contains it; the entries already there stay as they are. */
    method ProcessFile(path: string, lines: seq<string>, excludes: seq<string>, walk: seq<WalkEntry>)
      modifies this
      ensures entries == old(entries) + FileUnmatched(path, lines, excludes, walk)
    {
      ghost var start := entries;
      var k := 0;
      while k < |lines|
        invariant 0 <= k <= |lines|
        invariant entries == start + FileUnmatched(path, lines[..k], excludes, walk)
      {
        ghost var prev := entries;
        ProcessLine(path, lines[k], excludes, walk);
        assert entries == start + FileUnmatched(path, lines[..k + 1], excludes, walk) by {
          assert lines[..k + 1][..k] == lines[..k];
          AppendAssoc(start, FileUnmatched(path, lines[..k], excludes, walk),
                      LineUnmatched(path, lines[k], excludes, walk));
        }
        k := k + 1;
      }
      assert lines[..k] == lines;
    }

    /** The body of process_file's loop: the title a line offers is appended when no
        heading contains it. */
    method ProcessLine(path: string, line: string, excludes: seq<string>, walk: seq<WalkEntry>)
      modifies this
      ensures entries == old(entries) + LineUnmatched(path, line, excludes, walk)
    {
      if IsReferenceLine(line) && '"' in line {
        if !Excluded(line, excludes) {
          var m := FirstQuoted(line);
          if m.Some? {
            var title := m.value;
            var headingFound := SearchForHeadingInDirectory(title, walk);
            if !headingFound {
              entries := entries + [Unmatched(path, title)];
              return;
            }
          }
        }
      }
      assert entries == entries + [];
    }
  }

  /** What main adds for one walked file: the entries of process_file for an `.adoc`
      file, nothing for any other. */
  function WalkedUnmatched(w: Walked, excludes: seq<string>, walk: seq<WalkEntry>): seq<Unmatched> {
    if IsAdoc(w.file.name) then FileUnmatched(w.path, w.file.lines, excludes, walk) else []
  }

  /** What the listed files add, one file after another. */
  function ListedUnmatched(ws: seq<Walked>, excludes: seq<string>, walk: seq<WalkEntry>): seq<Unmatched> {
    if ws == [] then []
    else ListedUnmatched(ws[..|ws| - 1], excludes, walk) + WalkedUnmatched(ws[|ws| - 1], excludes, walk)
  }

  /** Two parts of a listing add what each adds, in order. */
  lemma {:induction false} ListedUnmatchedAppend(a: seq<Walked>, b: seq<Walked>,
                                                 excludes: seq<string>, walk: seq<WalkEntry>)
    ensures ListedUnmatched(a + b, excludes, walk)
            == ListedUnmatched(a, excludes, walk) + ListedUnmatched(b, excludes, walk)
    decreases |b|
  {
    if b == [] {
      assert a + b == a;
    } else {
      var n := |b| - 1;
      calc {
        ListedUnmatched(a + b, excludes, walk);
        { assert (a + b)[..|a + b| - 1] == a + b[..n]; assert (a + b)[|a + b| - 1] == b[n]; }
        ListedUnmatched(a + b[..n], excludes, walk) + WalkedUnmatched(b[n], excludes, walk);
        { ListedUnmatchedAppend(a, b[..n], excludes, walk); }
        ListedUnmatched(a, excludes, walk) + ListedUnmatched(b[..n], excludes, walk)
          + WalkedUnmatched(b[n], excludes, walk);
      }
    }
  }

  /** One more walked file adds what that file adds. */
  lemma ListedUnmatchedSnoc(ws: seq<Walked>, w: Walked, excludes: seq<string>, walk: seq<WalkEntry>)
    ensures ListedUnmatched(ws + [w], excludes, walk)
            == ListedUnmatched(ws, excludes, walk) + WalkedUnmatched(w, excludes, walk)
  {
    assert (ws + [w])[..|ws|] == ws;
  }

  /** One more file of an entry adds what that file adds. */
  lemma EntryStep(dirpath: string, files: seq<File>, j: int, excludes: seq<string>, walk: seq<WalkEntry>)
    requires 0 <= j < |files|
    ensures ListedUnmatched(EntryListing(dirpath, files[..j + 1]), excludes, walk)
            == ListedUnmatched(EntryListing(dirpath, files[..j]), excludes, walk)
               + WalkedUnmatched(Walked(JoinPath(dirpath, files[j].name), files[j]), excludes, walk)
  {
    EntryListingSnoc(dirpath, files, j);
    ListedUnmatchedSnoc(EntryListing(dirpath, files[..j]), Walked(JoinPath(dirpath, files[j].name), files[j]),
                        excludes, walk);
  }

  /** One more entry of the walk adds what its files add. */
  lemma WalkStep(walk: seq<WalkEntry>, i: int, excludes: seq<string>)
    requires 0 <= i < |walk|
    ensures ListedUnmatched(Listing(walk[..i + 1]), excludes, walk)
            == ListedUnmatched(Listing(walk[..i]), excludes, walk)
               + ListedUnmatched(EntryListing(walk[i].dirpath, walk[i].files), excludes, walk)
  {
    ListingSnoc(walk, i);
    ListedUnmatchedAppend(Listing(walk[..i]), EntryListing(walk[i].dirpath, walk[i].files), excludes, walk);
  }

  /** The body of main's inner loop: a file is processed when it is an `.adoc` file. */
  method ProcessWalked(titles: UnmatchedTitles, dirpath: string, file: File, walk: seq<WalkEntry>)
    modifies titles
    ensures titles.entries
            == old(titles.entries) + WalkedUnmatched(Walked(JoinPath(dirpath, file.name), file), ExcludePatterns, walk)
  {
    if IsAdoc(file.name) {
      var filePath := JoinPath(dirpath, file.name);
      titles.ProcessFile(filePath, file.lines, ExcludePatterns, walk);
    } else {
      assert titles.entries == titles.entries + [];
    }
  }

  /** The inner loop of main: every `.adoc` file of one walk entry is processed, in
      the entry's order. */
  method ProcessEntry(titles: UnmatchedTitles, dirpath: string, files: seq<File>, walk: seq<WalkEntry>)
    modifies titles
    ensures titles.entries
            == old(titles.entries) + ListedUnmatched(EntryListing(dirpath, files), ExcludePatterns, walk)
  {
    ghost var before := titles.entries;
    var j := 0;
    while j < |files|
      invariant 0 <= j <= |files|
      invariant titles.entries == before + ListedUnmatched(EntryListing(dirpath, files[..j]), ExcludePatterns, walk)
    {
      ghost var prev := titles.entries;
      ProcessWalked(titles, dirpath, files[j], walk);
      assert titles.entries == before + ListedUnmatched(EntryListing(dirpath, files[..j + 1]), ExcludePatterns, walk) by {
        EntryStep(dirpath, files, j, ExcludePatterns, walk);
        AppendAssoc(before, ListedUnmatched(EntryListing(dirpath, files[..j]), ExcludePatterns, walk),
                    WalkedUnmatched(Walked(JoinPath(dirpath, files[j].name), files[j]), ExcludePatterns, walk));
      }
      j := j + 1;
    }
    assert files[..j] == files;
  }

  /** main: every `.adoc` file of the walk is processed in walk order against the same
      walk; the result is the unmatched-titles list. */
  method FindMismatchedTitles(walk: seq<WalkEntry>) returns (unmatched: seq<Unmatched>)
    ensures unmatched == ListedUnmatched(Listing(walk), ExcludePatterns, walk)
  {
    var titles := new UnmatchedTitles();
    var i := 0;
    while i < |walk|
      invariant 0 <= i <= |walk|
      invariant titles.entries == ListedUnmatched(Listing(walk[..i]), ExcludePatterns, walk)
    {
      ProcessEntry(titles, walk[i].dirpath, walk[i].files, walk);
      assert titles.entries == ListedUnmatched(Listing(walk[..i + 1]), ExcludePatterns, walk) by {
        WalkStep(walk, i, ExcludePatterns);
      }
      i := i + 1;
    }
    assert walk[..i] == walk;
    unmatched := titles.entries;
  }
}
