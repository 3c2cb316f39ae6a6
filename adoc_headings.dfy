/** check_adoc_headings.py: every `(Name, File)` pair of a topic map names an AsciiDoc
    file whose first `=` line should be the heading `Name`; the pairs that fail are
    listed as discrepancies. */
module AdocHeadings {
  import opened Wrappers
  import opened Text
  import opened FileTree

  /** A YAML value as `yaml.safe_load_all` produces it: a list, a mapping (keyed by text),
      a string, or another scalar (number, boolean, null) with its Python `str()` text. */
  datatype Yaml = YList(items: seq<Yaml>) | YMap(entries: map<string, Yaml>)
                | YStr(s: string) | YScalar(text: string)

  /** A `(Name, File)` pair, holding the two values as the topic map gives them. */
  datatype Pair = Pair(name: Yaml, file: Yaml)

  // ---------------------------------------------------------------------------------
  // extract_name_and_file

  /** The pair a mapping contributes itself: one when it has both `Name` and `File`. */
  function OwnPair(m: map<string, Yaml>): (r: seq<Pair>)
    ensures |r| <= 1
    ensures r != [] <==> "Name" in m && "File" in m
    ensures r != [] ==> r[0] == Pair(m["Name"], m["File"])
  {
    if "Name" in m && "File" in m then [Pair(m["Name"], m["File"])] else []
  }

  /** The pairs of a tree: a mapping's own pair first, then those under its `Topics`
      (looked into whether or not the mapping has a pair); a list's items in order;
      nothing from a scalar. */
  function ExtractNameAndFile(data: Yaml): seq<Pair>
    decreases data
  {
    match data
    case YList(items) => ExtractItems(items)
    case YMap(m) => OwnPair(m) + (if "Topics" in m then ExtractNameAndFile(m["Topics"]) else [])
    case YStr(_) => []
    case YScalar(_) => []
  }

  /** The pairs of the items of a list, one item after another. */
  function ExtractItems(items: seq<Yaml>): seq<Pair>
    decreases items
  {
    if items == [] then [] else ExtractNameAndFile(items[0]) + ExtractItems(items[1..])
  }

  /** The mappings of a tree in pre-order: a mapping, then the mappings under its
      `Topics`; the items of a list in order. */
  function Mappings(data: Yaml): seq<map<string, Yaml>>
    decreases data
  {
    match data
    case YList(items) => ItemMappings(items)
    case YMap(m) => [m] + (if "Topics" in m then Mappings(m["Topics"]) else [])
    case YStr(_) => []
    case YScalar(_) => []
  }

  function ItemMappings(items: seq<Yaml>): seq<map<string, Yaml>>
    decreases items
  {
    if items == [] then [] else Mappings(items[0]) + ItemMappings(items[1..])
  }

  /** The own pairs of a sequence of mappings, in order. */
  function OwnPairs(ms: seq<map<string, Yaml>>): (r: seq<Pair>)
    ensures |r| <= |ms|
  {
    if ms == [] then [] else OwnPair(ms[0]) + OwnPairs(ms[1..])
  }

  lemma {:induction false} OwnPairsAppend(a: seq<map<string, Yaml>>, b: seq<map<string, Yaml>>)
    ensures OwnPairs(a + b) == OwnPairs(a) + OwnPairs(b)
  {
    if a == [] {
      assert a + b == b;
    } else {
      assert (a + b)[1..] == a[1..] + b;
      OwnPairsAppend(a[1..], b);
    }
  }

  /** The pairs are the own pairs of the tree's mappings taken in pre-order; so there are
      never more pairs than mappings. */
  lemma {:induction false} ExtractIsPreOrder(data: Yaml)
    ensures ExtractNameAndFile(data) == OwnPairs(Mappings(data))
    ensures |ExtractNameAndFile(data)| <= |Mappings(data)|
    decreases data
  {
    match data
    case YList(items) => ItemsArePreOrder(items);
    case YMap(m) =>
      var sub := if "Topics" in m then Mappings(m["Topics"]) else [];
      if "Topics" in m {
        ExtractIsPreOrder(m["Topics"]);
      }
      OwnPairsAppend([m], sub);
      assert OwnPairs([m]) == OwnPair(m) by {
        assert OwnPairs([m]) == OwnPair(m) + OwnPairs([]);
      }
    case YStr(_) =>
    case YScalar(_) =>
  }

  lemma {:induction false} ItemsArePreOrder(items: seq<Yaml>)
    ensures ExtractItems(items) == OwnPairs(ItemMappings(items))
    decreases items
  {
    if items != [] {
      ExtractIsPreOrder(items[0]);
      ItemsArePreOrder(items[1..]);
      OwnPairsAppend(Mappings(items[0]), ItemMappings(items[1..]));
    }
  }

  /** A list of two parts gives the pairs of the first part, then those of the second. */
  lemma {:induction false} ExtractItemsAppend(a: seq<Yaml>, b: seq<Yaml>)
    ensures ExtractItems(a + b) == ExtractItems(a) + ExtractItems(b)
  {
    if a == [] {
      assert a + b == b;
    } else {
      assert (a + b)[1..] == a[1..] + b;
      ExtractItemsAppend(a[1..], b);
    }
  }

  /** A mapping without `Name` or without `File` still contributes what its `Topics`
      holds. */
  lemma UnnamedMappingKeepsTopics(m: map<string, Yaml>, topics: Yaml)
    requires "Name" !in m || "File" !in m
    ensures ExtractNameAndFile(YMap(m["Topics" := topics])) == ExtractNameAndFile(topics)
  {
    var m' := m["Topics" := topics];
    assert "Name" !in m' || "File" !in m';
  }

  /** The pairs of all the documents of the topic map file, one document after another. */
  function AllPairs(documents: seq<Yaml>): seq<Pair> {
    if documents == [] then []
    else AllPairs(documents[..|documents| - 1]) + ExtractNameAndFile(documents[|documents| - 1])
  }

  /** All the documents together give the pairs of the list of them. */
  lemma {:induction false} AllPairsIsItems(documents: seq<Yaml>)
    ensures AllPairs(documents) == ExtractItems(documents)
    decreases |documents|
  {
    if documents != [] {
      var n := |documents| - 1;
      AllPairsIsItems(documents[..n]);
      ExtractItemsAppend(documents[..n], [documents[n]]);
      assert documents[..n] + [documents[n]] == documents;
      assert ExtractItems([documents[n]]) == ExtractNameAndFile(documents[n]) + ExtractItems([]);
    }
  }

  // ---------------------------------------------------------------------------------
  // find_adoc_file

  /** The text `f"{value}"` gives for a scalar; None for a list or a mapping. */
  function ScalarText(y: Yaml): Option<string> {
    match y
    case YStr(s) => Some(s)
    case YScalar(text) => Some(text)
    case _ => None
  }

  /** `ws[i]` is the first walked file called `target`. */
  predicate FirstNamed(ws: seq<Walked>, target: string, i: int) {
    0 <= i < |ws| && ws[i].file.name == target
    && forall j :: 0 <= j < i ==> ws[j].file.name != target
  }

  /** The first walked file called `target`, or None. */
  function FindNamed(ws: seq<Walked>, target: string): Option<Walked> {
    if ws == [] then None
    else if ws[0].file.name == target then Some(ws[0])
    else FindNamed(ws[1..], target)
  }

  /** FindNamed finds nothing exactly when no file has the name, and otherwise the first
      file that has it. */
  lemma {:induction false} FindNamedSpec(ws: seq<Walked>, target: string)
    ensures FindNamed(ws, target).None? <==> forall i :: 0 <= i < |ws| ==> ws[i].file.name != target
    ensures FindNamed(ws, target).Some? ==>
              exists i :: FirstNamed(ws, target, i) && FindNamed(ws, target).value == ws[i]
  {
    if ws != [] {
      if ws[0].file.name == target {
        assert FirstNamed(ws, target, 0);
      } else {
        FindNamedSpec(ws[1..], target);
        assert forall i :: 1 <= i < |ws| ==> ws[i] == ws[1..][i - 1];
        if FindNamed(ws[1..], target).Some? {
          var i :| FirstNamed(ws[1..], target, i) && FindNamed(ws[1..], target).value == ws[1..][i];
          assert FirstNamed(ws, target, i + 1);
        }
      }
    }
  }

  /** find_adoc_file: the first file of the walk whose bare name is `<fileName>.adoc`,
      with its joined path; the path ends in that name, so it is never empty. */
  function FindAdocFile(walk: seq<WalkEntry>, fileName: string): (r: Option<Walked>)
    ensures r.Some? ==> EndsWith(r.value.path, fileName + ".adoc") && r.value.path != []
  {
    var r := FindNamed(Listing(walk), fileName + ".adoc");
    if r.Some? then
      FindNamedSpec(Listing(walk), fileName + ".adoc");
      var i :| FirstNamed(Listing(walk), fileName + ".adoc", i) && r.value == Listing(walk)[i];
      ListedPath(walk, i);
      r
    else r
  }

  /** find_adoc_file finds nothing exactly when no walked file is called
      `<fileName>.adoc`, and otherwise the first walked file that is. */
  lemma FindAdocFileSpec(walk: seq<WalkEntry>, fileName: string)
    ensures FindAdocFile(walk, fileName).None?
            <==> forall i :: 0 <= i < |Listing(walk)| ==> Listing(walk)[i].file.name != fileName + ".adoc"
    ensures FindAdocFile(walk, fileName).Some? ==>
              exists i :: FirstNamed(Listing(walk), fileName + ".adoc", i)
                          && FindAdocFile(walk, fileName).value == Listing(walk)[i]
  {
    FindNamedSpec(Listing(walk), fileName + ".adoc");
    assert FindAdocFile(walk, fileName) == FindNamed(Listing(walk), fileName + ".adoc");
  }

  /** Each listed file's path ends in the file's name. */
  lemma {:induction false} ListedPath(walk: seq<WalkEntry>, i: int)
    requires 0 <= i < |Listing(walk)|
    ensures EndsWith(Listing(walk)[i].path, Listing(walk)[i].file.name)
    decreases |walk|
  {
    var head := EntryListing(walk[0].dirpath, walk[0].files);
    if i >= |head| {
      ListedPath(walk[1..], i - |head|);
    }
  }

  // ---------------------------------------------------------------------------------
  // check_heading

  /** Python's `s[n:]`: empty when `s` is shorter. */
  function DropFirst(s: string, n: nat): (r: string)
    ensures |s| <= n ==> r == []
    ensures |s| > n ==> r == s[n..]
  {
    if |s| <= n then [] else s[n..]
  }

  /** A line whose first character other than whitespace is `=`. */
  predicate IsHeadingLine(line: string) {
    var n := SpaceEnd(line, 0);
    n < |line| && line[n] == '='
  }

  /** The heading lines are those that start with `=` once stripped. */
  lemma HeadingLineIff(line: string)
    ensures IsHeadingLine(line) <==> StartsWith(Strip(line), "=")
  {
    StripSlice(line);
    var r := Strip(line);
    var lo :| StripsTo(line, lo, r);
    var n := SpaceEnd(line, 0);
    if r != [] {
      assert line[lo] == r[0];
      assert n == lo;
      assert StartsWith(r, "=") <==> r[0] == '=';
    }
  }

  /** The heading read off such a line: its first two characters dropped, then stripped. */
  function HeadingText(line: string): (r: string)
    ensures r == [] || (!IsSpace(r[0]) && !IsSpace(r[|r| - 1]))
  {
    Strip(DropFirst(Strip(line), 2))
  }

  /** `lines[i]` is the first heading line. */
  predicate FirstHeadingLine(lines: seq<string>, i: int) {
    0 <= i < |lines| && IsHeadingLine(lines[i])
    && forall j :: 0 <= j < i ==> !IsHeadingLine(lines[j])
  }

  /** The index of the first heading line at or after `from`, or -1 when there is none. */
  function FirstHeadingFrom(lines: seq<string>, from: nat): (r: int)
    requires from <= |lines|
    ensures r == -1 || from <= r < |lines|
    decreases |lines| - from
  {
    if from == |lines| then -1
    else if IsHeadingLine(lines[from]) then from
    else FirstHeadingFrom(lines, from + 1)
  }

  /** FirstHeadingFrom gives -1 exactly when no line from `from` on is a heading line,
      and otherwise the first one. */
  lemma {:induction false} FirstHeadingFromSpec(lines: seq<string>, from: nat)
    requires from <= |lines|
    ensures var r := FirstHeadingFrom(lines, from);
            && (r == -1 <==> forall i :: from <= i < |lines| ==> !IsHeadingLine(lines[i]))
            && (r != -1 ==> IsHeadingLine(lines[r]) && forall j :: from <= j < r ==> !IsHeadingLine(lines[j]))
    decreases |lines| - from
  {
    if from < |lines| && !IsHeadingLine(lines[from]) {
      FirstHeadingFromSpec(lines, from + 1);
    }
  }

  /** The heading of the first `=` line, or None when there is no such line. */
  function FirstHeading(lines: seq<string>): Option<string> {
    var i := FirstHeadingFrom(lines, 0);
    if i == -1 then None else Some(HeadingText(lines[i]))
  }

  /** There is no heading exactly when no line is a heading line, and otherwise it is
      the text of the first heading line. */
  lemma FirstHeadingSpec(lines: seq<string>)
    ensures FirstHeading(lines).None? <==> forall i :: 0 <= i < |lines| ==> !IsHeadingLine(lines[i])
    ensures FirstHeading(lines).Some? ==>
              exists i :: FirstHeadingLine(lines, i) && FirstHeading(lines).value == HeadingText(lines[i])
  {
    FirstHeadingFromSpec(lines, 0);
    var i := FirstHeadingFrom(lines, 0);
    if i != -1 {
      assert FirstHeadingLine(lines, i);
    }
  }

  /** What check_heading returns: whether the heading matches, and the heading. */
  datatype HeadingCheck = HeadingCheck(matches: bool, actual: Option<string>)

  /** check_heading on the lines of a file: the first heading, and whether it equals the
      expected one (a value that is not a string never does); `(False, None)` when no
      line is a heading. A read error leaves the lines read before it, which give the same
      `(False, None)` unless a heading came first. */
  function CheckHeading(lines: seq<string>, expected: Yaml): (r: HeadingCheck)
    ensures r.actual == FirstHeading(lines)
    ensures r.matches <==> r.actual.Some? && expected == YStr(r.actual.value)
    ensures r.actual.None? ==> r == HeadingCheck(false, None)
  {
    match FirstHeading(lines)
    case None => HeadingCheck(false, None)
    case Some(h) => HeadingCheck(expected == YStr(h), Some(h))
  }

  /** `== Foo` gives the heading `Foo`. */
  lemma SectionHeadingDropsMarker(foo: string)
    requires foo != [] && !IsSpace(foo[0]) && !IsSpace(foo[|foo| - 1])
    ensures HeadingText("== " + foo) == foo
  {
    StripsItself("== " + foo);
    assert DropFirst("== " + foo, 2) == " " + foo;
    StripsLeadingSpace(foo);
  }

  /** `=== Foo` gives the heading `= Foo`: only two characters are dropped. */
  lemma DeeperHeadingKeepsMarker(foo: string)
    requires foo != [] && !IsSpace(foo[|foo| - 1])
    ensures HeadingText("=== " + foo) == "= " + foo
  {
    StripsItself("=== " + foo);
    assert DropFirst("=== " + foo, 2) == "= " + foo;
    StripsItself("= " + foo);
  }

  /** A string not beginning or ending with whitespace strips to itself. */
  lemma StripsItself(s: string)
    requires s != [] && !IsSpace(s[0]) && !IsSpace(s[|s| - 1])
    ensures Strip(s) == s
  {
    var r := Strip(s);
    StripSlice(s);
    var lo :| StripsTo(s, lo, r);
  }

  /** One leading space goes, and nothing else, from a string that has no whitespace at
      either end. */
  lemma StripsLeadingSpace(s: string)
    requires s != [] && !IsSpace(s[0]) && !IsSpace(s[|s| - 1])
    ensures Strip(" " + s) == s
  {
    var t := " " + s;
    var r := Strip(t);
    StripSlice(t);
    var lo :| StripsTo(t, lo, r);
  }

  // ---------------------------------------------------------------------------------
  // The discrepancy list of main

  /** One entry of the discrepancy list. */
  datatype Discrepancy = Discrepancy(expected: Yaml, file: Yaml, actual: Option<string>, path: string)

  /** The `Path` of an entry whose file was not found. */
  const NotFound: string := "File not found"

  /** The file a pair's `File` value names, if any. */
  function FileOfPair(p: Pair, walk: seq<WalkEntry>): Option<Walked> {
    match ScalarText(p.file)
    case None => None
    case Some(name) => FindAdocFile(walk, name)
  }

  /** The entry the loop of main adds for one pair. */
  function DiscrepancyOf(p: Pair, walk: seq<WalkEntry>): Option<Discrepancy> {
    match FileOfPair(p, walk)
    case None => Some(Discrepancy(p.name, p.file, None, NotFound))
    case Some(w) =>
      var check := CheckHeading(w.file.lines, p.name);
      if check.matches then None else Some(Discrepancy(p.name, p.file, check.actual, w.path))
  }

  /** A pair adds nothing exactly when its file is found and the heading matches; an
      entry carries the pair's name and file, and either `File not found` or the found
      file's path and first heading. */
  lemma DiscrepancyOfSpec(p: Pair, walk: seq<WalkEntry>)
    ensures var r := DiscrepancyOf(p, walk); var found := FileOfPair(p, walk);
            && (r.None? <==> found.Some? && CheckHeading(found.value.file.lines, p.name).matches)
            && (r.Some? ==> r.value.expected == p.name && r.value.file == p.file)
            && (found.None? ==> r == Some(Discrepancy(p.name, p.file, None, NotFound)))
            && (found.Some? && r.Some? ==>
                  r.value.path == found.value.path && r.value.actual == FirstHeading(found.value.file.lines))
  {
  }

  /** The entries of the pairs, in pair order. */
  function Discrepancies(pairs: seq<Pair>, walk: seq<WalkEntry>): (r: seq<Discrepancy>)
    ensures |r| <= |pairs|
  {
    if pairs == [] then []
    else
      var n := |pairs| - 1;
      Discrepancies(pairs[..n], walk) + EntriesOf(pairs[n], walk)
  }

  /** The entry of one pair, as a list of zero or one entries. */
  function EntriesOf(p: Pair, walk: seq<WalkEntry>): seq<Discrepancy> {
    match DiscrepancyOf(p, walk) case None => [] case Some(d) => [d]
  }

  /** One more pair adds its entry. */
  lemma DiscrepanciesSnoc(pairs: seq<Pair>, walk: seq<WalkEntry>, k: int)
    requires 0 <= k < |pairs|
    ensures Discrepancies(pairs[..k + 1], walk) == Discrepancies(pairs[..k], walk) + EntriesOf(pairs[k], walk)
  {
    assert pairs[..k + 1][..k] == pairs[..k];
  }

  /** An entry is on the list exactly when some pair adds it. */
  lemma {:induction false} DiscrepancyMembers(pairs: seq<Pair>, walk: seq<WalkEntry>, d: Discrepancy)
    ensures d in Discrepancies(pairs, walk) <==>
            exists i :: 0 <= i < |pairs| && DiscrepancyOf(pairs[i], walk) == Some(d)
    decreases |pairs|
  {
    if pairs != [] {
      var n := |pairs| - 1;
      DiscrepancyMembers(pairs[..n], walk, d);
      DiscrepanciesSnoc(pairs, walk, n);
      assert pairs[..n + 1] == pairs;
      assert d in EntriesOf(pairs[n], walk) <==> DiscrepancyOf(pairs[n], walk) == Some(d);
      forall i | 0 <= i < n ensures pairs[..n][i] == pairs[i] {
      }
    }
  }

  /** The list is empty exactly when every pair's file is found with the expected
      heading. */
  lemma NoDiscrepancies(pairs: seq<Pair>, walk: seq<WalkEntry>)
    ensures Discrepancies(pairs, walk) == [] <==>
            forall i :: 0 <= i < |pairs| ==>
              FileOfPair(pairs[i], walk).Some?
              && CheckHeading(FileOfPair(pairs[i], walk).value.file.lines, pairs[i].name).matches
  {
    var ds := Discrepancies(pairs, walk);
    if ds != [] {
      DiscrepancyMembers(pairs, walk, ds[0]);
    }
    forall i | 0 <= i < |pairs| && DiscrepancyOf(pairs[i], walk).Some?
      ensures ds != []
    {
      DiscrepancyMembers(pairs, walk, DiscrepancyOf(pairs[i], walk).value);
    }
  }

  /** The pairs of the documents, then one entry for every pair whose file is missing or
      whose heading differs, in pair order. */
  method CheckTopicMap(documents: seq<Yaml>, walk: seq<WalkEntry>)
    returns (discrepancies: seq<Discrepancy>)
    ensures discrepancies == Discrepancies(AllPairs(documents), walk)
  {
    if documents == [] {
      return [];
    }
    var pairs: seq<Pair> := [];
    var i := 0;
    while i < |documents|
      invariant 0 <= i <= |documents|
      invariant pairs == AllPairs(documents[..i])
    {
      assert documents[..i + 1][..i] == documents[..i];
      pairs := pairs + ExtractNameAndFile(documents[i]);
      i := i + 1;
    }
    assert documents[..i] == documents;
    if pairs == [] {
      return [];
    }
    discrepancies := [];
    var k := 0;
    while k < |pairs|
      invariant 0 <= k <= |pairs|
      invariant discrepancies == Discrepancies(pairs[..k], walk)
    {
      var added := CheckPair(pairs[k], walk);
      DiscrepanciesSnoc(pairs, walk, k);
      discrepancies := discrepancies + added;
      k := k + 1;
    }
    assert pairs[..k] == pairs;
  }

  /** The body of main's second loop: the entries one pair adds to the list. */
  method CheckPair(p: Pair, walk: seq<WalkEntry>) returns (added: seq<Discrepancy>)
    ensures added == EntriesOf(p, walk)
  {
    added := [];
    var name, file := p.name, p.file;
    var adocPath := FileOfPair(p, walk);
    if adocPath.Some? && adocPath.value.path != [] {
      var check := CheckHeading(adocPath.value.file.lines, name);
      if !check.matches {
        added := [Discrepancy(name, file, check.actual, adocPath.value.path)];
      }
    } else {
      added := [Discrepancy(name, file, None, NotFound)];
    }
  }
}
