# AsciiDoc corpus tools, modelled in Dafny

This project models three small Python tools that work on an AsciiDoc documentation
repository, and proves properties of the model.

- `create-xref-from-drh.py` takes a documentation URL. It sorts the URL into one of three
  shapes: assembly/assembly, assembly/module or assembly/module_context. It does this with
  three regular expressions, tried in a fixed order. It then looks for the `.adoc` file
  that declares the anchor `[id="..."]` the shape names. Finally it writes an
  `xref:../<relative path>#<anchor>[]` macro.
- `check_adoc_headings.py` walks a parsed topic map and collects its `(Name, File)`
  pairs. For each pair it finds `<File>.adoc` in a directory tree and compares the file's
  first `=` heading with `Name`. It builds an ordered list of discrepancies.
- `find-mismatched-titles.py` reads every `.adoc` file. It picks the quoted titles out of
  "For more information" lines. It then searches every heading of every `.adoc` file for
  each title, once both are freed of inline markup. It collects the titles that no heading
  contains.

Modules, one file each:

- `Wrappers`: the option type.
- `Text`: Python's `str.strip`, `startswith`, `endswith` and `in`, plus the line
  splitting of text-mode file iteration.
- `FileTree`: `os.walk` results and `os.path.join`.
- `LinkFormat`: `check_link_format`.
- `LinkShapes`: what the three shapes look like, in both directions.
- `CreateXref`: the rest of the first tool.
- `AdocHeadings`: the second tool.
- `MismatchedTitles`: the third tool.

How the regular expressions are modelled:

- Each one is a predicate on cut positions: where `.+` stops, where each group starts and
  where it ends.
- Python's backtracking matcher with greedy quantifiers returns the valid cut tuple that
  is greatest in lexicographic order. Each matcher function is proved to return exactly
  that tuple.
- `.` does not match a newline. `[^...]` classes do.
- `re.match` is anchored at the start of the string. `re.search` takes the leftmost
  match.

Three behaviours of the code worth knowing:

- An assembly/module_context fragment `<moduleId>_<contextId>` splits at the *last* `_`
  that the greedy `([^/]+)` can reach, not at the first one
  (`LinkShapes.ContextSplitsAtLastUnderscore`).
- A URL that ends in a bare `#` is an assembly/module link, and the `#` stays in the slug
  (`LinkShapes.BareHashIsModule`).
- A file that cannot be read while searching for an anchor is not skipped. The read error
  propagates, which the model leaves out (see below).

## Model

| member | source | states |
|---|---|---|
| LinkFormat.CheckLinkFormat | create-xref-from-drh.py:37-54 | The patterns are tried assembly/assembly, then assembly/module, then assembly/module_context; the first that matches decides the shape, with the groups of the greatest match; Invalid only when no pattern matches |
| LinkFormat.CheckLinkFormatCases | create-xref-from-drh.py:39-54 | Each shape is reported exactly when its pattern matches and no earlier one does (both directions) |
| LinkFormat.AssemblySearch | create-xref-from-drh.py:39 | `.+html/([^/]+)/([^/]+)#([^_/]+)$`: finds a match iff one exists, and returns the greatest one |
| LinkFormat.ModuleSearch | create-xref-from-drh.py:40 | `.+html/([^/]+)/([^_/]+)$`: finds a match iff one exists, and returns the greatest one |
| LinkFormat.ContextSearch | create-xref-from-drh.py:41 | `.+html/([^/]+)/([^/]+)#([^/]+)_(.+)`: finds a match iff one exists, and returns the greatest one |
| LinkShapes.AssemblyIff | create-xref-from-drh.py:39 | A link is classified assembly/assembly with given groups iff it is `<pre>html/<folder>/<slug>#<anchor>`, with a one-line non-empty prefix, folder and slug free of `/`, and an anchor free of `_` and `/` that runs to the end |
| LinkShapes.ModuleIff | create-xref-from-drh.py:40-48 | A link is classified assembly/module with given groups iff it is `<pre>html/<folder>/<slug>`, with a slug free of `_` and `/` running to the end and no `#` inside it except possibly at its first or last character |
| LinkShapes.ContextShape | create-xref-from-drh.py:41-51 | Every assembly/module_context link is `<pre>html/<folder>/<slug>#<moduleId>_<contextId><rest>`, with `<rest>` empty or starting at a newline, and the split greedy |
| LinkShapes.ContextFromJoin | create-xref-from-drh.py:41 | Conversely, such a link with a context id free of `/` and `#` is classified assembly/module_context with exactly those groups |
| LinkShapes.NoHtmlIsInvalid | create-xref-from-drh.py:39-54 | A link without `html/` is invalid |
| LinkShapes.SampleLinkIsModule | create-xref-from-drh.py:101 | The prompt's example URL is an assembly/module link with folder `edge_computing` and slug `cnf-talm-for-cluster-updates` |
| LinkShapes.BareHashIsModule | create-xref-from-drh.py:39-40 | A URL ending in a bare `#` is assembly/module, with the `#` kept in the slug |
| LinkShapes.ContextSplitsAtLastUnderscore | create-xref-from-drh.py:41 | `s#proc_a_b` splits into module id `proc_a` and context id `b` |
| LinkShapes.HashInContextIdIsAssembly | create-xref-from-drh.py:39-45 | `s#m_c#d` is taken by the assembly pattern first, with slug `s#m_c` and anchor `d` |
| CreateXref.IdMarker | create-xref-from-drh.py:15 | The marker is `[id="`, the id, then `"]` |
| CreateXref.FindAdocFileWithId | create-xref-from-drh.py:13-22 | None iff no file's text contains the marker (so None for no files); otherwise the first such file in enumeration order |
| CreateXref.DeclaresIff | create-xref-from-drh.py:20 | A file declares an id iff the marker occurs at some position of its text |
| CreateXref.MarkerDeclares | create-xref-from-drh.py:15-21 | A text with the marker anywhere in it declares the id |
| CreateXref.TitleMatch | create-xref-from-drh.py:28-30 | `re.match(r'^=\s+(.+)', line)`: None iff the line has no match; otherwise the group of the greatest match |
| CreateXref.SectionLineIsNoTitle | create-xref-from-drh.py:28 | A line beginning `==` never matches |
| CreateXref.TitleOfDocumentLine | create-xref-from-drh.py:28-30 | `=`, whitespace, then text gives that text up to the end of the line |
| CreateXref.ExtractTitleOfLinesSpec | create-xref-from-drh.py:26-31 | The group of the first matching line, or "Unknown Title" when no line matches |
| CreateXref.ExtractTitleSpec | create-xref-from-drh.py:24-31 | The same, over the lines the file's text is read as |
| CreateXref.GetRelativePath | create-xref-from-drh.py:33-35 | For a path under the root, the root, `/` and the result give back the path |
| CreateXref.RelativePathInjective | create-xref-from-drh.py:33-35 | Two paths under the root with the same relative path are the same path |
| CreateXref.SearchKey | create-xref-from-drh.py:63-90 | The anchor is searched for in an assembly link, the slug otherwise |
| CreateXref.OutputAnchor | create-xref-from-drh.py:75-94 | The anchor written is the searched key, except `<moduleId>_<contextId>` for a module in a context |
| CreateXref.XrefText | create-xref-from-drh.py:75-94 | The output begins with exactly `xref:../`, ends with `[]`, and holds `<rel>#<anchor>` between them |
| CreateXref.XrefFor | create-xref-from-drh.py:60-97 | None for an invalid link; otherwise None iff no file declares the shape's search key, and else the xref to the first declaring file with the shape's output anchor |
| CreateXref.ConvertLinkToXref | create-xref-from-drh.py:56-97 | The same, stated on the link: classification first, None without search for an invalid link |
| CreateXref.FolderIsUnused | create-xref-from-drh.py:63-97 | The folder group never changes the result |
| CreateXref.AnchorIsLinkText | create-xref-from-drh.py:86-94 | The output anchor is text copied from the link right after its `#` (after the folder's `/` for a module link); `<moduleId>_<contextId>` rebuilds the fragment exactly |
| CreateXref.SampleLinkXref | create-xref-from-drh.py:76-101 | The example URL, with one file declaring its slug, gives `xref:../<rel>#cnf-talm-for-cluster-updates[]` |
| Text.StripSlice | check_adoc_headings.py:55 | `strip()` keeps a slice of the line and removes only whitespace at both ends |
| Text.Strip | check_adoc_headings.py:55 | The stripped text neither begins nor ends with whitespace |
| Text.ContainsIff | find-mismatched-titles.py:27 | Python's `in` on strings holds iff the pattern occurs at some position of the text |
| Text.LinesShape | find-mismatched-titles.py:24 | Every line yielded is non-empty, has its only newline at its end, and all but the last end with a newline |
| Text.LinesConcat | create-xref-from-drh.py:27 | The lines yielded, joined, give back the whole text |
| FileTree.JoinPath | check_adoc_headings.py:40 | `os.path.join` of two POSIX paths, case by case; the result ends with the second part |
| FileTree.JoinLastComponent | find-mismatched-titles.py:22 | Joining a directory and a `/`-free file name gives a path whose last component is that name |
| FileTree.ListingIndex | check_adoc_headings.py:37-38 | Every file of every walk entry is in the flattened listing |
| FileTree.ListingSource | check_adoc_headings.py:37-38 | Every entry of the listing is a file of some walk entry |
| FileTree.ListingAppend | find-mismatched-titles.py:67-68 | The listing of a walk in two parts is the first part's listing, then the second's |
| AdocHeadings.OwnPair | check_adoc_headings.py:25-26 | A mapping contributes its own pair iff it has both `Name` and `File`, and the pair is their values |
| AdocHeadings.ExtractIsPreOrder | check_adoc_headings.py:18-31 | The pairs are the own pairs of the tree's mappings in pre-order (a mapping before its `Topics`, list items in order, scalars contribute nothing), so never more pairs than mappings |
| AdocHeadings.ExtractItemsAppend | check_adoc_headings.py:21-23 | A list's pairs are those of its first part, then those of its second |
| AdocHeadings.UnnamedMappingKeepsTopics | check_adoc_headings.py:25-30 | A mapping missing `Name` or `File` still contributes everything under its `Topics` |
| AdocHeadings.AllPairsIsItems | check_adoc_headings.py:83-85 | The pairs of all documents together are those of the list of documents |
| AdocHeadings.FindNamedSpec | check_adoc_headings.py:37-43 | None iff no listed file has the name; otherwise the first that has it |
| AdocHeadings.FindAdocFile | check_adoc_headings.py:39-43 | A found path ends with `<file_name>.adoc` and is never empty, so the caller's truth test on it always passes |
| AdocHeadings.FindAdocFileSpec | check_adoc_headings.py:33-46 | None iff no walked file's bare name is `<file_name>.adoc`; otherwise the first walked file, in walk order, that has that name |
| AdocHeadings.HeadingText | check_adoc_headings.py:57 | The heading read off a line has no whitespace at either end |
| AdocHeadings.HeadingLineIff | check_adoc_headings.py:55-56 | A line counts as a heading line iff it starts with `=` once stripped |
| AdocHeadings.FirstHeadingFromSpec | check_adoc_headings.py:54-56 | -1 iff no line from the start index on is a heading line; otherwise the first such line |
| AdocHeadings.FirstHeadingSpec | check_adoc_headings.py:54-60 | None iff no heading line; otherwise the text of the first heading line |
| AdocHeadings.CheckHeading | check_adoc_headings.py:48-63 | The actual heading is the first heading; it matches iff it exists and equals the expected value; `(False, None)` when there is no heading line |
| AdocHeadings.SectionHeadingDropsMarker | check_adoc_headings.py:57 | `== Foo` gives the heading `Foo` |
| AdocHeadings.DeeperHeadingKeepsMarker | check_adoc_headings.py:57 | `=== Foo` gives the heading `= Foo` |
| AdocHeadings.DiscrepancyOfSpec | check_adoc_headings.py:94-111 | A pair adds nothing iff its file is found and its heading matches; a missing file gives `None` and `File not found`; a mismatch gives the actual heading and the path; the entry carries the pair's name and file |
| AdocHeadings.DiscrepancyMembers | check_adoc_headings.py:91-111 | An entry is on the list iff some pair adds it |
| AdocHeadings.NoDiscrepancies | check_adoc_headings.py:91-111 | The list is empty iff every pair's file is found with the expected heading |
| AdocHeadings.Discrepancies | check_adoc_headings.py:91-111 | The list is never longer than the list of pairs |
| AdocHeadings.CheckPair | check_adoc_headings.py:95-111 | The loop body adds exactly the entry the pair's discrepancy gives, or nothing |
| AdocHeadings.CheckTopicMap | check_adoc_headings.py:77-111 | The loop over pairs builds exactly the list of entries of the documents' pairs, in pair order (empty when there are no documents or no pairs) |
| MismatchedTitles.StripMarkup | find-mismatched-titles.py:5-9 | The result has no `` ` ``, `_`, `*` or `.`, and is no longer than the input |
| MismatchedTitles.StripMarkupCounts | find-mismatched-titles.py:9 | Every other character keeps its number of occurrences |
| MismatchedTitles.StripMarkupAppend | find-mismatched-titles.py:9 | Stripping works piece by piece, so the other characters keep their order |
| MismatchedTitles.StripMarkupKeepsPlain | find-mismatched-titles.py:9 | Text without markup is unchanged |
| MismatchedTitles.StripMarkupIdempotent | find-mismatched-titles.py:9 | Stripping twice is stripping once |
| MismatchedTitles.HeadingIff | find-mismatched-titles.py:25 | A line is a heading iff it begins with 1 to 6 `=` and then a space |
| MismatchedTitles.SevenSignsAreNoHeading | find-mismatched-titles.py:25 | Seven `=` make no heading |
| MismatchedTitles.SearchForHeadingInDirectory | find-mismatched-titles.py:12-31 | The flag ends true iff some heading line of some `.adoc` file, stripped and freed of markup, contains the title freed of markup; every line is scanned |
| MismatchedTitles.HeadingFoundIff | find-mismatched-titles.py:19-27 | The same search, stated over the flattened listing of the walk |
| MismatchedTitles.FirstQuotedSpec | find-mismatched-titles.py:44-46 | No title iff the line has no non-empty run between two `"`; otherwise the leftmost such run |
| MismatchedTitles.QuotedTitleExample | find-mismatched-titles.py:44-46 | `..."<title>"...` with no quote before it yields the title |
| MismatchedTitles.EmptyQuotesSkipped | find-mismatched-titles.py:44 | An empty `""` is skipped and the search goes on after it |
| MismatchedTitles.CandidateTitleSpec | find-mismatched-titles.py:41-46 | A line offers a title iff it starts with `For information`, `For more information` or `For further information`, contains none of the excluded patterns, and has a quoted run; the title is the leftmost quoted run |
| MismatchedTitles.FileUnmatched | find-mismatched-titles.py:38-57 | A file adds at most one entry per line |
| MismatchedTitles.FileUnmatchedMembers | find-mismatched-titles.py:53-57 | An entry is added iff some line offers its title and the search for it fails, and it carries the file's path |
| MismatchedTitles.UnmatchedTitles.constructor | find-mismatched-titles.py:65 | The list starts empty |
| MismatchedTitles.UnmatchedTitles.ProcessLine | find-mismatched-titles.py:41-57 | One line appends the entry it offers, if any, after the old entries |
| MismatchedTitles.UnmatchedTitles.ProcessFile | find-mismatched-titles.py:34-57 | The list only grows: the old entries stay as they are, and the file's entries follow in line order |
| MismatchedTitles.ProcessWalked | find-mismatched-titles.py:69-71 | An `.adoc` file appends its entries; any other file changes nothing |
| MismatchedTitles.ProcessEntry | find-mismatched-titles.py:68-71 | One walk entry appends the entries of its files, in file order |
| MismatchedTitles.ListedUnmatchedAppend | find-mismatched-titles.py:67-71 | Two parts of the listing add what each part adds, in order |
| MismatchedTitles.FindMismatchedTitles | find-mismatched-titles.py:60-71 | The list holds the entries of every `.adoc` file of the walk, in walk order, against the same walk |

## Left out

- Interactive and operating-system plumbing is not modelled: `input()`, `sys.exit`, the
  `isdir`/`isfile` checks, argument parsing, every `print`, and the `debug` flag, which
  only changes output. The root directory and the URL become parameters.
- `yaml.safe_load_all` is not modelled. Its result is given as a `Yaml` tree of lists,
  string-keyed mappings, strings and other scalars.
- Filesystem traversal and reading are not modelled. The corpus is given as values:
  - for `Path.rglob`, a sequence of files with path and text, in an order taken as given;
  - for `os.walk`, a sequence of entries with directory path and files, each file with its
    lines as text-mode iteration yields them.
  Decoding is not modelled: neither the UTF-8 that `find-mismatched-titles.py` and
  `create-xref-from-drh.py` ask for, nor the locale's default encoding that
  `check_adoc_headings.py` opens files with. Text is given as characters after
  text-mode newline translation (`\r\n` and `\r` already read as `\n`), as file
  contents and as lines; raw text with `\r` in it is outside what the model describes.
- Read errors in `find_adoc_file_with_id` and in the third tool propagate and end the run;
  the model does not describe them. In `check_heading` a read error is caught, and the
  model covers it as the lines read before the error: with no heading among them, the
  result is the same `(False, None)`.
- `Path.relative_to` raises when a file is not under the root. Being under the root is a
  precondition instead. The root is written without a trailing `/`, and no other path
  normalisation is modelled.
- A `File` value that is a list or mapping is turned into text by `str()` in the source.
  The model has no file name for such a value, so the pair gets `File not found`.
- The exclude patterns are searched as literal text. They contain no regular-expression
  metacharacter.
- Python's `isspace` (for `\s` and `strip`) is modelled by code point, over the Unicode
  whitespace set.
- LinkShapes.ContextFromJoin: the converse of ContextShape is stated only for context ids
  free of `/` and `#` with nothing after them. Other context ids can be cut elsewhere by
  the greedy match or taken by an earlier pattern.
- The example lemmas about the prompt's URL hold for any one-line prefix before `html/`,
  not only for the literal one.
- `extract_title` is never called by `convert_link_to_xref`. It is modelled on its own.
