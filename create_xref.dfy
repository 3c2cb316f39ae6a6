/** The rest of create-xref-from-drh.py: finding the file that declares an anchor, a
    file's document title, and turning a docs.redhat.com link into an AsciiDoc xref. */
module CreateXref {
  import opened Wrappers
  import opened Text
  import opened LinkFormat
  import opened LinkShapes

  /** An `.adoc` file of the repository, as `Path(root).rglob("*.adoc")` enumerates it;
      `content` is what `f.read()` returns in text mode, so every `\r\n` and `\r` of
      the file has already become `\n`. */
  datatype AdocFile = AdocFile(path: string, content: string)

  // ---------------------------------------------------------------------------------
  // find_adoc_file_with_id

  /** The literal marker `[id="<id>"]` searched for. */
  function IdMarker(id: string): (r: string)
    ensures |r| == |id| + 7 && r[5..5 + |id|] == id
  {
    "[id=\"" + id + "\"]"
  }

  /** The file's text contains the marker of `id`. */
  predicate Declares(f: AdocFile, id: string) {
    Contains(f.content, IdMarker(id))
  }

  /** `files[i]` is the first file that declares `id`. */
  predicate FirstDeclaring(files: seq<AdocFile>, id: string, i: int) {
    0 <= i < |files| && Declares(files[i], id)
    && forall j :: 0 <= j < i ==> !Declares(files[j], id)
  }

  /** The first enumerated file whose text contains `[id="<id>"]`, or None. */
  function FindAdocFileWithId(files: seq<AdocFile>, id: string): (r: Option<AdocFile>)
    ensures r.None? <==> forall i :: 0 <= i < |files| ==> !Declares(files[i], id)
    ensures r.Some? ==> exists i :: FirstDeclaring(files, id, i) && r.value == files[i]
  {
    if files == [] then None
    else if Declares(files[0], id) then
      assert FirstDeclaring(files, id, 0);
      Some(files[0])
    else
      var r := FindAdocFileWithId(files[1..], id);
      assert forall i :: 1 <= i < |files| ==> files[i] == files[1..][i - 1];
      if r.Some? then
        var i :| FirstDeclaring(files[1..], id, i) && r.value == files[1..][i];
        assert FirstDeclaring(files, id, i + 1);
        r
      else r
  }

  /** A file declares `id` exactly when its text holds the marker somewhere. */
  lemma DeclaresIff(f: AdocFile, id: string)
    ensures Declares(f, id) <==> exists i :: OccursAt(f.content, IdMarker(id), i)
  {
    ContainsIff(f.content, IdMarker(id));
  }

  /** A file whose text has the marker of `id` at position `|before|` declares `id`. */
  lemma MarkerDeclares(path: string, before: string, id: string, after: string)
    ensures Declares(AdocFile(path, before + IdMarker(id) + after), id)
  {
    var s := before + IdMarker(id) + after;
    assert s[|before|..|before| + |IdMarker(id)|] == IdMarker(id);
    assert OccursAt(s, IdMarker(id), |before|);
    ContainsIff(s, IdMarker(id));
  }

  // ---------------------------------------------------------------------------------
  // extract_title: re.match(r'^=\s+(.+)', line)

  /** `=\s+(.+)` matches the start of `line` with `\s+` ending at `a` and `(.+)` ending at
      `e`; `.` matches anything but a newline. */
  predicate TitleAt(line: string, a: int, e: int) {
    2 <= a < e <= |line| && line[0] == '=' && AllSpace(line, 1, a) && Avoids(line, '\n', a, e)
  }

  /** The match Python's backtracking finds: both quantifiers being greedy, the greatest
      `a` and then, for that `a`, the greatest `e`. */
  ghost predicate TitleFirst(line: string, a: int, e: int) {
    TitleAt(line, a, e)
    && forall a', e' :: TitleAt(line, a', e') ==> a' < a || (a' == a && e' <= e)
  }

  /** The capture group of `=\s+(.+)` on `line`, or None when the line does not match. */
  function TitleMatch(line: string): (r: Option<string>)
    ensures r.Some? ==> exists a, e :: TitleFirst(line, a, e) && r.value == line[a..e]
    ensures r.None? ==> forall a, e :: !TitleAt(line, a, e)
  {
    if |line| < 2 || line[0] != '=' then None
    else
      var w := SpaceEnd(line, 1);
      var a := LastOtherThan(line, '\n', 2, if w < |line| then w + 1 else |line|);
      if a == -1 then
        forall a', e' | TitleAt(line, a', e') ensures false {
          TitleBound(line, a', e');
        }
        None
      else
        var e := FirstIndexOf(line, '\n', a);
        assert TitleAt(line, a, e);
        assert forall a', e' :: TitleAt(line, a', e') ==> a' <= a && (a' == a ==> e' <= e)
        by {
          forall a', e' | TitleAt(line, a', e') ensures a' <= a && (a' == a ==> e' <= e) {
            TitleBound(line, a', e');
          }
        }
        Some(line[a..e])
  }

  /** A match ends its whitespace no later than the first non-whitespace character after
      the `=`, at a character other than a newline, and its text no later than the next
      newline. */
  lemma TitleBound(line: string, a: int, e: int)
    requires TitleAt(line, a, e)
    ensures a <= SpaceEnd(line, 1) && line[a] != '\n' && e <= FirstIndexOf(line, '\n', a)
  {
  }

  /** A line beginning `==` (a section heading) is never taken for the document title. */
  lemma SectionLineIsNoTitle(line: string)
    requires |line| >= 2 && line[0] == '=' && line[1] == '='
    ensures TitleMatch(line).None?
  {
    assert !IsSpace('=');
  }

  /** `= <text>` gives `<text>` up to the end of the line, without leading whitespace. */
  lemma TitleOfDocumentLine(gap: string, text: string, eol: string)
    requires gap != [] && forall i :: 0 <= i < |gap| ==> IsSpace(gap[i])
    requires text != [] && !IsSpace(text[0]) && '\n' !in text
    requires eol == [] || eol[0] == '\n'
    ensures TitleMatch("=" + gap + text + eol) == Some(text)
  {
    var line := "=" + gap + text + eol;
    var a, e := 1 + |gap|, 1 + |gap| + |text|;
    assert line[a..e] == text;
    forall i | a <= i < e ensures line[i] != '\n' {
      assert line[i] == text[i - a];
      assert text[i - a] in text;
    }
    assert TitleAt(line, a, e);
    assert e == |line| || line[e] == '\n' by {
      if eol != [] {
        assert line[e] == eol[0];
      }
    }
    forall a', e' | TitleAt(line, a', e') ensures a' < a || (a' == a && e' <= e) {
      assert line[a] == text[0];
    }
    assert TitleFirst(line, a, e);
  }

  /** `lines[i]` is the first line that matches the title pattern. */
  predicate FirstTitleLine(lines: seq<string>, i: int) {
    0 <= i < |lines| && TitleMatch(lines[i]).Some?
    && forall j :: 0 <= j < i ==> TitleMatch(lines[j]).None?
  }

  /** The title of the first line matching `=\s+(.+)`, or "Unknown Title". */
  function ExtractTitleOfLines(lines: seq<string>): string {
    if lines == [] then "Unknown Title"
    else if TitleMatch(lines[0]).Some? then TitleMatch(lines[0]).value
    else ExtractTitleOfLines(lines[1..])
  }

  /** The title is the group of the first matching line, and "Unknown Title" when no
      line matches. */
  lemma {:induction false} ExtractTitleOfLinesSpec(lines: seq<string>)
    ensures forall i :: FirstTitleLine(lines, i) ==> ExtractTitleOfLines(lines) == TitleMatch(lines[i]).value
    ensures (forall i :: 0 <= i < |lines| ==> TitleMatch(lines[i]).None?) ==>
              ExtractTitleOfLines(lines) == "Unknown Title"
  {
    if lines != [] && TitleMatch(lines[0]).None? {
      ExtractTitleOfLinesSpec(lines[1..]);
      forall i | FirstTitleLine(lines, i)
        ensures ExtractTitleOfLines(lines) == TitleMatch(lines[i]).value
      {
        assert FirstTitleLine(lines[1..], i - 1) by {
          forall j | 0 <= j < i - 1 ensures TitleMatch(lines[1..][j]).None? {
            assert lines[1..][j] == lines[j + 1];
          }
        }
      }
      if forall i :: 0 <= i < |lines| ==> TitleMatch(lines[i]).None? {
        forall j | 0 <= j < |lines| - 1 ensures TitleMatch(lines[1..][j]).None? {
          assert lines[1..][j] == lines[j + 1];
        }
      }
    }
  }

  /** extract_title on a file: its text read line by line. */
  function ExtractTitle(f: AdocFile): string {
    ExtractTitleOfLines(Lines(f.content))
  }

  /** The same, for the lines the file's text is read as. */
  lemma ExtractTitleSpec(f: AdocFile)
    ensures forall i :: FirstTitleLine(Lines(f.content), i) ==>
              ExtractTitle(f) == TitleMatch(Lines(f.content)[i]).value
    ensures (forall i :: 0 <= i < |Lines(f.content)| ==> TitleMatch(Lines(f.content)[i]).None?) ==>
              ExtractTitle(f) == "Unknown Title"
  {
    ExtractTitleOfLinesSpec(Lines(f.content));
  }

  // ---------------------------------------------------------------------------------
  // get_relative_path

  /** `path` lies below the directory `root` (written without a trailing `/`). */
  predicate UnderRoot(path: string, root: string) {
    StartsWith(path, root + "/")
  }

  /** `Path(path).relative_to(Path(root))`, as the removal of `root/`. */
  function GetRelativePath(path: string, root: string): (r: string)
    requires UnderRoot(path, root)
    ensures root + "/" + r == path
  {
    assert path == path[..|root| + 1] + path[|root| + 1..];
    path[|root| + 1..]
  }

  /** The relative path determines the file's path. */
  lemma RelativePathInjective(p: string, q: string, root: string)
    requires UnderRoot(p, root) && UnderRoot(q, root)
    requires GetRelativePath(p, root) == GetRelativePath(q, root)
    ensures p == q
  {
  }

  // ---------------------------------------------------------------------------------
  // convert_link_to_xref

  /** The id searched for: the anchor of an assembly link, the slug otherwise. */
  function SearchKey(f: LinkFormat): (r: string)
    requires !f.Invalid?
    ensures f.AssemblyAssembly? ==> r == f.anchorId
    ensures !f.AssemblyAssembly? ==> r == f.slug
  {
    match f
    case AssemblyAssembly(_, _, anchorId) => anchorId
    case AssemblyModule(_, slug) => slug
    case AssemblyModuleContext(_, slug, _, _) => slug
  }

  /** The anchor written into the xref: the key searched for, except that a module in a
      context gets `<moduleId>_<contextId>`. */
  function OutputAnchor(f: LinkFormat): (r: string)
    requires !f.Invalid?
    ensures !f.AssemblyModuleContext? ==> r == SearchKey(f)
    ensures f.AssemblyModuleContext? ==> r == f.moduleId + "_" + f.contextId
  {
    match f
    case AssemblyAssembly(_, _, anchorId) => anchorId
    case AssemblyModule(_, slug) => slug
    case AssemblyModuleContext(_, _, moduleId, contextId) => moduleId + "_" + contextId
  }

  /** `xref:../<rel>#<anchor>[]`. */
  function XrefText(rel: string, anchor: string): (r: string)
    ensures StartsWith(r, "xref:../") && EndsWith(r, "[]")
    ensures |r| == |rel| + |anchor| + 11 && r[8..|r| - 2] == rel + "#" + anchor
  {
    var r := "xref:../" + rel + "#" + anchor + "[]";
    assert r[..8] == "xref:../" && r[|r| - 2..] == "[]";
    assert r[8..|r| - 2] == rel + "#" + anchor;
    r
  }

  /** Every file of the corpus lies below `root`. */
  predicate AllUnderRoot(files: seq<AdocFile>, root: string) {
    forall i :: 0 <= i < |files| ==> UnderRoot(files[i].path, root)
  }

  /** The xref for a classified link: None for an invalid link or when no file declares
      the shape's search key; otherwise the path of the first declaring file relative to
      `root`, and the shape's output anchor. */
  function XrefFor(f: LinkFormat, root: string, files: seq<AdocFile>): (r: Option<string>)
    requires AllUnderRoot(files, root)
    ensures f.Invalid? ==> r.None?
    ensures !f.Invalid? ==> (r.None? <==> forall i :: 0 <= i < |files| ==> !Declares(files[i], SearchKey(f)))
    ensures r.Some? ==> exists i :: FirstDeclaring(files, SearchKey(f), i)
                                    && r.value == XrefText(GetRelativePath(files[i].path, root), OutputAnchor(f))
  {
    if f.Invalid? then None
    else
      match FindAdocFileWithId(files, SearchKey(f))
      case None => None
      case Some(file) =>
        var i :| FirstDeclaring(files, SearchKey(f), i) && file == files[i];
        Some(XrefText(GetRelativePath(file.path, root), OutputAnchor(f)))
  }

  /** convert_link_to_xref: classify the link, then build its xref. */
  function ConvertLinkToXref(link: string, root: string, files: seq<AdocFile>): (r: Option<string>)
    requires AllUnderRoot(files, root)
    ensures CheckLinkFormat(link).Invalid? ==> r.None?
    ensures !CheckLinkFormat(link).Invalid? ==>
              (r.Some? <==> exists i :: 0 <= i < |files| && Declares(files[i], SearchKey(CheckLinkFormat(link))))
    ensures r.Some? ==> var f := CheckLinkFormat(link);
              exists i :: FirstDeclaring(files, SearchKey(f), i)
                          && r.value == XrefText(GetRelativePath(files[i].path, root), OutputAnchor(f))
  {
    XrefFor(CheckLinkFormat(link), root, files)
  }

  /** The folder group of the link never reaches the xref. */
  lemma FolderIsUnused(f: LinkFormat, folder: string, root: string, files: seq<AdocFile>)
    requires !f.Invalid? && AllUnderRoot(files, root)
    ensures XrefFor(f.(folder := folder), root, files) == XrefFor(f, root, files)
  {
    var g := f.(folder := folder);
    assert SearchKey(g) == SearchKey(f) && OutputAnchor(g) == OutputAnchor(f);
  }

  /** `rest` is empty or begins a new line. */
  predicate AtLineEnd(rest: string) {
    rest == [] || rest[0] == '\n'
  }

  /** The output anchor of `f` is text of `link` itself, right after its `#` (or, for a
      module link, after the `/` that ends the folder). */
  ghost predicate AnchorInLink(link: string, f: LinkFormat)
    requires !f.Invalid?
  {
    match f
    case AssemblyAssembly(folder, slug, _) =>
      exists pre :: LinkPrefix(pre) && link == pre + "html/" + folder + "/" + slug + "#" + OutputAnchor(f)
    case AssemblyModule(folder, _) =>
      exists pre :: LinkPrefix(pre) && link == pre + "html/" + folder + "/" + OutputAnchor(f)
    case AssemblyModuleContext(folder, slug, _, _) =>
      exists pre, rest :: LinkPrefix(pre) && AtLineEnd(rest)
        && link == pre + "html/" + folder + "/" + slug + "#" + OutputAnchor(f) + rest
  }

  /** The anchor an xref gets is copied from the link: for a module in a context,
      `<moduleId>_<contextId>` rebuilds the fragment exactly. */
  lemma AnchorIsLinkText(link: string)
    requires !CheckLinkFormat(link).Invalid?
    ensures AnchorInLink(link, CheckLinkFormat(link))
  {
    var f := CheckLinkFormat(link);
    if f.AssemblyAssembly? {
      AssemblyShape(link);
      AssemblyAnchorText(link, f);
    } else if f.AssemblyModule? {
      ModuleShape(link);
      ModuleAnchorText(link, f);
    } else {
      ContextShape(link);
      ContextAnchorText(link, f);
    }
  }

  lemma AssemblyAnchorText(link: string, f: LinkFormat)
    requires f.AssemblyAssembly? && AssemblyLink(link, f)
    ensures AnchorInLink(link, f)
  {
    var pre :| AssemblyJoin(link, pre, f.folder, f.slug, f.anchorId);
  }

  lemma ModuleAnchorText(link: string, f: LinkFormat)
    requires f.AssemblyModule? && ModuleLink(link, f)
    ensures AnchorInLink(link, f)
  {
    var pre :| ModuleJoin(link, pre, f.folder, f.slug);
  }

  lemma ContextAnchorText(link: string, f: LinkFormat)
    requires f.AssemblyModuleContext? && ContextLink(link, f)
    ensures AnchorInLink(link, f)
  {
    var pre, rest :| ContextJoin(link, pre, f.folder, f.slug, f.moduleId, f.contextId, rest);
    var head := pre + "html/" + f.folder + "/" + f.slug + "#";
    AppendAssoc(head, f.moduleId, "_");
    AppendAssoc(head, f.moduleId + "_", f.contextId);
    assert head + f.moduleId + "_" + f.contextId == head + OutputAnchor(f);
    assert AtLineEnd(rest);
  }

  /** The link given as an example in the script's prompt becomes an xref to the first
      file declaring `cnf-talm-for-cluster-updates`, with that id as anchor. */
  lemma SampleLinkXref(pre: string, root: string, rel: string, before: string, after: string)
    requires LinkPrefix(pre)
    ensures var link := pre + "html/" + "edge_computing" + "/" + "cnf-talm-for-cluster-updates";
            var file := AdocFile(root + "/" + rel, before + IdMarker("cnf-talm-for-cluster-updates") + after);
            ConvertLinkToXref(link, root, [file])
              == Some("xref:../" + rel + "#" + "cnf-talm-for-cluster-updates" + "[]")
  {
    var slug := "cnf-talm-for-cluster-updates";
    var link := pre + "html/" + "edge_computing" + "/" + slug;
    var file := AdocFile(root + "/" + rel, before + IdMarker(slug) + after);
    SampleLinkIsModule(pre);
    MarkerDeclares(root + "/" + rel, before, slug, after);
    assert UnderRoot(file.path, root);
    assert GetRelativePath(file.path, root) == rel;
  }
}
