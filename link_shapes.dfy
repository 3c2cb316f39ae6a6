/** What the groups of each link shape look like, and exactly which links have each shape. */
module LinkShapes {
  import opened Text
  import opened LinkFormat

  // ---------------------------------------------------------------------------------
  // What each shape's groups look like, and which links have that shape

  /** A prefix of `s` grows by the slice that follows it. */
  lemma PrefixGrows(s: string, a: int, b: int)
    requires 0 <= a <= b <= |s|
    ensures s[..b] == s[..a] + s[a..b]
  {
  }

  /** Cutting the start of a link at `html/` and at the `/` after the folder gives pieces
      that make it up again. */
  lemma RebuildToSlash(s: string, p: nat, j: nat)
    requires p + 5 <= j < |s| && s[p..p + 5] == "html/" && s[j] == '/'
    ensures s[..j + 1] == s[..p] + "html/" + s[p + 5..j] + "/"
  {
    assert s[j..j + 1] == "/";
    PrefixGrows(s, p, p + 5);
    PrefixGrows(s, p + 5, j);
    PrefixGrows(s, j, j + 1);
  }

  /** The same, cutting once more at the `#` after the slug. */
  lemma RebuildToHash(s: string, p: nat, j: nat, k: nat)
    requires p + 5 <= j < k < |s| && s[p..p + 5] == "html/" && s[j] == '/' && s[k] == '#'
    ensures s[..k + 1] == s[..p] + "html/" + s[p + 5..j] + "/" + s[j + 1..k] + "#"
  {
    RebuildToSlash(s, p, j);
    assert s[k..k + 1] == "#";
    PrefixGrows(s, j + 1, k);
    PrefixGrows(s, k, k + 1);
  }

  /** An assembly/module link cut at its pieces. */
  lemma RebuildModule(s: string, p: nat, j: nat)
    requires p + 5 <= j < |s| && s[p..p + 5] == "html/" && s[j] == '/'
    ensures s == s[..p] + "html/" + s[p + 5..j] + "/" + s[j + 1..]
  {
    RebuildToSlash(s, p, j);
    assert s == s[..j + 1] + s[j + 1..];
  }

  /** An assembly/assembly link cut at its pieces. */
  lemma RebuildAssembly(s: string, p: nat, j: nat, k: nat)
    requires p + 5 <= j < k < |s| && s[p..p + 5] == "html/" && s[j] == '/' && s[k] == '#'
    ensures s == s[..p] + "html/" + s[p + 5..j] + "/" + s[j + 1..k] + "#" + s[k + 1..]
  {
    RebuildToHash(s, p, j, k);
    assert s == s[..k + 1] + s[k + 1..];
  }

  /** The same, cutting once more at the `_` after the module id. */
  lemma RebuildToUnderscore(s: string, p: nat, j: nat, k: nat, m: nat)
    requires p + 5 <= j < k < m < |s| && s[p..p + 5] == "html/"
    requires s[j] == '/' && s[k] == '#' && s[m] == '_'
    ensures s[..m + 1] == s[..p] + "html/" + s[p + 5..j] + "/" + s[j + 1..k] + "#"
                          + s[k + 1..m] + "_"
  {
    RebuildToHash(s, p, j, k);
    assert s[m..m + 1] == "_";
    PrefixGrows(s, k + 1, m);
    PrefixGrows(s, m, m + 1);
  }

  /** An assembly/module_context link cut at its pieces and at the end of the match. */
  lemma RebuildContext(s: string, p: nat, j: nat, k: nat, m: nat, e: nat)
    requires p + 5 <= j < k < m < e <= |s| && s[p..p + 5] == "html/"
    requires s[j] == '/' && s[k] == '#' && s[m] == '_'
    ensures s == s[..p] + "html/" + s[p + 5..j] + "/" + s[j + 1..k] + "#"
                 + s[k + 1..m] + "_" + s[m + 1..e] + s[e..]
  {
    RebuildToUnderscore(s, p, j, k, m);
    PrefixGrows(s, m + 1, e);
    assert s == s[..e] + s[e..];
  }

  /** What comes before `html/`: at least one character, all on the first line. */
  predicate LinkPrefix(pre: string) {
    |pre| >= 1 && '\n' !in pre
  }

  // ----- assembly/assembly

  /** The groups of an assembly/assembly link: folder and slug are non-empty and free of
      `/`; the anchor is non-empty and free of `_` and `/` and, the split being greedy,
      only its last character may be a `#`. */
  predicate AssemblyPieces(folder: string, slug: string, anchor: string) {
    && folder != [] && '/' !in folder
    && slug != [] && '/' !in slug
    && anchor != [] && '/' !in anchor && '_' !in anchor && '#' !in anchor[..|anchor| - 1]
  }

  /** `link` is `<pre>html/<folder>/<slug>#<anchor>`. */
  predicate AssemblyJoin(link: string, pre: string, folder: string, slug: string, anchor: string) {
    LinkPrefix(pre) && link == pre + "html/" + folder + "/" + slug + "#" + anchor
  }

  /** `link` is an assembly/assembly link whose groups are those of `r`. */
  ghost predicate AssemblyLink(link: string, r: LinkFormat)
    requires r.AssemblyAssembly?
  {
    AssemblyPieces(r.folder, r.slug, r.anchorId)
    && exists pre :: AssemblyJoin(link, pre, r.folder, r.slug, r.anchorId)
  }

  lemma AssemblyFromPieces(link: string, pre: string, folder: string, slug: string,
                           anchor: string)
    requires AssemblyPieces(folder, slug, anchor)
    requires AssemblyJoin(link, pre, folder, slug, anchor)
    ensures AssemblyLink(link, AssemblyAssembly(folder, slug, anchor))
  {
  }

  /** The groups of an assembly match are free of what their classes exclude. */
  lemma AssemblyParts(link: string, t: AssemblySplit)
    requires AssemblyAt(link, t)
    ensures '\n' !in link[..t.p] && '/' !in link[t.p + 5..t.j] && '/' !in link[t.j + 1..t.k]
    ensures '/' !in link[t.k + 1..] && '_' !in link[t.k + 1..]
  {
    SliceAvoids(link, '\n', 0, t.p);
    SliceAvoids(link, '/', t.p + 5, t.j);
    SliceAvoids(link, '/', t.j + 1, t.k);
    SliceAvoids(link, '/', t.k + 1, |link|);
    SliceAvoids(link, '_', t.k + 1, |link|);
  }

  /** A link cut at `html/`, a `/` and a `#` is made of the pieces between the cuts. */
  lemma AssemblyJoinAt(link: string, t: AssemblySplit)
    requires 1 <= t.p && t.p + 5 < t.j && t.j + 1 < t.k && t.k + 1 < |link|
    requires link[t.p..t.p + 5] == "html/" && link[t.j] == '/' && link[t.k] == '#'
    requires '\n' !in link[..t.p]
    ensures AssemblyJoin(link, link[..t.p], link[t.p + 5..t.j], link[t.j + 1..t.k], link[t.k + 1..])
  {
    RebuildAssembly(link, t.p, t.j, t.k);
  }

  /** The groups of the assembly match Python reports have the kind AssemblyPieces
      describes: had the anchor a `#` before its end, a match with a later `#` would
      exist. */
  lemma AssemblyGroupsShape(link: string, t: AssemblySplit)
    requires AssemblyFirst(link, t)
    ensures AssemblyPieces(link[t.p + 5..t.j], link[t.j + 1..t.k], link[t.k + 1..])
  {
    forall i | t.k + 1 <= i < |link| - 1 ensures link[i] != '#' {
      if link[i] == '#' {
        assert AssemblyAt(link, AssemblySplit(t.p, t.j, i));
      }
    }
    SliceAvoids(link, '#', t.k + 1, |link| - 1);
    AssemblyParts(link, t);
    assert link[t.k + 1..][..|link| - t.k - 2] == link[t.k + 1..|link| - 1];
  }

  /** Every link that CheckLinkFormat calls assembly/assembly is
      `<pre>html/<folder>/<slug>#<anchor>` with AssemblyPieces' groups. */
  lemma AssemblyShape(link: string)
    requires CheckLinkFormat(link).AssemblyAssembly?
    ensures AssemblyLink(link, CheckLinkFormat(link))
  {
    var t :| AssemblyFirst(link, t) && CheckLinkFormat(link) == AssemblyGroups(link, t);
    AssemblyGroupsShape(link, t);
    SliceAvoids(link, '\n', 0, t.p);
    AssemblyJoinAt(link, t);
    AssemblyFromPieces(link, link[..t.p], link[t.p + 5..t.j], link[t.j + 1..t.k], link[t.k + 1..]);
  }

  // ----- assembly/module

  /** The groups of an assembly/module link: the folder is non-empty and free of `/`; the
      slug is non-empty, free of `_` and `/`, and has no `#` but possibly as its first or
      last character (one elsewhere would make the link assembly/assembly). */
  predicate ModulePieces(folder: string, slug: string) {
    && folder != [] && '/' !in folder
    && slug != [] && '/' !in slug && '_' !in slug
    && forall i :: 1 <= i < |slug| - 1 ==> slug[i] != '#'
  }

  /** `link` is `<pre>html/<folder>/<slug>`. */
  predicate ModuleJoin(link: string, pre: string, folder: string, slug: string) {
    LinkPrefix(pre) && link == pre + "html/" + folder + "/" + slug
  }

  /** `link` is an assembly/module link whose groups are those of `r`. */
  ghost predicate ModuleLink(link: string, r: LinkFormat)
    requires r.AssemblyModule?
  {
    ModulePieces(r.folder, r.slug) && exists pre :: ModuleJoin(link, pre, r.folder, r.slug)
  }

  lemma ModuleFromPieces(link: string, pre: string, folder: string, slug: string)
    requires ModulePieces(folder, slug) && ModuleJoin(link, pre, folder, slug)
    ensures ModuleLink(link, AssemblyModule(folder, slug))
  {
  }

  /** A link cut at `html/` and a `/` is made of the pieces between the cuts. */
  lemma ModuleJoinAt(link: string, t: ModuleSplit)
    requires 1 <= t.p && t.p + 5 < t.j && t.j + 1 < |link|
    requires link[t.p..t.p + 5] == "html/" && link[t.j] == '/' && '\n' !in link[..t.p]
    ensures ModuleJoin(link, link[..t.p], link[t.p + 5..t.j], link[t.j + 1..])
  {
    RebuildModule(link, t.p, t.j);
  }

  /** The groups of a module match whose slug has no `#` inside have the kind
      ModulePieces describes. */
  lemma ModuleGroupsShape(link: string, t: ModuleSplit)
    requires ModuleAt(link, t)
    requires forall i :: t.j + 2 <= i < |link| - 1 ==> link[i] != '#'
    ensures ModulePieces(link[t.p + 5..t.j], link[t.j + 1..])
  {
    SliceAvoids(link, '/', t.p + 5, t.j);
    SliceAvoids(link, '/', t.j + 1, |link|);
    SliceAvoids(link, '_', t.j + 1, |link|);
    var slug := link[t.j + 1..];
    assert forall i :: 1 <= i < |slug| - 1 ==> slug[i] == link[t.j + 1 + i];
  }

  /** Every link that CheckLinkFormat calls assembly/module is `<pre>html/<folder>/<slug>`
      with ModulePieces' groups; a `#` inside the slug would have made it an assembly
      match. */
  lemma ModuleShape(link: string)
    requires CheckLinkFormat(link).AssemblyModule?
    ensures ModuleLink(link, CheckLinkFormat(link))
  {
    var t :| ModuleFirst(link, t) && CheckLinkFormat(link) == ModuleGroups(link, t);
    forall i | t.j + 2 <= i < |link| - 1 ensures link[i] != '#' {
      if link[i] == '#' {
        assert AssemblyAt(link, AssemblySplit(t.p, t.j, i));
      }
    }
    ModuleGroupsShape(link, t);
    SliceAvoids(link, '\n', 0, t.p);
    ModuleJoinAt(link, t);
    ModuleFromPieces(link, link[..t.p], link[t.p + 5..t.j], link[t.j + 1..]);
  }

  // ----- assembly/module_context

  /** The groups of an assembly/module_context link: each is non-empty, folder, slug and
      module id are free of `/`, the context id is on one line, and the split is greedy:
      only the last character of the module id may be a `#`, and every `_` of the context
      id that comes before its first `/` is its last character. */
  predicate ContextPieces(folder: string, slug: string, moduleId: string, contextId: string) {
    && folder != [] && '/' !in folder
    && slug != [] && '/' !in slug
    && moduleId != [] && '/' !in moduleId && '#' !in moduleId[..|moduleId| - 1]
    && contextId != [] && '\n' !in contextId
    && (forall i :: 0 <= i < |contextId| && contextId[i] == '_' && '/' !in contextId[..i]
                    ==> i == |contextId| - 1)
  }

  /** `link` is `<pre>html/<folder>/<slug>#<moduleId>_<contextId><rest>`, where `<rest>` is
      empty or begins with a newline: the pattern has no `$`, and `(.+)` stops at the end of
      the line. */
  predicate ContextJoin(link: string, pre: string, folder: string, slug: string,
                        moduleId: string, contextId: string, rest: string)
  {
    && LinkPrefix(pre) && (rest == [] || rest[0] == '\n')
    && link == pre + "html/" + folder + "/" + slug + "#" + moduleId + "_" + contextId + rest
  }

  /** `link` is an assembly/module_context link whose groups are those of `r`. */
  ghost predicate ContextLink(link: string, r: LinkFormat)
    requires r.AssemblyModuleContext?
  {
    && ContextPieces(r.folder, r.slug, r.moduleId, r.contextId)
    && exists pre, rest :: ContextJoin(link, pre, r.folder, r.slug, r.moduleId, r.contextId, rest)
  }

  lemma ContextFromPieces(link: string, pre: string, folder: string, slug: string,
                          moduleId: string, contextId: string, rest: string)
    requires ContextPieces(folder, slug, moduleId, contextId)
    requires ContextJoin(link, pre, folder, slug, moduleId, contextId, rest)
    ensures ContextLink(link, AssemblyModuleContext(folder, slug, moduleId, contextId))
  {
  }

  /** Python's context match leaves no `#` inside the module id but at its end. */
  lemma ContextModuleGreedy(link: string, t: ContextSplit)
    requires ContextFirst(link, t)
    ensures '#' !in link[t.k + 1..t.m - 1]
  {
    forall i | t.k + 1 <= i < t.m - 1 ensures link[i] != '#' {
      if link[i] == '#' {
        assert ContextAt(link, ContextSplit(t.p, t.j, i, t.m, t.e));
      }
    }
    SliceAvoids(link, '#', t.k + 1, t.m - 1);
  }

  /** Python's context match leaves no split point inside the context id before a `/`. */
  lemma ContextIdGreedy(link: string, t: ContextSplit)
    requires ContextFirst(link, t)
    ensures var ctx := link[t.m + 1..t.e];
      forall i :: 0 <= i < |ctx| && ctx[i] == '_' && '/' !in ctx[..i] ==> i == |ctx| - 1
  {
    var ctx := link[t.m + 1..t.e];
    forall i | 0 <= i < |ctx| && ctx[i] == '_' && '/' !in ctx[..i]
      ensures i == |ctx| - 1
    {
      if i < |ctx| - 1 {
        var m' := t.m + 1 + i;
        assert ctx[..i] == link[t.m + 1..m'];
        SliceAvoids(link, '/', t.m + 1, m');
        var u := ContextSplit(t.p, t.j, t.k, m', FirstIndexOf(link, '\n', m' + 1));
        assert link[m' + 1] == ctx[i + 1];
        assert ContextAt(link, u);
      }
    }
  }

  /** The groups of a context match are free of what their classes exclude. */
  lemma ContextParts(link: string, t: ContextSplit)
    requires ContextAt(link, t)
    ensures '\n' !in link[..t.p] && '/' !in link[t.p + 5..t.j] && '/' !in link[t.j + 1..t.k]
    ensures '/' !in link[t.k + 1..t.m] && '\n' !in link[t.m + 1..t.e]
  {
    SliceAvoids(link, '\n', 0, t.p);
    SliceAvoids(link, '/', t.p + 5, t.j);
    SliceAvoids(link, '/', t.j + 1, t.k);
    SliceAvoids(link, '/', t.k + 1, t.m);
    SliceAvoids(link, '\n', t.m + 1, t.e);
  }

  /** A link cut at `html/`, a `/`, a `#`, a `_` and the end of its line is made of the
      pieces between the cuts. */
  lemma ContextJoinAt(link: string, t: ContextSplit)
    requires 1 <= t.p && t.p + 5 < t.j && t.j + 1 < t.k && t.k + 1 < t.m && t.m + 1 < t.e <= |link|
    requires link[t.p..t.p + 5] == "html/" && link[t.j] == '/' && link[t.k] == '#'
    requires link[t.m] == '_' && '\n' !in link[..t.p] && (t.e == |link| || link[t.e] == '\n')
    ensures ContextJoin(link, link[..t.p], link[t.p + 5..t.j], link[t.j + 1..t.k],
                        link[t.k + 1..t.m], link[t.m + 1..t.e], link[t.e..])
  {
    RebuildContext(link, t.p, t.j, t.k, t.m, t.e);
    assert link[t.e..] == [] || link[t.e..][0] == '\n';
  }

  /** The groups of the context match Python reports have the kind ContextPieces
      describes, and `(.+)` runs to the end of the line, as a longer match would
      otherwise exist. */
  lemma ContextGroupsShape(link: string, t: ContextSplit)
    requires ContextFirst(link, t)
    ensures ContextPieces(link[t.p + 5..t.j], link[t.j + 1..t.k], link[t.k + 1..t.m],
                          link[t.m + 1..t.e])
    ensures t.e == |link| || link[t.e] == '\n'
  {
    ContextModuleGreedy(link, t);
    ContextIdGreedy(link, t);
    if t.e < |link| && link[t.e] != '\n' {
      assert ContextAt(link, ContextSplit(t.p, t.j, t.k, t.m, t.e + 1));
    }
    ContextParts(link, t);
    assert link[t.k + 1..t.m][..t.m - t.k - 2] == link[t.k + 1..t.m - 1];
  }

  /** Every link that CheckLinkFormat calls assembly/module_context is
      `<pre>html/<folder>/<slug>#<moduleId>_<contextId><rest>` with ContextPieces' groups. */
  lemma ContextShape(link: string)
    requires CheckLinkFormat(link).AssemblyModuleContext?
    ensures ContextLink(link, CheckLinkFormat(link))
  {
    var t :| ContextFirst(link, t) && CheckLinkFormat(link) == ContextGroups(link, t);
    assert ContextLink(link, ContextGroups(link, t)) by {
      ContextGroupsShape(link, t);
      SliceAvoids(link, '\n', 0, t.p);
      ContextJoinAt(link, t);
      ContextFromPieces(link, link[..t.p], link[t.p + 5..t.j], link[t.j + 1..t.k],
                        link[t.k + 1..t.m], link[t.m + 1..t.e], link[t.e..]);
    }
  }

  /** A link with no `html/` in it has no shape. */
  lemma NoHtmlIsInvalid(link: string)
    requires !Contains(link, "html/")
    ensures CheckLinkFormat(link) == Invalid
  {
    ContainsIff(link, "html/");
    assert forall p :: HtmlAt(link, p) ==> OccursAt(link, "html/", p);
  }

  // ---------------------------------------------------------------------------------
  // The converse: links built from pieces of the right kind get the shape and the groups

  /** A greatest match is the only one. */
  lemma AssemblyResult(link: string, t: AssemblySplit)
    requires AssemblyFirst(link, t)
    ensures CheckLinkFormat(link) == AssemblyGroups(link, t)
  {
    var r := CheckLinkFormat(link);
    assert r.AssemblyAssembly?;
    var u :| AssemblyFirst(link, u) && r == AssemblyGroups(link, u);
    assert AssemblyLe(u, t) && AssemblyLe(t, u);
    assert u.p == t.p && u.j == t.j && u.k == t.k;
    assert u == t;
  }

  lemma ModuleResult(link: string, t: ModuleSplit)
    requires ModuleFirst(link, t) && forall u :: !AssemblyAt(link, u)
    ensures CheckLinkFormat(link) == ModuleGroups(link, t)
  {
    var r := CheckLinkFormat(link);
    assert r.AssemblyModule?;
    var u :| ModuleFirst(link, u) && r == ModuleGroups(link, u);
    assert ModuleLe(u, t) && ModuleLe(t, u);
    assert u.p == t.p && u.j == t.j;
    assert u == t;
  }

  lemma ContextResult(link: string, t: ContextSplit)
    requires ContextFirst(link, t)
    requires (forall u :: !AssemblyAt(link, u)) && (forall u :: !ModuleAt(link, u))
    ensures CheckLinkFormat(link) == ContextGroups(link, t)
  {
    var r := CheckLinkFormat(link);
    assert r.AssemblyModuleContext?;
    var u :| ContextFirst(link, u) && r == ContextGroups(link, u);
    assert ContextLe(u, t) && ContextLe(t, u);
    assert u.p == t.p && u.j == t.j && u.k == t.k && u.m == t.m && u.e == t.e;
    assert u == t;
  }

  /** Where an assembly/assembly link is cut. */
  lemma AssemblyCuts(link: string, pre: string, folder: string, slug: string, anchor: string)
    requires anchor != [] && link == pre + "html/" + folder + "/" + slug + "#" + anchor
    ensures var p := |pre|; var j := p + 5 + |folder|; var k := j + 1 + |slug|;
      && |link| == k + 1 + |anchor| && link[..p] == pre && link[p..p + 5] == "html/"
      && link[p + 5..j] == folder && link[j] == '/' && link[j + 1..k] == slug
      && link[k] == '#' && link[k + 1..] == anchor && link[k + 1..|link| - 1] == anchor[..|anchor| - 1]
  {
  }

  /** A split at the last `/` and at a `#` with no other `#` after it but the final
      character is the greatest assembly match. */
  lemma AssemblyCharsFirst(link: string, t: AssemblySplit)
    requires 1 <= t.p && t.p + 5 < t.j && t.j + 1 < t.k && t.k + 1 < |link|
    requires link[t.p..t.p + 5] == "html/" && link[t.j] == '/' && link[t.k] == '#'
    requires '\n' !in link[..t.p] && '/' !in link[t.p + 5..t.j] && '/' !in link[t.j + 1..t.k]
    requires '/' !in link[t.k + 1..] && '_' !in link[t.k + 1..] && '#' !in link[t.k + 1..|link| - 1]
    ensures AssemblyFirst(link, t)
  {
    SliceAvoids(link, '\n', 0, t.p);
    SliceAvoids(link, '/', t.p + 5, t.j);
    SliceAvoids(link, '/', t.j + 1, t.k);
    SliceAvoids(link, '/', t.k + 1, |link|);
    SliceAvoids(link, '_', t.k + 1, |link|);
    SliceAvoids(link, '#', t.k + 1, |link| - 1);
    assert AssemblyAt(link, t);
    forall u | AssemblyAt(link, u) ensures AssemblyLe(u, t) {
      assert u.j == t.j;
      assert link[u.p + 4] == link[u.p..u.p + 5][4] == '/';
      if u.p == t.p {
        assert u.k <= t.k;
      }
    }
  }

  /** The same, from the pieces between the cuts. */
  lemma AssemblyCutsResult(link: string, t: AssemblySplit, pre: string, folder: string,
                           slug: string, anchor: string)
    requires AssemblyPieces(folder, slug, anchor) && LinkPrefix(pre)
    requires t.p + 5 < t.j && t.j + 1 < t.k && t.k + 1 < |link|
    requires link[t.p..t.p + 5] == "html/" && link[t.j] == '/' && link[t.k] == '#'
    requires link[..t.p] == pre && link[t.p + 5..t.j] == folder && link[t.j + 1..t.k] == slug
    requires link[t.k + 1..] == anchor && link[t.k + 1..|link| - 1] == anchor[..|anchor| - 1]
    ensures CheckLinkFormat(link) == AssemblyAssembly(folder, slug, anchor)
  {
    AssemblyCharsFirst(link, t);
    AssemblyResult(link, t);
  }

  /** Every `<pre>html/<folder>/<slug>#<anchor>` with pieces as AssemblyPieces says is an
      assembly/assembly link with exactly those groups. */
  lemma AssemblyFromJoin(link: string, pre: string, folder: string, slug: string, anchor: string)
    requires AssemblyPieces(folder, slug, anchor) && AssemblyJoin(link, pre, folder, slug, anchor)
    ensures CheckLinkFormat(link) == AssemblyAssembly(folder, slug, anchor)
  {
    AssemblyCuts(link, pre, folder, slug, anchor);
    var j := |pre| + 5 + |folder|;
    AssemblyCutsResult(link, AssemblySplit(|pre|, j, j + 1 + |slug|), pre, folder, slug, anchor);
  }

  /** The assembly/assembly links are exactly the links AssemblyLink describes. */
  lemma AssemblyIff(link: string, r: LinkFormat)
    requires r.AssemblyAssembly?
    ensures CheckLinkFormat(link) == r <==> AssemblyLink(link, r)
  {
    if CheckLinkFormat(link) == r {
      AssemblyShape(link);
    }
    if AssemblyLink(link, r) {
      var pre :| AssemblyJoin(link, pre, r.folder, r.slug, r.anchorId);
      AssemblyFromJoin(link, pre, r.folder, r.slug, r.anchorId);
    }
  }

  /** Where an assembly/module link is cut. */
  lemma ModuleCuts(link: string, pre: string, folder: string, slug: string)
    requires link == pre + "html/" + folder + "/" + slug
    ensures var p := |pre|; var j := p + 5 + |folder|;
      && |link| == j + 1 + |slug| && link[..p] == pre && link[p..p + 5] == "html/"
      && link[p + 5..j] == folder && link[j] == '/' && link[j + 1..] == slug
  {
  }

  /** A split at the last `/`, with no `_` after it and no `#` after it but right after
      it or at the very end, is the greatest module match, and there is no assembly
      match. */
  lemma ModuleCharsFirst(link: string, t: ModuleSplit)
    requires 1 <= t.p && t.p + 5 < t.j && t.j + 1 < |link|
    requires link[t.p..t.p + 5] == "html/" && link[t.j] == '/'
    requires '\n' !in link[..t.p] && '/' !in link[t.p + 5..t.j]
    requires '/' !in link[t.j + 1..] && '_' !in link[t.j + 1..]
    requires forall i :: t.j + 2 <= i < |link| - 1 ==> link[i] != '#'
    ensures ModuleFirst(link, t) && forall u :: !AssemblyAt(link, u)
  {
    SliceAvoids(link, '\n', 0, t.p);
    SliceAvoids(link, '/', t.p + 5, t.j);
    SliceAvoids(link, '/', t.j + 1, |link|);
    SliceAvoids(link, '_', t.j + 1, |link|);
    assert ModuleAt(link, t);
    forall u | ModuleAt(link, u) ensures ModuleLe(u, t) {
      assert link[u.p + 4] == link[u.p..u.p + 5][4] == '/';
    }
    forall u | AssemblyAt(link, u) ensures false {
    }
  }

  lemma ModuleCutsResult(link: string, t: ModuleSplit, pre: string, folder: string, slug: string)
    requires ModulePieces(folder, slug) && LinkPrefix(pre)
    requires t.p + 5 < t.j && t.j + 1 < |link|
    requires link[t.p..t.p + 5] == "html/" && link[t.j] == '/'
    requires link[..t.p] == pre && link[t.p + 5..t.j] == folder && link[t.j + 1..] == slug
    ensures CheckLinkFormat(link) == AssemblyModule(folder, slug)
  {
    forall i | t.j + 2 <= i < |link| - 1 ensures link[i] != '#' {
      assert link[i] == slug[i - t.j - 1];
    }
    ModuleCharsFirst(link, t);
    ModuleResult(link, t);
  }

  /** Every `<pre>html/<folder>/<slug>` with pieces as ModulePieces says is an
      assembly/module link with exactly those groups. */
  lemma ModuleFromJoin(link: string, pre: string, folder: string, slug: string)
    requires ModulePieces(folder, slug) && ModuleJoin(link, pre, folder, slug)
    ensures CheckLinkFormat(link) == AssemblyModule(folder, slug)
  {
    ModuleCuts(link, pre, folder, slug);
    ModuleCutsResult(link, ModuleSplit(|pre|, |pre| + 5 + |folder|), pre, folder, slug);
  }

  /** The assembly/module links are exactly the links ModuleLink describes. */
  lemma ModuleIff(link: string, r: LinkFormat)
    requires r.AssemblyModule?
    ensures CheckLinkFormat(link) == r <==> ModuleLink(link, r)
  {
    if CheckLinkFormat(link) == r {
      ModuleShape(link);
    }
    if ModuleLink(link, r) {
      var pre :| ModuleJoin(link, pre, r.folder, r.slug);
      ModuleFromJoin(link, pre, r.folder, r.slug);
    }
  }

  /** Where an assembly/module_context link that ends with its context id is cut. */
  lemma ContextCuts(link: string, pre: string, folder: string, slug: string, moduleId: string,
                    contextId: string)
    requires moduleId != [] && contextId != []
    requires link == pre + "html/" + folder + "/" + slug + "#" + moduleId + "_" + contextId
    ensures var p := |pre|; var j := p + 5 + |folder|; var k := j + 1 + |slug|;
      var m := k + 1 + |moduleId|;
      && |link| == m + 1 + |contextId| && link[..p] == pre && link[p..p + 5] == "html/"
      && link[p + 5..j] == folder && link[j] == '/' && link[j + 1..k] == slug
      && link[k] == '#' && link[k + 1..m] == moduleId && link[m] == '_'
      && link[m + 1..|link|] == contextId
      && link[k + 1..m - 1] == moduleId[..|moduleId| - 1]
      && link[m + 1..|link| - 1] == contextId[..|contextId| - 1]
  {
  }

  /** Cuts of a link that ends with its context id, where the `_` is the last one with
      a character after it and the `#` is the last before it but the one right at it. */
  predicate ContextCutsFit(link: string, t: ContextSplit) {
    && 1 <= t.p && t.p + 5 < t.j && t.j + 1 < t.k && t.k + 1 < t.m && t.m + 1 < t.e == |link|
    && link[t.p..t.p + 5] == "html/" && link[t.j] == '/' && link[t.k] == '#' && link[t.m] == '_'
    && '\n' !in link[..t.p] && '/' !in link[t.p + 5..t.j] && '/' !in link[t.j + 1..t.k]
    && '/' !in link[t.k + 1..t.m] && '#' !in link[t.k + 1..t.m - 1]
    && '/' !in link[t.m + 1..t.e] && '#' !in link[t.m + 1..t.e] && '\n' !in link[t.m + 1..t.e]
    && '_' !in link[t.m + 1..t.e - 1]
  }

  /** Under such cuts no assembly or module match exists: the last `/` is the one after
      the folder, and an `_` follows every `#` after it. */
  lemma ContextNoOther(link: string, t: ContextSplit)
    requires ContextCutsFit(link, t)
    ensures (forall u :: !AssemblyAt(link, u)) && (forall u :: !ModuleAt(link, u))
  {
    SliceAvoids(link, '/', t.j + 1, t.k);
    SliceAvoids(link, '/', t.k + 1, t.m);
    SliceAvoids(link, '/', t.m + 1, |link|);
    SliceAvoids(link, '#', t.m + 1, |link|);
    forall u | AssemblyAt(link, u) ensures false {
    }
    forall u | ModuleAt(link, u) ensures false {
    }
  }

  /** Such cuts are a context match. */
  lemma ContextCutsAt(link: string, t: ContextSplit)
    requires ContextCutsFit(link, t)
    ensures ContextAt(link, t)
  {
    SliceAvoids(link, '\n', 0, t.p);
    SliceAvoids(link, '/', t.p + 5, t.j);
    SliceAvoids(link, '/', t.j + 1, t.k);
    SliceAvoids(link, '/', t.k + 1, t.m);
    SliceAvoids(link, '\n', t.m + 1, |link|);
  }

  /** A context match starts no later than a `.+html/` whose folder has no `/` and after
      which no `/` follows, and where it starts there it uses the same folder. */
  lemma ContextSameStart(link: string, t: ContextSplit, u: ContextSplit)
    requires ContextAt(link, u)
    requires t.p + 5 < t.j < |link| && link[t.p..t.p + 5] == "html/" && link[t.j] == '/'
    requires Avoids(link, '/', t.p + 5, t.j) && Avoids(link, '/', t.j + 1, |link|)
    ensures u.p <= t.p && (u.p == t.p ==> u.j == t.j)
  {
    assert link[u.p + 4] == link[u.p..u.p + 5][4] == '/';
  }

  /** No `/` follows the one after the folder of such cuts. */
  lemma ContextSlashFree(link: string, t: ContextSplit)
    requires ContextCutsFit(link, t)
    ensures Avoids(link, '/', t.p + 5, t.j) && Avoids(link, '/', t.j + 1, |link|)
  {
    SliceAvoids(link, '/', t.p + 5, t.j);
    SliceAvoids(link, '/', t.j + 1, t.k);
    SliceAvoids(link, '/', t.k + 1, t.m);
    SliceAvoids(link, '/', t.m + 1, |link|);
    forall i | t.j + 1 <= i < |link| ensures link[i] != '/' {
      if i < t.k {
      } else if i == t.k {
      } else if i < t.m {
      } else if i > t.m {
      }
    }
  }

  /** A context match with the same folder takes no later `#`, and with the same `#` no
      later `_`, when the only `#` between `t.k` and `t.m` is just before `t.m` and the
      only `_` after `t.m` is the last character. */
  lemma ContextLaterCuts(link: string, t: ContextSplit, u: ContextSplit)
    requires ContextAt(link, u) && u.j == t.j
    requires t.k + 1 < t.m && t.m + 1 < |link| && link[t.m] == '_'
    requires '#' !in link[t.k + 1..t.m - 1] && '#' !in link[t.m + 1..]
    requires '_' !in link[t.m + 1..|link| - 1]
    ensures u.k < t.k || (u.k == t.k && u.m <= t.m)
  {
    SliceAvoids(link, '#', t.k + 1, t.m - 1);
    SliceAvoids(link, '#', t.m + 1, |link|);
    SliceAvoids(link, '_', t.m + 1, |link| - 1);
  }

  /** No context match is greater than such cuts. */
  lemma ContextCutsLe(link: string, t: ContextSplit, u: ContextSplit)
    requires ContextCutsFit(link, t) && ContextAt(link, u)
    ensures ContextLe(u, t)
  {
    ContextSlashFree(link, t);
    ContextSameStart(link, t, u);
    if u.p == t.p {
      ContextLaterCuts(link, t, u);
    }
  }

  /** Such cuts are the greatest context match. */
  lemma ContextCutsFirst(link: string, t: ContextSplit)
    requires ContextCutsFit(link, t)
    ensures ContextFirst(link, t)
  {
    ContextCutsAt(link, t);
    forall u | ContextAt(link, u) ensures ContextLe(u, t) {
      ContextCutsLe(link, t, u);
    }
  }

  /** A context id free of `/` has no `_` but possibly as its last character. */
  lemma ContextIdUnderscores(contextId: string)
    requires contextId != [] && '/' !in contextId
    requires forall i :: 0 <= i < |contextId| && contextId[i] == '_' && '/' !in contextId[..i] ==>
               i == |contextId| - 1
    ensures '_' !in contextId[..|contextId| - 1]
  {
    forall i | 0 <= i < |contextId| - 1 ensures contextId[i] != '_' {
      assert '/' !in contextId[..i] by {
        assert forall c :: c in contextId[..i] ==> c in contextId;
      }
    }
  }

  /** The same, from the pieces between the cuts. */
  lemma ContextPiecesFirst(link: string, t: ContextSplit, pre: string, folder: string,
                            slug: string, moduleId: string, contextId: string)
    requires ContextPieces(folder, slug, moduleId, contextId) && LinkPrefix(pre)
    requires '/' !in contextId && '#' !in contextId && '_' !in contextId[..|contextId| - 1]
    requires t.p + 5 < t.j && t.j + 1 < t.k && t.k + 1 < t.m && t.m + 1 < |link| && t.e == |link|
    requires link[t.p..t.p + 5] == "html/" && link[t.j] == '/' && link[t.k] == '#'
    requires link[t.m] == '_'
    requires link[..t.p] == pre && link[t.p + 5..t.j] == folder && link[t.j + 1..t.k] == slug
    requires link[t.k + 1..t.m] == moduleId && link[t.m + 1..t.e] == contextId
    requires link[t.k + 1..t.m - 1] == moduleId[..|moduleId| - 1]
    requires link[t.m + 1..t.e - 1] == contextId[..|contextId| - 1]
    ensures ContextFirst(link, t)
    ensures (forall u :: !AssemblyAt(link, u)) && (forall u :: !ModuleAt(link, u))
  {
    assert ContextCutsFit(link, t);
    ContextCutsFirst(link, t);
    ContextNoOther(link, t);
  }

  /** The groups of a context split are the pieces between its cuts. */
  lemma ContextGroupsAre(link: string, t: ContextSplit, folder: string, slug: string,
                         moduleId: string, contextId: string)
    requires t.p + 5 <= t.j < t.k < t.m < t.e <= |link|
    requires link[t.p + 5..t.j] == folder && link[t.j + 1..t.k] == slug
    requires link[t.k + 1..t.m] == moduleId && link[t.m + 1..t.e] == contextId
    ensures ContextGroups(link, t) == AssemblyModuleContext(folder, slug, moduleId, contextId)
  {
  }

  /** Every `<pre>html/<folder>/<slug>#<moduleId>_<contextId>` with pieces as ContextPieces
      says and a context id free of `/` and `#` is an assembly/module_context link with
      exactly those groups. */
  lemma ContextFromJoin(link: string, pre: string, folder: string, slug: string,
                        moduleId: string, contextId: string)
    requires ContextPieces(folder, slug, moduleId, contextId) && '/' !in contextId && '#' !in contextId
    requires ContextJoin(link, pre, folder, slug, moduleId, contextId, [])
    ensures CheckLinkFormat(link) == AssemblyModuleContext(folder, slug, moduleId, contextId)
  {
    var base := pre + "html/" + folder + "/" + slug + "#" + moduleId + "_" + contextId;
    assert link == base + [];
    assert link == base;
    ContextCuts(link, pre, folder, slug, moduleId, contextId);
    var j := |pre| + 5 + |folder|;
    var k := j + 1 + |slug|;
    var m := k + 1 + |moduleId|;
    ContextIdUnderscores(contextId);
    var t := ContextSplit(|pre|, j, k, m, |link|);
    ContextPiecesFirst(link, t, pre, folder, slug, moduleId, contextId);
    ContextResult(link, t);
    ContextGroupsAre(link, t, folder, slug, moduleId, contextId);
  }

  // ---------------------------------------------------------------------------------
  // Examples

  /** Whatever one-line text precedes its `html/`, a link ending like the sample link of
      the interactive prompt (whose prefix is
      `https://docs.redhat.com/en/documentation/openshift_container_platform/4.18/`) is an
      assembly/module link with folder `edge_computing`. */
  lemma SampleLinkIsModule(pre: string)
    requires LinkPrefix(pre)
    ensures CheckLinkFormat(pre + "html/" + "edge_computing" + "/" + "cnf-talm-for-cluster-updates")
            == AssemblyModule("edge_computing", "cnf-talm-for-cluster-updates")
  {
    var slug := "cnf-talm-for-cluster-updates";
    assert '#' !in slug && '_' !in slug && '/' !in slug;
    assert forall i :: 0 <= i < |slug| ==> slug[i] in slug;
    ModuleFromJoin(pre + "html/" + "edge_computing" + "/" + slug, pre, "edge_computing", slug);
  }

  /** A link that ends in a bare `#` is an assembly/module link whose slug keeps the `#`. */
  lemma BareHashIsModule(pre: string, folder: string, slug: string)
    requires LinkPrefix(pre) && folder != [] && '/' !in folder
    requires slug != [] && '/' !in slug && '_' !in slug && '#' !in slug
    ensures CheckLinkFormat(pre + "html/" + folder + "/" + slug + "#")
            == AssemblyModule(folder, slug + "#")
  {
    var s := slug + "#";
    forall i | 1 <= i < |s| - 1 ensures s[i] != '#' {
      assert s[i] == slug[i];
    }
    assert pre + "html/" + folder + "/" + slug + "#" == pre + "html/" + folder + "/" + s;
    ModuleFromJoin(pre + "html/" + folder + "/" + s, pre, folder, s);
  }

  /** The module id reaches up to the last `_`: `proc_a_b` splits into `proc_a` and `b`. */
  lemma ContextSplitsAtLastUnderscore(pre: string)
    requires LinkPrefix(pre)
    ensures CheckLinkFormat(pre + "html/" + "f" + "/" + "s" + "#" + "proc_a" + "_" + "b")
            == AssemblyModuleContext("f", "s", "proc_a", "b")
  {
    var link := pre + "html/" + "f" + "/" + "s" + "#" + "proc_a" + "_" + "b";
    assert link + [] == link;
    assert "proc_a"[..5] == "proc_";
    ContextFromJoin(link, pre, "f", "s", "proc_a", "b");
  }

  /** A `#` in the context id, with no `_` after it, makes the link an assembly/assembly
      link: `s#m_c#d` becomes slug `s#m_c` with anchor `d`. */
  lemma HashInContextIdIsAssembly(pre: string)
    requires LinkPrefix(pre)
    ensures CheckLinkFormat(pre + "html/" + "f" + "/" + "s#m_c" + "#" + "d")
            == AssemblyAssembly("f", "s#m_c", "d")
  {
    AssemblyFromJoin(pre + "html/" + "f" + "/" + "s#m_c" + "#" + "d", pre, "f", "s#m_c", "d");
  }
}
