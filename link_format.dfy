/** `check_link_format` of create-xref-from-drh.py: the three URL patterns, tried in order.

    Each pattern is a chain of greedy quantifiers, so the match that Python's backtracking
    engine reports is the one whose group end positions are lexicographically greatest
    among all ways of matching: the first quantifier is tried longest first, then the
    second, and so on. A "split" below records those end positions; `...At` says that a
    split is a match, `...First` that it is the one Python reports, and `...Search`
    computes it. Python's `.` matches any character but a newline. */
module LinkFormat {
  import opened Text
  import opened Wrappers

  /** The shape of a link and the regex groups that come with it. */
  datatype LinkFormat =
    | AssemblyAssembly(folder: string, slug: string, anchorId: string)
    | AssemblyModule(folder: string, slug: string)
    | AssemblyModuleContext(folder: string, slug: string, moduleId: string, contextId: string)
    | Invalid

  /** `.+html/` with the `.+` ending at `p`: at least one character, no newline, then `html/`. */
  predicate HtmlAt(s: string, p: int) {
    1 <= p && p + 5 <= |s| && s[p..p + 5] == "html/" && Avoids(s, '\n', 0, p)
  }

  // ---------------------------------------------------------------------------------
  // assembly/assembly: `.+html/([^/]+)/([^/]+)#([^_/]+)$`
  // The folder is s[p+5..j], the slug s[j+1..k], the anchor s[k+1..].
  // (The last group admits a newline, so `$` matching before a final newline gives
  // no match that matching at the very end does not give first.)

  datatype AssemblySplit = AssemblySplit(p: nat, j: nat, k: nat)

  predicate AssemblyAt(s: string, t: AssemblySplit) {
    && HtmlAt(s, t.p)
    && t.p + 5 < t.j < |s| && s[t.j] == '/' && Avoids(s, '/', t.p + 5, t.j)
    && t.j + 1 < t.k && t.k + 1 < |s| && s[t.k] == '#' && Avoids(s, '/', t.j + 1, t.k)
    && Avoids(s, '_', t.k + 1, |s|) && Avoids(s, '/', t.k + 1, |s|)
  }

  ghost predicate AssemblyLe(u: AssemblySplit, t: AssemblySplit) {
    u.p < t.p || (u.p == t.p && (u.j < t.j || (u.j == t.j && u.k <= t.k)))
  }

  ghost predicate AssemblyFirst(s: string, t: AssemblySplit) {
    AssemblyAt(s, t) && forall u :: AssemblyAt(s, u) ==> AssemblyLe(u, t)
  }

  /** The greatest assembly match whose `.+` ends at `p`. */
  function AssemblyFrom(s: string, p: nat): (r: Option<AssemblySplit>)
    requires HtmlAt(s, p)
    ensures r.Some? ==> r.value.p == p && AssemblyAt(s, r.value)
    ensures r.Some? ==> forall u :: AssemblyAt(s, u) && u.p == p ==> AssemblyLe(u, r.value)
    ensures r.None? ==> forall u :: AssemblyAt(s, u) ==> u.p != p
  {
    var j := FirstIndexOf(s, '/', p + 5);
    if j == p + 5 || j == |s| then None
    else
      var z := FirstIndexOf(s, '/', j + 1);
      if z < |s| then None
      else
        var k := LastIndexOf(s, '#', j + 2, |s| - 1);
        if k == -1 then None
        else if !Avoids(s, '_', k + 1, |s|) then
          assert forall u :: AssemblyAt(s, u) && u.p == p ==> u.j == j && u.k <= k;
          None
        else Some(AssemblySplit(p, j, k))
  }

  /** The greatest assembly match whose `.+` ends before `hi`. */
  function AssemblySearch(s: string, hi: nat): (r: Option<AssemblySplit>)
    requires hi <= |s|
    ensures r.Some? ==> AssemblyAt(s, r.value) && r.value.p < hi
    ensures r.Some? ==> forall u :: AssemblyAt(s, u) && u.p < hi ==> AssemblyLe(u, r.value)
    ensures r.None? ==> forall u :: AssemblyAt(s, u) ==> u.p >= hi
  {
    if hi == 0 then None
    else
      var here := if HtmlAt(s, hi - 1) then AssemblyFrom(s, hi - 1) else None;
      if here.Some? then here
      else
        assert forall u :: AssemblyAt(s, u) ==> u.p != hi - 1;
        AssemblySearch(s, hi - 1)
  }

  // ---------------------------------------------------------------------------------
  // assembly/module: `.+html/([^/]+)/([^_/]+)$`
  // The folder is s[p+5..j], the slug s[j+1..].

  datatype ModuleSplit = ModuleSplit(p: nat, j: nat)

  predicate ModuleAt(s: string, t: ModuleSplit) {
    && HtmlAt(s, t.p)
    && t.p + 5 < t.j && t.j + 1 < |s| && s[t.j] == '/' && Avoids(s, '/', t.p + 5, t.j)
    && Avoids(s, '_', t.j + 1, |s|) && Avoids(s, '/', t.j + 1, |s|)
  }

  ghost predicate ModuleLe(u: ModuleSplit, t: ModuleSplit) {
    u.p < t.p || (u.p == t.p && u.j <= t.j)
  }

  ghost predicate ModuleFirst(s: string, t: ModuleSplit) {
    ModuleAt(s, t) && forall u :: ModuleAt(s, u) ==> ModuleLe(u, t)
  }

  /** The module match whose `.+` ends at `p`; there is at most one. */
  function ModuleFrom(s: string, p: nat): (r: Option<ModuleSplit>)
    requires HtmlAt(s, p)
    ensures r.Some? ==> r.value.p == p && ModuleAt(s, r.value)
    ensures r.Some? ==> forall u :: ModuleAt(s, u) && u.p == p ==> u == r.value
    ensures r.None? ==> forall u :: ModuleAt(s, u) ==> u.p != p
  {
    var j := FirstIndexOf(s, '/', p + 5);
    if j == p + 5 || j + 1 >= |s| then None
    else if !Avoids(s, '_', j + 1, |s|) || !Avoids(s, '/', j + 1, |s|) then
      assert forall u :: ModuleAt(s, u) && u.p == p ==> u.j == j;
      None
    else Some(ModuleSplit(p, j))
  }

  /** The greatest module match whose `.+` ends before `hi`. */
  function ModuleSearch(s: string, hi: nat): (r: Option<ModuleSplit>)
    requires hi <= |s|
    ensures r.Some? ==> ModuleAt(s, r.value) && r.value.p < hi
    ensures r.Some? ==> forall u :: ModuleAt(s, u) && u.p < hi ==> ModuleLe(u, r.value)
    ensures r.None? ==> forall u :: ModuleAt(s, u) ==> u.p >= hi
  {
    if hi == 0 then None
    else
      var here := if HtmlAt(s, hi - 1) then ModuleFrom(s, hi - 1) else None;
      if here.Some? then here
      else
        assert forall u :: ModuleAt(s, u) ==> u.p != hi - 1;
        ModuleSearch(s, hi - 1)
  }

  // ---------------------------------------------------------------------------------
  // assembly/module_context: `.+html/([^/]+)/([^/]+)#([^/]+)_(.+)` (no `$`)
  // The folder is s[p+5..j], the slug s[j+1..k], the module id s[k+1..m] and the
  // context id s[m+1..e]; whatever follows e is not part of the match.

  datatype ContextSplit = ContextSplit(p: nat, j: nat, k: nat, m: nat, e: nat)

  predicate ContextAt(s: string, t: ContextSplit) {
    && HtmlAt(s, t.p)
    && t.p + 5 < t.j < |s| && s[t.j] == '/' && Avoids(s, '/', t.p + 5, t.j)
    && t.j + 1 < t.k < |s| && s[t.k] == '#' && Avoids(s, '/', t.j + 1, t.k)
    && t.k + 1 < t.m < |s| && s[t.m] == '_' && Avoids(s, '/', t.k + 1, t.m)
    && t.m + 1 < t.e <= |s| && Avoids(s, '\n', t.m + 1, t.e)
  }

  ghost predicate ContextLe(u: ContextSplit, t: ContextSplit) {
    || u.p < t.p
    || (u.p == t.p && u.j < t.j)
    || (u.p == t.p && u.j == t.j && u.k < t.k)
    || (u.p == t.p && u.j == t.j && u.k == t.k && u.m < t.m)
    || (u.p == t.p && u.j == t.j && u.k == t.k && u.m == t.m && u.e <= t.e)
  }

  ghost predicate ContextFirst(s: string, t: ContextSplit) {
    ContextAt(s, t) && forall u :: ContextAt(s, u) ==> ContextLe(u, t)
  }

  /** An underscore that `(.+)` can follow: the next character exists and is not a newline. */
  predicate SplitPoint(s: string, m: int) {
    0 <= m && m + 1 < |s| && s[m] == '_' && s[m + 1] != '\n'
  }

  /** The last split point in `[lo, hi)`, or -1. */
  function LastSplitPoint(s: string, lo: int, hi: int): (r: int)
    requires 0 <= lo && hi <= |s|
    ensures r == -1 || (lo <= r < hi && SplitPoint(s, r))
    ensures forall m :: (if r == -1 then lo else r + 1) <= m < hi ==> !SplitPoint(s, m)
    decreases hi - lo
  {
    if hi <= lo then -1
    else if SplitPoint(s, hi - 1) then hi - 1
    else LastSplitPoint(s, lo, hi - 1)
  }

  /** Every context match at `p` uses the first slash after `html/` and an underscore that
      is a split point between that slash and the next one. */
  lemma ContextMatchBounds(s: string, p: nat, j: nat, z: nat)
    requires HtmlAt(s, p) && p + 5 < j < |s|
    requires j == FirstIndexOf(s, '/', p + 5) && z == FirstIndexOf(s, '/', j + 1)
    ensures forall u :: ContextAt(s, u) && u.p == p ==>
              u.j == j && j + 3 <= u.m < z && SplitPoint(s, u.m)
  {
    forall u | ContextAt(s, u) && u.p == p
      ensures u.j == j && j + 3 <= u.m < z && SplitPoint(s, u.m)
    {
      assert u.j == j;
      assert s[u.m + 1] != '\n';
      assert Avoids(s, '/', j + 1, u.m + 1);
    }
  }

  /** The split that ContextFrom builds is a match and no match at `p` is greater. */
  lemma ContextFound(s: string, p: nat, j: nat, z: nat, m: int, k: int, e: nat)
    requires HtmlAt(s, p) && p + 5 < j < |s|
    requires j == FirstIndexOf(s, '/', p + 5) && z == FirstIndexOf(s, '/', j + 1)
    requires m == LastSplitPoint(s, j + 3, z) && m != -1
    requires k == LastIndexOf(s, '#', j + 2, m - 1) && k != -1
    requires e == FirstIndexOf(s, '\n', m + 1)
    ensures ContextAt(s, ContextSplit(p, j, k, m, e))
    ensures forall u :: ContextAt(s, u) && u.p == p ==> ContextLe(u, ContextSplit(p, j, k, m, e))
  {
    assert Avoids(s, '/', j + 1, m);
    ContextMatchBounds(s, p, j, z);
    forall u | ContextAt(s, u) && u.p == p
      ensures ContextLe(u, ContextSplit(p, j, k, m, e))
    {
      assert u.m <= m;
      assert u.k <= k;
      if u.k == k && u.m == m {
        assert u.e <= e;
      }
    }
  }

  /** The greatest context match whose `.+` ends at `p`: the underscore is the last split
      point before the next slash, the `#` the last one before it. */
  function ContextFrom(s: string, p: nat): (r: Option<ContextSplit>)
    requires HtmlAt(s, p)
    ensures r.Some? ==> r.value.p == p && ContextAt(s, r.value)
    ensures r.Some? ==> forall u :: ContextAt(s, u) && u.p == p ==> ContextLe(u, r.value)
    ensures r.None? ==> forall u :: ContextAt(s, u) ==> u.p != p
  {
    var j := FirstIndexOf(s, '/', p + 5);
    if j == p + 5 || j == |s| then None
    else
      var z := FirstIndexOf(s, '/', j + 1);
      ContextMatchBounds(s, p, j, z);
      var m := LastSplitPoint(s, j + 3, z);
      if m == -1 then None
      else
        var k := LastIndexOf(s, '#', j + 2, m - 1);
        if k == -1 then None
        else
          var e := FirstIndexOf(s, '\n', m + 1);
          ContextFound(s, p, j, z, m, k, e);
          Some(ContextSplit(p, j, k, m, e))
  }

  /** The greatest context match whose `.+` ends before `hi`. */
  function ContextSearch(s: string, hi: nat): (r: Option<ContextSplit>)
    requires hi <= |s|
    ensures r.Some? ==> ContextAt(s, r.value) && r.value.p < hi
    ensures r.Some? ==> forall u :: ContextAt(s, u) && u.p < hi ==> ContextLe(u, r.value)
    ensures r.None? ==> forall u :: ContextAt(s, u) ==> u.p >= hi
  {
    if hi == 0 then None
    else
      var here := if HtmlAt(s, hi - 1) then ContextFrom(s, hi - 1) else None;
      if here.Some? then here
      else
        assert forall u :: ContextAt(s, u) ==> u.p != hi - 1;
        ContextSearch(s, hi - 1)
  }

  // ---------------------------------------------------------------------------------
  // check_link_format

  /** The groups of an assembly match. */
  function AssemblyGroups(s: string, t: AssemblySplit): LinkFormat
    requires t.p + 5 <= t.j < t.k < |s|
  {
    AssemblyAssembly(s[t.p + 5..t.j], s[t.j + 1..t.k], s[t.k + 1..])
  }

  /** The groups of a module match. */
  function ModuleGroups(s: string, t: ModuleSplit): LinkFormat
    requires t.p + 5 <= t.j < |s|
  {
    AssemblyModule(s[t.p + 5..t.j], s[t.j + 1..])
  }

  /** The groups of a context match. */
  function ContextGroups(s: string, t: ContextSplit): LinkFormat
    requires t.p + 5 <= t.j < t.k < t.m < t.e <= |s|
  {
    AssemblyModuleContext(s[t.p + 5..t.j], s[t.j + 1..t.k], s[t.k + 1..t.m], s[t.m + 1..t.e])
  }

  /** The patterns are tried assembly/assembly, assembly/module, assembly/module_context;
      the first that matches gives the shape, with the groups of Python's match. */
  function CheckLinkFormat(link: string): (r: LinkFormat)
    ensures r.AssemblyAssembly? ==> exists t :: AssemblyFirst(link, t) && r == AssemblyGroups(link, t)
    ensures r.AssemblyModule? ==>
              (forall t :: !AssemblyAt(link, t))
              && exists t :: ModuleFirst(link, t) && r == ModuleGroups(link, t)
    ensures r.AssemblyModuleContext? ==>
              (forall t :: !AssemblyAt(link, t)) && (forall t :: !ModuleAt(link, t))
              && exists t :: ContextFirst(link, t) && r == ContextGroups(link, t)
    ensures r.Invalid? ==>
              (forall t :: !AssemblyAt(link, t)) && (forall t :: !ModuleAt(link, t))
              && (forall t :: !ContextAt(link, t))
  {
    match AssemblySearch(link, |link|)
    case Some(a) => AssemblyGroups(link, a)
    case None =>
      match ModuleSearch(link, |link|)
      case Some(b) => ModuleGroups(link, b)
      case None =>
        match ContextSearch(link, |link|)
        case Some(c) => ContextGroups(link, c)
        case None => Invalid
  }

  /** Which shape CheckLinkFormat reports, in terms of which patterns match at all. */
  lemma CheckLinkFormatCases(link: string)
    ensures CheckLinkFormat(link).AssemblyAssembly? <==> exists t :: AssemblyAt(link, t)
    ensures CheckLinkFormat(link).AssemblyModule? <==>
              (forall t :: !AssemblyAt(link, t)) && exists t :: ModuleAt(link, t)
    ensures CheckLinkFormat(link).AssemblyModuleContext? <==>
              (forall t :: !AssemblyAt(link, t)) && (forall t :: !ModuleAt(link, t))
              && exists t :: ContextAt(link, t)
    ensures CheckLinkFormat(link).Invalid? <==>
              (forall t :: !AssemblyAt(link, t)) && (forall t :: !ModuleAt(link, t))
              && (forall t :: !ContextAt(link, t))
  {
    var r := CheckLinkFormat(link);
    if r.AssemblyAssembly? {
      var t :| AssemblyFirst(link, t) && r == AssemblyGroups(link, t);
    } else if r.AssemblyModule? {
      var t :| ModuleFirst(link, t) && r == ModuleGroups(link, t);
    } else if r.AssemblyModuleContext? {
      var t :| ContextFirst(link, t) && r == ContextGroups(link, t);
    }
  }
}
