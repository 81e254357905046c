/** Path helpers: resolving a path against a base directory, mapping an
    input file to its place under the output directory, and the test that
    decides which walked files are collected. */
module Paths {
  import opened Wrappers
  import opened Bytes
  import opened Oracles

  const SLASH: byte := 47
  const DOT: byte := 46
  const PARENT: Bytes := [46, 46, 47]  // "../"
  const HTML_EXT: Bytes := [46, 104, 116, 109, 108]  // ".html"
  const HTM_EXT: Bytes := [46, 104, 116, 109]       // ".htm"

  /** fp.IsAbs on a Unix system. */
  predicate IsAbs(p: Bytes)
  {
    |p| > 0 && p[0] == SLASH
  }

  /** strings.HasSuffix */
  predicate HasSuffix(s: Bytes, suffix: Bytes)
  {
    |suffix| <= |s| && s[|s| - |suffix|..] == suffix
  }

  /** getFullPath: an absolute target is kept, a relative one is joined to the base. */
  function FullPath(env: Env, base: Bytes, target: Bytes): (r: Bytes)
    ensures IsAbs(target) ==> r == target
    ensures !IsAbs(target) ==> r == env.join(base, target)
  {
    if IsAbs(target) then target else env.join(base, target)
  }

  /** `k` leading "../" segments. */
  function Parents(k: nat): (r: Bytes)
    ensures |r| == 3 * k
  {
    if k == 0 then [] else PARENT + Parents(k - 1)
  }

  /** The number of leading "../" segments of `p`. */
  function ParentCount(p: Bytes): nat
    decreases |p|
  {
    if HasPrefix(p, PARENT) then 1 + ParentCount(p[3..]) else 0
  }

  /** What remains of `p` once every leading "../" is removed: a suffix of
      `p` that does not start with "../". */
  function StripParents(p: Bytes): (r: Bytes)
    ensures !HasPrefix(r, PARENT)
    ensures |r| <= |p| && r == p[|p| - |r|..]
    decreases |p|
  {
    if HasPrefix(p, PARENT) then StripParents(p[3..]) else p
  }

  /** What is removed is exactly the leading "../" segments. */
  lemma {:induction false} StripParentsSplit(p: Bytes)
    ensures p == Parents(ParentCount(p)) + StripParents(p)
    decreases |p|
  {
    if HasPrefix(p, PARENT) {
      var rest := p[3..];
      var c, r := ParentCount(rest), StripParents(rest);
      StripParentsSplit(rest);
      assert ParentCount(p) == c + 1 && StripParents(p) == r;
      assert Parents(c + 1) == PARENT + Parents(c);
      assert p == PARENT + rest;
      AppendAssoc(PARENT, Parents(c), r);
    } else {
      assert Parents(ParentCount(p)) == [];
      assert [] + p == p;
    }
  }

  /** Stripping is idempotent. */
  lemma StripParentsIdempotent(p: Bytes)
    ensures StripParents(StripParents(p)) == StripParents(p)
  {
  }

  /** The decomposition is the only one: any split of a path into "../"
      segments and a rest not starting with "../" is the one StripParents makes. */
  lemma {:induction false} StripParentsUnique(s: Bytes, k: nat)
    requires !HasPrefix(s, PARENT)
    ensures StripParents(Parents(k) + s) == s
    ensures ParentCount(Parents(k) + s) == k
  {
    if k > 0 {
      var p := Parents(k) + s;
      AppendAssoc(PARENT, Parents(k - 1), s);
      assert p[..3] == PARENT;
      assert p[3..] == Parents(k - 1) + s;
      StripParentsUnique(s, k - 1);
    } else {
      assert Parents(k) + s == s;
    }
  }

  /** getAbsPathFitStructure: the output path of an input file.  An absolute
      path is first made relative to the working directory; fp.Rel cannot
      fail there, as both paths are absolute. */
  method AbsPathFitStructure(env: Env, cwd: Bytes, outDirAbs: Bytes, path: Bytes) returns (r: Bytes)
    ensures r == env.join(outDirAbs, StripParents(if IsAbs(path) then env.rel(cwd, path) else path))
  {
    var p := path;
    if IsAbs(p) {
      p := env.rel(cwd, p);
    }
    ghost var start := p;
    while HasPrefix(p, PARENT)
      invariant StripParents(p) == StripParents(start)
      decreases |p|
    {
      p := p[3..];
    }
    r := env.join(outDirAbs, p);
  }

  /** fp.Ext: the suffix from the last "." of the final path element, or
      nothing when that element has no ".". */
  function Ext(p: Bytes): (r: Bytes)
    ensures HasSuffix(p, r)
    ensures r != [] ==> r[0] == DOT && forall i :: 1 <= i < |r| ==> r[i] != DOT && r[i] != SLASH
    decreases |p|
  {
    if p == [] || p[|p| - 1] == SLASH then []
    else if p[|p| - 1] == DOT then [DOT]
    else
      var init := p[..|p| - 1];
      var e := Ext(init);
      if e == [] then [] else e + [p[|p| - 1]]
  }

  /** fp.Ext reports nothing only when every "." of the path lies before
      some "/", that is, the final element has no ".". */
  lemma {:induction false} ExtEmptyOnlyWithoutDot(p: Bytes)
    requires Ext(p) == []
    ensures forall i :: 0 <= i < |p| && p[i] == DOT ==> exists j :: i < j < |p| && p[j] == SLASH
    decreases |p|
  {
    if p != [] {
      var n := |p| - 1;
      if p[n] == SLASH {
        forall i | 0 <= i < n && p[i] == DOT
          ensures exists j :: i < j < |p| && p[j] == SLASH
        {
          assert p[n] == SLASH;
        }
      } else {
        var init := p[..n];
        assert p[n] != DOT;
        assert Ext(init) == [];
        ExtEmptyOnlyWithoutDot(init);
        forall i | 0 <= i < |p| && p[i] == DOT
          ensures exists j :: i < j < |p| && p[j] == SLASH
        {
          assert i < n && init[i] == DOT;
          var j :| i < j < n && init[j] == SLASH;
          assert p[j] == SLASH;
        }
      }
    }
  }

  /** An extension that is a dot followed by bytes that are neither dots nor
      slashes is exactly what fp.Ext reports for a name ending in it. */
  lemma {:induction false} ExtOfSuffix(q: Bytes, t: Bytes)
    requires forall i :: 0 <= i < |t| ==> t[i] != DOT && t[i] != SLASH
    ensures Ext(q + [DOT] + t) == [DOT] + t
    decreases |t|
  {
    var p := q + [DOT] + t;
    if t != [] {
      var t', last := t[..|t| - 1], t[|t| - 1];
      assert t == t' + [last];
      assert p[..|p| - 1] == q + [DOT] + t';
      ExtOfSuffix(q, t');
      assert p[|p| - 1] == last && last != DOT && last != SLASH;
      assert Ext(p[..|p| - 1]) == [DOT] + t';
      assert Ext(p) == [DOT] + t' + [last];
      assert [DOT] + t' + [last] == [DOT] + t;
    } else {
      assert p[|p| - 1] == DOT;
      assert [DOT] + t == [DOT];
    }
  }

  /** The extension test of appendIfHTML, which is case-sensitive. */
  predicate IsHtmlName(name: Bytes)
  {
    var ext := Ext(name);
    ext == HTML_EXT || ext == HTM_EXT
  }

  /** A name ending in ".html" or ".htm" has that as its extension. */
  lemma HtmlSuffixIsExt(name: Bytes, ext: Bytes)
    requires ext == HTML_EXT || ext == HTM_EXT
    requires HasSuffix(name, ext)
    ensures Ext(name) == ext
  {
    var q := name[..|name| - |ext|];
    var t := ext[1..];
    assert forall i :: 0 <= i < |t| ==> t[i] != DOT && t[i] != SLASH;
    assert name == q + [DOT] + t;
    ExtOfSuffix(q, t);
  }

  /** IsHtmlName is the plain suffix test: the name ends in ".html" or ".htm". */
  lemma IsHtmlNameIffSuffix(name: Bytes)
    ensures IsHtmlName(name) <==> HasSuffix(name, HTML_EXT) || HasSuffix(name, HTM_EXT)
  {
    if HasSuffix(name, HTML_EXT) {
      HtmlSuffixIsExt(name, HTML_EXT);
    } else if HasSuffix(name, HTM_EXT) {
      HtmlSuffixIsExt(name, HTM_EXT);
    } else {
      assert HasSuffix(name, Ext(name));
    }
  }

  /** pathEntry: a collected file's path and its directory entry's name. */
  datatype PathEntry = PathEntry(path: Bytes, name: Bytes)

  /** appendIfHTML: a walk error is handed back and nothing is collected;
      otherwise an HTML file is appended and nil is returned. */
  function AppendIfHTML(path: Bytes, name: Bytes, err: Option<Error>, htmls: seq<PathEntry>):
    (r: (seq<PathEntry>, Option<Error>))
    ensures err.Some? ==> r == (htmls, err)
    ensures err.None? ==> r.1.None?
    ensures r.0 == htmls || r.0 == htmls + [PathEntry(path, name)]
    ensures r.0 != htmls <==> err.None? && IsHtmlName(name)
  {
    if err.Some? then (htmls, err)
    else if IsHtmlName(name) then (htmls + [PathEntry(path, name)], None)
    else (htmls, None)
  }

  /** appendIfOutsideOutDir: anything whose absolute path has the output
      directory as a plain string prefix is skipped, its error included. */
  function AppendIfOutsideOutDir(outDirAbs: Bytes, absPath: Bytes, name: Bytes, err: Option<Error>,
                                 htmls: seq<PathEntry>): (r: (seq<PathEntry>, Option<Error>))
    ensures HasPrefix(absPath, outDirAbs) ==> r == (htmls, None)
    ensures !HasPrefix(absPath, outDirAbs) ==> r == AppendIfHTML(absPath, name, err, htmls)
  {
    if !HasPrefix(absPath, outDirAbs) then AppendIfHTML(absPath, name, err, htmls) else (htmls, None)
  }

  /** A walked file is collected exactly when the walk reported no error for
      it, its name ends in ".html" or ".htm", and it is not under the output
      directory by string prefix; only then does the list grow, by that file. */
  lemma CollectedIff(outDirAbs: Bytes, absPath: Bytes, name: Bytes, err: Option<Error>, htmls: seq<PathEntry>)
    ensures var r := AppendIfOutsideOutDir(outDirAbs, absPath, name, err, htmls);
      (r.0 == htmls + [PathEntry(absPath, name)] <==>
         err.None? && (HasSuffix(name, HTML_EXT) || HasSuffix(name, HTM_EXT)) && !HasPrefix(absPath, outDirAbs))
      && (r.0 == htmls || r.0 == htmls + [PathEntry(absPath, name)])
  {
    IsHtmlNameIffSuffix(name);
    var r := AppendIfOutsideOutDir(outDirAbs, absPath, name, err, htmls);
    assert |htmls + [PathEntry(absPath, name)]| != |htmls|;
  }
}
