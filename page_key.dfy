/**
 * The path resolver `getCurrentPageKey`: it maps `window.location.pathname`
 * to the logical page the site uses for navigation highlighting.
 */
module PageKey {
  import opened Common

  /** The five logical pages of the site. */
  const Pages: set<string> := {"home", "portfolio", "partners", "videos", "faq"}

  /**
   * Names that a plain JavaScript object literal inherits from
   * `Object.prototype` (ECMA-262 section 20.1.3 and Annex B.2.2). Looking
   * one of them up on the page table yields an inherited function or object,
   * which is truthy, instead of `undefined`.
   */
  const InheritedNames: set<string> := {
    "constructor", "hasOwnProperty", "isPrototypeOf", "propertyIsEnumerable",
    "toLocaleString", "toString", "valueOf", "__proto__",
    "__defineGetter__", "__defineSetter__", "__lookupGetter__", "__lookupSetter__"
  }

  /**
   * What the resolver returns: normally a page name; when the last segment is
   * an inherited member name, the inherited member itself.
   */
  datatype Key = Page(name: string) | ProtoMember(member: string)

  /** `n` copies of '/'. */
  function Slashes(n: nat): (r: string)
    ensures |r| == n && forall i :: 0 <= i < n ==> r[i] == '/'
  {
    seq(n, _ => '/')
  }

  /**
   * `path.replace(/\/+$/, '')`: removes the maximal run of '/' at the end.
   * The result is the longest prefix of `path` that does not end in '/' and
   * after which only slashes follow.
   */
  function StripTrailingSlashes(path: string): (r: string)
    ensures |r| <= |path| && r == path[..|r|]
    ensures r == "" || r[|r| - 1] != '/'
    ensures forall i :: |r| <= i < |path| ==> path[i] == '/'
    decreases |path|
  {
    if |path| > 0 && path[|path| - 1] == '/' then StripTrailingSlashes(path[..|path| - 1])
    else path
  }

  /** `s.split(sep)` for a one-character separator: always at least one piece. */
  function Split(s: string, sep: char): (r: seq<string>)
    ensures |r| >= 1
    decreases |s|
  {
    if |s| == 0 then [""]
    else
      var p := Split(s[..|s| - 1], sep);
      if s[|s| - 1] == sep then p + [""]
      else p[..|p| - 1] + [p[|p| - 1] + [s[|s| - 1]]]
  }

  /** `pieces.join(sep)`, the inverse of `Split`. */
  function Join(pieces: seq<string>, sep: char): string
    requires |pieces| >= 1
  {
    if |pieces| == 1 then pieces[0]
    else Join(pieces[..|pieces| - 1], sep) + [sep] + pieces[|pieces| - 1]
  }

  /**
   * `segments.filter(Boolean)`: drops the empty strings and keeps the others,
   * in order (see `FilterAppend`); its last element is the last non-empty
   * segment.
   */
  function Filter(segments: seq<string>): (r: seq<string>)
    ensures forall i :: 0 <= i < |r| ==> r[i] != ""
    ensures forall x :: x in r <==> x in segments && x != ""
    ensures |r| <= |segments|
    ensures segments != [] && segments[|segments| - 1] != "" ==>
      r != [] && r[|r| - 1] == segments[|segments| - 1]
    ensures segments != [] && segments[|segments| - 1] == "" ==>
      r == Filter(segments[..|segments| - 1])
  {
    if segments == [] then []
    else
      var init, last := segments[..|segments| - 1], segments[|segments| - 1];
      assert segments == init + [last];
      var kept := Filter(init);
      if last != "" then kept + [last] else kept
  }

  /** `xs.pop()` used for its value: the last element, or `undefined`. */
  function Pop(xs: seq<string>): (r: Option<string>)
    ensures r.Some? <==> xs != []
    ensures r.Some? ==> r.value == xs[|xs| - 1]
  {
    if xs == [] then None else Some(xs[|xs| - 1])
  }

  /** The text after the last '/' of `s` (all of `s` when it has no '/'). */
  function Basename(s: string): (r: string)
    ensures |r| <= |s| && r == s[|s| - |r|..]
    ensures '/' !in r
    ensures |r| < |s| ==> s[|s| - |r| - 1] == '/'
  {
    if |s| == 0 || s[|s| - 1] == '/' then "" else Basename(s[..|s| - 1]) + [s[|s| - 1]]
  }

  /**
   * The own properties of the lookup object literal: a page's name and the
   * name with `.html` give that page, `index` standing for home; no
   * inherited member name is an own property.
   */
  function Table(segment: string): (r: Option<string>)
    ensures r.Some? ==> r.value in Pages
    ensures r.Some? && r.value != "home" ==> segment == r.value || segment == r.value + ".html"
    ensures r == Some("home") <==> segment == "index" || segment == "index.html"
    ensures segment in InheritedNames ==> r.None?
  {
    if segment == "index" || segment == "index.html" then Some("home")
    else if segment == "portfolio" || segment == "portfolio.html" then Some("portfolio")
    else if segment == "partners" || segment == "partners.html" then Some("partners")
    else if segment == "videos" || segment == "videos.html" then Some("videos")
    else if segment == "faq" || segment == "faq.html" then Some("faq")
    else None
  }

  /** `map[segment] || 'home'`; `undefined` as a key looks up "undefined", which is absent. */
  function KeyOfSegment(segment: Option<string>): (r: Key)
    ensures r.Page? ==> r.name in Pages
    ensures r.ProtoMember? <==> segment.Some? && segment.value in InheritedNames
    ensures r.ProtoMember? ==> r.member == segment.value
    ensures segment.Some? && Table(segment.value).Some? ==> r == Page(Table(segment.value).value)
    ensures segment.None? || (Table(segment.value).None? && segment.value !in InheritedNames) ==>
      r == Page("home")
  {
    match segment
    case None => Page("home")
    case Some(s) =>
      match Table(s)
      case Some(page) => Page(page)
      case None => if s in InheritedNames then ProtoMember(s) else Page("home")
  }

  /** `getCurrentPageKey()` applied to `window.location.pathname`. */
  function CurrentPageKey(pathname: string): (r: Key)
    ensures r.Page? ==> r.name in Pages
    ensures r.ProtoMember? ==> r.member in InheritedNames
  {
    var path := StripTrailingSlashes(pathname);
    if path == "" then Page("home")
    // Unreachable: the stripped path never ends in '/'.
    else if path == "/" then Page("home")
    else KeyOfSegment(Pop(Filter(Split(path, '/'))))
  }

  // ---------------------------------------------------------------------------
  // Split and Join are inverse, and Split's pieces carry no separator: the
  // two facts together say Split cuts exactly at each separator.

  lemma {:induction false} JoinSplit(s: string, sep: char)
    ensures Join(Split(s, sep), sep) == s
    decreases |s|
  {
    if |s| > 0 {
      var init, c := s[..|s| - 1], s[|s| - 1];
      assert s == init + [c];
      var p := Split(init, sep);
      JoinSplit(init, sep);
      if c == sep {
        var q := p + [""];
        assert Split(s, sep) == q;
        assert q[..|q| - 1] == p;
        assert Join(q, sep) == Join(p, sep) + [sep] + "";
      } else {
        var q := p[..|p| - 1] + [p[|p| - 1] + [c]];
        assert Split(s, sep) == q;
        if |p| == 1 {
          assert Join(q, sep) == p[0] + [c];
        } else {
          assert q[..|q| - 1] == p[..|p| - 1];
          assert Join(q, sep) == Join(p[..|p| - 1], sep) + [sep] + (p[|p| - 1] + [c]);
          assert Join(p, sep) == Join(p[..|p| - 1], sep) + [sep] + p[|p| - 1];
        }
      }
    }
  }

  lemma {:induction false} SplitPiecesFree(s: string, sep: char)
    ensures forall i :: 0 <= i < |Split(s, sep)| ==> sep !in Split(s, sep)[i]
    decreases |s|
  {
    if |s| > 0 {
      SplitPiecesFree(s[..|s| - 1], sep);
    }
  }

  /** Filtering distributes over concatenation: it keeps the order of the kept segments. */
  lemma {:induction false} FilterAppend(a: seq<string>, b: seq<string>)
    ensures Filter(a + b) == Filter(a) + Filter(b)
    decreases |b|
  {
    if b == [] {
      assert a + b == a;
    } else {
      var last := b[|b| - 1];
      assert (a + b)[..|a + b| - 1] == a + b[..|b| - 1];
      FilterAppend(a, b[..|b| - 1]);
    }
  }

  /** The last piece of a split is the text after the last separator. */
  lemma {:induction false} LastPieceIsBasename(s: string)
    ensures Split(s, '/')[|Split(s, '/')| - 1] == Basename(s)
    decreases |s|
  {
    if |s| > 0 {
      LastPieceIsBasename(s[..|s| - 1]);
      LastPieceStep(s, '/');
      BasenameStep(s);
    }
  }

  /** One step of `Basename` at the last character. */
  lemma BasenameStep(s: string)
    requires |s| > 0
    ensures Basename(s) == if s[|s| - 1] == '/' then "" else Basename(s[..|s| - 1]) + [s[|s| - 1]]
  {
  }

  /** One step of `Split` at its last character, seen from the last piece. */
  lemma LastPieceStep(s: string, sep: char)
    requires |s| > 0
    ensures var p, q := Split(s[..|s| - 1], sep), Split(s, sep);
      q[|q| - 1] == if s[|s| - 1] == sep then "" else p[|p| - 1] + [s[|s| - 1]]
  {
  }

  /** Stripping is insensitive to extra trailing slashes. */
  lemma {:induction false} StripIgnoresSlashes(path: string, n: nat)
    ensures StripTrailingSlashes(path + Slashes(n)) == StripTrailingSlashes(path)
    decreases n
  {
    var p := path + Slashes(n);
    if n == 0 {
      assert p == path;
    } else {
      assert p[|p| - 1] == '/';
      assert p[..|p| - 1] == path + Slashes(n - 1);
      StripIgnoresSlashes(path, n - 1);
    }
  }

  // ---------------------------------------------------------------------------
  // Properties of the resolver.

  /** A path and the same path with extra trailing slashes resolve alike. */
  lemma TrailingSlashesIgnored(path: string, n: nat)
    ensures CurrentPageKey(path + Slashes(n)) == CurrentPageKey(path)
  {
    StripIgnoresSlashes(path, n);
  }

  /** "", "/", "///" and every other all-slash path resolve to home. */
  lemma AllSlashesIsHome(n: nat)
    ensures CurrentPageKey(Slashes(n)) == Page("home")
  {
    StripIgnoresSlashes("", n);
    assert "" + Slashes(n) == Slashes(n);
  }

  /** The key depends on the last non-empty segment alone. */
  lemma KeyIsLastSegment(pathname: string)
    ensures var path := StripTrailingSlashes(pathname);
            CurrentPageKey(pathname) ==
              if path == "" then Page("home") else KeyOfSegment(Some(Basename(path)))
  {
    var path := StripTrailingSlashes(pathname);
    if path != "" {
      var pieces := Split(path, '/');
      LastPieceIsBasename(path);
      var base := Basename(path);
      assert base != "";
      assert Filter(pieces) == Filter(pieces[..|pieces| - 1]) + [base];
      assert Pop(Filter(pieces)) == Some(base);
    }
  }

  /** The base name of `dir + "/" + segment` is `segment` when it has no '/'. */
  lemma {:induction false} BasenameOfAppend(dir: string, segment: string)
    requires '/' !in segment
    ensures Basename(dir + "/" + segment) == segment
    decreases |segment|
  {
    var s := dir + "/" + segment;
    if segment != [] {
      var init := segment[..|segment| - 1];
      assert s[..|s| - 1] == dir + "/" + init;
      BasenameOfAppend(dir, init);
      assert init + [segment[|segment| - 1]] == segment;
    }
  }

  /** A path whose last segment is `segment` resolves by that segment. */
  lemma ResolvesBySegment(dir: string, segment: string)
    requires segment != "" && '/' !in segment
    ensures CurrentPageKey(dir + "/" + segment) == KeyOfSegment(Some(segment))
  {
    var path := dir + "/" + segment;
    assert path[|path| - 1] == segment[|segment| - 1];
    assert StripTrailingSlashes(path) == path;
    KeyIsLastSegment(path);
    BasenameOfAppend(dir, segment);
  }

  /** The table maps `p` and `p.html` to `p` for every page but home. */
  lemma TableAliases(p: string)
    requires p in Pages - {"home"}
    ensures Table(p) == Some(p) && Table(p + ".html") == Some(p)
  {
    if p == "portfolio" {
      assert p + ".html" == "portfolio.html";
    } else if p == "partners" {
      assert p + ".html" == "partners.html";
    } else if p == "videos" {
      assert p + ".html" == "videos.html";
    } else {
      assert p + ".html" == "faq.html";
    }
  }

  /**
   * For each page `p` other than home, the segments `p` and `p.html` resolve
   * to `p`, whatever directory precedes them.
   */
  lemma PageSegmentsResolve(dir: string, p: string)
    requires p in Pages - {"home"}
    ensures CurrentPageKey(dir + "/" + p) == Page(p)
    ensures CurrentPageKey(dir + "/" + p + ".html") == Page(p)
  {
    TableAliases(p);
    ResolvesBySegment(dir, p);
    assert dir + "/" + p + ".html" == dir + "/" + (p + ".html");
    ResolvesBySegment(dir, p + ".html");
  }

  /** `index` and `index.html` resolve to home, whatever directory precedes them. */
  lemma IndexSegmentsResolve(dir: string)
    ensures CurrentPageKey(dir + "/index") == Page("home")
    ensures CurrentPageKey(dir + "/index.html") == Page("home")
  {
    assert dir + "/index" == dir + "/" + "index";
    assert dir + "/index.html" == dir + "/" + "index.html";
    ResolvesBySegment(dir, "index");
    ResolvesBySegment(dir, "index.html");
  }

  /** A segment outside the table that is not an inherited name resolves to home. */
  lemma UnknownSegmentIsHome(dir: string, segment: string)
    requires segment != "" && '/' !in segment
    requires Table(segment) == None && segment !in InheritedNames
    ensures CurrentPageKey(dir + "/" + segment) == Page("home")
  {
    ResolvesBySegment(dir, segment);
  }

  /** An inherited member name as last segment does not yield a page name. */
  lemma InheritedSegmentIsNotAPage(dir: string, segment: string)
    requires segment in InheritedNames
    ensures CurrentPageKey(dir + "/" + segment) == ProtoMember(segment)
  {
    assert '/' !in segment;
    ResolvesBySegment(dir, segment);
  }
}
