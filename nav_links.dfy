/**
 * Navigation links of the header: `configureNavLinks` rewrites each link's
 * target for local or deployed serving, and `highlightActiveNav` marks the
 * link of the current page.
 */
module NavLinks {
  import opened PageKey

  /**
   * A `.navbar__link[data-page]` element: its `data-page` value (always
   * present, since the selector requires the attribute; it may be empty),
   * its `href`, and whether it carries the `is-active` class.
   */
  datatype Link = Link(page: string, href: string, active: bool)

  /** The site is served from disk or a loopback host. */
  predicate IsLocal(protocol: string, hostname: string)
  {
    protocol == "file:" || hostname == "localhost" || hostname == "127.0.0.1"
  }

  /**
   * `getHrefForPage`: file names when local, root-relative paths when
   * deployed; home is the site root, served locally as `index`. The lemmas
   * `DeployedHrefResolves` and `LocalHrefResolves` show that each href leads
   * back to its page.
   */
  function HrefForPage(page: string, isLocal: bool): (r: string)
    ensures var stem := if page == "home" then "index" else page;
      isLocal ==> r == stem + ".html"
    ensures var name := if page == "home" then "" else page;
      !isLocal ==> r == "/" + name
  {
    if page == "home" then (if isLocal then "index.html" else "/")
    else if isLocal then page + ".html"
    else "/" + page
  }

  /** `page === currentPage`: a string never equals an inherited member. */
  predicate Matches(page: string, current: Key)
  {
    current.Page? && page == current.name
  }

  /** The links after highlighting for `current`. */
  function Highlighted(links: seq<Link>, current: Key): (r: seq<Link>)
  {
    seq(|links|, i requires 0 <= i < |links| => links[i].(active := Matches(links[i].page, current)))
  }

  /** The links after configuration: links with an empty `data-page` keep their href. */
  function Configured(links: seq<Link>, isLocal: bool): (r: seq<Link>)
  {
    seq(|links|, i requires 0 <= i < |links| =>
      if links[i].page == "" then links[i] else links[i].(href := HrefForPage(links[i].page, isLocal)))
  }

  /** `highlightActiveNav()` on the links of the document, at `pathname`. */
  method HighlightActiveNav(links: array<Link>, pathname: string)
    modifies links
    ensures links[..] == Highlighted(old(links[..]), CurrentPageKey(pathname))
  {
    var current := CurrentPageKey(pathname);
    for i := 0 to links.Length
      invariant links[..i] == Highlighted(old(links[..]), current)[..i]
      invariant links[i..] == old(links[i..])
    {
      links[i] := links[i].(active := current.Page? && links[i].page == current.name);
    }
  }

  /** `configureNavLinks(container)` on the links of the header. */
  method ConfigureNavLinks(links: array<Link>, protocol: string, hostname: string)
    modifies links
    ensures links[..] == Configured(old(links[..]), IsLocal(protocol, hostname))
  {
    if links.Length == 0 {
      return;
    }
    var isLocal := IsLocal(protocol, hostname);
    for i := 0 to links.Length
      invariant links[..i] == Configured(old(links[..]), isLocal)[..i]
      invariant links[i..] == old(links[i..])
    {
      var page := links[i].page;
      if page != "" {
        links[i] := links[i].(href := HrefForPage(page, isLocal));
      }
    }
  }

  // ---------------------------------------------------------------------------
  // Properties.

  /**
   * After highlighting, a link is active exactly when its page is the current
   * key; nothing else about the links changes.
   */
  lemma HighlightMarksExactlyCurrent(links: seq<Link>, current: Key, i: int)
    requires 0 <= i < |links|
    ensures |Highlighted(links, current)| == |links|
    ensures Highlighted(links, current)[i].active <==> current.Page? && links[i].page == current.name
    ensures Highlighted(links, current)[i].page == links[i].page
    ensures Highlighted(links, current)[i].href == links[i].href
  {
  }

  /** Highlighting twice gives the same links as highlighting once. */
  lemma HighlightIdempotent(links: seq<Link>, current: Key)
    ensures Highlighted(Highlighted(links, current), current) == Highlighted(links, current)
  {
  }

  /**
   * When exactly one link carries the current page, exactly that link is
   * active.
   */
  lemma HighlightSingleMatch(links: seq<Link>, current: Key, k: int)
    requires 0 <= k < |links| && Matches(links[k].page, current)
    requires forall j :: 0 <= j < |links| && j != k ==> !Matches(links[j].page, current)
    ensures forall j :: 0 <= j < |links| ==> (Highlighted(links, current)[j].active <==> j == k)
  {
  }

  /** Configuring twice gives the same links as configuring once. */
  lemma ConfigureIdempotent(links: seq<Link>, isLocal: bool)
    ensures Configured(Configured(links, isLocal), isLocal) == Configured(links, isLocal)
  {
  }

  /** Configuration and highlighting touch different fields, so their order does not matter. */
  lemma ConfigureHighlightCommute(links: seq<Link>, isLocal: bool, current: Key)
    ensures Configured(Highlighted(links, current), isLocal) == Highlighted(Configured(links, isLocal), current)
  {
  }

  /** A deployed href is a root-relative path that resolves back to its own page. */
  lemma DeployedHrefResolves(page: string)
    requires page in Pages
    ensures CurrentPageKey(HrefForPage(page, false)) == Page(page)
  {
    if page == "home" {
      assert HrefForPage(page, false) == Slashes(1);
      AllSlashesIsHome(1);
    } else {
      assert HrefForPage(page, false) == "" + "/" + page;
      PageSegmentsResolve("", page);
    }
  }

  /** A local href, opened from any directory, resolves back to its own page. */
  lemma LocalHrefResolves(page: string, dir: string)
    requires page in Pages
    ensures CurrentPageKey(dir + "/" + HrefForPage(page, true)) == Page(page)
  {
    if page == "home" {
      assert dir + "/" + HrefForPage(page, true) == dir + "/index.html";
      IndexSegmentsResolve(dir);
    } else {
      assert dir + "/" + HrefForPage(page, true) == dir + "/" + page + ".html";
      PageSegmentsResolve(dir, page);
    }
  }

  /**
   * Following a configured link loads a page on which that same link is
   * highlighted.
   */
  lemma FollowedLinkBecomesActive(links: seq<Link>, i: int, isLocal: bool, dir: string)
    requires 0 <= i < |links| && links[i].page in Pages
    ensures var target := Configured(links, isLocal)[i].href;
            var pathname := if isLocal then dir + "/" + target else target;
            Highlighted(Configured(links, isLocal), CurrentPageKey(pathname))[i].active
  {
    if isLocal {
      LocalHrefResolves(links[i].page, dir);
    } else {
      DeployedHrefResolves(links[i].page);
    }
  }
}
