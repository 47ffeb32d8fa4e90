/** `highlightNav` (script.js lines 116-128): a navigation link is marked
    active exactly when the last `/`-segment of its href is the current
    file name, the last `/`-segment of the pathname, `index.html` standing
    in for an empty one. */
module Nav {
  import opened Text

  const IndexPage: string := "index.html"

  /** The current file name: what follows the pathname's last `/`, or
      `index.html` when that is empty. */
  function CurrentPage(pathname: string): (page: string)
    ensures page != "" && '/' !in page
  {
    var p := AfterLast(pathname, '/');
    if p == "" then IndexPage else p
  }

  /** What follows the href's last `/`: the base name `highlightNav` compares. */
  function LinkBase(href: Option<string>): (base: string)
    ensures '/' !in base
  {
    AfterLast(AttrOrEmpty(href), '/')
  }

  /** Only a link with a non-empty href can be active. */
  predicate IsActive(href: Option<string>, pathname: string)
    ensures IsActive(href, pathname) ==> href.Some? && href.value != ""
  {
    LinkBase(href) == CurrentPage(pathname)
  }

  /** The rule agrees with the literal reading of the source, in which both
      names are the last element of `split('/')`. */
  lemma IsActiveSplitReading(href: Option<string>, pathname: string)
    ensures var parts := Split(pathname, '/');
      var last := parts[|parts| - 1];
      var hparts := Split(AttrOrEmpty(href), '/');
      IsActive(href, pathname) <==> hparts[|hparts| - 1] == (if last == "" then IndexPage else last)
  {
    AfterLastIsLastPart(pathname, '/');
    AfterLastIsLastPart(AttrOrEmpty(href), '/');
  }

  /** A link without href, or with an empty one, is never active, not even
      on the site root, where the current name is `index.html`. */
  lemma EmptyHrefNeverActive(pathname: string)
    ensures !IsActive(None, pathname) && !IsActive(Some(""), pathname)
  {
  }

  /** An href ending in `/` has an empty base name and is never active. */
  lemma TrailingSlashNeverActive(href: string, pathname: string)
    requires href != [] && href[|href| - 1] == '/'
    ensures !IsActive(Some(href), pathname)
  {
    assert LinkBase(Some(href)) == [];
  }

  /** Pathnames carry no fragment and no query, so an href whose last
      segment has a `#` or a `?` is never active. */
  lemma FragmentOrQueryNeverActive(href: string, pathname: string)
    requires '#' !in pathname && '?' !in pathname
    requires '#' in LinkBase(Some(href)) || '?' in LinkBase(Some(href))
    ensures !IsActive(Some(href), pathname)
  {
    var page := CurrentPage(pathname);
    if page != IndexPage {
      AfterLastSuffix(pathname, '/');
      assert forall x :: x in page ==> x in pathname;
    }
  }

  /** Different hrefs with the same base name are active together: a bare
      name and the same name under a directory both match the page. */
  lemma SeveralActive(name: string, dir: string)
    requires name != "" && '/' !in name
    ensures IsActive(Some(name), "/" + name)
    ensures IsActive(Some(dir + "/" + name), "/" + name)
    ensures name != dir + "/" + name
  {
    AfterLastNoSeparator(name, '/');
    AfterLastCons('/', name, '/');
    assert dir + "/" + name == dir + ("/" + name);
    AfterLastPrefix(dir, "/" + name, '/');
    assert |dir + "/" + name| > |name|;
  }

  /** A link of the navigation bar. */
  class NavLink {
    const href: Option<string>
    var active: bool

    constructor (href: Option<string>, active: bool)
      ensures this.href == href && this.active == active
    {
      this.href := href;
      this.active := active;
    }
  }

  /** Sets `active` on every link whose base name is the current file name
      and clears it on every other link. The new flags do not depend on the
      old ones, so a second run changes nothing. */
  method HighlightNav(links: seq<NavLink>, pathname: string)
    modifies set l | l in links
    ensures forall k :: 0 <= k < |links| ==> links[k].active == IsActive(links[k].href, pathname)
  {
    var page := CurrentPage(pathname);
    for i := 0 to |links|
      invariant forall k :: 0 <= k < i ==> links[k].active == IsActive(links[k].href, pathname)
    {
      var base := AfterLast(AttrOrEmpty(links[i].href), '/');
      if base == page {
        links[i].active := true;
      } else {
        links[i].active := false;
      }
    }
  }

  /** Running `highlightNav` a second time changes no flag: `first` holds the
      flags the first run left. */
  method HighlightNavTwice(links: seq<NavLink>, pathname: string) returns (first: seq<bool>)
    modifies set l | l in links
    ensures |first| == |links|
    ensures forall k :: 0 <= k < |links| ==> first[k] == IsActive(links[k].href, pathname)
    ensures forall k :: 0 <= k < |links| ==> links[k].active == first[k]
  {
    HighlightNav(links, pathname);
    first := seq(|links|, k requires 0 <= k < |links| reads links => links[k].active);
    HighlightNav(links, pathname);
  }
}
