/** The two copy-link builders: the URL a heading's anchor icon copies
    (script.js line 38) and the URL a `[data-copy]` button copies
    (script.js line 106). Both start from `location.href` with its fragment
    cut off at the first `#`. */
module CopyLink {
  import opened Text

  /** `location.href.split('#')[0]`: the page address without its fragment. */
  function PageBase(href: string): (base: string)
    ensures '#' !in base && base <= href
    ensures |base| < |href| ==> href[|base|] == '#'
  {
    BeforeFirst(href, '#')
  }

  /** The page base is the first piece of `href.split('#')`. */
  lemma PageBaseIsFirstPiece(href: string)
    ensures PageBase(href) == Split(href, '#')[0]
  {
    BeforeFirstIsFirstPart(href, '#');
  }

  /** The URL copied from a heading's anchor icon: the page base, `#` and the id. */
  function HeadingCopyUrl(href: string, id: string): (url: string)
    ensures |url| == |PageBase(href)| + 1 + |id|
    ensures PageBase(href) <= url && url[|PageBase(href)|] == '#'
  {
    PageBase(href) + "#" + id
  }

  /** The URL copied from a `[data-copy]` button: the page base followed by
      the attribute value as written, no `#` being added. An absent or empty
      value reads as the empty string. */
  function DataCopyUrl(href: string, value: Option<string>): (url: string)
    ensures PageBase(href) <= url
    ensures |url| == |PageBase(href)| + |AttrOrEmpty(value)|
  {
    PageBase(href) + AttrOrEmpty(value)
  }

  /** The heading URL splits at its first `#` into the page base and the id. */
  lemma HeadingUrlParts(href: string, id: string)
    ensures var url := HeadingCopyUrl(href, id);
      PageBase(url) == PageBase(href)
      && |url| == |PageBase(href)| + 1 + |id|
      && url[|PageBase(href)|] == '#'
      && url[|PageBase(href)| + 1..] == id
  {
    var base := PageBase(href);
    var url := HeadingCopyUrl(href, id);
    assert url == base + ("#" + id);
    BeforeFirstConcat(base, "#" + id, '#');
    assert url[|base| + 1..] == id;
  }

  /** Copying a heading link from a page already showing a heading URL
      replaces the fragment: the page part is kept and the new id follows. */
  lemma HeadingUrlReplacesFragment(href: string, id: string, id2: string)
    ensures HeadingCopyUrl(HeadingCopyUrl(href, id), id2) == HeadingCopyUrl(href, id2)
  {
    HeadingUrlParts(href, id);
  }

  /** The page base holds no `#`, whatever the address. */
  lemma PageBaseIdempotent(href: string)
    ensures PageBase(PageBase(href)) == PageBase(href)
  {
    var base := PageBase(href);
    assert base + [] == base;
    BeforeFirstConcat(base, [], '#');
  }

  /** The button URL is the page base followed by the value verbatim: the
      URL has a `#` exactly when the page base is followed by one in the
      value, and an empty or absent value copies the page base alone. */
  lemma DataUrlParts(href: string, value: Option<string>)
    ensures var base := PageBase(href);
      var v := AttrOrEmpty(value);
      var url := DataCopyUrl(href, value);
      |url| == |base| + |v| && url[..|base|] == base && url[|base|..] == v
      && ('#' in url <==> '#' in v)
      && (v == "" ==> url == base)
  {
    var base := PageBase(href);
    var v := AttrOrEmpty(value);
    assert DataCopyUrl(href, value) == base + v;
    assert (base + v)[..|base|] == base;
    assert (base + v)[|base|..] == v;
    assert base + [] == base;
  }

  /** A button whose value is `#` and an id copies what the heading icon for
      that id copies. */
  lemma DataUrlMatchesHeadingUrl(href: string, id: string)
    ensures DataCopyUrl(href, Some("#" + id)) == HeadingCopyUrl(href, id)
  {
    assert PageBase(href) + ("#" + id) == PageBase(href) + "#" + id;
  }
}
