# Page enhancements of script.js

This is a Dafny model of the rules the site script `script.js` applies to each
page. The rules are:

- **Slugs** (`Slug`). `slugify` turns heading text into a fragment identifier.
  It lower-cases, decomposes (NFD), deletes the combining marks, deletes every
  character outside `\w`, `-` and space, trims, and turns each run of
  whitespace into one `-`.
- **Anchors** (`Anchors`). `injectAnchors` visits every `.section-title`
  heading, then every `.card-title` heading. A heading without an id gets the
  slug of its text, or of `selector-index` when it has no text. A heading
  without an `.anchor-link` descendant gets one pointing at `#id`. The document is
  an array of heading records. Each selector's matches are a list of indices
  into it, in document order, so a heading can be matched by both selectors,
  as in the page.
- **Copy links** (`CopyLink`). There are two copy-link URLs:
  - the anchor icon copies the page address up to its first `#`, then `#` and
    the id;
  - a `[data-copy]` button copies the same page address followed by the
    attribute value as written.
- **Navigation** (`Nav`). `highlightNav` marks a link active exactly when the
  last `/`-segment of its href equals the last `/`-segment of the pathname,
  with `index.html` used when the pathname's segment is empty. An empty or
  missing href never matches, not even on the site root
  (`Nav.EmptyHrefNeverActive`). Only the file-name comparison exists, so
  several links can be active at once (`Nav.SeveralActive`).
- **Keyboard shortcuts** (`Shortcuts`). `t` or `T` scrolls to the top. A key
  that is exactly one digit `1`–`9` scrolls to the section title at that
  position, when there is one.
- **Back to top** (`BackToTop`). `setupBackToTop` reuses the
  `backToTopFloat` element or creates one. On scroll, that element is visible
  exactly when `scrollY > 260`.

The shared string helpers are in `Text`. They cover:

- JavaScript's one-character `split` and its inverse `join`;
- the pieces `split(c)[0]` and `split(c).pop()`;
- `String(i)` and `parseInt`;
- `toLowerCase`;
- the ECMAScript whitespace set that `trim` and `\s` use.

## Model

| member | source | states |
|---|---|---|
| Text.BeforeFirstIsFirstPart | script.js:38 | the part before the first `c` is the first piece of `split(c)` |
| Text.AfterLastIsLastPart | script.js:117 | the part after the last `c` is the last piece of `split(c)`, i.e. `split(c).pop()` |
| Text.Split | script.js:121 | `split` on one character gives at least one piece, no piece holds the separator, and joining the pieces gives the input back |
| Text.NatToString | script.js:27 | `String(i)` is a decimal numeral with no leading zero whose value is `i` |
| Text.SplitJoin | script.js:121 | splitting a join of separator-free parts on that separator gives the parts back |
| Text.BeforeFirst | script.js:38 | the part before the first `c` holds no `c`, is a prefix of the input, and is followed there by `c` when shorter |
| Text.AfterLast | script.js:117 | the part after the last `c` holds no `c`, is no longer than the input, and is preceded there by `c` when shorter |
| Text.LowerChar | script.js:16 | lower-casing one character leaves no ASCII or Latin-1 capital, changes only capitals, and maps A-Z into a-z |
| Text.LowerStr | script.js:143 | `toLowerCase` keeps the length and leaves no ASCII or Latin-1 capital |
| Text.IsJsWhitespace | script.js:19 | defines the whitespace `trim` removes and `\s` matches: space, U+0009–U+000D, no-break space, the Unicode space separators, U+2028, U+2029 and the byte order mark |
| Text.DecimalValue | script.js:147 | defines the value `parseInt(key, 10)` gives an all-digit string, read left to right in base 10 |
| Text.AttrOrEmpty | script.js:119 | defines how `getAttribute(name)` falls back to `''` (also line 106): an absent attribute reads as `""`, a present one as its value |
| Slug.DecomposeChar | script.js:17 | the model's decomposition leaves a character alone or splits it into a letter a-z and a combining mark; in the model, characters below U+00E0 are unchanged (real NFD also splits U+00C0–U+00DD, but lower-casing runs first, so those never reach it) |
| Slug.IsCombiningMark | script.js:17 | defines the block `[\u0300-\u036f]` the mark removal deletes |
| Slug.Nfd | script.js:17 | the model's decomposition is at least as long as the input and at most twice as long |
| Slug.StripMarks | script.js:17 | deleting the combining marks never lengthens the text |
| Slug.KeepAllowed | script.js:18 | the character filter never lengthens the text |
| Slug.IsWordChar | script.js:18 | defines `\w` without the `u` flag: the ASCII class `[A-Za-z0-9_]` |
| Slug.IsAllowed | script.js:18 | defines the characters `[^\w\- ]` does not match: `\w`, `-` and space |
| Slug.Clean | script.js:16-18 | lower-casing, decomposition, mark removal and the character filter, in that order, as one stage before `trim` |
| Slug.CleanSingleShortens | script.js:16-18 | one character gives at most one after the filtering stages: a decomposed letter loses its mark |
| Slug.CleanShortens | script.js:16-18 | the filtering stages never lengthen the text |
| Slug.NfdChars | script.js:17 | decomposition only adds base letters a-z and combining marks |
| Slug.StripMarksChars | script.js:17 | after mark removal no character of U+0300–U+036F is left and nothing new appears |
| Slug.KeepAllowedChars | script.js:18 | after the filter every character is `\w`, `-` or space and comes from the input |
| Slug.CleanConcat | script.js:16-18 | lower-casing, decomposition and both deletions act on each character separately (they distribute over concatenation) |
| Slug.CleanChars | script.js:16-18 | after the filter only a-z, 0-9, `_`, `-` and space are left |
| Slug.TrimStart | script.js:19 | a trimmed start is not whitespace and every dropped character is whitespace |
| Slug.TrimStartSuffix | script.js:19 | trimming the start keeps a suffix of the input |
| Slug.TrimEnd | script.js:19 | trimming the end keeps a prefix; its last character is not whitespace; all dropped characters are whitespace |
| Slug.Trim | script.js:19 | `trim` never lengthens the text, and its result neither starts nor ends with whitespace |
| Slug.Hyphenate | script.js:19 | replacing whitespace runs never lengthens the text and gives the empty string only for the empty string |
| Slug.Slugify | script.js:16-19 | the five stages in source order; the slug is never longer than the text, and the empty text has the empty slug |
| Slug.HyphenateChars | script.js:19 | replacing whitespace runs adds only `-` and keeps only non-whitespace input characters |
| Slug.CleanFixesCleanText | script.js:16-18 | text made only of slug characters and spaces passes the filter unchanged |
| Slug.HyphenateFixesSpaceless | script.js:19 | text without whitespace is not changed by the run replacement |
| Slug.SlugifyFixesSlugs | script.js:16-19 | a slug is its own slug |
| Slug.SlugifyCharset | script.js:16-19 | every character of a slug is in a-z, 0-9, `_` or `-` |
| Slug.SlugifyIdempotent | script.js:16-19 | slugifying a slug again changes nothing |
| Slug.SlugifyIgnoresDeleted | script.js:16-19 | a character the filter deletes has no effect wherever it occurs |
| Slug.SlugifyDeletedThenSlug | script.js:16-19 | a deleted character in front of a slug leaves exactly the slug |
| Slug.AsciiDeleted | script.js:18 | every ASCII character other than `\w`, `-` and space is deleted |
| Slug.ControlWhitespaceDeleted | script.js:18 | tab, line feed, vertical tab, form feed and carriage return are deleted before whitespace becomes hyphens |
| Slug.SlugifyAllDeleted | script.js:16-19 | text made only of deleted characters has the empty slug |
| Slug.SlugifyIgnoresEdgeSpaces | script.js:19 | a leading or trailing space changes nothing |
| Slug.SlugifySpaceRun | script.js:19 | any run of one or more spaces between two slug words becomes exactly one `-` |
| Slug.SlugifyDeletesLineFeed | script.js:18-19 | a line feed between two slug words is deleted, so the words are joined with nothing between them |
| Slug.SlugifyKeepsHyphens | script.js:18-19 | `u - v` gives `u---v`: the hyphen is kept beside the two hyphens from the spaces |
| Slug.HyphenateShape | script.js:19 | on text without `-`, the result has no two `-` in a row, and it starts or ends with `-` only where the text starts or ends with whitespace |
| Slug.SlugifyHyphensSeparateWords | script.js:16-19 | text without `-` gives a slug that neither starts nor ends with `-` and has no two `-` in a row |
| Anchors.Inject | script.js:27-32 | the text is kept; a non-empty id is kept; existing anchors are kept; otherwise the one new anchor points at `#` and the final id |
| Anchors.AssignedId | script.js:27 | an existing id is kept; an assigned id is made of slug characters; the id ends empty if and only if there was none and the text is non-empty and slugifies to nothing |
| Anchors.FallbackNeverEmpty | script.js:27 | for any selector, the fallback `selector-i` never slugifies to the empty string |
| Anchors.FallbackSlug | script.js:27 | for a selector `.name` with a slug-like name, the fallback slug is `name-i` |
| Anchors.SectionFallbackId | script.js:23-27 | a `.section-title` heading without id or text gets the id `section-title-i` |
| Anchors.CardFallbackId | script.js:23-27 | a `.card-title` heading without id or text gets the id `card-title-i` |
| Anchors.EmptyIdExactly | script.js:27 | a heading without id ends with an empty id if and only if its text is non-empty and slugifies to nothing |
| Anchors.DeletedTextLeavesIdEmpty | script.js:27-32 | text made only of deleted characters leaves the id empty, and the new anchor is the bare `#` |
| Anchors.InjectIdempotent | script.js:27-29 | a second visit to a heading, under any selector at any index, changes nothing |
| Anchors.InjectTwiceOneAnchor | script.js:29-32 | a heading without anchors ends with exactly one, pointing at its id, however many passes run |
| Anchors.InjectHeading | script.js:27-56 | the callback body computes what `Inject` specifies |
| Anchors.ForEach | script.js:25 | the `forEach` over a selector's matches as a function of the old elements: the callback replaces each listed element, in list order, and the length is kept |
| Anchors.ForEachUntouched | script.js:25 | a `forEach` over a list of indices leaves every element outside the list as it was |
| Anchors.ForEachVisited | script.js:25 | a `forEach` over indices without repeats updates each listed element once, with its own list index, from its value before the pass |
| Anchors.InjectPass | script.js:25-57 | one selector's pass: each matched heading becomes `Inject` of its old value with its own index, and every other heading is unchanged |
| Anchors.InjectAnchors | script.js:22-59 | section headings are injected with their section index; card headings that are not section headings are injected with their card index; all other headings are unchanged |
| Anchors.InjectAnchorsTwice | script.js:22-59 | a second run of the whole pass leaves the document exactly as the first run left it |
| CopyLink.PageBase | script.js:38 | the page base has no `#`; it is a prefix of the address and is followed there by `#` when shorter |
| CopyLink.HeadingCopyUrl | script.js:38 | the anchor-icon URL starts with the page base, followed by `#`, and is one character longer than base and id together |
| CopyLink.DataCopyUrl | script.js:106 | the button URL starts with the page base and is as long as base and value together |
| CopyLink.PageBaseIsFirstPiece | script.js:38 | the page base is `location.href.split('#')[0]` |
| CopyLink.PageBaseIdempotent | script.js:38 | cutting the fragment again changes nothing |
| CopyLink.HeadingUrlParts | script.js:38 | the anchor-icon URL splits at its first `#` into the same page base and the id |
| CopyLink.HeadingUrlReplacesFragment | script.js:38 | copying from a page already showing a heading URL replaces the old fragment instead of appending to it |
| CopyLink.DataUrlParts | script.js:105-106 | the button URL is the page base followed by the value verbatim; it holds a `#` exactly when the value does; an absent or empty value copies the bare page base |
| CopyLink.DataUrlMatchesHeadingUrl | script.js:106 | a button whose value is `#id` copies the same URL as the anchor icon for `id` |
| Nav.CurrentPage | script.js:117 | the current file name is never empty and holds no `/` |
| Nav.LinkBase | script.js:119-121 | a link's base name holds no `/` |
| Nav.IsActive | script.js:122 | a link is active only if it has a non-empty href |
| Nav.IsActiveSplitReading | script.js:117-122 | a link is active if and only if the last piece of its href's `split('/')` equals the last piece of the pathname's, or `index.html` when that piece is empty |
| Nav.EmptyHrefNeverActive | script.js:119-122 | a link with a missing or empty href is never active, even on the site root |
| Nav.TrailingSlashNeverActive | script.js:121-122 | an href ending in `/` is never active |
| Nav.FragmentOrQueryNeverActive | script.js:117-122 | if the pathname has no `#` or `?`, an href whose base name has either is never active |
| Nav.SeveralActive | script.js:118-126 | a bare name and the same name under a directory are two different hrefs that are both active |
| Nav.HighlightNav | script.js:116-128 | afterwards each link's `active` flag is true if and only if its base name equals the current file name |
| Nav.HighlightNavTwice | script.js:116-128 | a second run leaves every flag as the first run set it |
| Shortcuts.OnKeyDown | script.js:142-150 | top if and only if the key is `t` or `T`; a section if and only if the key is a single digit `1`–`9` within the number of section titles; that section is the digit minus one |
| Shortcuts.IsSectionKey | script.js:146-147 | a key `/^[1-9]$/` accepts is all digits and `parseInt` reads it as a value from 1 to 9 |
| Shortcuts.LowerIsT | script.js:143 | only `t` and `T` lower-case to `t` |
| Shortcuts.TopAndSectionExclusive | script.js:143-149 | no key asks for both scrolls |
| Shortcuts.IgnoredKeys | script.js:146-149 | `0` does nothing; keys longer than one character ask for no section; a digit past the last section title does nothing |
| BackToTop.ThresholdIsStrict | script.js:91 | 260 itself hides the control, every value above 260 shows it, and scrolling further never hides a shown control |
| BackToTop.ShowsButton | script.js:91 | the control is to be shown exactly when `scrollY` is strictly above 260 |
| BackToTop.FloatButton.constructor | script.js:84-86 | a created control starts without the `visible` class |
| BackToTop.SetupBackToTop | script.js:82-88 | an existing `backToTopFloat` element is reused and nothing is appended; otherwise a fresh hidden one is created, registered and appended once |
| BackToTop.OnScroll | script.js:90-93 | afterwards the control is visible if and only if `scrollY > 260` |
| BackToTop.SetupTwice | script.js:82-88 | running the setup twice hands out the same element both times and appends at most one |

## Left out

- Clipboard writes, their promises, the `✔` confirmation, the timers that restore it, and the `alert` on failure (script.js:40-51, 107-111). This is asynchronous browser I/O; the model stops at the URL each handler would copy.
- `scrollIntoView`, `scrollTo`, `history.replaceState` and `location.hash` (script.js:47-54, 96, 144, 149). These are browser effects; the model returns which scroll a key asks for.
- The anchor's `title`, SVG markup, class name and margin (script.js:31-35). These are presentation only.
- Listener registration and the event objects (`addEventListener`, `preventDefault`). Repeating the setup in the page adds one more scroll listener each time; the model captures only the element reuse.
- `setupInternalLinks`, `setupCollapseOnNavClick`, `setupCopyButtons`'s event delegation, `initTooltips` and the Bootstrap calls. These are not part of this model.
- `location.pathname`, `location.href`, the attribute values, `scrollY` and `key` are taken as parameters. `scrollY` is a real number.
- Slug.Nfd: Unicode NFD is modelled only for the precomposed lower-case letters of Latin-1.
- Text.LowerChar: lower-casing is modelled only for ASCII and Latin-1 capitals. The model's `\w` filter deletes every other letter. The browser deletes most of them too: ł, ø, đ, and Greek and Cyrillic letters, for example. But letters that NFD decomposes onto a base letter a-z (for example U+0100, U+0107) keep that base letter in the browser, and the model loses it.
- Anchors.InjectPass: headings are records in an array, not DOM nodes. The `.anchor-link` descendants are represented by their hrefs alone, and `querySelectorAll`'s matches are given as index lists.
