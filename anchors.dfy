/** Anchor injection (script.js lines 22-59): every `.section-title` and then
    every `.card-title` heading is given an id when it has none, and an
    `.anchor-link` descendant pointing at `#id` when it has no such
    descendant yet. */
module Anchors {
  import opened Text
  import opened Slug

  const SectionSel: string := ".section-title"
  const CardSel: string := ".card-title"

  /** What the pass reads and writes of a heading: its id (empty when
      absent), its text content, and the hrefs of its `.anchor-link`
      descendants in document order. */
  datatype Heading = Heading(id: string, text: string, anchors: seq<string>)

  /** The id a heading ends with: its own when non-empty, else the slug of its
      text, else the slug of the selector, `-` and its index in that
      selector's list. */
  function AssignedId(h: Heading, sel: string, i: nat): (r: string)
    ensures h.id != "" ==> r == h.id
    ensures h.id == "" ==> IsSlug(r)
    ensures r == "" <==> h.id == "" && h.text != "" && Slugify(h.text) == ""
  {
    if h.id != "" then h.id
    else
      var t := if h.text != "" then h.text else sel + "-" + NatToString(i);
      SlugifyCharset(t);
      FallbackNeverEmpty(sel, i);
      Slugify(t)
  }

  /** The selector fallback never slugifies to nothing, whatever the
      selector: the digits of the index survive every stage. */
  lemma FallbackNeverEmpty(sel: string, i: nat)
    ensures Slugify(sel + "-" + NatToString(i)) != ""
  {
    var n := NatToString(i);
    var c := Clean(sel + "-" + n);
    assert AllClean(n) by {
      assert forall k :: 0 <= k < |n| ==> IsDigit(n[k]);
    }
    CleanFixesCleanText(n);
    CleanConcat(sel + "-", n);
    assert c == Clean(sel + "-") + n;
    assert c[|c| - 1] == n[|n| - 1] && !IsJsWhitespace(c[|c| - 1]);
    var u := TrimStart(c);
    assert u != [];
    TrimStartSuffix(c);
    assert u[|u| - 1] == c[|c| - 1];
    assert Trim(c) == u;
  }

  /** One heading after the pass over selector `sel`, `i` being its index in
      the list of headings `sel` selects. */
  function Inject(h: Heading, sel: string, i: nat): (r: Heading)
    ensures r.text == h.text
    ensures h.id != "" ==> r.id == h.id
    ensures h.anchors != [] ==> r.anchors == h.anchors
    ensures h.anchors == [] ==> r.anchors == ["#" + r.id]
  {
    var id := AssignedId(h, sel, i);
    h.(id := id, anchors := if h.anchors == [] then ["#" + id] else h.anchors)
  }

  /** A class selector `.name` with a slug-like name, `-` and an index give
      `name-index` as the slug of the selector fallback. */
  lemma FallbackSlug(sel: string, i: nat)
    requires |sel| >= 1 && sel[0] == '.' && IsSlug(sel[1..])
    ensures Slugify(sel + "-" + NatToString(i)) == sel[1..] + "-" + NatToString(i)
  {
    var n := NatToString(i);
    var name := sel[1..];
    var v := name + "-" + n;
    assert sel + "-" + n == ['.'] + v;
    assert IsSlug(v) by {
      assert forall k :: 0 <= k < |n| ==> IsDigit(n[k]);
      assert forall k :: 0 <= k < |name| ==> v[k] == name[k];
      assert forall k :: |name| < k < |v| ==> v[k] == n[k - |name| - 1];
    }
    AsciiDeleted('.');
    SlugifyDeletedThenSlug('.', v);
  }

  lemma SelectorNames()
    ensures SectionSel[0] == '.' && SectionSel[1..] == "section-title" && IsSlug(SectionSel[1..])
    ensures CardSel[0] == '.' && CardSel[1..] == "card-title" && IsSlug(CardSel[1..])
  {
  }

  /** Without id or text a `.section-title` heading is named `section-title-i`. */
  lemma SectionFallbackId(h: Heading, i: nat)
    requires h.id == "" && h.text == ""
    ensures Inject(h, SectionSel, i).id == "section-title-" + NatToString(i)
  {
    SelectorNames();
    FallbackSlug(SectionSel, i);
  }

  /** Without id or text a `.card-title` heading is named `card-title-i`. */
  lemma CardFallbackId(h: Heading, i: nat)
    requires h.id == "" && h.text == ""
    ensures Inject(h, CardSel, i).id == "card-title-" + NatToString(i)
  {
    SelectorNames();
    FallbackSlug(CardSel, i);
  }

  /** A heading without an id ends with an empty id exactly when its text is
      non-empty and slugifies to nothing. */
  lemma EmptyIdExactly(h: Heading, sel: string, i: nat)
    requires h.id == ""
    ensures Inject(h, sel, i).id == "" <==> h.text != "" && Slugify(h.text) == ""
  {
  }

  /** Text made only of characters the filter deletes leaves the id empty. */
  lemma DeletedTextLeavesIdEmpty(h: Heading, sel: string, i: nat)
    requires h.id == "" && h.text != ""
    requires forall k :: 0 <= k < |h.text| ==> Clean([h.text[k]]) == []
    ensures Inject(h, sel, i).id == ""
    ensures Inject(h, sel, i).anchors == if h.anchors == [] then ["#"] else h.anchors
  {
    SlugifyAllDeleted(h.text);
    assert "#" + "" == "#";
  }

  /** A second pass, over either selector at any index, changes nothing. */
  lemma InjectIdempotent(h: Heading, sel: string, i: nat, sel2: string, j: nat)
    ensures Inject(Inject(h, sel, i), sel2, j) == Inject(h, sel, i)
  {
  }

  /** A heading without anchors gets exactly one, pointing at its id, however
      many passes run. */
  lemma InjectTwiceOneAnchor(h: Heading, sel: string, i: nat, j: nat)
    requires h.anchors == []
    ensures var r := Inject(Inject(h, sel, i), sel, j);
      |r.anchors| == 1 && r.anchors[0] == "#" + r.id
  {
    InjectIdempotent(h, sel, i, sel, j);
  }

  /** The indices, into the document's list of headings, of the headings a
      selector matches: in range and each listed once, as
      `querySelectorAll` lists each element once. */
  predicate DistinctIndices(idxs: seq<nat>, n: nat) {
    (forall k :: 0 <= k < |idxs| ==> idxs[k] < n)
    && (forall j, k :: 0 <= j < k < |idxs| ==> idxs[j] != idxs[k])
  }

  /** The body of the inner `forEach` for the heading at index `i` of the
      selector's list: the id first, then the anchor unless there is one. */
  method InjectHeading(h0: Heading, sel: string, i: nat) returns (h: Heading)
    ensures h == Inject(h0, sel, i)
  {
    h := h0;
    if h.id == "" {
      h := h.(id := Slugify(if h.text != "" then h.text else sel + "-" + NatToString(i)));
    }
    if h.anchors == [] {
      h := h.(anchors := ["#" + h.id]);
    }
  }

  /** The update the inner `forEach` callback makes to the heading at index
      `i` of the list `sel` selects. */
  function Visit(sel: string): (Heading, nat) -> Heading {
    (h: Heading, i: nat) => Inject(h, sel, i)
  }

  /** The elements of `doc` after a `forEach` over the first `|idxs|` of the
      elements a selector matches, the callback `f` replacing the element at
      index `k` of that list by `f(element, k)`. */
  function ForEach<T>(doc: seq<T>, idxs: seq<nat>, f: (T, nat) -> T): (r: seq<T>)
    requires forall k :: 0 <= k < |idxs| ==> idxs[k] < |doc|
    ensures |r| == |doc|
    decreases |idxs|
  {
    if idxs == [] then doc
    else
      var n := |idxs| - 1;
      var p := ForEach(doc, idxs[..n], f);
      p[idxs[n] := f(p[idxs[n]], n)]
  }

  /** Elements the list does not hold are left as they were. */
  lemma {:induction false} ForEachUntouched<T>(doc: seq<T>, idxs: seq<nat>, f: (T, nat) -> T, j: nat)
    requires forall k :: 0 <= k < |idxs| ==> idxs[k] < |doc|
    requires j < |doc| && j !in idxs
    ensures ForEach(doc, idxs, f)[j] == doc[j]
    decreases |idxs|
  {
    if idxs != [] {
      var n := |idxs| - 1;
      assert j !in idxs[..n] && j != idxs[n];
      ForEachUntouched(doc, idxs[..n], f, j);
    }
  }

  /** Each element of a list without repeats is updated once, with its own
      index, from its value before the `forEach`. */
  lemma {:induction false} ForEachVisited<T>(doc: seq<T>, idxs: seq<nat>, f: (T, nat) -> T, k: nat)
    requires DistinctIndices(idxs, |doc|)
    requires k < |idxs|
    ensures ForEach(doc, idxs, f)[idxs[k]] == f(doc[idxs[k]], k)
    decreases |idxs|
  {
    var n := |idxs| - 1;
    var init := idxs[..n];
    if k < n {
      assert DistinctIndices(init, |doc|);
      assert idxs[k] != idxs[n];
      assert init[k] == idxs[k];
      ForEachVisited(doc, init, f, k);
    } else {
      ForEachUntouched(doc, init, f, idxs[n]);
    }
  }

  /** The inner `forEach`: the headings of `doc` that `sel` matches, at the
      indices `idxs` in document order, each updated in place. */
  method InjectPass(doc: array<Heading>, idxs: seq<nat>, sel: string)
    requires DistinctIndices(idxs, doc.Length)
    modifies doc
    ensures doc[..] == ForEach(old(doc[..]), idxs, Visit(sel))
    ensures forall k :: 0 <= k < |idxs| ==> doc[idxs[k]] == Inject(old(doc[idxs[k]]), sel, k)
    ensures forall j :: 0 <= j < doc.Length && j !in idxs ==> doc[j] == old(doc[j])
  {
    ghost var orig := doc[..];
    for i := 0 to |idxs|
      invariant doc[..] == ForEach(orig, idxs[..i], Visit(sel))
    {
      assert idxs[..i + 1][..i] == idxs[..i];
      var h := InjectHeading(doc[idxs[i]], sel, i);
      doc[idxs[i]] := h;
    }
    assert idxs[..|idxs|] == idxs;
    forall k | 0 <= k < |idxs| {
      ForEachVisited(orig, idxs, Visit(sel), k);
    }
    forall j | 0 <= j < doc.Length && j !in idxs {
      ForEachUntouched(orig, idxs, Visit(sel), j);
    }
  }

  /** `injectAnchors`: the `.section-title` headings, then the `.card-title`
      ones. A heading matching both is visited twice and keeps what the
      first visit gave it; headings matching neither are untouched. */
  method InjectAnchors(doc: array<Heading>, sections: seq<nat>, cards: seq<nat>)
    requires DistinctIndices(sections, doc.Length) && DistinctIndices(cards, doc.Length)
    modifies doc
    ensures forall k :: 0 <= k < |sections| ==>
      doc[sections[k]] == Inject(old(doc[sections[k]]), SectionSel, k)
    ensures forall k :: 0 <= k < |cards| && cards[k] !in sections ==>
      doc[cards[k]] == Inject(old(doc[cards[k]]), CardSel, k)
    ensures forall j :: 0 <= j < doc.Length && j !in sections && j !in cards ==> doc[j] == old(doc[j])
  {
    InjectPass(doc, sections, SectionSel);
    label Mid:
    InjectPass(doc, cards, CardSel);
    forall k | 0 <= k < |sections|
      ensures doc[sections[k]] == Inject(old(doc[sections[k]]), SectionSel, k)
    {
      if sections[k] in cards {
        var j :| 0 <= j < |cards| && cards[j] == sections[k];
        InjectIdempotent(old(doc[sections[k]]), SectionSel, k, CardSel, j);
      }
    }
  }

  /** Running `injectAnchors` a second time, as a second initialisation
      would, leaves the document as the first run left it. `once` is the
      document after the first run. */
  method InjectAnchorsTwice(doc: array<Heading>, sections: seq<nat>, cards: seq<nat>)
    returns (once: seq<Heading>)
    requires DistinctIndices(sections, doc.Length) && DistinctIndices(cards, doc.Length)
    modifies doc
    ensures |once| == doc.Length
    ensures forall k :: 0 <= k < |sections| ==>
      once[sections[k]] == Inject(old(doc[sections[k]]), SectionSel, k)
    ensures forall k :: 0 <= k < |cards| && cards[k] !in sections ==>
      once[cards[k]] == Inject(old(doc[cards[k]]), CardSel, k)
    ensures forall j :: 0 <= j < doc.Length && j !in sections && j !in cards ==> once[j] == old(doc[j])
    ensures doc[..] == once
  {
    InjectAnchors(doc, sections, cards);
    once := doc[..];
    InjectAnchors(doc, sections, cards);
    forall j | 0 <= j < doc.Length
      ensures doc[j] == once[j]
    {
      if k :| 0 <= k < |sections| && sections[k] == j {
        InjectIdempotent(once[j], SectionSel, k, SectionSel, k);
      } else if k :| 0 <= k < |cards| && cards[k] == j {
        InjectIdempotent(once[j], CardSel, k, CardSel, k);
      }
    }
  }
}
