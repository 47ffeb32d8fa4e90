/** The back-to-top control (script.js lines 81-98): a `backToTopFloat`
    element is created only when the page has none, and on every scroll it
    is shown exactly when the page is scrolled more than 260 pixels. */
module BackToTop {
  import opened Text

  const Threshold: real := 260.0

  /** `window.scrollY > 260`; `scrollY` is a JavaScript number, fractions
      included. */
  predicate ShowsButton(scrollY: real) {
    scrollY > Threshold
  }

  /** The threshold itself still hides the control, anything above shows it,
      and scrolling further never hides a control that is shown. */
  lemma ThresholdIsStrict(y: real, z: real)
    ensures !ShowsButton(260.0) && ShowsButton(260.5)
    ensures y > 260.0 ==> ShowsButton(y)
    ensures ShowsButton(y) && y <= z ==> ShowsButton(z)
  {
  }

  /** The floating element; `visible` is its `visible` class. */
  class FloatButton {
    var visible: bool

    constructor ()
      ensures !visible
    {
      visible := false;
    }
  }

  /** The part of the document the setup reads and writes: the element
      `getElementById('backToTopFloat')` finds and the elements appended to
      the body. */
  class Page {
    var backToTop: Option<FloatButton>
    var appended: seq<FloatButton>

    constructor (existing: Option<FloatButton>)
      ensures backToTop == existing && appended == []
    {
      backToTop := existing;
      appended := [];
    }
  }

  /** `setupBackToTop` up to its listeners: reuses the element when there is
      one, and otherwise creates it hidden and appends it to the body. */
  method SetupBackToTop(page: Page) returns (btn: FloatButton)
    modifies page
    ensures page.backToTop == Some(btn)
    ensures old(page.backToTop).Some? ==> btn == old(page.backToTop).value && page.appended == old(page.appended)
    ensures old(page.backToTop).None? ==> fresh(btn) && !btn.visible && page.appended == old(page.appended) + [btn]
  {
    match page.backToTop
    case Some(b) =>
      btn := b;
    case None =>
      btn := new FloatButton();
      page.backToTop := Some(btn);
      page.appended := page.appended + [btn];
  }

  /** The scroll listener: adds or removes `visible`. */
  method OnScroll(btn: FloatButton, scrollY: real)
    modifies btn
    ensures btn.visible <==> ShowsButton(scrollY)
  {
    if scrollY > 260.0 {
      btn.visible := true;
    } else {
      btn.visible := false;
    }
  }

  /** Running the setup twice, as a second initialisation would, creates at
      most one element and hands out the same one both times. */
  method SetupTwice(page: Page) returns (first: FloatButton, second: FloatButton)
    modifies page
    ensures first == second && page.backToTop == Some(first)
    ensures |page.appended| <= |old(page.appended)| + 1
    ensures old(page.backToTop).Some? ==> page.appended == old(page.appended)
  {
    first := SetupBackToTop(page);
    second := SetupBackToTop(page);
  }
}
