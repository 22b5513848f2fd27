/**
 * The `MediaBox` class: the parameter merge of its constructor, the
 * provider-to-embed mapping of `render`, the event guards installed by
 * `run` and `events`, and the life cycle of the overlays it appends to the
 * page (render, close, the delayed removal, the focus trap).
 *
 * The page is abstracted to the state the class touches: the overlays in
 * document order, the `stop-scroll` class of the body, the focused element,
 * `lastFocusElement`, the close timers still pending and the focus
 * listeners registered on the document.
 */
module Lightbox {
  import opened Wrappers
  import opened Strings
  import opened JsObject
  import opened UrlParser
  import opened QueryString
  import opened Markup
  import opened UriEncoding

  // ---------------------------------------------------------------------
  // Parameters

  /** `default_params`. */
  const DefaultParams: Object := [Entry("autoplay", "1")]

  /** `{ ...default_params, ...params }`: the caller's options override the default. */
  function MergeParams(options: Object): (r: Object)
    ensures |r| >= 1 && r[0].key == "autoplay"
    ensures Get(r, "autoplay") == if Get(options, "autoplay").Some? then Get(options, "autoplay") else Some("1")
    ensures forall k :: k != "autoplay" ==> Get(r, k) == Get(options, k)
    ensures Keys(r) == ["autoplay"] + NewKeys(["autoplay"], Keys(options))
  {
    assert Keys(DefaultParams) == ["autoplay"];
    var r := Spread(DefaultParams, options);
    assert Keys(r)[0] == "autoplay";
    r
  }

  /** Without options the query string is `?autoplay=1`. */
  lemma DefaultQuery()
    ensures Serialize(MergeParams([])) == "?autoplay=1"
  {
    var r := MergeParams([]);
    assert Keys(r) == ["autoplay"] by {
      assert NewKeys(["autoplay"], []) == [];
    }
    assert r[0] == Entry("autoplay", "1") by {
      GetEntry(r, 0);
    }
    assert r == [Entry("autoplay", "1")];
    SerializeDefault();
  }

  // ---------------------------------------------------------------------
  // The provider-to-embed mapping of render

  const InvalidVideoUrl: string := "Invalid video URL"
  const YouTubeEmbed: string := "https://www.youtube.com/embed/"
  const VimeoPlayer: string := "https://player."
  const VimeoVideo: string := "vimeo.com/video/"
  const VimeoEmbed: string := VimeoPlayer + VimeoVideo

  /** The embed link of a service, or the error `render` throws. */
  function EmbedLink(service: Service): (r: Result<string, string>)
    ensures r.Failure? <==> service.provider != "youtube" && service.provider != "vimeo"
    ensures r.Failure? ==> r.error == InvalidVideoUrl
    ensures service.provider == "youtube" ==> r == Success(YouTubeEmbed + service.id)
    ensures service.provider == "vimeo" ==> r == Success(VimeoEmbed + service.id)
  {
    if service.provider == "youtube" then Success(YouTubeEmbed + service.id)
    else if service.provider == "vimeo" then Success(VimeoEmbed + service.id)
    else Failure(InvalidVideoUrl)
  }

  /** A link is rejected exactly when neither expression matches it. */
  lemma {:induction false} EmbedOfUrl(url: string)
    ensures EmbedLink(ParseUrl(url)).Failure? <==> !YouTubeMatches(url) && !VimeoMatches(url)
    ensures YouTubeMatches(url) ==> EmbedLink(ParseUrl(url)) == Success(YouTubeEmbed + ParseUrl(url).id)
    ensures !YouTubeMatches(url) && VimeoMatches(url)
            ==> EmbedLink(ParseUrl(url)) == Success(VimeoEmbed + ParseUrl(url).id)
  {
  }

  /** The markup `render` appends for an embed link and the parameters. */
  function OverlayMarkupFor(embed: string, params: Object): string {
    Substitute(OverlayTemplate, OverlayConfig(embed, Serialize(params)))
  }

  /** The `template` call of `render`. */
  method BuildMarkup(embed: string, params: Object) returns (markup: string)
    ensures markup == OverlayMarkupFor(embed, params)
  {
    var query := Serialize(params);
    markup := Template(OverlayTemplate, OverlayConfig(embed, query));
  }

  lemma VimeoPlayerInert() ensures Inert(VimeoPlayer) {}
  lemma VimeoVideoInert() ensures Inert(VimeoVideo) {}

  lemma {:induction false} InertConcat(a: string, b: string)
    requires Inert(a) && Inert(b)
    ensures Inert(a + b)
  {
  }

  lemma {:induction false} DigitsInert(id: string)
    requires AllDigits(id)
    ensures Inert(id)
  {
    assert forall k :: 0 <= k < |id| ==> IsDigit(id[k]);
  }

  /** A Vimeo embed link holds no `{` and no `$`. */
  lemma {:induction false} VimeoEmbedInert(id: string)
    requires AllDigits(id)
    ensures Inert(VimeoEmbed + id)
  {
    VimeoPlayerInert();
    VimeoVideoInert();
    InertConcat(VimeoPlayer, VimeoVideo);
    DigitsInert(id);
    InertConcat(VimeoEmbed, id);
  }

  /**
   * For a Vimeo link the iframe `src` is exactly the embed link followed by
   * the serialized parameters, when no parameter key holds `$`.
   */
  lemma {:induction false} VimeoOverlay(id: string, params: Object)
    requires AllDigits(id)
    requires forall i :: 0 <= i < |params| ==> '$' !in params[i].key
    ensures OverlayMarkupFor(VimeoEmbed + id, params)
         == MarkupHead + (VimeoEmbed + id) + Serialize(params) + MarkupTail
  {
    var embed, query := VimeoEmbed + id, Serialize(params);
    VimeoEmbedInert(id);
    SerializeInert(params);
    OverlayMarkup(embed, query);
  }

  lemma {:induction false} JoinInert(parts: seq<string>, sep: string)
    requires '$' !in sep
    requires forall k :: 0 <= k < |parts| ==> '$' !in parts[k]
    ensures '$' !in Join(parts, sep)
  {
    if |parts| > 1 {
      JoinInert(parts[1..], sep);
    }
  }

  lemma {:induction false} FieldInert(e: Entry)
    requires '$' !in e.key
    ensures '$' !in Field(e)
  {
    var enc := EncodeURIComponent(e.value);
    assert Field(e) == e.key + "=" + enc;
  }

  /** The query string holds no `$` unless a key does (values are encoded). */
  lemma {:induction false} SerializeInert(params: Object)
    requires forall i :: 0 <= i < |params| ==> '$' !in params[i].key
    ensures '$' !in Serialize(params)
  {
    var fs := Fields(params);
    forall k | 0 <= k < |fs| ensures '$' !in fs[k] {
      FieldInert(params[k]);
    }
    JoinInert(fs, "&");
  }

  // ---------------------------------------------------------------------
  // Event guards

  /** `(event.keyCode || event.which) === 27`: a key code of 0 falls back to `which`. */
  predicate IsEscapeKey(keyCode: int, which: int) {
    (if keyCode != 0 then keyCode else which) == 27
  }

  lemma {:induction false} EscapeKey(keyCode: int, which: int)
    ensures IsEscapeKey(keyCode, which) <==> keyCode == 27 || (keyCode == 0 && which == 27)
  {
  }

  const EnterKeyCode: int := 13

  /** What the click guard reads of `event.target`. */
  datatype Target = Target(nodeName: string, className: string)

  /** The guard of the wrapper's click listener. */
  predicate ClosesOnClick(t: Target) {
    (t.nodeName == "SPAN" && t.className == "mediabox-close")
    || (t.nodeName == "DIV" && t.className == "mediabox-wrap")
    || (t.className == "mediabox-content" && t.nodeName != "IFRAME")
  }

  /** The elements of an overlay's markup. */
  datatype Part = Wrapper | Content | CloseIcon | Frame

  /** The element a part is; the wrapper carries `mediabox-hide` once closed. */
  function TargetOf(p: Part, hidden: bool): Target {
    match p
    case Wrapper => Target("DIV", if hidden then "mediabox-wrap mediabox-hide" else "mediabox-wrap")
    case Content => Target("DIV", "mediabox-content")
    case CloseIcon => Target("SPAN", "mediabox-close")
    case Frame => Target("IFRAME", "")
  }

  /**
   * A click closes on the close icon and on the content, and on the
   * backdrop only while it is not yet hidden; never on the iframe.
   */
  lemma {:induction false} ClickGuard(p: Part, hidden: bool)
    ensures ClosesOnClick(TargetOf(p, hidden)) <==> p == CloseIcon || p == Content || (p == Wrapper && !hidden)
  {
  }

  /**
   * The number of `close` calls when `n` click listeners on one wrapper see
   * the same click in turn and each re-reads the target's class.
   */
  function ClickCloses(p: Part, hidden: bool, n: nat): nat
    decreases n
  {
    if n == 0 then 0
    else if ClosesOnClick(TargetOf(p, hidden)) then 1 + ClickCloses(p, true, n - 1)
    else ClickCloses(p, hidden, n - 1)
  }

  /**
   * A backdrop click closes once while the backdrop is not hidden, however many
   * listeners there are, and never once it is; a click on the icon or on the
   * content closes once per listener.
   */
  lemma {:induction false} ClickClosesCount(p: Part, hidden: bool, n: nat)
    ensures ClickCloses(p, hidden, n)
         == if n == 0 || p == Frame || (p == Wrapper && hidden) then 0
            else if p == Wrapper then 1
            else n
    decreases n
  {
    ClickGuard(p, hidden);
    if n > 0 {
      ClickGuard(p, true);
      ClickClosesCount(p, true, n - 1);
      ClickClosesCount(p, hidden, n - 1);
    }
  }

  // ---------------------------------------------------------------------
  // The page

  /** An element: of the page outside the overlays, or a part of one overlay. */
  datatype Element = Page(id: nat) | InOverlay(serial: nat, part: Part)

  /** `document.body`, the active element when nothing else has focus. */
  const Body: Element := Page(0)

  /** One appended `.mediabox-wrap` element; `listeners` counts the `events()` calls that chose it. */
  datatype Overlay = Overlay(serial: nat, markup: string, hidden: bool, listeners: nat)

  function HasSerial(os: seq<Overlay>, s: nat): (b: bool)
    ensures b <==> exists i :: 0 <= i < |os| && os[i].serial == s
  {
    if |os| == 0 then false else os[0].serial == s || HasSerial(os[1..], s)
  }

  /** The element is in the document. */
  predicate Attached(e: Element, os: seq<Overlay>) {
    e.Page? || HasSerial(os, e.serial)
  }

  /** The element lies inside the `.mediabox-content` of overlay `s`. */
  predicate InContent(e: Element, s: nat) {
    e.InOverlay? && e.serial == s && e.part != Wrapper
  }

  /** A focus listener for the content of overlay `s` pulls the focus to it. */
  predicate Traps(s: nat, target: Element, os: seq<Overlay>) {
    !InContent(target, s) && HasSerial(os, s)
  }

  /**
   * The focused element after the document's focus listeners, registered
   * in the order of `ts`, have handled a focus on `target`: each listener
   * whose content does not contain the target focuses its content.
   */
  function TrapFocus(ts: seq<nat>, target: Element, os: seq<Overlay>): Element
    decreases |ts|
  {
    if |ts| == 0 then target
    else
      var s := ts[|ts| - 1];
      if Traps(s, target, os) then InOverlay(s, Content)
      else TrapFocus(ts[..|ts| - 1], target, os)
  }

  /**
   * The focus trap: when some live listener's content does not contain the
   * target, focus ends inside such a content; otherwise it stays on the target.
   */
  lemma {:induction false} TrapFocusSpec(ts: seq<nat>, target: Element, os: seq<Overlay>)
    ensures (exists k :: 0 <= k < |ts| && Traps(ts[k], target, os))
            ==> exists k :: 0 <= k < |ts| && Traps(ts[k], target, os)
                            && TrapFocus(ts, target, os) == InOverlay(ts[k], Content)
    ensures (forall k :: 0 <= k < |ts| ==> !Traps(ts[k], target, os))
            ==> TrapFocus(ts, target, os) == target
  {
    if |ts| > 0 {
      var init := ts[..|ts| - 1];
      TrapFocusSpec(init, target, os);
      assert forall k :: 0 <= k < |init| ==> init[k] == ts[k];
      if !Traps(ts[|ts| - 1], target, os) {
        if exists k :: 0 <= k < |ts| && Traps(ts[k], target, os) {
          var k :| 0 <= k < |ts| && Traps(ts[k], target, os);
          assert k < |init| && Traps(init[k], target, os);
        }
      }
    }
  }

  /**
   * Where focus is after the timer removes the overlay `removed`: a focused
   * element inside it falls back to the body, then `lastFocusElement.focus()`
   * takes effect if that element is still in the document.
   */
  function RestoredFocus(current: Element, last: Element, remaining: seq<Overlay>, removed: nat): Element {
    if Attached(last, remaining) then last
    else if current.InOverlay? && current.serial == removed then Body
    else current
  }

  /** The overlays after `render` appends one more. */
  function Appended(os: seq<Overlay>, serial: nat, markup: string): (r: seq<Overlay>)
    ensures |r| == |os| + 1 && r[..|os|] == os && r[|os|] == Overlay(serial, markup, false, 0)
  {
    os + [Overlay(serial, markup, false, 0)]
  }

  /** The overlays after `events()` adds its listeners to the first one. */
  function Listened(os: seq<Overlay>): (r: seq<Overlay>)
    requires |os| > 0
    ensures |r| == |os| && r[0] == os[0].(listeners := os[0].listeners + 1)
    ensures forall i :: 0 < i < |os| ==> r[i] == os[i]
  {
    os[0 := os[0].(listeners := os[0].listeners + 1)]
  }

  /**
   * The invariant of a MediaBox: once an overlay exists `lastFocusElement`
   * is set, the body is locked only while an overlay exists, only the first
   * overlay ever gets listeners, and overlays appear in the order of their
   * creation.
   */
  ghost predicate WellFormed(os: seq<Overlay>, locked: bool, last: Option<Element>, next: nat) {
    && (|os| > 0 ==> last.Some?)
    && (locked ==> |os| > 0)
    && (forall i :: 0 < i < |os| ==> os[i].listeners == 0)
    && (forall i, j :: 0 <= i < j < |os| ==> os[i].serial < os[j].serial)
    && (forall i :: 0 <= i < |os| ==> os[i].serial < next)
  }

  lemma {:induction false} AppendedWellFormed(os: seq<Overlay>, next: nat, markup: string, focus: Element, locked: bool, last: Option<Element>)
    requires WellFormed(os, locked, last, next)
    ensures WellFormed(Appended(os, next, markup), true, Some(focus), next + 1)
  {
  }

  // ---------------------------------------------------------------------
  // The class

  class MediaBox {
    /** The hrefs of the trigger elements, in document order. */
    const triggers: seq<string>
    /** `this.params`. */
    const params: Object
    /** The `.mediabox-wrap` elements in the body, in document order. */
    var overlays: seq<Overlay>
    /** The body carries `stop-scroll`. */
    var scrollLocked: bool
    /** `document.activeElement`. */
    var focus: Element
    /** `this.lastFocusElement`, unset until the first render. */
    var lastFocus: Option<Element>
    /** Close timers set and not yet fired. */
    var pendingTimers: nat
    /** The overlays whose content a document focus listener guards, in registration order. */
    var traps: seq<nat>
    /** The serial the next appended overlay receives. */
    var nextSerial: nat

    ghost predicate Valid()
      reads this
    {
      WellFormed(overlays, scrollLocked, lastFocus, nextSerial)
    }

    /** `new MediaBox(element, params)` on a page whose focus is `initialFocus`. */
    constructor (hrefs: seq<string>, options: Object, initialFocus: Element)
      ensures triggers == hrefs && params == MergeParams(options)
      ensures overlays == [] && !scrollLocked && focus == initialFocus && lastFocus == None
      ensures pendingTimers == 0 && traps == [] && nextSerial == 1
      ensures Valid()
    {
      triggers := hrefs;
      params := MergeParams(options);
      overlays := [];
      scrollLocked := false;
      focus := initialFocus;
      lastFocus := None;
      pendingTimers := 0;
      traps := [];
      nextSerial := 1;
    }

    /** `render(service)`: throws on an unknown provider before touching the page. */
    method Render(service: Service) returns (err: Option<string>)
      requires Valid()
      modifies this
      ensures Valid()
      ensures EmbedLink(service).Failure? ==> err == Some(InvalidVideoUrl) && unchanged(this)
      ensures EmbedLink(service).Success? ==>
        && err == None
        && lastFocus == Some(old(focus))
        && overlays == Appended(old(overlays), old(nextSerial), OverlayMarkupFor(EmbedLink(service).value, params))
        && scrollLocked
        && nextSerial == old(nextSerial) + 1
        && focus == old(focus) && pendingTimers == old(pendingTimers) && traps == old(traps)
    {
      var link := EmbedLink(service);
      if link.Failure? {
        return Some(link.error);
      }
      var markup := BuildMarkup(link.value, params);
      Show(markup);
      err := None;
    }

    /** The page effects of a successful `render`: remember the focus, append the overlay, lock scrolling. */
    method Show(markup: string)
      requires Valid()
      modifies this
      ensures Valid()
      ensures lastFocus == Some(old(focus)) && scrollLocked
      ensures overlays == Appended(old(overlays), old(nextSerial), markup)
      ensures nextSerial == old(nextSerial) + 1
      ensures focus == old(focus) && pendingTimers == old(pendingTimers) && traps == old(traps)
    {
      AppendedWellFormed(overlays, nextSerial, markup, focus, scrollLocked, lastFocus);
      lastFocus := Some(focus);
      overlays := Appended(overlays, nextSerial, markup);
      nextSerial := nextSerial + 1;
      scrollLocked := true;
    }

    /**
     * `events()`: the click and keypress listeners go on the first overlay
     * in the document, and a focus listener for its content on the document.
     */
    method Events()
      requires Valid() && |overlays| > 0
      modifies this
      ensures Valid()
      ensures overlays == Listened(old(overlays))
      ensures traps == old(traps) + [old(overlays)[0].serial]
      ensures scrollLocked == old(scrollLocked) && focus == old(focus) && lastFocus == old(lastFocus)
      ensures pendingTimers == old(pendingTimers) && nextSerial == old(nextSerial)
    {
      var first := overlays[0];
      overlays := Listened(overlays);
      traps := traps + [first.serial];
    }

    /** The click listener of trigger `k`: parse its href, render, then install the listeners. */
    method TriggerClick(k: nat) returns (err: Option<string>)
      requires Valid() && k < |triggers|
      modifies this
      ensures Valid()
      ensures var link := EmbedLink(ParseUrl(triggers[k]));
        && (link.Failure? ==> err == Some(InvalidVideoUrl) && unchanged(this))
        && (link.Success? ==>
          var all := Appended(old(overlays), old(nextSerial), OverlayMarkupFor(link.value, params));
          && err == None
          && overlays == Listened(all)
          && traps == old(traps) + [all[0].serial]
          && lastFocus == Some(old(focus)) && scrollLocked
          && nextSerial == old(nextSerial) + 1
          && focus == old(focus) && pendingTimers == old(pendingTimers))
    {
      var service := ParseUrl(triggers[k]);
      err := Render(service);
      if err.None? {
        Events();
      }
    }

    /** `close(element)`: `null` returns true; otherwise hide it and set a timer. */
    method Close(target: Option<nat>) returns (r: bool)
      requires Valid()
      requires target.Some? ==> target.value < |overlays|
      modifies this
      ensures Valid()
      ensures r <==> target.None?
      ensures target.None? ==> unchanged(this)
      ensures target.Some? ==>
        && overlays == old(overlays)[target.value := old(overlays)[target.value].(hidden := true)]
        && pendingTimers == old(pendingTimers) + 1
        && scrollLocked == old(scrollLocked) && focus == old(focus) && lastFocus == old(lastFocus)
        && traps == old(traps) && nextSerial == old(nextSerial)
    {
      if target.None? {
        return true;
      }
      var i := target.value;
      overlays := overlays[i := overlays[i].(hidden := true)];
      pendingTimers := pendingTimers + 1;
      r := false;
    }

    /**
     * A close timer fires: the first `.mediabox-wrap` still in the document,
     * whichever overlay was closed, is removed, the body loses `stop-scroll`
     * and `lastFocusElement` is focused.  With no overlay left it does nothing.
     */
    method TimerFire()
      requires Valid() && pendingTimers > 0
      modifies this
      ensures Valid()
      ensures pendingTimers == old(pendingTimers) - 1
      ensures traps == old(traps) && lastFocus == old(lastFocus) && nextSerial == old(nextSerial)
      ensures |old(overlays)| == 0 ==>
        overlays == old(overlays) && scrollLocked == old(scrollLocked) && focus == old(focus)
      ensures |old(overlays)| > 0 ==>
        && overlays == old(overlays)[1..]
        && !scrollLocked
        && focus == RestoredFocus(old(focus), old(lastFocus).value, overlays, old(overlays)[0].serial)
      ensures |old(overlays)| > 0 && old(lastFocus).value.Page? ==> focus == old(lastFocus).value
    {
      pendingTimers := pendingTimers - 1;
      if |overlays| > 0 {
        var removed := overlays[0].serial;
        overlays := overlays[1..];
        scrollLocked := false;
        focus := RestoredFocus(focus, lastFocus.value, overlays, removed);
      }
    }

    /** The body's keyup listener: Escape closes the first overlay, or calls `close(null)`. */
    method KeyUp(keyCode: int, which: int)
      requires Valid()
      modifies this
      ensures Valid()
      ensures IsEscapeKey(keyCode, which) && |old(overlays)| > 0 ==>
        && overlays == old(overlays)[0 := old(overlays)[0].(hidden := true)]
        && pendingTimers == old(pendingTimers) + 1
        && scrollLocked == old(scrollLocked) && focus == old(focus) && lastFocus == old(lastFocus)
        && traps == old(traps) && nextSerial == old(nextSerial)
      ensures !(IsEscapeKey(keyCode, which) && |old(overlays)| > 0) ==> unchanged(this)
    {
      if IsEscapeKey(keyCode, which) {
        var first := if |overlays| > 0 then Some(0) else None;
        var _ := Close(first);
      }
    }

    /**
     * A click on part `p` of overlay `i`: each click listener on its wrapper
     * runs the guard in turn, reading the target's class as it is then.
     */
    method Click(i: nat, p: Part)
      requires Valid() && i < |overlays|
      modifies this
      ensures Valid()
      ensures var o := old(overlays)[i];
        var closes := ClickCloses(p, o.hidden, o.listeners);
        && pendingTimers == old(pendingTimers) + closes
        && overlays == old(overlays)[i := o.(hidden := o.hidden || closes > 0)]
      ensures scrollLocked == old(scrollLocked) && focus == old(focus) && lastFocus == old(lastFocus)
      ensures traps == old(traps) && nextSerial == old(nextSerial)
    {
      var n := overlays[i].listeners;
      var k := 0;
      while k < n
        invariant 0 <= k <= n && |overlays| == |old(overlays)|
        invariant Valid()
        invariant overlays == old(overlays)[i := old(overlays)[i].(hidden := overlays[i].hidden)]
        invariant overlays[i].hidden == (old(overlays)[i].hidden || pendingTimers > old(pendingTimers))
        invariant pendingTimers - old(pendingTimers) + ClickCloses(p, overlays[i].hidden, n - k)
               == ClickCloses(p, old(overlays)[i].hidden, n)
        invariant pendingTimers >= old(pendingTimers)
        invariant scrollLocked == old(scrollLocked) && focus == old(focus) && lastFocus == old(lastFocus)
        invariant traps == old(traps) && nextSerial == old(nextSerial)
      {
        if ClosesOnClick(TargetOf(p, overlays[i].hidden)) {
          var _ := Close(Some(i));
        }
        k := k + 1;
      }
    }

    /** A keypress inside the content of overlay `i`: each of its keypress listeners closes on Enter. */
    method KeyPress(i: nat, keyCode: int)
      requires Valid() && i < |overlays|
      modifies this
      ensures Valid()
      ensures var o := old(overlays)[i];
        var closes := if keyCode == EnterKeyCode then o.listeners else 0;
        && pendingTimers == old(pendingTimers) + closes
        && overlays == old(overlays)[i := o.(hidden := o.hidden || closes > 0)]
      ensures scrollLocked == old(scrollLocked) && focus == old(focus) && lastFocus == old(lastFocus)
      ensures traps == old(traps) && nextSerial == old(nextSerial)
    {
      var n := overlays[i].listeners;
      var k := 0;
      while k < n
        invariant 0 <= k <= n && |overlays| == |old(overlays)|
        invariant Valid()
        invariant overlays == old(overlays)[i := old(overlays)[i].(hidden := overlays[i].hidden)]
        invariant overlays[i].hidden == (old(overlays)[i].hidden || pendingTimers > old(pendingTimers))
        invariant pendingTimers == old(pendingTimers) + if keyCode == EnterKeyCode then k else 0
        invariant scrollLocked == old(scrollLocked) && focus == old(focus) && lastFocus == old(lastFocus)
        invariant traps == old(traps) && nextSerial == old(nextSerial)
      {
        if keyCode == EnterKeyCode {
          var _ := Close(Some(i));
        }
        k := k + 1;
      }
    }

    /** `target` receives focus; the document's focus listeners run in registration order. */
    method FocusIn(target: Element)
      requires Valid()
      modifies this
      ensures Valid()
      ensures focus == TrapFocus(traps, target, overlays)
      ensures overlays == old(overlays) && traps == old(traps) && scrollLocked == old(scrollLocked)
      ensures lastFocus == old(lastFocus) && pendingTimers == old(pendingTimers) && nextSerial == old(nextSerial)
    {
      focus := target;
      var k := 0;
      while k < |traps|
        invariant 0 <= k <= |traps|
        invariant overlays == old(overlays) && traps == old(traps) && scrollLocked == old(scrollLocked)
        invariant lastFocus == old(lastFocus) && pendingTimers == old(pendingTimers)
        invariant nextSerial == old(nextSerial)
        invariant focus == TrapFocus(traps[..k], target, overlays)
      {
        assert traps[..k + 1][..k] == traps[..k];
        if Traps(traps[k], target, overlays) {
          focus := InOverlay(traps[k], Content);
        }
        k := k + 1;
      }
      assert traps[..k] == traps;
    }
  }

  // ---------------------------------------------------------------------
  // A whole interaction

  /**
   * Opening a video from a page element and dismissing it with Escape
   * leaves, once the timer has fired, no overlay, a scrollable body and the
   * focus back where it was.
   */
  method OpenAndEscape(hrefs: seq<string>, options: Object, start: nat, k: nat)
    returns (box: MediaBox, err: Option<string>)
    requires k < |hrefs|
    ensures err.Some? <==> !YouTubeMatches(hrefs[k]) && !VimeoMatches(hrefs[k])
    ensures box.overlays == [] && !box.scrollLocked && box.focus == Page(start)
    ensures err.None? ==> box.pendingTimers == 0 && box.lastFocus == Some(Page(start))
  {
    box := new MediaBox(hrefs, options, Page(start));
    EmbedOfUrl(hrefs[k]);
    err := box.TriggerClick(k);
    if err.None? {
      box.KeyUp(27, 0);
      box.TimerFire();
    }
  }
}
