# MediaBox in Dafny

MediaBox is a small browser library that turns links to YouTube and Vimeo
videos into a lightbox. Clicking a trigger link does four things:

- it resolves the link's `href` to a provider and a video id (`parseUrl`);
- it builds the embed link and the query string of the player parameters
  (`serialize` over `{ autoplay: '1', ...params }`);
- it fills the overlay template (`template`), appends the overlay to the
  body and locks scrolling (`render`);
- it installs the overlay's listeners (`events`).

The overlay is closed by Escape, by a click on the backdrop, the close icon
or the content, or by Enter. Closing hides it at once. A 500 ms timer then
removes it, unlocks scrolling and gives focus back to the element that had
it before.

The model follows `src/mediabox.js`, one module per concern:

| file | module | what it holds |
|---|---|---|
| `wrappers.dfy` | `Wrappers` | `Option` and `Result` |
| `strings.dfy` | `Strings` | occurrence of a word, literal global replacement, `join` and `split` on one character |
| `url_parser.dfy` | `UrlParser` | `parseUrl`. Its two regular expressions are written as hand-made matchers, and each is proved sound and complete against a predicate describing the language its expression accepts. |
| `js_object.dfy` | `JsObject` | plain objects as entry sequences in property order, property lookup and assignment, `Object.assign`, object spread |
| `uri_encoding.dfy` | `UriEncoding` | `encodeURIComponent` (UTF-8, then `%XX` in upper-case hex), with a decoder that behaves as `decodeURIComponent` defined beside it and the round trip `DecodeEncode` proved |
| `query.dfy` | `QueryString` | `serialize`, with a query parser defined beside it and the round trip `ParseSerialize` proved |
| `markup.dfy` | `Markup` | `template`: a loop of global `String.prototype.replace` calls, including the `$$`, `$&`, `` $` `` and `$'` replacement patterns; also the overlay template of `render` |
| `lightbox.dfy` | `Lightbox` | the `MediaBox` class: parameter merge, the provider-to-embed mapping, the event guards, and the life cycle of the overlays |

The page is abstracted to the state the class reads and writes. The fields
of `Lightbox.MediaBox` are:

- the overlays in document order, each with its hidden flag (`mediabox-hide`)
  and the number of `events()` calls that attached listeners to it;
- the `stop-scroll` flag of the body;
- `document.activeElement`;
- `lastFocusElement`;
- the number of close timers still pending;
- the overlays guarded by a document focus listener.

Each event source of the code is a method:

| event in the code | method |
|---|---|
| a trigger's click listener | `TriggerClick` |
| the body's keyup listener | `KeyUp` |
| the wrapper's click listener | `Click` |
| the content's keypress listener | `KeyPress` |
| the document's capture-phase focus listener | `FocusIn` |
| the `setTimeout` callback | `TimerFire` |

`render` throws `Error("Invalid video URL")` for an unknown provider. That
exception leaves the click listener before `events()` runs. The model
returns it as an error value: `Render` then changes nothing, and
`TriggerClick` then skips `Events`.

Some details follow the code rather than the library's documented behaviour:

- **The `Unknown` provider.** The provider of an unrecognised link is
  `"Unknown"`, with a capital U (src/mediabox.js:64).
- **No falsy constructor result.** The constructor of `src/mediabox.js` has
  no path that returns a falsy value: a selector that matches no element
  gives an instance with no triggers. (The built `dist/` copy returns
  `false` only when the `element` argument itself is falsy.) The model's
  constructor always succeeds.
- **Which overlay the timer removes.** The callback re-queries
  `.mediabox-wrap`. It therefore removes the first overlay still in the
  document, whichever overlay was closed. With none left it does nothing.
- **The unused timer variable.** `close` declares a local `timer` that is
  always `null`, so `clearTimeout` never runs. Every call schedules one more
  timer. The model counts them.

## Model

| member | source | states |
|---|---|---|
| UrlParser.MarkerLength | src/mediabox.js:57 | a positive length at `p` is the length of a group-1 alternative that starts at `p`: `youtu.be/` (the `.` being one UTF-16 code unit that is not a line terminator, so a character below U+10000), `v/`, `u/` + one `\w` + `/`, `embed/`, `watch?v=` |
| UrlParser.MarkerLengthExact | src/mediabox.js:57 | for every end `q`, `s[p..q]` is a group-1 marker iff `q` is `p` plus `MarkerLength`: at most one marker starts at any position |
| UrlParser.LineEnd | src/mediabox.js:57 | the `.` of `^.*` stops at the first line terminator (`\n`, `\r`, U+2028, U+2029) |
| UrlParser.LastMarker | src/mediabox.js:57 | the greatest position up to `p` where a marker starts, and none after it; `None` when no marker starts up to `p` |
| UrlParser.IdEnd | src/mediabox.js:57 | group 2 `([^#\&\?]*)` is the maximal run without `#`, `&`, `?` from its start |
| UrlParser.MatchYouTube | src/mediabox.js:57 | `None` iff the YouTube expression (its `.` reading one UTF-16 code unit) matches nowhere; otherwise group 1 is a marker whose prefix holds no line terminator, at the rightmost start any match can have (greedy `^.*`), and group 2 is the maximal id run after it |
| UrlParser.NoMarkerBeyond | src/mediabox.js:57 | no match of group 1 can start past the first line, nor at a position where `MarkerLength` finds none |
| UrlParser.ParseUrlYouTubeId | src/mediabox.js:57-59 | for any marker at the rightmost possible start and the maximal id run after it, `parseUrl` gives `youtube` with exactly that id |
| UrlParser.MatchScheme | src/mediabox.js:60 | a returned scheme is `https://` or `http://` at the index, with its end |
| UrlParser.MatchHost | src/mediabox.js:60 | a returned host is the optional `www.` then `vimeo`, one character below U+10000 that is not a line terminator (what `.` matches as one UTF-16 code unit), `com/`, at the index, with its end |
| UrlParser.MatchPath | src/mediabox.js:60 | a returned path alternative is valid (no `/` in a group name, a non-empty digit album) and its text stands at the index |
| UrlParser.MatchGroupPath | src/mediabox.js:60 | `groups/` + `[^\/]*` + `/videos/` when found, with its end |
| UrlParser.MatchAlbumPath | src/mediabox.js:60 | `album/` + `\d+` + `/video/` when found, with its end |
| UrlParser.MatchId | src/mediabox.js:60 | group 3 is a non-empty digit run at the index followed by the end, `/` or `?` |
| UrlParser.VimeoAt | src/mediabox.js:60 | every link the matcher reports at an index is a way the Vimeo expression matches there (soundness) |
| UrlParser.MatchPathComplete | src/mediabox.js:60 | any valid path text followed by a digit is the alternative `MatchPath` picks: backtracking into another alternative cannot succeed |
| UrlParser.SchemeComplete | src/mediabox.js:60 | `https?` can match in one way only |
| UrlParser.HostComplete | src/mediabox.js:60 | `(?:www\.)?` can match in one way only |
| UrlParser.IdComplete | src/mediabox.js:60 | a digit run followed by the end, `/` or `?` is exactly what `MatchId` finds (no shorter run can be followed by the terminator) |
| UrlParser.VimeoAtComplete | src/mediabox.js:60 | every way the Vimeo expression matches at an index is the one `VimeoAt` reports (completeness) |
| UrlParser.FindVimeo | src/mediabox.js:60 | the leftmost index at which the unanchored Vimeo expression matches, with no match before it; `None` when it matches at no index |
| UrlParser.NoVimeoMatch | src/mediabox.js:60 | when the matcher finds nothing at any index, the Vimeo expression matches nowhere |
| UrlParser.ParseUrl | src/mediabox.js:53-69 | provider `youtube` iff the YouTube expression matches (each `.` reading one UTF-16 code unit); `vimeo` iff it does not and the Vimeo one does; otherwise exactly `{Unknown, ""}`; a YouTube id has no `#&?`, a Vimeo id is non-empty digits |
| UrlParser.ParseUrlVimeoId | src/mediabox.js:60-62 | when YouTube does not match, the id is group 3 of the leftmost Vimeo match |
| UrlParser.IdRunUnique | src/mediabox.js:57 | the run matched by group 2 from a given start is unique |
| UrlParser.AstralYouTube | src/mediabox.js:57-66 | `https://youtu` + U+1F600 + `be/abc` is of no known provider: U+1F600 is two UTF-16 code units, so the `.` of `youtu.be` cannot take it and `{Unknown, ""}` is returned |
| UrlParser.AstralVimeo | src/mediabox.js:57-66 | `https://vimeo` + U+1F600 + `com/123` is of no known provider, for the same reason with the `.` of `vimeo.com` |
| JsObject.Keys | src/mediabox.js:151 | `Object.keys`: the keys in property order |
| JsObject.Get | src/mediabox.js:152 | `obj[key]` is defined iff the key is among the object's keys |
| JsObject.GetEntry | src/mediabox.js:152 | in an object, each key looks up exactly the value of its entry |
| JsObject.Put | src/mediabox.js:9 | assigning a property keeps an existing key in place, appends a new one, sets its value and leaves every other key's value as it was |
| JsObject.Assign | src/mediabox.js:9 | copying `src` onto `target`: the keys of `target`, then the new keys of `src` in order; a key of `src` takes its value, any other keeps `target`'s |
| JsObject.Spread | src/mediabox.js:9 | `{ ...a, ...b }`: keys of `a`, then new keys of `b`; `b` wins on every key it has |
| JsObject.AssignEmpty | src/mediabox.js:9 | copying an object into `{}` reproduces it |
| JsObject.EqualByLookup | src/mediabox.js:9 | objects with the same key order and the same lookups are equal |
| Lightbox.MergeParams | src/mediabox.js:8-9 | the merged parameters start with `autoplay`; `autoplay` is the caller's value if given, else `'1'`; every other key has the caller's value; the caller's other keys follow in order |
| Lightbox.DefaultQuery | src/mediabox.js:8-9 | without options the query string is `?autoplay=1` |
| UriEncoding.Utf8 | src/mediabox.js:152 | the UTF-8 form of a scalar value: one to four bytes, one byte exactly below U+0080, continuation bytes in `0x80..0xBF` |
| UriEncoding.PercentByte | src/mediabox.js:152 | one byte is `%` followed by two upper-case hex digits |
| UriEncoding.EncodeChar | src/mediabox.js:152 | a character is its own encoding iff it is unreserved; otherwise its encoding is a whole number of escapes, made only of `%` and upper-case hex digits |
| UriEncoding.EncodeURIComponent | src/mediabox.js:152 | the output is no shorter than the input and holds only unreserved characters, `%` and upper-case hex digits |
| UriEncoding.DecodeEncodeChar | src/mediabox.js:152 | decoding the escapes of one character gives that character and the rest of the text back |
| UriEncoding.DecodeEncode | src/mediabox.js:152 | `decodeURIComponent(encodeURIComponent(s)) == s` for every string, with the decoder following `decodeURIComponent`: either case of hex accepted, and malformed, overlong, surrogate or out-of-range UTF-8 rejected |
| UriEncoding.EncodeInjective | src/mediabox.js:152 | distinct values have distinct encodings |
| UriEncoding.EncodeUnreserved | src/mediabox.js:152 | a string of unreserved characters is its own encoding |
| QueryString.Fields | src/mediabox.js:151-153 | one `key=encodeURIComponent(value)` field per property, in key order |
| QueryString.Serialize | src/mediabox.js:150-155 | the result starts with `?` and is exactly `?` iff the object is empty |
| QueryString.JoinFirst | src/mediabox.js:154 | a join starts with its first part, so a non-empty object gives a non-empty body that begins with the first field |
| QueryString.ParseSerialize | src/mediabox.js:150-155 | splitting the query string on `&` and `=` and decoding each value gives back every entry in key order (keys without `&` or `=`) |
| QueryString.SerializeInjective | src/mediabox.js:150-155 | objects with such keys that serialize alike are equal |
| QueryString.SerializeDefault | src/mediabox.js:150-155 | `{autoplay: '1'}` serializes to `?autoplay=1` |
| Strings.SplitJoin | src/mediabox.js:154 | splitting a `join` on its separator gives back the parts when no part holds it |
| Strings.ReplaceAllAbsent | src/mediabox.js:43 | a literal global replacement leaves a text without the pattern unchanged |
| Strings.ReplaceAllSkip | src/mediabox.js:43 | a prefix where no occurrence starts is copied unchanged |
| Strings.ReplaceAllFirst | src/mediabox.js:43 | the first occurrence is the one replaced and scanning resumes after it |
| Markup.ExpandPlain | src/mediabox.js:43 | a replacement value without `$` is inserted as it is |
| Markup.ExpandMatched | src/mediabox.js:43 | the replacement pattern `$&` inserts the matched text |
| Markup.ReplaceLiteral | src/mediabox.js:43 | for a value without `$`, `replace(new RegExp(pat, 'g'), v)` is the literal global replacement |
| Markup.ReplaceFromAbsent | src/mediabox.js:43 | text where the pattern never occurs is unchanged, whatever the value |
| Markup.Token | src/mediabox.js:43 | the placeholder for a key opens with `{`, closes with `}` and holds exactly the key in between |
| Markup.SubstituteInert | src/mediabox.js:38-47 | text holding no `{` is left unchanged by every configuration |
| Markup.SubstituteTwo | src/mediabox.js:41-45 | a two-key configuration is two replacements, in key order |
| Markup.Template | src/mediabox.js:38-47 | the loop replaces every `{key}` of each configuration key in property order, giving `Substitute(text, config)` |
| Markup.OverlayConfig | src/mediabox.js:88-89 | the configuration of `render`: keys `embed` then `params` |
| Markup.FrameClean | src/mediabox.js:87 | the fixed markup around the iframe `src` holds no `{` and no `$` |
| Markup.OverlayMarkup | src/mediabox.js:86-90 | the filled template is the fixed markup with the iframe `src` equal to the embed link followed by the query string, for an embed link without `{`/`$` and a query string without `$` |
| Lightbox.EmbedLink | src/mediabox.js:76-82 | `youtube` gives `https://www.youtube.com/embed/` + id, `vimeo` gives `https://player.vimeo.com/video/` + id, any other provider the error `Invalid video URL` |
| Lightbox.EmbedOfUrl | src/mediabox.js:76-82 | a link is rejected iff neither expression matches it; YouTube takes precedence over Vimeo |
| Lightbox.BuildMarkup | src/mediabox.js:84-90 | `render`'s markup is the template filled with the embed link and `serialize(this.params)` |
| Lightbox.VimeoEmbedInert | src/mediabox.js:79 | a Vimeo embed link holds no `{` and no `$` |
| Lightbox.SerializeInert | src/mediabox.js:150-155 | a query string holds no `$` unless a key does (values are encoded) |
| Lightbox.VimeoOverlay | src/mediabox.js:78-90 | for a Vimeo link, the iframe `src` is exactly the embed link followed by the serialized parameters |
| Lightbox.EscapeKey | src/mediabox.js:27 | `(keyCode \|\| which) === 27` holds iff the key code is 27, or it is 0 and `which` is 27 |
| Lightbox.ClickGuard | src/mediabox.js:102-109 | a click closes on the close icon and on the content, on the backdrop only while it is not hidden, never on the iframe |
| Lightbox.ClickClosesCount | src/mediabox.js:101-111 | with `n` click listeners on one wrapper, a backdrop click closes once while the backdrop is not hidden and never once it is, an icon or content click `n` times, an iframe click never |
| Lightbox.TrapFocusSpec | src/mediabox.js:114-119 | if some live listener's content does not contain the focus target, focus ends in such a content; otherwise it stays on the target |
| Lightbox.Appended | src/mediabox.js:93 | `insertAdjacentHTML('beforeend', …)`: the old overlays, then a new visible overlay without listeners |
| Lightbox.Listened | src/mediabox.js:98-125 | `events()` adds listeners to the first overlay only; the others are unchanged |
| Lightbox.AppendedWellFormed | src/mediabox.js:92-94 | appending an overlay with focus remembered and scrolling locked keeps the class invariant |
| Lightbox.MediaBox.constructor | src/mediabox.js:7-13 | the parameters are the merge of the defaults and the options; no overlay, scrolling free, no timer, no `lastFocusElement`, no focus guard, and the first overlay gets serial 1 |
| Lightbox.MediaBox.Render | src/mediabox.js:71-95 | an unknown provider returns the error and changes nothing; otherwise `lastFocusElement` is the current focus, the overlay for the embed link and parameters is appended and scrolling is locked |
| Lightbox.MediaBox.Show | src/mediabox.js:92-94 | the state effects of a successful render, keeping the invariant |
| Lightbox.MediaBox.Events | src/mediabox.js:97-126 | the first overlay gets one more set of click and keypress listeners and its content one more focus guard |
| Lightbox.MediaBox.TriggerClick | src/mediabox.js:17-23 | parse, render and, only if render succeeded, install the listeners; a rejected link changes nothing |
| Lightbox.MediaBox.Close | src/mediabox.js:128-138 | `close(null)` returns true and changes nothing; a real overlay is hidden, stays present, and one more timer is pending |
| Lightbox.MediaBox.TimerFire | src/mediabox.js:140-147 | with an overlay present, the first one is removed, scrolling is unlocked and focus returns to `lastFocusElement` (when it is still in the document); with none, nothing but the timer changes |
| Lightbox.MediaBox.KeyUp | src/mediabox.js:26-29 | Escape closes the first overlay; with none, or any other key, nothing changes |
| Lightbox.MediaBox.Click | src/mediabox.js:101-112 | the click listeners of the wrapper run in turn, each re-reading the target's class; the timers added are `ClickCloses`, and the overlay is hidden iff it already was or some listener closed it |
| Lightbox.MediaBox.KeyPress | src/mediabox.js:121-125 | Enter closes once per keypress listener; any other key changes nothing |
| Lightbox.MediaBox.FocusIn | src/mediabox.js:114-119 | the document's focus listeners run in registration order and focus ends at `TrapFocus` |
| Lightbox.OpenAndEscape | src/mediabox.js:15-31 | opening a video from a page element, pressing Escape and letting the timer fire leaves no overlay, scrolling free and focus back on that element; a rejected link leaves the page as it was |

## Left out

- DOM plumbing is abstracted to the fields of `Lightbox.MediaBox`. This covers `addEventListener`, `querySelectorAll` and `NodeList` handling, `insertAdjacentHTML` HTML parsing, `classList`, `removeChild` and `preventDefault`. The triggers are their `href` values.
- A trigger without an `href` attribute is not modelled: `getAttribute` would return `null` and `parseUrl` would throw. The model's triggers always carry a string.
- The 500 ms delay of `setTimeout` is not modelled. A timer is a pending count and `TimerFire` is an explicit step. Every callback does the same thing, so their order does not matter.
- `content.focus()` inside the focus listener raises a nested focus event. That event, `stopPropagation`, and which elements can take focus are left out. Focus moves only through `FocusIn` and `TimerFire`.
- The `event.target &&` test of the click guard is left out, because a click always has a target.
- `template` builds `new RegExp('{' + key + '}', 'g')`. A key with regular-expression metacharacters would be read as a pattern, and an invalid one would throw; the model matches `{key}` literally. The only keys `render` passes, `embed` and `params`, have no metacharacters.
- The `hasOwnProperty` filter of `template` is left out, because the configuration is a fresh object literal with no inherited enumerable properties.
- JavaScript orders integer-like property keys before all others. That ordering is not modelled: keys are kept in insertion order.
- Parameter values are strings. A number or boolean given as an option is converted by `encodeURIComponent` through `String()`, and that conversion is not modelled.
- The `URIError` that `encodeURIComponent` throws on a lone surrogate is not modelled. In the program a parameter value holding a lone surrogate makes `serialize` throw inside `render`, after the provider check and before any change to the page. A Dafny `char` is a Unicode scalar value, so no string of the model holds a lone surrogate.
- Strings are sequences of scalar values, not of UTF-16 code units. The matchers state the effect of code units where it changes the outcome (the `.` of `youtu.be` and `vimeo.com` never takes a character above U+FFFF), but an href holding a lone surrogate cannot be represented.
- `dist/mediabox.js` (the built copy) and `gulpfile.js` (build tooling) are not part of this model.
- Markup.OverlayMarkup: the closed form is stated only for an embed link without `{` or `$` and a query string without `$`. A YouTube id can hold either. In that case the markup is still exactly what `Substitute` and the `$`-pattern expansion give, but no closed form is proved for it.
- Lightbox.VimeoOverlay: stated only when no parameter key holds `$`. Keys are not encoded, so a `$` in a key would trigger a replacement pattern.
- QueryString.ParseSerialize: stated only for keys without `&` or `=`, because keys are not encoded and such keys make the query string ambiguous.
- QueryString.SerializeInjective: stated under the same condition on keys, for the same reason.
- Markup.ReplaceLiteral: stated only for values without `$`. Values with `$` are covered by the `Expand` definition instead.
