/**
 * `template`: for each configuration key in property order, every `{key}`
 * in the text is replaced by the key's value, as
 * `text.replace(new RegExp('{' + key + '}', 'g'), value)` does.  A string
 * replacement in `String.prototype.replace` expands `$$`, `$&`, `` $` ``
 * and `$'`; the pattern has no capture groups, so every other `$` is kept
 * as it is.  The literal replacement of the Strings module is the reference
 * definition the expansion agrees with for values without `$`.
 */
module Markup {
  import opened Strings
  import opened JsObject

  /**
   * The replacement text for one match: `$$` is `$`, `$&` the match,
   * `` $` `` the text before it and `$'` the text after it.
   */
  function Expand(v: string, before: string, after: string, matched: string): string
    decreases |v|
  {
    if |v| == 0 then ""
    else if |v| >= 2 && v[0] == '$' && v[1] == '$' then "$" + Expand(v[2..], before, after, matched)
    else if |v| >= 2 && v[0] == '$' && v[1] == '&' then matched + Expand(v[2..], before, after, matched)
    else if |v| >= 2 && v[0] == '$' && v[1] == '`' then before + Expand(v[2..], before, after, matched)
    else if |v| >= 2 && v[0] == '$' && v[1] == '\'' then after + Expand(v[2..], before, after, matched)
    else [v[0]] + Expand(v[1..], before, after, matched)
  }

  /** A value without `$` is inserted as it is. */
  lemma {:induction false} ExpandPlain(v: string, before: string, after: string, matched: string)
    requires '$' !in v
    ensures Expand(v, before, after, matched) == v
  {
    if |v| > 0 {
      ExpandPlain(v[1..], before, after, matched);
      assert [v[0]] + v[1..] == v;
    }
  }

  /** The global replacement of `pat` in `s`, from index `i` on. */
  function ReplaceFrom(s: string, i: nat, pat: string, v: string): string
    requires |pat| > 0 && i <= |s|
    decreases |s| - i
  {
    if i + |pat| > |s| then s[i..]
    else if s[i..i + |pat|] == pat then
      Expand(v, s[..i], s[i + |pat|..], pat) + ReplaceFrom(s, i + |pat|, pat, v)
    else [s[i]] + ReplaceFrom(s, i + 1, pat, v)
  }

  /** `s.replace(new RegExp(pat, 'g'), v)` for a pattern that matches only itself. */
  function Replace(s: string, pat: string, v: string): string
    requires |pat| > 0
  {
    ReplaceFrom(s, 0, pat, v)
  }

  lemma {:induction false} ReplaceFromLiteral(s: string, i: nat, pat: string, v: string)
    requires |pat| > 0 && i <= |s|
    requires '$' !in v
    ensures ReplaceFrom(s, i, pat, v) == ReplaceAll(s[i..], pat, v)
    decreases |s| - i
  {
    var t := s[i..];
    if i + |pat| <= |s| {
      assert t[..|pat|] == s[i..i + |pat|];
      if s[i..i + |pat|] == pat {
        ExpandPlain(v, s[..i], s[i + |pat|..], pat);
        ReplaceFromLiteral(s, i + |pat|, pat, v);
        assert t[|pat|..] == s[i + |pat|..];
        assert ReplaceAll(t, pat, v) == v + ReplaceAll(t[|pat|..], pat, v);
      } else {
        ReplaceFromLiteral(s, i + 1, pat, v);
        assert t[1..] == s[i + 1..];
        assert ReplaceAll(t, pat, v) == [t[0]] + ReplaceAll(t[1..], pat, v);
      }
    }
  }

  /** For a value without `$` the replacement is the literal one. */
  lemma {:induction false} ReplaceLiteral(s: string, pat: string, v: string)
    requires |pat| > 0 && '$' !in v
    ensures Replace(s, pat, v) == ReplaceAll(s, pat, v)
  {
    ReplaceFromLiteral(s, 0, pat, v);
    assert s[0..] == s;
  }

  /** Text in which `pat` never occurs is left as it is, whatever the value. */
  lemma {:induction false} ReplaceFromAbsent(s: string, i: nat, pat: string, v: string)
    requires |pat| > 0 && i <= |s|
    requires NoneBefore(s, pat, |s| + 1)
    ensures ReplaceFrom(s, i, pat, v) == s[i..]
    decreases |s| - i
  {
    if i + |pat| <= |s| {
      assert !HasAt(s, i, pat);
      ReplaceFromAbsent(s, i + 1, pat, v);
      assert [s[i]] + s[i + 1..] == s[i..];
    }
  }

  /** `$&` puts the matched text back. */
  lemma {:induction false} ExpandMatched(before: string, after: string, matched: string)
    ensures Expand("$&", before, after, matched) == matched
  {
    assert "$&"[2..] == [];
  }

  /** The placeholder for `key`. */
  function Token(key: string): (t: string)
    ensures |t| == |key| + 2 && t[0] == '{' && t[|t| - 1] == '}'
    ensures t[1..|t| - 1] == key
  {
    "{" + key + "}"
  }

  /** The text after substituting each entry of `config`, in order. */
  function Substitute(text: string, config: seq<Entry>): string
    decreases |config|
  {
    if |config| == 0 then text
    else Substitute(Replace(text, Token(config[0].key), config[0].value), config[1..])
  }

  /** Text without any `{` is left unchanged by every configuration. */
  lemma {:induction false} SubstituteInert(text: string, config: seq<Entry>)
    requires '{' !in text
    ensures Substitute(text, config) == text
    decreases |config|
  {
    if |config| > 0 {
      var pat := Token(config[0].key);
      NoBraceBefore(text, [], pat);
      assert text + [] == text;
      ReplaceFromAbsent(text, 0, pat, config[0].value);
      assert text[0..] == text;
      SubstituteInert(text, config[1..]);
    }
  }

  /** `template(text, config)`: the loop over the configuration keys. */
  method Template(text: string, config: Object) returns (r: string)
    ensures r == Substitute(text, config)
  {
    r := text;
    var i := 0;
    while i < |config|
      invariant 0 <= i <= |config|
      invariant Substitute(r, config[i..]) == Substitute(text, config)
    {
      assert config[i..][1..] == config[i + 1..];
      r := Replace(r, Token(config[i].key), config[i].value);
      i := i + 1;
    }
    assert config[i..] == [];
  }

  // ---------------------------------------------------------------------
  // The overlay markup built by render

  /** Text with no placeholder brace and no replacement pattern in it. */
  predicate Inert(t: string) {
    '{' !in t && '$' !in t
  }

  // The literal markup of src/mediabox.js:87, cut into short pieces so
  // that each can be checked character by character.
  const Wrap1: string := "<div class=\"mediabox-wrap\" "
  const Wrap2: string := "role=\"dialog\" aria-hidden=\"false\">"
  const Content1: string := "<div class=\"mediabox-content\" "
  const Content2: string := "role=\"document\" tabindex=\"0\">"
  const Close1: string := "<span id=\"mediabox-esc\" "
  const Close2: string := "class=\"mediabox-close\" "
  const Close3: string := "aria-label=\"close\" tabindex=\"1\">"
  const FrameOpen: string := "</span><iframe src=\""
  const Frame1: string := "\" frameborder=\"0\" "
  const Frame2: string := "allowfullscreen></iframe></div></div>"

  /** The markup of the overlay before the `src` value of its iframe. */
  const MarkupHead: string := Wrap1 + Wrap2 + Content1 + Content2 + Close1 + Close2 + Close3 + FrameOpen

  /** The markup of the overlay after the `src` value of its iframe. */
  const MarkupTail: string := Frame1 + Frame2

  const OverlayTemplate: string := MarkupHead + "{embed}" + "{params}" + MarkupTail

  /** The configuration `render` passes to `template`. */
  function OverlayConfig(embed: string, params: string): (c: Object)
    ensures Keys(c) == ["embed", "params"]
  {
    [Entry("embed", embed), Entry("params", params)]
  }

  lemma {:induction false} NoBraceBefore(a: string, b: string, pat: string)
    requires |pat| > 0 && pat[0] == '{' && '{' !in a
    ensures NoneBefore(a + b, pat, |a|)
  {
  }

  lemma {:induction false} NoBrace(s: string, pat: string)
    requires |pat| > 0 && pat[0] == '{' && '{' !in s
    ensures NoneBefore(s, pat, |s| + 1)
  {
    NoBraceBefore(s, [], pat);
    assert s + [] == s;
  }

  lemma Wrap1Inert() ensures Inert(Wrap1) {}
  lemma Wrap2Inert() ensures Inert(Wrap2) {}
  lemma Content1Inert() ensures Inert(Content1) {}
  lemma Content2Inert() ensures Inert(Content2) {}
  lemma Close1Inert() ensures Inert(Close1) {}
  lemma Close2Inert() ensures Inert(Close2) {}
  lemma Close3Inert() ensures Inert(Close3) {}
  lemma FrameOpenInert() ensures Inert(FrameOpen) {}
  lemma Frame1Inert() ensures Inert(Frame1) {}
  lemma Frame2Inert() ensures Inert(Frame2) {}

  /** The fixed markup holds no `{` and no `$`. */
  lemma FrameClean()
    ensures Inert(MarkupHead) && Inert(MarkupTail)
  {
    Wrap1Inert(); Wrap2Inert(); Content1Inert(); Content2Inert();
    Close1Inert(); Close2Inert(); Close3Inert(); FrameOpenInert();
    Frame1Inert(); Frame2Inert();
  }

  /** Replacing `{embed}` leaves the `{params}` placeholder that follows it. */
  lemma {:induction false} ParamsSurviveEmbed(tail: string, v: string)
    requires '{' !in tail
    ensures ReplaceAll("{params}" + tail, "{embed}", v) == "{params}" + tail
  {
    var rest := "{params}" + tail;
    assert rest[..7] != "{embed}" by {
      assert rest[..7][1] == 'p';
    }
    var after := rest[1..];
    assert after == "params}" + tail;
    NoBrace(after, "{embed}");
    ReplaceAllAbsent(after, "{embed}", v);
    assert [rest[0]] + after == rest;
  }

  /** A two-entry configuration is two replacements in a row. */
  lemma {:induction false} SubstituteTwo(text: string, a: Entry, b: Entry)
    ensures Substitute(text, [a, b])
         == Replace(Replace(text, Token(a.key), a.value), Token(b.key), b.value)
  {
    var once := Replace(text, Token(a.key), a.value);
    assert [a, b][1..] == [b];
    assert Substitute(text, [a, b]) == Substitute(once, [b]);
    assert [b][1..] == [];
    assert Substitute(once, [b]) == Substitute(Replace(once, Token(b.key), b.value), []);
  }

  lemma {:induction false} EmbedStep(head: string, embed: string, tail: string)
    requires '{' !in head && '{' !in tail && '$' !in embed
    ensures Replace(head + "{embed}" + "{params}" + tail, "{embed}", embed)
         == head + embed + ("{params}" + tail)
  {
    var rest := "{params}" + tail;
    var s := head + "{embed}" + "{params}" + tail;
    ReplaceLiteral(s, "{embed}", embed);
    assert s == head + "{embed}" + rest;
    NoBraceBefore(head, "{embed}" + rest, "{embed}");
    assert head + ("{embed}" + rest) == s;
    ReplaceAllFirst(head, rest, "{embed}", embed);
    ParamsSurviveEmbed(tail, embed);
  }

  lemma {:induction false} ParamsStep(lead: string, params: string, tail: string)
    requires '{' !in lead && '{' !in tail && '$' !in params
    ensures Replace(lead + ("{params}" + tail), "{params}", params) == lead + params + tail
  {
    var s := lead + ("{params}" + tail);
    ReplaceLiteral(s, "{params}", params);
    assert s == lead + "{params}" + tail;
    NoBraceBefore(lead, "{params}" + tail, "{params}");
    ReplaceAllFirst(lead, tail, "{params}", params);
    NoBrace(tail, "{params}");
    ReplaceAllAbsent(tail, "{params}", params);
  }

  /**
   * With an embed link free of `{` and `$` and a query string free of `$`,
   * the iframe's `src` is exactly the embed link followed by the query
   * string, and the rest of the markup is unchanged.
   */
  lemma {:induction false} OverlayMarkup(embed: string, params: string)
    requires '{' !in embed && '$' !in embed && '$' !in params
    ensures Substitute(OverlayTemplate, OverlayConfig(embed, params))
         == MarkupHead + embed + params + MarkupTail
  {
    SubstituteTwo(OverlayTemplate, Entry("embed", embed), Entry("params", params));
    assert Token("embed") == "{embed}" && Token("params") == "{params}";
    FrameClean();
    EmbedStep(MarkupHead, embed, MarkupTail);
    ParamsStep(MarkupHead + embed, params, MarkupTail);
  }
}
