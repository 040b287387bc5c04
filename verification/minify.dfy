/** The three minifiers of the build script. Each is a fixed chain of regular
    expression replacements over the whole file; nothing here tokenizes HTML, CSS
    or JavaScript, so string literals and comments-in-strings are rewritten like
    any other text. */
module Minify {
  import opened Opt
  import opened Text
  import opened WsRewrite
  import opened LiteralRewrite

  /** The squeeze for every character of `ps`, in order: `ps[0]` first. */
  function SqueezeAll(ps: string, s: string): (r: string)
    requires forall i :: 0 <= i < |ps| ==> !IsWs(ps[i])
    ensures |r| <= |s|
    ensures SpacesOnly(s) ==> SpacesOnly(r)
    decreases |ps|
  {
    if ps == [] then s
    else
      var once := Squeeze(ps[0], s);
      SqueezeAll(ps[1..], once)
  }

  /** After squeezing every character of `ps`, none of them has whitespace
      beside it: a later squeeze never undoes an earlier one. */
  lemma {:induction false} SqueezeAllClears(ps: string, s: string)
    requires forall i :: 0 <= i < |ps| ==> !IsWs(ps[i])
    ensures forall i :: 0 <= i < |ps| ==> NoWsAround(ps[i], SqueezeAll(ps, s))
    decreases |ps|
  {
    if ps != [] {
      var once := Squeeze(ps[0], s);
      SqueezeAllClears(ps[1..], once);
      SqueezeClearsAround(ps[0], s);
      SqueezeAllKeepsNoWsAround(ps[1..], ps[0], once);
      forall i | 0 <= i < |ps|
        ensures NoWsAround(ps[i], SqueezeAll(ps, s))
      {
        if i > 0 {
          assert ps[i] == ps[1..][i - 1];
        }
      }
    }
  }

  lemma {:induction false} SqueezeAllKeepsNoWsAround(ps: string, q: char, s: string)
    requires forall i :: 0 <= i < |ps| ==> !IsWs(ps[i])
    requires !IsWs(q) && NoWsAround(q, s)
    ensures NoWsAround(q, SqueezeAll(ps, s))
    decreases |ps|
  {
    if ps != [] {
      SqueezeKeepsNoWsAround(ps[0], q, s);
      SqueezeAllKeepsNoWsAround(ps[1..], q, Squeeze(ps[0], s));
    }
  }

  /** The squeezes only ever remove whitespace. */
  lemma {:induction false} SqueezeAllKeepsVisible(ps: string, s: string)
    requires forall i :: 0 <= i < |ps| ==> !IsWs(ps[i])
    ensures Visible(SqueezeAll(ps, s)) == Visible(s)
    decreases |ps|
  {
    if ps != [] {
      SqueezeKeepsVisible(ps[0], s);
      SqueezeAllKeepsVisible(ps[1..], Squeeze(ps[0], s));
    }
  }

  /** A string with no whitespace beside any character of `ps` is left as it is. */
  lemma {:induction false} SqueezeAllFixesClear(ps: string, s: string)
    requires forall i :: 0 <= i < |ps| ==> !IsWs(ps[i]) && NoWsAround(ps[i], s)
    ensures SqueezeAll(ps, s) == s
    decreases |ps|
  {
    if ps != [] {
      SqueezeFixesClear(ps[0], s);
      SqueezeAllFixesClear(ps[1..], s);
    }
  }

  lemma {:induction false} SqueezeAllKeepsNoDoubleWs(ps: string, s: string)
    requires forall i :: 0 <= i < |ps| ==> !IsWs(ps[i])
    requires NoDoubleWs(s)
    ensures NoDoubleWs(SqueezeAll(ps, s))
    decreases |ps|
  {
    if ps != [] {
      SqueezeKeepsNoDoubleWs(ps[0], s);
      SqueezeAllKeepsNoDoubleWs(ps[1..], Squeeze(ps[0], s));
    }
  }

  /** Collapsing then squeezing is idempotent for any set of squeezed characters. */
  lemma SqueezeBodyIdempotent(ps: string, s: string)
    requires forall i :: 0 <= i < |ps| ==> !IsWs(ps[i])
    ensures var body := SqueezeAll(ps, CollapseWs(s));
      SqueezeAll(ps, CollapseWs(body)) == body
  {
    var collapsed := CollapseWs(s);
    var body := SqueezeAll(ps, collapsed);
    SqueezeAllKeepsNoDoubleWs(ps, collapsed);
    CollapseWsFixesCollapsed(body);
    SqueezeAllClears(ps, collapsed);
    SqueezeAllFixesClear(ps, body);
  }

  /** The squeezes can be run in two batches. */
  lemma {:induction false} SqueezeAllSplit(ps: string, k: nat, s: string)
    requires k <= |ps| && forall i :: 0 <= i < |ps| ==> !IsWs(ps[i])
    ensures SqueezeAll(ps, s) == SqueezeAll(ps[k..], SqueezeAll(ps[..k], s))
    decreases k
  {
    if k > 0 {
      assert ps[1..][k - 1..] == ps[k..];
      assert ps[..k][1..] == ps[1..][..k - 1];
      SqueezeAllSplit(ps[1..], k - 1, Squeeze(ps[0], s));
    }
  }

  /** Text without any whitespace goes through collapsing and squeezing unchanged. */
  lemma NoWsBodyFixed(ps: string, s: string)
    requires forall i :: 0 <= i < |ps| ==> !IsWs(ps[i])
    requires NoWs(s)
    ensures SqueezeAll(ps, CollapseWs(s)) == s
  {
    assert SpacesOnly(s) && NoDoubleWs(s);
    CollapseWsFixesCollapsed(s);
    forall i | 0 <= i < |ps|
      ensures NoWsAround(ps[i], s)
    {
    }
    SqueezeAllFixesClear(ps, s);
  }

  /** The `/\n/g` and `/\r/g` passes every minifier ends with. */
  function DropLineBreaks(s: string): (r: string)
    ensures NoLineBreaks(r)
    ensures |r| <= |s|
  {
    var noLf := RemoveAll('\n', s);
    var r := RemoveAll('\r', noLf);
    assert forall i :: 0 <= i < |r| ==> r[i] != '\r' && r[i] != '\n' by {
      RemoveAllCounts('\r', noLf);
      forall i | 0 <= i < |r|
        ensures r[i] != '\r' && r[i] != '\n'
      {
        assert r[i] in multiset(r);
      }
    }
    r
  }

  /** Once whitespace has been collapsed to single spaces, removing the line
      breaks changes nothing. */
  lemma DropLineBreaksAfterCollapse(s: string)
    requires SpacesOnly(s)
    ensures DropLineBreaks(s) == s
  {
    assert '\n' !in s && '\r' !in s by {
      SpacesOnlyHasNoLineBreaks(s);
    }
  }

  // ---------------------------------------------------------------- HTML

  const StylesRef: string := "styles.css"
  const StylesMinRef: string := "styles.min.css"
  const ScriptRef: string := "script.js"
  const ScriptMinRef: string := "script.min.js"

  function StripHtmlComments(html: string): string {
    StripDelimited("<!--", "-->", html)
  }

  /** Lines 30-37 of the HTML minifier: collapse whitespace, then drop it between,
      before and after tags, then drop line breaks. */
  function HtmlWhitespace(s: string): (r: string)
    ensures |r| <= |s|
    ensures NoLineBreaks(r)
  {
    var collapsed := CollapseWs(s);
    var betweenTags := DropWsBetween('>', '<', collapsed);
    var beforeClose := DropWsBefore('>', betweenTags);
    var afterOpen := DropWsAfter('<', beforeClose);
    DropLineBreaks(afterOpen)
  }

  /** The two `replace('lit', …)` calls: only the first reference to each file changes. */
  function RewriteStyles(s: string): string {
    ReplaceFirst(StylesRef, StylesMinRef, s)
  }

  function RewriteScript(s: string): string {
    ReplaceFirst(ScriptRef, ScriptMinRef, s)
  }

  function MinifyHtml(html: string): (r: string)
    ensures |r| <= |html| + 8
  {
    var w := HtmlWhitespace(StripHtmlComments(html));
    assert |StylesMinRef| == |StylesRef| + 4 && |ScriptMinRef| == |ScriptRef| + 4;
    RewriteScript(RewriteStyles(w))
  }

  /** A page naming neither file leaves the rewrites untouched: the result is
      the page after the comment and whitespace stages. */
  lemma MinifyHtmlWithoutReferences(html: string, w: string)
    requires HtmlWhitespace(StripHtmlComments(html)) == w
    requires NoOccurrence(StylesRef, w) && NoOccurrence(ScriptRef, w)
    ensures MinifyHtml(html) == w
  {
    ReplaceFirstWithout(StylesRef, StylesMinRef, w);
    ReplaceFirstWithout(ScriptRef, ScriptMinRef, w);
  }

  /** The whitespace shapes the HTML minifier guarantees. */
  predicate HtmlShaped(s: string) {
    && SpacesOnly(s)
    && NoDoubleWs(s)
    && NoWsBefore('>', s)
    && NoWsAfter('<', s)
    && NoGap('>', '<', s)
  }

  /** The whitespace stage leaves single spaces only, none next to a tag bracket
      on its inner side and none between two tags, and removes no visible
      character. */
  lemma HtmlWhitespaceShapes(s: string)
    ensures HtmlShaped(HtmlWhitespace(s))
    ensures Visible(HtmlWhitespace(s)) == Visible(s)
  {
    var collapsed := CollapseWs(s);
    var betweenTags := DropWsBetween('>', '<', collapsed);
    var beforeClose := DropWsBefore('>', betweenTags);
    var afterOpen := DropWsAfter('<', beforeClose);
    DropWsBetweenMakesNoGap('>', '<', collapsed);
    DropWsBetweenKeepsNoDoubleWs('>', '<', collapsed);
    DropWsBeforeClears('>', betweenTags);
    DropWsBeforeKeepsNoDoubleWs('>', betweenTags);
    DropWsBeforeKeepsNoGap('>', '>', '<', betweenTags);
    DropWsAfterClears('<', beforeClose);
    DropWsAfterKeepsNoDoubleWs('<', beforeClose);
    DropWsAfterKeepsNoWsBefore('<', '>', beforeClose);
    DropWsAfterKeepsNoGap('<', '>', '<', beforeClose);
    DropLineBreaksAfterCollapse(afterOpen);
    CollapseWsKeepsVisible(s);
    DropWsBetweenKeepsVisible('>', '<', collapsed);
    DropWsBeforeKeepsVisible('>', betweenTags);
    DropWsAfterKeepsVisible('<', beforeClose);
  }

  lemma SpliceKeepsHtmlShape(s: string, k: nat, m: nat, rep: string, r: string)
    requires k + m <= |s| && |rep| > 0 && PlainText(rep)
    requires HtmlShaped(s) && r == s[..k] + rep + s[k + m..]
    ensures HtmlShaped(r)
  {
    SpliceSpacesOnly(s, k, m, rep);
    SpliceNoDoubleWs(s, k, m, rep);
    SpliceNoWsBefore(s, k, m, rep);
    SpliceNoWsAfter(s, k, m, rep);
    SpliceNoGap(s, k, m, rep);
  }

  /** Replacing a reference by a name without whitespace or tag brackets keeps the shapes. */
  lemma RewriteKeepsShapes(pat: string, rep: string, s: string)
    requires |pat| > 0 && |rep| > 0 && PlainText(rep)
    requires HtmlShaped(s)
    ensures HtmlShaped(ReplaceFirst(pat, rep, s))
  {
    var r := ReplaceFirst(pat, rep, s);
    var found := IndexOf(pat, s);
    if found.Some? {
      var k := found.value;
      assert r == s[..k] + rep + s[k + |pat|..];
      SpliceKeepsHtmlShape(s, k, |pat|, rep, r);
    }
  }

  lemma MinifiedNamesArePlain()
    ensures PlainText(StylesMinRef) && PlainText(ScriptMinRef)
  {
  }

  /** Every HTML output has only single plain spaces, no line break, no space
      just inside a tag bracket and no space between two tags. */
  lemma MinifyHtmlShape(html: string)
    ensures HtmlShaped(MinifyHtml(html))
    ensures NoLineBreaks(MinifyHtml(html))
  {
    var w := HtmlWhitespace(StripHtmlComments(html));
    HtmlWhitespaceShapes(StripHtmlComments(html));
    MinifiedNamesArePlain();
    RewriteKeepsShapes(StylesRef, StylesMinRef, w);
    RewriteKeepsShapes(ScriptRef, ScriptMinRef, RewriteStyles(w));
    SpacesOnlyHasNoLineBreaks(MinifyHtml(html));
  }

  /** Text standing between a tag `u` and markup `v`, all three without
      whitespace, with the brackets placed so that no tag rule applies. */
  predicate TextBetween(u: string, t: string, v: string) {
    && NoWs(u) && NoWs(t) && NoWs(v) && |u| > 0 && |t| > 0
    && u[0] != '>' && u[|u| - 1] != '<'
    && t[0] != '<' && t[0] != '>' && t[|t| - 1] != '<' && t[|t| - 1] != '>'
    && (|v| > 0 ==> v[0] != '>')
  }

  /** `u`, `t` and `v` with one space in front of each of the first two. */
  function Spaced(u: string, t: string, v: string): string {
    " " + (u + (" " + (t + (" " + v))))
  }

  lemma SpacedIndex(u: string, t: string, v: string)
    ensures var x := Spaced(u, t, v); var a := 1 + |u|; var b := a + 1 + |t|;
      && |x| == b + 1 + |v|
      && x[0] == ' ' && x[a] == ' ' && x[b] == ' '
      && (forall i :: 1 <= i < a ==> x[i] == u[i - 1])
      && (forall i :: a < i < b ==> x[i] == t[i - a - 1])
      && (forall i :: b < i < |x| ==> x[i] == v[i - b - 1])
  {
  }

  lemma SpacedSingle(u: string, t: string, v: string)
    requires TextBetween(u, t, v)
    ensures SpacesOnly(Spaced(u, t, v)) && NoDoubleWs(Spaced(u, t, v))
  {
    SpacedIndex(u, t, v);
  }

  lemma SpacedBrackets(u: string, t: string, v: string)
    requires TextBetween(u, t, v)
    ensures NoWsBefore('>', Spaced(u, t, v)) && NoWsAfter('<', Spaced(u, t, v))
  {
    SpacedIndex(u, t, v);
  }

  lemma SpacedNoGap(u: string, t: string, v: string)
    requires TextBetween(u, t, v)
    ensures NoGap('>', '<', Spaced(u, t, v))
  {
    SpacedIndex(u, t, v);
  }

  lemma SpacedShaped(u: string, t: string, v: string)
    requires TextBetween(u, t, v)
    ensures HtmlShaped(Spaced(u, t, v))
  {
    SpacedSingle(u, t, v);
    SpacedBrackets(u, t, v);
    SpacedNoGap(u, t, v);
  }

  lemma CollapseSpaced(w0: string, u: string, w1: string, t: string, w2: string, v: string)
    requires |w0| > 0 && |w1| > 0 && |w2| > 0 && AllWs(w0) && AllWs(w1) && AllWs(w2)
    requires TextBetween(u, t, v)
    ensures CollapseWs(w0 + (u + (w1 + (t + (w2 + v))))) == Spaced(u, t, v)
  {
    CollapseWsFixesCollapsed(v);
    CollapseWsRun(w2, v);
    CollapseWsWord(t, w2 + v);
    CollapseWsRun(w1, t + (w2 + v));
    CollapseWsWord(u, w1 + (t + (w2 + v)));
    CollapseWsRun(w0, u + (w1 + (t + (w2 + v))));
  }

  /** Once collapsing has produced a string in shape, the tag passes leave it alone. */
  lemma ShapedAfterCollapse(s: string, x: string)
    requires CollapseWs(s) == x && HtmlShaped(x)
    ensures HtmlWhitespace(s) == x
  {
    DropWsBetweenFixesClear('>', '<', x);
    DropWsBeforeFixesClear('>', x);
    DropWsAfterFixesClear('<', x);
    DropLineBreaksAfterCollapse(x);
  }

  /** Whitespace between a tag and text is not removed, only collapsed to one
      space: the tag rules apply only on the inner side of a bracket and between
      two tags. */
  lemma HtmlKeepsSpacesBesideText(w0: string, u: string, w1: string, t: string, w2: string, v: string)
    requires |w0| > 0 && |w1| > 0 && |w2| > 0 && AllWs(w0) && AllWs(w1) && AllWs(w2)
    requires TextBetween(u, t, v)
    ensures HtmlWhitespace(w0 + (u + (w1 + (t + (w2 + v))))) == Spaced(u, t, v)
  {
    CollapseSpaced(w0, u, w1, t, w2, v);
    SpacedShaped(u, t, v);
    ShapedAfterCollapse(w0 + (u + (w1 + (t + (w2 + v)))), Spaced(u, t, v));
  }

  /** The first reference to each original file is pointed at its minified copy. */
  lemma RewriteInsertsMinified(s: string)
    ensures Contains(s, StylesRef) ==> Contains(RewriteStyles(s), StylesMinRef)
    ensures Contains(s, ScriptRef) ==> Contains(RewriteScript(s), ScriptMinRef)
  {
    if Contains(s, StylesRef) {
      var k := IndexOf(StylesRef, s).value;
      var r := RewriteStyles(s);
      assert r[k..k + |StylesMinRef|] == StylesMinRef;
      assert OccursAt(StylesMinRef, r, k);
    }
    if Contains(s, ScriptRef) {
      var k := IndexOf(ScriptRef, s).value;
      var r := RewriteScript(s);
      assert r[k..k + |ScriptMinRef|] == ScriptMinRef;
      assert OccursAt(ScriptMinRef, r, k);
    }
  }

  /** A string already in shape passes the whitespace stage unchanged. */
  lemma HtmlWhitespaceFixesShaped(s: string)
    requires HtmlShaped(s)
    ensures HtmlWhitespace(s) == s
  {
    CollapseWsFixesCollapsed(s);
    DropWsBetweenFixesClear('>', '<', s);
    DropWsBeforeFixesClear('>', s);
    DropWsAfterFixesClear('<', s);
    DropLineBreaksAfterCollapse(s);
  }

  /** The whitespace stage on its own is idempotent. */
  lemma HtmlWhitespaceIdempotent(s: string)
    ensures HtmlWhitespace(HtmlWhitespace(s)) == HtmlWhitespace(s)
  {
    HtmlWhitespaceShapes(s);
    HtmlWhitespaceFixesShaped(HtmlWhitespace(s));
  }

  /** The fixed points of the HTML minifier: in shape, without a comment opener
      and without a reference to either source file. */
  lemma MinifyHtmlFixes(html: string)
    requires HtmlShaped(html) && NoOccurrence("<!--", html)
    requires NoOccurrence(StylesRef, html) && NoOccurrence(ScriptRef, html)
    ensures MinifyHtml(html) == html
  {
    StripWithoutOpener("<!--", "-->", html);
    HtmlWhitespaceFixesShaped(html);
  }

  // ---------------------------------------------------------------- CSS

  /** The characters the CSS minifier squeezes whitespace around, in order. */
  const CssPunctuation: string := "{}:;,"

  /** The CSS whitespace stage: never longer, and with plain spaces only. */
  function CssBody(s: string): (r: string)
    ensures |r| <= |s|
    ensures SpacesOnly(r)
  {
    SqueezeAll(CssPunctuation, CollapseWs(s))
  }

  lemma CssPunctuationIsVisible()
    ensures forall i :: 0 <= i < |CssPunctuation| ==> !IsWs(CssPunctuation[i])
  {
  }

  /** The CSS whitespace stage is idempotent. */
  lemma CssBodyIdempotent(s: string)
    ensures CssBody(CssBody(s)) == CssBody(s)
  {
    CssPunctuationIsVisible();
    SqueezeBodyIdempotent(CssPunctuation, s);
  }

  function MinifyCss(css: string): (r: string)
    ensures |r| <= |css|
  {
    DropLineBreaks(ReplaceAll(";}", "}", CssBody(StripDelimited("/*", "*/", css))))
  }

  /** Dropping the semicolon of `;}` never puts whitespace next to a squeezed character. */
  lemma {:induction false} DropSemicolonsKeepsNoWsAround(q: char, s: string)
    requires !IsWs(q) && NoWsBefore(';', s) && NoWsAround(q, s)
    ensures NoWsAround(q, ReplaceAll(";}", "}", s))
    decreases |s|
  {
    if s == [] {
    } else if ";}" <= s {
      assert s[0] == ';' && s[1] == '}';
      var t := s[2..];
      SuffixKeepsShapes(s, 2);
      DropSemicolonsKeepsNoWsAround(q, t);
      var r' := ReplaceAll(";}", "}", t);
      ConsNoWsBefore(q, '}', r');
      ConsNoWsAfter(q, '}', r');
      assert ReplaceAll(";}", "}", s) == ['}'] + r';
    } else {
      var t := s[1..];
      SuffixKeepsShapes(s, 1);
      DropSemicolonsKeepsNoWsAround(q, t);
      var r' := ReplaceAll(";}", "}", t);
      ConsNoWsBefore(q, s[0], r');
      ConsNoWsAfter(q, s[0], r');
      assert ReplaceAll(";}", "}", s) == [s[0]] + r';
    }
  }

  /** Every CSS output has only plain spaces, no line break, and no whitespace
      on either side of `{`, `}`, `:`, `;` or `,`; the squeezes remove no
      visible character. */
  lemma MinifyCssShape(css: string)
    ensures var r := MinifyCss(css);
      && SpacesOnly(r) && NoLineBreaks(r)
      && forall i :: 0 <= i < |CssPunctuation| ==> NoWsAround(CssPunctuation[i], r)
    ensures Visible(CssBody(StripDelimited("/*", "*/", css))) == Visible(StripDelimited("/*", "*/", css))
  {
    CssPunctuationIsVisible();
    var collapsed := CollapseWs(StripDelimited("/*", "*/", css));
    var body := SqueezeAll(CssPunctuation, collapsed);
    var semis := ReplaceAll(";}", "}", body);
    SqueezeAllClears(CssPunctuation, collapsed);
    assert SpacesOnly(semis);
    assert NoWsBefore(';', body) by {
      assert CssPunctuation[3] == ';';
    }
    forall i | 0 <= i < |CssPunctuation|
      ensures NoWsAround(CssPunctuation[i], semis)
    {
      DropSemicolonsKeepsNoWsAround(CssPunctuation[i], body);
    }
    DropLineBreaksAfterCollapse(semis);
    SpacesOnlyHasNoLineBreaks(semis);
    CollapseWsKeepsVisible(StripDelimited("/*", "*/", css));
    SqueezeAllKeepsVisible(CssPunctuation, collapsed);
  }

  // ---------------------------------------------------------------- JavaScript

  /** The characters the JavaScript minifier squeezes whitespace around, in order. */
  const JsPunctuation: string := "{};,=+-*/"

  function StripJsComments(js: string): string {
    StripDelimited("/*", "*/", StripLineComments(js))
  }

  /** The JavaScript whitespace stage: never longer, and with plain spaces only. */
  function JsBody(s: string): (r: string)
    ensures |r| <= |s|
    ensures SpacesOnly(r)
  {
    SqueezeAll(JsPunctuation, CollapseWs(s))
  }

  lemma JsPunctuationIsVisible()
    ensures forall i :: 0 <= i < |JsPunctuation| ==> !IsWs(JsPunctuation[i])
  {
  }

  /** The JavaScript whitespace stage is idempotent. */
  lemma JsBodyIdempotent(s: string)
    ensures JsBody(JsBody(s)) == JsBody(s)
  {
    JsPunctuationIsVisible();
    SqueezeBodyIdempotent(JsPunctuation, s);
  }

  function MinifyJs(js: string): (r: string)
    ensures |r| <= |js|
  {
    DropLineBreaks(JsBody(StripJsComments(js)))
  }

  /** Every JavaScript output has only plain spaces, no line break and no
      whitespace beside any of the nine squeezed characters, and keeps every
      visible character that survives comment removal. */
  lemma MinifyJsShape(js: string)
    ensures var r := MinifyJs(js);
      && SpacesOnly(r) && NoLineBreaks(r)
      && (forall i :: 0 <= i < |JsPunctuation| ==> NoWsAround(JsPunctuation[i], r))
      && Visible(r) == Visible(StripJsComments(js))
  {
    JsPunctuationIsVisible();
    var stripped := StripJsComments(js);
    var collapsed := CollapseWs(stripped);
    var body := SqueezeAll(JsPunctuation, collapsed);
    SqueezeAllClears(JsPunctuation, collapsed);
    DropLineBreaksAfterCollapse(body);
    SpacesOnlyHasNoLineBreaks(body);
    CollapseWsKeepsVisible(stripped);
    SqueezeAllKeepsVisible(JsPunctuation, collapsed);
  }
}
