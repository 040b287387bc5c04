/** Concrete inputs on which the minifiers behave in ways a reader of the build
    script might not expect. Each witness is assembled from small steps so that
    no proof has to evaluate a long literal in one go. */
module MinifyExamples {
  import opened Text
  import opened WsRewrite
  import opened LiteralRewrite
  import opened Minify

  // ---------------------------------------------------------------- HTML

  /** The page fragment `<!-- note -->\n<div>  hi  </div>`, in pieces. */
  const NoteBody: string := "\n" + ("<div>" + ("  " + ("hi" + ("  " + "</div>"))))
  const NotePage: string := "<!--" + " note " + "-->" + NoteBody

  lemma NoteBodyHasNoBang()
    ensures '!' !in NoteBody
  {
    assert '!' !in "<div>" && '!' !in "</div>" && '!' !in "hi";
  }

  lemma NoteStripped()
    ensures StripHtmlComments(NotePage) == NoteBody
  {
    var rest := NoteBody;
    CloserNotInside("-->", " note ");
    StripNearest("<!--", "-->", " note ", rest);
    NoteBodyHasNoBang();
    MissingCharMeansNoOccurrence("<!--", rest, 1);
    StripWithoutOpener("<!--", "-->", rest);
  }

  lemma NoteWhitespace()
    ensures HtmlWhitespace(NoteBody) == Spaced("<div>", "hi", "</div>")
  {
    assert TextBetween("<div>", "hi", "</div>");
    assert AllWs("\n") && AllWs("  ");
    HtmlKeepsSpacesBesideText("\n", "<div>", "  ", "hi", "  ", "</div>");
  }

  lemma NoteHasNoReferences()
    ensures NoOccurrence(StylesRef, Spaced("<div>", "hi", "</div>"))
    ensures NoOccurrence(ScriptRef, Spaced("<div>", "hi", "</div>"))
  {
    var x := Spaced("<div>", "hi", "</div>");
    SpacedIndex("<div>", "hi", "</div>");
    assert 's' !in x;
    MissingCharMeansNoOccurrence(StylesRef, x, 0);
    MissingCharMeansNoOccurrence(ScriptRef, x, 0);
  }

  lemma SpacedNoteText()
    ensures Spaced("<div>", "hi", "</div>") == " <div> hi </div>"
  {
  }

  /** The comment goes, but the line break in front of the tag and the runs
      around the text each leave one space: the result is ` <div> hi </div>`,
      not `<div>hi</div>`. */
  lemma HtmlCommentExample()
    ensures MinifyHtml(NotePage) == " <div> hi </div>"
  {
    NoteStripped();
    NoteWhitespace();
    NoteHasNoReferences();
    MinifyHtmlWithoutReferences(NotePage, Spaced("<div>", "hi", "</div>"));
    SpacedNoteText();
  }

  /** A page that names the stylesheet twice, and the page after one pass. */
  const TwoStyles: string := StylesRef + " " + StylesRef
  const OneRewritten: string := StylesMinRef + " " + StylesRef

  /** A word without whitespace or brackets. */
  predicate Word(w: string) {
    forall i :: 0 <= i < |w| ==> !IsWs(w[i]) && w[i] != '<' && w[i] != '>'
  }

  /** Two words joined by one space are already in the shape the HTML stages produce. */
  lemma JoinedWordsShaped(a: string, b: string)
    requires Word(a) && Word(b)
    ensures HtmlShaped(a + " " + b)
  {
    var s := a + " " + b;
    assert forall i :: 0 <= i < |s| && i != |a| ==> !IsWs(s[i]) && s[i] != '<' && s[i] != '>' by {
      forall i | 0 <= i < |s| && i != |a|
        ensures !IsWs(s[i]) && s[i] != '<' && s[i] != '>'
      {
        if i < |a| {
          assert s[i] == a[i];
        } else {
          assert s[i] == b[i - |a| - 1];
        }
      }
    }
    assert s[|a|] == ' ';
  }

  lemma ReferencesAreWords()
    ensures Word(StylesRef) && Word(StylesMinRef)
  {
  }

  lemma TwoStylesShaped()
    ensures HtmlShaped(TwoStyles)
  {
    ReferencesAreWords();
    JoinedWordsShaped(StylesRef, StylesRef);
  }

  lemma OneRewrittenShaped()
    ensures HtmlShaped(OneRewritten)
  {
    ReferencesAreWords();
    JoinedWordsShaped(StylesMinRef, StylesRef);
  }

  /** Text in shape and without a tag opener passes the first stages unchanged. */
  lemma PlainTextFrontEnd(s: string)
    requires HtmlShaped(s) && '<' !in s
    ensures HtmlWhitespace(StripHtmlComments(s)) == s
  {
    MissingCharMeansNoOccurrence("<!--", s, 0);
    StripWithoutOpener("<!--", "-->", s);
    HtmlWhitespaceFixesShaped(s);
  }

  lemma TwoStylesFrontEnd()
    ensures HtmlWhitespace(StripHtmlComments(TwoStyles)) == TwoStyles
  {
    TwoStylesShaped();
    assert '<' !in TwoStyles;
    PlainTextFrontEnd(TwoStyles);
  }

  lemma OneRewrittenFrontEnd()
    ensures HtmlWhitespace(StripHtmlComments(OneRewritten)) == OneRewritten
  {
    OneRewrittenShaped();
    assert '<' !in OneRewritten;
    PlainTextFrontEnd(OneRewritten);
  }

  lemma FirstStylesRewritten()
    ensures RewriteStyles(TwoStyles) == OneRewritten
  {
    assert StylesRef <= TwoStyles;
    assert TwoStyles[|StylesRef|..] == " " + StylesRef;
  }

  lemma NoScriptReference(s: string)
    requires 'p' !in s
    ensures RewriteScript(s) == s
  {
    MissingCharMeansNoOccurrence(ScriptRef, s, 4);
  }

  lemma OneRewrittenHasNoP()
    ensures 'p' !in OneRewritten
  {
  }

  /** Only the first reference is rewritten: the second `styles.css` stays. */
  lemma HtmlRewritesFirstReferenceOnly()
    ensures MinifyHtml(TwoStyles) == OneRewritten
  {
    TwoStylesFrontEnd();
    FirstStylesRewritten();
    OneRewrittenHasNoP();
    NoScriptReference(OneRewritten);
  }

  lemma ReplaceFirstLength(pat: string, rep: string, s: string, k: nat)
    requires |pat| > 0 && OccursAt(pat, s, k)
    ensures |ReplaceFirst(pat, rep, s)| == |s| - |pat| + |rep|
  {
  }

  lemma SecondStylesRewritten()
    ensures |RewriteStyles(OneRewritten)| == |OneRewritten| + 4
  {
    assert OneRewritten[15..25] == StylesRef;
    ReplaceFirstLength(StylesRef, StylesMinRef, OneRewritten, 15);
  }

  lemma GrowsOnSecondPass(s: string)
    requires HtmlWhitespace(StripHtmlComments(s)) == s
    requires |RewriteStyles(s)| == |s| + 4
    ensures |MinifyHtml(s)| >= |s| + 4
  {
    assert MinifyHtml(s) == RewriteScript(RewriteStyles(s));
  }

  /** Minifying the minified page again changes it. */
  lemma HtmlNotIdempotent()
    ensures MinifyHtml(MinifyHtml(TwoStyles)) != MinifyHtml(TwoStyles)
  {
    HtmlRewritesFirstReferenceOnly();
    OneRewrittenFrontEnd();
    SecondStylesRewritten();
    GrowsOnSecondPass(OneRewritten);
  }

  // ---------------------------------------------------------------- CSS

  lemma CssNoComment(s: string)
    requires '*' !in s
    ensures StripDelimited("/*", "*/", s) == s
  {
    MissingCharMeansNoOccurrence("/*", s, 1);
    StripWithoutOpener("/*", "*/", s);
  }

  lemma CssBodyOfSolid(s: string)
    requires NoWs(s)
    ensures CssBody(s) == s
  {
    CssPunctuationIsVisible();
    NoWsBodyFixed(CssPunctuation, s);
  }

  lemma DoubleSemicolonOnce()
    ensures ReplaceAll(";}", "}", "a;;}") == "a;}"
  {
  }

  lemma SingleSemicolonOnce()
    ensures ReplaceAll(";}", "}", "a;}") == "a}"
  {
  }

  lemma NoBreaksIn(s: string)
    requires NoWs(s)
    ensures DropLineBreaks(s) == s
  {
    assert SpacesOnly(s);
    DropLineBreaksAfterCollapse(s);
  }

  /** A style sheet without whitespace or `*` only goes through the `;}` rewrite. */
  lemma MinifySolidCss(css: string, r: string)
    requires '*' !in css && NoWs(css)
    requires ReplaceAll(";}", "}", css) == r && NoWs(r)
    ensures MinifyCss(css) == r
  {
    CssNoComment(css);
    CssBodyOfSolid(css);
    NoBreaksIn(r);
  }

  lemma SemicolonSamplesSolid()
    ensures '*' !in "a;;}" && NoWs("a;;}") && '*' !in "a;}" && NoWs("a;}") && NoWs("a}")
  {
  }

  lemma CssFirstPass()
    ensures MinifyCss("a;;}") == "a;}"
  {
    SemicolonSamplesSolid();
    DoubleSemicolonOnce();
    MinifySolidCss("a;;}", "a;}");
  }

  lemma CssSecondPass()
    ensures MinifyCss("a;}") == "a}"
  {
    SemicolonSamplesSolid();
    SingleSemicolonOnce();
    MinifySolidCss("a;}", "a}");
  }

  /** `;}` is replaced once per match and never rescanned, so a doubled
      semicolon survives one pass and the CSS minifier is not idempotent. */
  lemma CssNotIdempotent()
    ensures MinifyCss("a;;}") == "a;}"
    ensures MinifyCss(MinifyCss("a;;}")) != MinifyCss("a;;}")
  {
    CssFirstPass();
    CssSecondPass();
  }

  // ---------------------------------------------------------------- JavaScript

  lemma SlashSpaceSlashStripped()
    ensures StripJsComments("/ /") == "/ /"
  {
    assert StripLineComments("/ /") == "/ /";
    CssNoComment("/ /");
  }

  lemma SlashSpaceSlashBeforeSlash()
    ensures SqueezeAll(JsPunctuation[..8], "/ /") == "/ /"
  {
    JsPunctuationIsVisible();
    var ps := JsPunctuation[..8];
    assert ps == "{};,=+-*";
    assert forall i :: 0 <= i < |ps| ==> !IsWs(ps[i]) && NoWsAround(ps[i], "/ /");
    SqueezeAllFixesClear(ps, "/ /");
  }

  lemma SlashSqueezed()
    ensures Squeeze('/', "/ /") == "//"
  {
  }

  lemma SqueezeOne(t: string)
    ensures SqueezeAll("/", t) == Squeeze('/', t)
  {
    assert "/"[1..] == [];
  }

  lemma SlashSpaceSlashSqueezed()
    ensures SqueezeAll(JsPunctuation, "/ /") == "//"
  {
    JsPunctuationIsVisible();
    SqueezeAllSplit(JsPunctuation, 8, "/ /");
    SlashSpaceSlashBeforeSlash();
    assert JsPunctuation[8..] == "/";
    SqueezeOne("/ /");
    SlashSqueezed();
  }

  lemma SlashSpaceSlashCollapsed()
    ensures CollapseWs("/ /") == "/ /"
  {
    assert SpacesOnly("/ /") && NoDoubleWs("/ /");
    CollapseWsFixesCollapsed("/ /");
  }

  lemma SlashSpaceSlashBody()
    ensures JsBody("/ /") == "//"
  {
    SlashSpaceSlashCollapsed();
    SlashSpaceSlashSqueezed();
  }

  lemma JsFirstPass()
    ensures MinifyJs("/ /") == "//"
  {
    SlashSpaceSlashStripped();
    SlashSpaceSlashBody();
    DropLineBreaksAfterCollapse("//");
  }

  lemma JsSecondPass()
    ensures MinifyJs("//") == ""
  {
    assert StripLineComments("//") == "";
  }

  /** Squeezing `/` can join two slashes into a line comment that the next
      run removes, so the JavaScript minifier is not idempotent either. */
  lemma JsNotIdempotent()
    ensures MinifyJs("/ /") == "//"
    ensures MinifyJs(MinifyJs("/ /")) != MinifyJs("/ /")
  {
    JsFirstPass();
    JsSecondPass();
  }

  lemma UrlStripped()
    ensures StripJsComments("a='http://x';") == "a='http:"
  {
    assert "a='http://x';" == "a='http:" + "//" + "x';";
    LineCommentCutsLine("a='http:", "x';");
    CssNoComment("a='http:");
  }

  lemma UrlBody()
    ensures JsBody("a='http:") == "a='http:"
  {
    JsPunctuationIsVisible();
    NoWsBodyFixed(JsPunctuation, "a='http:");
  }

  /** A `//` inside a string literal is taken for a comment: the literal and the
      rest of its line are cut. */
  lemma JsCutsStringAtDoubleSlash()
    ensures MinifyJs("a='http://x';") == "a='http:"
  {
    UrlStripped();
    UrlBody();
    DropLineBreaksAfterCollapse("a='http:");
  }

  /** The margin string the fade-in observer is configured with. */
  const RootMargin: string := "'0px 0px -50px 0px'"

  lemma MinusHasNoSpaceBefore(js: string)
    ensures NoWsBefore('-', MinifyJs(js))
  {
    MinifyJsShape(js);
    assert JsPunctuation[6] == '-';
  }

  lemma MarginNeedsSpaceBeforeMinus(r: string)
    requires NoWsBefore('-', r)
    ensures NoOccurrence(RootMargin, r)
  {
    forall j | 0 <= j <= |r|
      ensures !OccursAt(RootMargin, r, j)
    {
      if j + |RootMargin| <= |r| {
        assert r[j..j + |RootMargin|][8] == r[j + 8];
        assert r[j..j + |RootMargin|][9] == r[j + 9];
      }
    }
  }

  /** No minified script contains the observer's margin string: the space in
      front of its minus sign is always squeezed out. */
  lemma RootMarginNeverSurvives(js: string)
    ensures NoOccurrence(RootMargin, MinifyJs(js))
  {
    MinusHasNoSpaceBefore(js);
    MarginNeedsSpaceBeforeMinus(MinifyJs(js));
  }
}
