/** The literal rewrites of the minifiers: comment removal with a lazy
    `open[\s\S]*?close` pattern, line-comment removal, and literal replacement
    of the first or of every occurrence of a string. */
module LiteralRewrite {
  import opened Opt
  import opened Text

  predicate NoOccurrence(pat: string, s: string) {
    forall j | 0 <= j <= |s| :: !OccursAt(pat, s, j)
  }

  lemma NoOccurrenceTail(pat: string, s: string)
    requires |s| > 0 && NoOccurrence(pat, s)
    ensures NoOccurrence(pat, s[1..])
  {
    forall j
      ensures !OccursAt(pat, s[1..], j)
    {
      if 0 <= j {
        OccursAtTail(pat, s, j);
      }
    }
  }

  lemma NoOccurrenceSuffix(pat: string, s: string, k: nat)
    requires k <= |s| && NoOccurrence(pat, s)
    ensures NoOccurrence(pat, s[k..])
  {
    forall j | OccursAt(pat, s[k..], j)
      ensures false
    {
      assert s[k..][j..j + |pat|] == s[k + j..k + j + |pat|];
      assert OccursAt(pat, s, k + j);
    }
  }

  /** A pattern with a character the text lacks occurs nowhere in it. */
  lemma MissingCharMeansNoOccurrence(pat: string, s: string, i: nat)
    requires i < |pat| && pat[i] !in s
    ensures NoOccurrence(pat, s)
  {
  }

  // `s.replace(/open[\s\S]*?close/g, '')`: each `open` is removed together with
  // everything up to and including the nearest `close` after it.
  function StripDelimited(open: string, close: string, s: string): (r: string)
    requires |open| > 0 && |close| > 0
    ensures |r| <= |s|
    decreases |s|
  {
    if s == [] then []
    else if open <= s then
      match IndexOf(close, s[|open|..])
      case Some(k) => StripDelimited(open, close, s[|open| + k + |close|..])
      case None => [s[0]] + StripDelimited(open, close, s[1..])
    else [s[0]] + StripDelimited(open, close, s[1..])
  }

  /** Without an opener nothing is removed. */
  lemma {:induction false} StripWithoutOpener(open: string, close: string, s: string)
    requires |open| > 0 && |close| > 0
    requires NoOccurrence(open, s)
    ensures StripDelimited(open, close, s) == s
    decreases |s|
  {
    if s != [] {
      assert !(open <= s) by {
        if |open| <= |s| {
          assert !OccursAt(open, s, 0);
          assert s[0..|open|] == s[..|open|];
        }
      }
      NoOccurrenceTail(open, s);
      StripWithoutOpener(open, close, s[1..]);
    }
  }

  /** Without a closer nothing is removed: an unterminated opener is kept. */
  lemma {:induction false} StripWithoutCloser(open: string, close: string, s: string)
    requires |open| > 0 && |close| > 0
    requires NoOccurrence(close, s)
    ensures StripDelimited(open, close, s) == s
    decreases |s|
  {
    if s != [] {
      if open <= s {
        NoOccurrenceSuffix(close, s, |open|);
        assert IndexOf(close, s[|open|..]).None?;
      }
      NoOccurrenceTail(close, s);
      StripWithoutCloser(open, close, s[1..]);
    }
  }

  /** The match is lazy: an opener is removed through the nearest closer after it,
      and scanning resumes right after that closer. */
  lemma StripNearest(open: string, close: string, mid: string, rest: string)
    requires |open| > 0 && |close| > 0
    requires forall j :: 0 <= j < |mid| ==> !OccursAt(close, mid + close, j)
    ensures StripDelimited(open, close, open + mid + close + rest) == StripDelimited(open, close, rest)
  {
    var s := open + mid + close + rest;
    assert open <= s;
    var t := s[|open|..];
    assert t == mid + close + rest;
    assert OccursAt(close, t, |mid|) by {
      assert t[|mid|..|mid| + |close|] == close;
    }
    forall j | 0 <= j < |mid|
      ensures !OccursAt(close, t, j)
    {
      assert !OccursAt(close, mid + close, j);
      if j + |close| <= |t| {
        assert t[j..j + |close|] == (mid + close)[j..j + |close|];
      }
    }
    var found := IndexOf(close, t);
    assert found == Some(|mid|);
    assert s[|open| + |mid| + |close|..] == rest;
  }

  /** A closer cannot start inside a stretch that lacks its first character. */
  lemma CloserNotInside(close: string, mid: string)
    requires |close| > 0 && close[0] !in mid
    ensures forall j :: 0 <= j < |mid| ==> !OccursAt(close, mid + close, j)
  {
  }

  /** `//` starts at the front of `s`. */
  predicate LineCommentAt(s: string) {
    |s| > 1 && s[0] == '/' && s[1] == '/'
  }

  /** The number of characters `.*` matches at the front of `s`: everything up to
      the first line terminator. */
  function LineRest(s: string): (n: nat)
    ensures n <= |s|
    ensures forall i :: 0 <= i < n ==> !IsLineTerminator(s[i])
    ensures n < |s| ==> IsLineTerminator(s[n])
    decreases |s|
  {
    if s == [] || IsLineTerminator(s[0]) then 0 else 1 + LineRest(s[1..])
  }

  // `s.replace(/\/\/.*$/gm, '')`: from every `//` to the end of its line, with no
  // notion of string, regular-expression or comment context.
  function StripLineComments(s: string): (r: string)
    ensures |r| <= |s|
    ensures |r| > 0 ==> (!LineCommentAt(s) && r[0] == s[0]) || IsLineTerminator(r[0])
    decreases |s|
  {
    if s == [] then []
    else if LineCommentAt(s) then StripLineComments(s[2 + LineRest(s[2..])..])
    else [s[0]] + StripLineComments(s[1..])
  }

  /** The line terminators of a string, in order. */
  function Terminators(s: string): string {
    if s == [] then [] else (if IsLineTerminator(s[0]) then [s[0]] else []) + Terminators(s[1..])
  }

  lemma {:induction false} TerminatorsConcat(a: string, b: string)
    ensures Terminators(a + b) == Terminators(a) + Terminators(b)
  {
    if a == [] {
      assert a + b == b;
    } else {
      assert (a + b)[1..] == a[1..] + b;
      TerminatorsConcat(a[1..], b);
    }
  }

  lemma {:induction false} TerminatorsOfLine(s: string, n: nat)
    requires n <= |s| && forall i :: 0 <= i < n ==> !IsLineTerminator(s[i])
    ensures Terminators(s[..n]) == []
  {
    if n > 0 {
      assert s[..n][1..] == s[1..][..n - 1];
      TerminatorsOfLine(s[1..], n - 1);
    }
  }

  /** The text a line comment occupies holds no line terminator. */
  lemma DroppedCommentHasNoTerminators(s: string)
    requires LineCommentAt(s)
    ensures Terminators(s[2 + LineRest(s[2..])..]) == Terminators(s)
  {
    var t := s[2..];
    var n := LineRest(t);
    assert s[2 + n..] == t[n..];
    assert s == s[..2] + (t[..n] + t[n..]);
    TerminatorsConcat(s[..2], t[..n] + t[n..]);
    TerminatorsConcat(t[..n], t[n..]);
    TerminatorsOfLine(t, n);
    assert Terminators(s[..2]) == [] by {
      assert s[..2][1..] == [s[1]];
      assert [s[1]][1..] == [];
    }
  }

  /** Removing line comments never joins two lines: every line terminator is kept. */
  lemma {:induction false} StripLineCommentsKeepsLines(s: string)
    ensures Terminators(StripLineComments(s)) == Terminators(s)
    decreases |s|
  {
    if s == [] {
    } else if LineCommentAt(s) {
      var rest := s[2 + LineRest(s[2..])..];
      StripLineCommentsKeepsLines(rest);
      DroppedCommentHasNoTerminators(s);
    } else {
      StripLineCommentsKeepsLines(s[1..]);
      KeptCharKeepsLines(s);
    }
  }

  lemma KeptCharKeepsLines(s: string)
    requires s != [] && !LineCommentAt(s)
    requires Terminators(StripLineComments(s[1..])) == Terminators(s[1..])
    ensures Terminators(StripLineComments(s)) == Terminators(s)
  {
    var r := StripLineComments(s[1..]);
    assert StripLineComments(s) == [s[0]] + r;
    assert ([s[0]] + r)[1..] == r;
  }

  /** No `//` survives the line-comment pass. */
  lemma {:induction false} StripLineCommentsLeavesNoOpener(s: string)
    ensures NoOccurrence("//", StripLineComments(s))
    decreases |s|
  {
    var r := StripLineComments(s);
    if s == [] {
    } else if LineCommentAt(s) {
      StripLineCommentsLeavesNoOpener(s[2 + LineRest(s[2..])..]);
    } else {
      var r' := StripLineComments(s[1..]);
      StripLineCommentsLeavesNoOpener(s[1..]);
      assert r == [s[0]] + r';
      forall j
        ensures !OccursAt("//", r, j)
      {
        if j > 0 {
          OccursAtTail("//", r, j - 1);
          assert r[1..] == r';
        }
      }
    }
  }

  lemma {:induction false} LineRestWhole(c: string)
    requires forall i :: 0 <= i < |c| ==> !IsLineTerminator(c[i])
    ensures LineRest(c) == |c|
  {
    if c != [] {
      LineRestWhole(c[1..]);
    }
  }

  /** A `//` cuts the rest of its line, whatever precedes it on the line: the
      pass knows nothing of string literals. */
  lemma {:induction false} LineCommentCutsLine(p: string, c: string)
    requires '/' !in p
    requires forall i :: 0 <= i < |c| ==> !IsLineTerminator(c[i])
    ensures StripLineComments(p + "//" + c) == p
  {
    var s := p + "//" + c;
    if p == [] {
      assert s == "//" + c;
      assert s[2..] == c;
      LineRestWhole(c);
      assert s[2 + |c|..] == [];
    } else {
      assert s[1..] == p[1..] + "//" + c;
      LineCommentCutsLine(p[1..], c);
    }
  }

  /** Without a slash there is no line comment to remove. */
  lemma {:induction false} StripLineCommentsWithoutSlash(s: string)
    requires '/' !in s
    ensures StripLineComments(s) == s
  {
    if s != [] {
      StripLineCommentsWithoutSlash(s[1..]);
    }
  }

  lemma IndexOfHead(pat: string, s: string)
    requires |pat| > 0 && pat <= s
    ensures IndexOf(pat, s) == Some(0)
  {
  }

  /** Without a match at the front, the search goes on one character further. */
  lemma IndexOfStep(pat: string, s: string)
    requires |pat| > 0 && s != [] && !(pat <= s)
    ensures IndexOf(pat, s).None? <==> IndexOf(pat, s[1..]).None?
    ensures IndexOf(pat, s).Some? ==> IndexOf(pat, s).value == IndexOf(pat, s[1..]).value + 1
  {
  }

  /** `r` is `s` with its first occurrence of `pat`, if any, replaced by `rep`. */
  predicate FirstReplaced(pat: string, rep: string, s: string, r: string)
    requires |pat| > 0
  {
    match IndexOf(pat, s)
    case None => r == s
    case Some(k) => r == s[..k] + rep + s[k + |pat|..]
  }

  /** A character before the first occurrence is kept in front of the rest. */
  lemma FirstReplacedStep(pat: string, rep: string, s: string, rest: string)
    requires |pat| > 0 && s != [] && !(pat <= s)
    requires FirstReplaced(pat, rep, s[1..], rest)
    ensures FirstReplaced(pat, rep, s, [s[0]] + rest)
  {
    IndexOfStep(pat, s);
    if IndexOf(pat, s[1..]).None? {
      assert [s[0]] + s[1..] == s;
    } else {
      SpliceStep(s, IndexOf(pat, s[1..]).value, |pat|, rep);
    }
  }

  lemma SpliceStep(s: string, k: nat, m: nat, rep: string)
    requires s != [] && k + m <= |s| - 1
    ensures [s[0]] + (s[1..][..k] + rep + s[1..][k + m..]) == s[..k + 1] + rep + s[k + 1 + m..]
  {
    assert s[..k + 1] == [s[0]] + s[1..][..k];
    assert s[k + 1 + m..] == s[1..][k + m..];
  }

  /** Literal search-and-replace of the first occurrence: `s.replace('pat', rep)`. */
  function ReplaceFirst(pat: string, rep: string, s: string): (r: string)
    requires |pat| > 0
    ensures FirstReplaced(pat, rep, s, r)
    ensures |r| == |s| || |r| == |s| - |pat| + |rep|
    decreases |s|
  {
    if s == [] then []
    else if pat <= s then
      IndexOfHead(pat, s);
      assert s[..0] + rep + s[|pat|..] == rep + s[|pat|..];
      rep + s[|pat|..]
    else
      var rest := ReplaceFirst(pat, rep, s[1..]);
      FirstReplacedStep(pat, rep, s, rest);
      [s[0]] + rest
  }

  /** Without an occurrence there is nothing to replace. */
  lemma ReplaceFirstWithout(pat: string, rep: string, s: string)
    requires |pat| > 0 && NoOccurrence(pat, s)
    ensures ReplaceFirst(pat, rep, s) == s
  {
  }

  /** Global literal replacement, `s.replace(/pat/g, rep)` for a pattern without
      metacharacters: matches are taken left to right without overlapping, and
      the text produced by a replacement is never scanned again. */
  function ReplaceAll(pat: string, rep: string, s: string): (r: string)
    requires |pat| > 0
    ensures |rep| <= |pat| ==> |r| <= |s|
    ensures SpacesOnly(s) && SpacesOnly(rep) ==> SpacesOnly(r)
    ensures |s| > 0 && |rep| > 0 ==> |r| > 0 && r[0] == (if pat <= s then rep[0] else s[0])
    ensures NoOccurrence(pat, s) ==> r == s
    decreases |s|
  {
    if s == [] then []
    else if pat <= s then
      var rest := ReplaceAll(pat, rep, s[|pat|..]);
      SuffixSpacesOnly(s, |pat|);
      ConcatSpacesOnly(rep, rest);
      assert OccursAt(pat, s, 0) by {
        assert s[0..|pat|] == pat;
      }
      rep + rest
    else
      var rest := ReplaceAll(pat, rep, s[1..]);
      SuffixSpacesOnly(s, 1);
      ConsSpacesOnly(s[0], rest);
      assert NoOccurrence(pat, s) ==> NoOccurrence(pat, s[1..]) by {
        if NoOccurrence(pat, s) {
          NoOccurrenceTail(pat, s);
        }
      }
      [s[0]] + rest
  }

  /** Every character of the replacement is neither whitespace nor a tag bracket. */
  predicate PlainText(rep: string) {
    forall i :: 0 <= i < |rep| ==> !IsWs(rep[i]) && rep[i] != '<' && rep[i] != '>'
  }

  /** Where the characters of `s[..k] + rep + s[k + m..]` come from. */
  lemma SpliceIndex(s: string, k: nat, m: nat, rep: string)
    requires k + m <= |s|
    ensures var t := s[..k] + rep + s[k + m..];
      && |t| == |s| + |rep| - m
      && (forall i :: 0 <= i < k ==> t[i] == s[i])
      && (forall i :: k <= i < k + |rep| ==> t[i] == rep[i - k])
      && (forall i :: k + |rep| <= i < |t| ==> t[i] == s[i - |rep| + m])
  {
  }

  // Splicing plain text into a string keeps each of the HTML shape properties:
  // every window that touches the new text contains a character that breaks
  // the offending pattern.

  lemma SpliceSpacesOnly(s: string, k: nat, m: nat, rep: string)
    requires k + m <= |s| && PlainText(rep) && SpacesOnly(s)
    ensures SpacesOnly(s[..k] + rep + s[k + m..])
  {
    SpliceIndex(s, k, m, rep);
  }

  lemma SpliceNoDoubleWs(s: string, k: nat, m: nat, rep: string)
    requires k + m <= |s| && |rep| > 0 && PlainText(rep) && NoDoubleWs(s)
    ensures NoDoubleWs(s[..k] + rep + s[k + m..])
  {
    SpliceIndex(s, k, m, rep);
  }

  lemma SpliceNoWsBefore(s: string, k: nat, m: nat, rep: string)
    requires k + m <= |s| && |rep| > 0 && PlainText(rep) && NoWsBefore('>', s)
    ensures NoWsBefore('>', s[..k] + rep + s[k + m..])
  {
    SpliceIndex(s, k, m, rep);
  }

  lemma SpliceNoWsAfter(s: string, k: nat, m: nat, rep: string)
    requires k + m <= |s| && |rep| > 0 && PlainText(rep) && NoWsAfter('<', s)
    ensures NoWsAfter('<', s[..k] + rep + s[k + m..])
  {
    SpliceIndex(s, k, m, rep);
  }

  lemma SpliceNoGap(s: string, k: nat, m: nat, rep: string)
    requires k + m <= |s| && |rep| > 0 && PlainText(rep) && NoGap('>', '<', s)
    ensures NoGap('>', '<', s[..k] + rep + s[k + m..])
  {
    SpliceIndex(s, k, m, rep);
  }
}
