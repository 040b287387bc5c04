/** The whitespace rewrites of the minifiers, each one `s.replace(/re/g, rep)`
    written out by hand: the scan goes left to right, takes the match the
    regular expression finds at the current position, replaces it, and resumes
    after it without looking at the replacement again. */
module WsRewrite {
  import opened Text

  // `s.replace(/\s+/g, ' ')`: every whitespace run becomes one space.
  function CollapseWs(s: string): (r: string)
    ensures |r| <= |s|
    ensures |s| > 0 ==> |r| > 0 && (IsWs(r[0]) <==> IsWs(s[0]))
    ensures SpacesOnly(r)
    ensures NoDoubleWs(r)
    decreases |s|
  {
    if s == [] then []
    else if IsWs(s[0]) then
      var rest := CollapseWs(s[WsRun(s)..]);
      ConsNoDoubleWs(' ', rest);
      [' '] + rest
    else
      var rest := CollapseWs(s[1..]);
      ConsNoDoubleWs(s[0], rest);
      [s[0]] + rest
  }

  /** Collapsing works piecewise: a visible character is kept and the scan goes on after it. */
  lemma CollapseWsCons(c: char, s: string)
    requires !IsWs(c)
    ensures CollapseWs([c] + s) == [c] + CollapseWs(s)
  {
    assert ([c] + s)[1..] == s;
  }

  /** A stretch without whitespace is kept as it is. */
  lemma {:induction false} CollapseWsWord(t: string, s: string)
    requires forall i :: 0 <= i < |t| ==> !IsWs(t[i])
    ensures CollapseWs(t + s) == t + CollapseWs(s)
  {
    if t == [] {
      assert t + s == s;
    } else {
      var u := t[1..] + s;
      assert t + s == [t[0]] + u;
      CollapseWsCons(t[0], u);
      CollapseWsWord(t[1..], s);
      var w := CollapseWs(s);
      assert [t[0]] + (t[1..] + w) == t + w;
    }
  }

  /** A whole whitespace run followed by a visible character becomes one space. */
  lemma CollapseWsRun(w: string, s: string)
    requires |w| > 0 && AllWs(w)
    requires s == [] || !IsWs(s[0])
    ensures CollapseWs(w + s) == [' '] + CollapseWs(s)
  {
    WsRunOfRun(w, s);
    assert (w + s)[|w|..] == s;
  }

  lemma {:induction false} WsRunOfRun(w: string, s: string)
    requires AllWs(w)
    requires s == [] || !IsWs(s[0])
    ensures WsRun(w + s) == |w|
  {
    if w == [] {
      assert w + s == s;
    } else {
      assert (w + s)[1..] == w[1..] + s;
      WsRunOfRun(w[1..], s);
    }
  }

  lemma {:induction false} CollapseWsKeepsVisible(s: string)
    ensures Visible(CollapseWs(s)) == Visible(s)
    decreases |s|
  {
    if s == [] {
    } else if IsWs(s[0]) {
      var n := WsRun(s);
      VisibleDropWs(s, n);
      CollapseWsKeepsVisible(s[n..]);
      VisibleConcat([' '], CollapseWs(s[n..]));
    } else {
      CollapseWsKeepsVisible(s[1..]);
      VisibleConcat([s[0]], CollapseWs(s[1..]));
    }
  }

  /** A string whose whitespace is already single spaces is left as it is. */
  lemma {:induction false} CollapseWsFixesCollapsed(s: string)
    requires SpacesOnly(s) && NoDoubleWs(s)
    ensures CollapseWs(s) == s
    decreases |s|
  {
    if s != [] {
      if IsWs(s[0]) {
        assert WsRun(s) == 1 by {
          if |s| > 1 {
            assert !IsWs(s[1]);
          }
          assert WsRun(s) == 1 + WsRun(s[1..]);
        }
      }
      SuffixKeepsShapes(s, 1);
      CollapseWsFixesCollapsed(s[1..]);
    }
  }

  // `\s*p\s*` matches at the front of `s`.
  predicate SqueezeHit(p: char, s: string) {
    WsRun(s) < |s| && s[WsRun(s)] == p
  }

  /** A run of whitespace in front does not change whether the squeeze pattern is found after it. */
  lemma SqueezeHitAfterWs(p: char, s: string)
    requires |s| > 0 && IsWs(s[0])
    ensures SqueezeHit(p, s) <==> SqueezeHit(p, s[1..])
  {
    assert WsRun(s) == 1 + WsRun(s[1..]);
  }

  /** Where the squeeze resumes after a hit at the front of `s`: past the
      leading run, the character, and the run after it. */
  function HitEnd(s: string): (k: nat)
    requires WsRun(s) < |s|
    ensures WsRun(s) < k <= |s|
    ensures k < |s| ==> !IsWs(s[k])
  {
    var n := WsRun(s);
    var m := WsRun(s[n + 1..]);
    assert n + 1 + m < |s| ==> s[n + 1 + m] == s[n + 1..][m];
    n + 1 + m
  }

  // `s.replace(/\s*p\s*/g, p)`: the whitespace on both sides of every `p` is dropped.
  function Squeeze(p: char, s: string): (r: string)
    requires !IsWs(p)
    ensures |r| <= |s|
    ensures |s| > 0 ==> |r| > 0 && r[0] == (if SqueezeHit(p, s) then p else s[0])
    ensures SpacesOnly(s) ==> SpacesOnly(r)
    decreases |s|
  {
    if s == [] then []
    else if SqueezeHit(p, s) then
      var k := HitEnd(s);
      var rest := Squeeze(p, s[k..]);
      SuffixSpacesOnly(s, k);
      ConsSpacesOnly(p, rest);
      [p] + rest
    else
      var rest := Squeeze(p, s[1..]);
      SuffixSpacesOnly(s, 1);
      ConsSpacesOnly(s[0], rest);
      [s[0]] + rest
  }

  /** The suffix the squeeze resumes on after a hit. */
  lemma SqueezeResume(p: char, s: string)
    requires !IsWs(p) && |s| > 0 && SqueezeHit(p, s)
    ensures Squeeze(p, s) == [p] + Squeeze(p, s[HitEnd(s)..])
  {
  }

  /** After the squeeze for `p`, no whitespace stands next to any `p`. */
  lemma {:induction false} SqueezeClearsAround(p: char, s: string)
    requires !IsWs(p)
    ensures NoWsAround(p, Squeeze(p, s))
    decreases |s|
  {
    if s != [] {
      if SqueezeHit(p, s) {
        var k := HitEnd(s);
        SqueezeResume(p, s);
        SqueezeClearsAround(p, s[k..]);
        var rest := Squeeze(p, s[k..]);
        ConsNoWsBefore(p, p, rest);
        ConsNoWsAfter(p, p, rest);
      } else {
        SqueezeClearsAround(p, s[1..]);
        var rest := Squeeze(p, s[1..]);
        if IsWs(s[0]) {
          SqueezeHitAfterWs(p, s);
        }
        ConsNoWsBefore(p, s[0], rest);
        ConsNoWsAfter(p, s[0], rest);
      }
    }
  }

  /** What a hit of the squeeze removes is whitespace only. */
  lemma VisibleOfHit(p: char, s: string)
    requires !IsWs(p) && SqueezeHit(p, s)
    ensures Visible(s) == [p] + Visible(s[HitEnd(s)..])
  {
    var n := WsRun(s);
    var t := s[n + 1..];
    var m := WsRun(t);
    VisibleSkipRun(s);
    var u := s[n..];
    assert u[0] == p && u[1..] == t;
    VisibleSkipRun(t);
    assert t[m..] == s[HitEnd(s)..];
  }

  /** A leading whitespace run is invisible. */
  lemma VisibleSkipRun(s: string)
    ensures Visible(s) == Visible(s[WsRun(s)..])
  {
    var n := WsRun(s);
    assert AllWs(s[..n]) by {
      assert forall i :: 0 <= i < n ==> s[..n][i] == s[i];
    }
    VisibleDropWs(s, n);
  }

  lemma {:induction false} SqueezeKeepsVisible(p: char, s: string)
    requires !IsWs(p)
    ensures Visible(Squeeze(p, s)) == Visible(s)
    decreases |s|
  {
    if s == [] {
    } else if SqueezeHit(p, s) {
      var k := HitEnd(s);
      SqueezeResume(p, s);
      VisibleOfHit(p, s);
      SqueezeKeepsVisible(p, s[k..]);
      VisibleConcat([p], Squeeze(p, s[k..]));
    } else {
      SqueezeKeepsVisible(p, s[1..]);
      VisibleConcat([s[0]], Squeeze(p, s[1..]));
      assert s == [s[0]] + s[1..];
      VisibleConcat([s[0]], s[1..]);
    }
  }


  /** Squeezing around `p` never puts whitespace next to another character `q`. */
  lemma {:induction false} SqueezeKeepsNoWsAround(p: char, q: char, s: string)
    requires !IsWs(p) && !IsWs(q)
    requires NoWsAround(q, s)
    ensures NoWsAround(q, Squeeze(p, s))
    decreases |s|
  {
    if p == q {
      SqueezeClearsAround(p, s);
    } else if s != [] {
      if SqueezeHit(p, s) {
        var k := HitEnd(s);
        SqueezeResume(p, s);
        SuffixKeepsShapes(s, k);
        SqueezeKeepsNoWsAround(p, q, s[k..]);
        var rest := Squeeze(p, s[k..]);
        ConsNoWsBefore(q, p, rest);
        ConsNoWsAfter(q, p, rest);
      } else {
        SuffixKeepsShapes(s, 1);
        SqueezeKeepsNoWsAround(p, q, s[1..]);
        var rest := Squeeze(p, s[1..]);
        ConsNoWsBefore(q, s[0], rest);
        ConsNoWsAfter(q, s[0], rest);
      }
    }
  }

  /** A string with no whitespace beside any `p` is left as it is. */
  lemma {:induction false} SqueezeFixesClear(p: char, s: string)
    requires !IsWs(p) && NoWsAround(p, s)
    ensures Squeeze(p, s) == s
    decreases |s|
  {
    if s != [] {
      var n := WsRun(s);
      if 0 < n < |s| {
        assert IsWs(s[n - 1]);
      }
      if |s| > 1 {
        assert s[1..][0] == s[1];
      }
      if SqueezeHit(p, s) {
        assert n == 0 && s[0] == p;
        assert HitEnd(s) == 1;
        SqueezeResume(p, s);
      }
      SuffixNoWsBefore(p, s, 1);
      SuffixNoWsAfter(p, s, 1);
      SqueezeFixesClear(p, s[1..]);
      assert s == [s[0]] + s[1..];
    }
  }

  /** Squeezing never creates two adjacent whitespace characters. */
  lemma {:induction false} SqueezeKeepsNoDoubleWs(p: char, s: string)
    requires !IsWs(p) && NoDoubleWs(s)
    ensures NoDoubleWs(Squeeze(p, s))
    decreases |s|
  {
    if s != [] {
      if SqueezeHit(p, s) {
        var k := HitEnd(s);
        SqueezeResume(p, s);
        SuffixKeepsShapes(s, k);
        SqueezeKeepsNoDoubleWs(p, s[k..]);
        ConsNoDoubleWs(p, Squeeze(p, s[k..]));
      } else {
        SuffixKeepsShapes(s, 1);
        SqueezeKeepsNoDoubleWs(p, s[1..]);
        var rest := Squeeze(p, s[1..]);
        if |rest| > 0 && IsWs(rest[0]) {
          assert rest[0] == s[1];
        }
        ConsNoDoubleWs(s[0], rest);
      }
    }
  }

  // `\s+p` matches at the front of `s`.
  predicate WsThen(p: char, s: string) {
    0 < WsRun(s) < |s| && s[WsRun(s)] == p
  }

  lemma WsThenAfterWs(p: char, s: string)
    requires |s| > 0 && IsWs(s[0]) && !IsWs(p)
    ensures WsThen(p, s) <==> (WsThen(p, s[1..]) || (|s| > 1 && s[1] == p))
  {
    assert WsRun(s) == 1 + WsRun(s[1..]);
  }

  // `s.replace(/\s+p/g, p)`: whitespace in front of every `p` is dropped.
  function DropWsBefore(p: char, s: string): (r: string)
    requires !IsWs(p)
    ensures |r| <= |s|
    ensures |s| > 0 ==> |r| > 0 && r[0] == (if WsThen(p, s) then p else s[0])
    ensures SpacesOnly(s) ==> SpacesOnly(r)
    decreases |s|
  {
    if s == [] then []
    else if WsThen(p, s) then
      var rest := DropWsBefore(p, s[WsRun(s) + 1..]);
      SuffixSpacesOnly(s, WsRun(s) + 1);
      ConsSpacesOnly(p, rest);
      [p] + rest
    else
      var rest := DropWsBefore(p, s[1..]);
      SuffixSpacesOnly(s, 1);
      ConsSpacesOnly(s[0], rest);
      [s[0]] + rest
  }

  /** After dropping whitespace before `p`, no whitespace precedes any `p`. */
  lemma {:induction false} DropWsBeforeClears(p: char, s: string)
    requires !IsWs(p)
    ensures NoWsBefore(p, DropWsBefore(p, s))
    decreases |s|
  {
    if s != [] {
      if WsThen(p, s) {
        DropWsBeforeClears(p, s[WsRun(s) + 1..]);
        ConsNoWsBefore(p, p, DropWsBefore(p, s[WsRun(s) + 1..]));
      } else {
        DropWsBeforeClears(p, s[1..]);
        if IsWs(s[0]) {
          WsThenAfterWs(p, s);
        }
        ConsNoWsBefore(p, s[0], DropWsBefore(p, s[1..]));
      }
    }
  }

  lemma {:induction false} DropWsBeforeKeepsVisible(p: char, s: string)
    requires !IsWs(p)
    ensures Visible(DropWsBefore(p, s)) == Visible(s)
    decreases |s|
  {
    if s == [] {
    } else if WsThen(p, s) {
      var n := WsRun(s);
      VisibleDropWs(s, n);
      assert s[n..] == [p] + s[n + 1..];
      VisibleConcat([p], s[n + 1..]);
      DropWsBeforeKeepsVisible(p, s[n + 1..]);
      VisibleConcat([p], DropWsBefore(p, s[n + 1..]));
    } else {
      DropWsBeforeKeepsVisible(p, s[1..]);
      VisibleConcat([s[0]], DropWsBefore(p, s[1..]));
      assert s == [s[0]] + s[1..];
      VisibleConcat([s[0]], s[1..]);
    }
  }

  /** When the output starts with whitespace, the input started with that same
      character, kept it, and its second output character is the input's second. */
  lemma DropWsBeforeWsHead(p: char, s: string)
    requires !IsWs(p) && |s| > 0
    requires IsWs(DropWsBefore(p, s)[0])
    ensures IsWs(s[0]) && !WsThen(p, s)
    ensures DropWsBefore(p, s) == [s[0]] + DropWsBefore(p, s[1..])
    ensures |s| > 1 ==> DropWsBefore(p, s)[1] == s[1]
  {
    if |s| > 1 {
      WsThenAfterWs(p, s);
    }
  }

  lemma {:induction false} DropWsBeforeKeepsNoDoubleWs(p: char, s: string)
    requires !IsWs(p) && NoDoubleWs(s)
    ensures NoDoubleWs(DropWsBefore(p, s))
    decreases |s|
  {
    if s != [] {
      if WsThen(p, s) {
        var k := WsRun(s) + 1;
        SuffixKeepsShapes(s, k);
        DropWsBeforeKeepsNoDoubleWs(p, s[k..]);
        ConsNoDoubleWs(p, DropWsBefore(p, s[k..]));
      } else {
        SuffixKeepsShapes(s, 1);
        DropWsBeforeKeepsNoDoubleWs(p, s[1..]);
        var rest := DropWsBefore(p, s[1..]);
        if |rest| > 0 && IsWs(rest[0]) {
          DropWsBeforeWsHead(p, s[1..]);
        }
        ConsNoDoubleWs(s[0], rest);
      }
    }
  }

  lemma {:induction false} DropWsBeforeKeepsNoGap(p: char, a: char, b: char, s: string)
    requires !IsWs(p) && NoGap(a, b, s)
    ensures NoGap(a, b, DropWsBefore(p, s))
    decreases |s|
  {
    if s != [] {
      var k := if WsThen(p, s) then WsRun(s) + 1 else 1;
      var c := if WsThen(p, s) then p else s[0];
      SuffixKeepsShapes(s, k);
      DropWsBeforeKeepsNoGap(p, a, b, s[k..]);
      var rest := DropWsBefore(p, s[k..]);
      assert DropWsBefore(p, s) == [c] + rest;
      assert s[k - 1] == c;
      if c == a && |rest| > 1 && IsWs(rest[0]) {
        DropWsBeforeWsHead(p, s[k..]);
        assert s[k..][0] == s[k] && s[k..][1] == s[k + 1];
      }
      ConsNoGap(a, b, c, rest);
    }
  }

  // `s.replace(/p\s+/g, p)`: whitespace after every `p` is dropped.
  function DropWsAfter(p: char, s: string): (r: string)
    ensures |r| <= |s|
    ensures |s| > 0 ==> |r| > 0 && r[0] == s[0]
    ensures SpacesOnly(s) ==> SpacesOnly(r)
    decreases |s|
  {
    if s == [] then []
    else if |s| > 1 && s[0] == p && IsWs(s[1]) then
      var k := 1 + WsRun(s[1..]);
      var rest := DropWsAfter(p, s[k..]);
      SuffixSpacesOnly(s, k);
      ConsSpacesOnly(p, rest);
      [p] + rest
    else
      var rest := DropWsAfter(p, s[1..]);
      SuffixSpacesOnly(s, 1);
      ConsSpacesOnly(s[0], rest);
      [s[0]] + rest
  }

  /** The suffix the rewrite resumes on after a hit starts with a non-whitespace character. */
  lemma DropWsAfterResume(s: string)
    requires |s| > 1
    ensures var k := 1 + WsRun(s[1..]); k <= |s| && (k < |s| ==> !IsWs(s[k]))
  {
  }

  /** After dropping whitespace after `p`, no whitespace follows any `p`. */
  lemma {:induction false} DropWsAfterClears(p: char, s: string)
    ensures NoWsAfter(p, DropWsAfter(p, s))
    decreases |s|
  {
    if s != [] {
      if |s| > 1 && s[0] == p && IsWs(s[1]) {
        var k := 1 + WsRun(s[1..]);
        DropWsAfterResume(s);
        DropWsAfterClears(p, s[k..]);
        ConsNoWsAfter(p, p, DropWsAfter(p, s[k..]));
      } else {
        DropWsAfterClears(p, s[1..]);
        ConsNoWsAfter(p, s[0], DropWsAfter(p, s[1..]));
      }
    }
  }

  lemma {:induction false} DropWsAfterKeepsVisible(p: char, s: string)
    ensures Visible(DropWsAfter(p, s)) == Visible(s)
    decreases |s|
  {
    if s == [] {
    } else if |s| > 1 && s[0] == p && IsWs(s[1]) {
      var t := s[1..];
      var m := WsRun(t);
      VisibleDropWs(t, m);
      assert t[m..] == s[1 + m..];
      DropWsAfterKeepsVisible(p, t[m..]);
      VisibleConcat([p], DropWsAfter(p, t[m..]));
      assert s == [p] + t;
      VisibleConcat([p], t);
    } else {
      DropWsAfterKeepsVisible(p, s[1..]);
      VisibleConcat([s[0]], DropWsAfter(p, s[1..]));
      assert s == [s[0]] + s[1..];
      VisibleConcat([s[0]], s[1..]);
    }
  }

  /** The output of the rewrite on a string that starts with whitespace keeps that
      whitespace character and the one after it. */
  lemma DropWsAfterWsHead(p: char, s: string)
    requires |s| > 1 && IsWs(s[0]) && !IsWs(p)
    ensures DropWsAfter(p, s) == [s[0]] + DropWsAfter(p, s[1..])
    ensures DropWsAfter(p, s)[1] == s[1]
  {
  }

  lemma {:induction false} DropWsAfterKeepsNoDoubleWs(p: char, s: string)
    requires !IsWs(p) && NoDoubleWs(s)
    ensures NoDoubleWs(DropWsAfter(p, s))
    decreases |s|
  {
    if s != [] {
      var hit := |s| > 1 && s[0] == p && IsWs(s[1]);
      var k := if hit then 1 + WsRun(s[1..]) else 1;
      SuffixKeepsShapes(s, k);
      DropWsAfterKeepsNoDoubleWs(p, s[k..]);
      ConsNoDoubleWs(s[0], DropWsAfter(p, s[k..]));
    }
  }

  lemma {:induction false} DropWsAfterKeepsNoWsBefore(p: char, q: char, s: string)
    requires !IsWs(p) && NoWsBefore(q, s)
    ensures NoWsBefore(q, DropWsAfter(p, s))
    decreases |s|
  {
    if s != [] {
      var hit := |s| > 1 && s[0] == p && IsWs(s[1]);
      var k := if hit then 1 + WsRun(s[1..]) else 1;
      SuffixKeepsShapes(s, k);
      DropWsAfterKeepsNoWsBefore(p, q, s[k..]);
      ConsNoWsBefore(q, s[0], DropWsAfter(p, s[k..]));
    }
  }

  lemma {:induction false} DropWsAfterKeepsNoGap(p: char, a: char, b: char, s: string)
    requires !IsWs(p) && NoGap(a, b, s)
    ensures NoGap(a, b, DropWsAfter(p, s))
    decreases |s|
  {
    if s != [] {
      var hit := |s| > 1 && s[0] == p && IsWs(s[1]);
      var k := if hit then 1 + WsRun(s[1..]) else 1;
      SuffixKeepsShapes(s, k);
      DropWsAfterKeepsNoGap(p, a, b, s[k..]);
      var rest := DropWsAfter(p, s[k..]);
      if !hit && |rest| > 1 && IsWs(rest[0]) {
        DropWsAfterWsHead(p, s[1..]);
      }
      ConsNoGap(a, b, s[0], rest);
    }
  }

  // `a\s+b` matches at the front of `s`.
  predicate GapHit(a: char, b: char, s: string) {
    |s| > 0 && s[0] == a && WsThen(b, s[1..])
  }

  // `s.replace(/a\s+b/g, ab)`: a whitespace run between `a` and `b` is dropped.
  function DropWsBetween(a: char, b: char, s: string): (r: string)
    ensures |r| <= |s|
    ensures |s| > 0 ==> |r| > 0 && r[0] == s[0]
    ensures SpacesOnly(s) ==> SpacesOnly(r)
    decreases |s|
  {
    if s == [] then []
    else if GapHit(a, b, s) then
      var k := 2 + WsRun(s[1..]);
      var rest := DropWsBetween(a, b, s[k..]);
      SuffixSpacesOnly(s, k);
      assert s[k - 1] == b;
      ConsSpacesOnly(b, rest);
      ConsSpacesOnly(a, [b] + rest);
      assert [a, b] + rest == [a] + ([b] + rest);
      [a, b] + rest
    else
      var rest := DropWsBetween(a, b, s[1..]);
      SuffixSpacesOnly(s, 1);
      ConsSpacesOnly(s[0], rest);
      [s[0]] + rest
  }

  /** After the rewrite no single whitespace character sits between `a` and `b`. */
  lemma {:induction false} DropWsBetweenMakesNoGap(a: char, b: char, s: string)
    requires a != b && !IsWs(a) && !IsWs(b)
    ensures NoGap(a, b, DropWsBetween(a, b, s))
    decreases |s|
  {
    if s != [] {
      if GapHit(a, b, s) {
        var k := 2 + WsRun(s[1..]);
        DropWsBetweenMakesNoGap(a, b, s[k..]);
        var rest := DropWsBetween(a, b, s[k..]);
        ConsNoGap(a, b, b, rest);
        ConsNoGap(a, b, a, [b] + rest);
        assert [a, b] + rest == [a] + ([b] + rest);
      } else {
        DropWsBetweenMakesNoGap(a, b, s[1..]);
        var rest := DropWsBetween(a, b, s[1..]);
        if s[0] == a && |rest| > 1 && IsWs(rest[0]) {
          assert rest == [s[1]] + DropWsBetween(a, b, s[2..]);
          assert rest[1] == s[2];
          assert WsRun(s[1..]) == 1 + WsRun(s[2..]);
        }
        ConsNoGap(a, b, s[0], rest);
      }
    }
  }

  lemma {:induction false} DropWsBetweenKeepsVisible(a: char, b: char, s: string)
    requires !IsWs(a) && !IsWs(b)
    ensures Visible(DropWsBetween(a, b, s)) == Visible(s)
    decreases |s|
  {
    if s == [] {
    } else if GapHit(a, b, s) {
      var t := s[1..];
      var n := WsRun(t);
      var k := 2 + n;
      VisibleDropWs(t, n);
      assert t[n..] == [b] + s[k..];
      VisibleConcat([b], s[k..]);
      assert s == [a] + t;
      VisibleConcat([a], t);
      DropWsBetweenKeepsVisible(a, b, s[k..]);
      VisibleConcat([a, b], DropWsBetween(a, b, s[k..]));
      VisibleConcat([a], [b]);
      assert [a] + [b] == [a, b];
    } else {
      DropWsBetweenKeepsVisible(a, b, s[1..]);
      VisibleConcat([s[0]], DropWsBetween(a, b, s[1..]));
      assert s == [s[0]] + s[1..];
      VisibleConcat([s[0]], s[1..]);
    }
  }

  lemma {:induction false} DropWsBetweenKeepsNoDoubleWs(a: char, b: char, s: string)
    requires !IsWs(a) && !IsWs(b) && NoDoubleWs(s)
    ensures NoDoubleWs(DropWsBetween(a, b, s))
    decreases |s|
  {
    if s != [] {
      if GapHit(a, b, s) {
        var k := 2 + WsRun(s[1..]);
        SuffixKeepsShapes(s, k);
        DropWsBetweenKeepsNoDoubleWs(a, b, s[k..]);
        var rest := DropWsBetween(a, b, s[k..]);
        ConsNoDoubleWs(b, rest);
        ConsNoDoubleWs(a, [b] + rest);
        assert [a, b] + rest == [a] + ([b] + rest);
      } else {
        SuffixKeepsShapes(s, 1);
        DropWsBetweenKeepsNoDoubleWs(a, b, s[1..]);
        ConsNoDoubleWs(s[0], DropWsBetween(a, b, s[1..]));
      }
    }
  }

  lemma NoWsBeforeMeansNoWsThen(p: char, s: string)
    requires NoWsBefore(p, s)
    ensures !WsThen(p, s)
  {
    var n := WsRun(s);
    if 0 < n < |s| {
      assert IsWs(s[n - 1]);
    }
  }

  lemma DropWsBeforeMiss(p: char, s: string)
    requires !IsWs(p) && s != [] && !WsThen(p, s)
    ensures DropWsBefore(p, s) == [s[0]] + DropWsBefore(p, s[1..])
  {
  }

  /** A string with no whitespace in front of any `p` is left as it is. */
  lemma {:induction false} DropWsBeforeFixesClear(p: char, s: string)
    requires !IsWs(p) && NoWsBefore(p, s)
    ensures DropWsBefore(p, s) == s
    decreases |s|
  {
    if s != [] {
      NoWsBeforeMeansNoWsThen(p, s);
      DropWsBeforeMiss(p, s);
      SuffixNoWsBefore(p, s, 1);
      DropWsBeforeFixesClear(p, s[1..]);
      assert s == [s[0]] + s[1..];
    }
  }

  /** A string with no whitespace after any `p` is left as it is. */
  lemma {:induction false} DropWsAfterFixesClear(p: char, s: string)
    requires NoWsAfter(p, s)
    ensures DropWsAfter(p, s) == s
    decreases |s|
  {
    if s != [] {
      if |s| > 1 {
        assert s[0] == p ==> !IsWs(s[1]);
      }
      SuffixNoWsAfter(p, s, 1);
      DropWsAfterFixesClear(p, s[1..]);
      assert s == [s[0]] + s[1..];
    }
  }

  /** A string with single whitespace only and none between an `a` and a `b` is
      left as it is. */
  lemma {:induction false} DropWsBetweenFixesClear(a: char, b: char, s: string)
    requires NoGap(a, b, s) && NoDoubleWs(s)
    ensures DropWsBetween(a, b, s) == s
    decreases |s|
  {
    if s != [] {
      if |s| > 2 && IsWs(s[1]) {
        assert !IsWs(s[2]);
        assert WsRun(s[1..]) == 1 by {
          assert WsRun(s[1..]) == 1 + WsRun(s[2..]);
        }
      }
      assert !GapHit(a, b, s);
      SuffixKeepsShapes(s, 1);
      DropWsBetweenFixesClear(a, b, s[1..]);
    }
  }
}
