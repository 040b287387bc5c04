/** Characters and strings as the build script's regular expressions see them:
    the `\s` class, line terminators, literal search, and the shape predicates
    the minifier theorems are stated with. */
module Text {
  import opened Opt

  /** JavaScript's `\s`: the WhiteSpace code points (tab, vertical tab, form
      feed, the byte order mark and every space separator) together with the
      LineTerminator code points. */
  predicate IsWs(c: char) {
    var n := c as int;
    n == 0x09 || n == 0x0A || n == 0x0B || n == 0x0C || n == 0x0D || n == 0x20
    || n == 0xA0 || n == 0x1680 || (0x2000 <= n <= 0x200A) || n == 0x2028 || n == 0x2029
    || n == 0x202F || n == 0x205F || n == 0x3000 || n == 0xFEFF
  }

  /** The two characters the minifiers remove explicitly with `/\n/g` and `/\r/g`. */
  predicate IsLineBreak(c: char) {
    c == '\n' || c == '\r'
  }

  /** The characters JavaScript's `.` does not match and before which a multiline `$` matches. */
  predicate IsLineTerminator(c: char) {
    IsLineBreak(c) || c as int == 0x2028 || c as int == 0x2029
  }

  lemma LineTerminatorIsWs(c: char)
    ensures IsLineTerminator(c) ==> IsWs(c)
  {
  }

  predicate AllWs(s: string) {
    forall i :: 0 <= i < |s| ==> IsWs(s[i])
  }

  /** No character is whitespace. */
  predicate NoWs(s: string) {
    forall i :: 0 <= i < |s| ==> !IsWs(s[i])
  }

  /** Every whitespace character is a plain space. */
  predicate SpacesOnly(s: string) {
    forall i :: 0 <= i < |s| && IsWs(s[i]) ==> s[i] == ' '
  }

  predicate NoLineBreaks(s: string) {
    forall i :: 0 <= i < |s| ==> !IsLineBreak(s[i])
  }

  /** No two whitespace characters stand next to each other. */
  predicate NoDoubleWs(s: string) {
    forall i :: 0 < i < |s| && IsWs(s[i]) ==> !IsWs(s[i - 1])
  }

  /** No whitespace character immediately precedes an occurrence of `p`. */
  predicate NoWsBefore(p: char, s: string) {
    forall i :: 0 < i < |s| && s[i] == p ==> !IsWs(s[i - 1])
  }

  /** No whitespace character immediately follows an occurrence of `p`. */
  predicate NoWsAfter(p: char, s: string) {
    forall i :: 0 <= i < |s| - 1 && s[i] == p ==> !IsWs(s[i + 1])
  }

  predicate NoWsAround(p: char, s: string) {
    NoWsBefore(p, s) && NoWsAfter(p, s)
  }

  /** No single whitespace character sits between an `a` and a following `b`. */
  predicate NoGap(a: char, b: char, s: string) {
    forall i :: 2 <= i < |s| && s[i] == b && s[i - 2] == a ==> !IsWs(s[i - 1])
  }

  lemma SuffixSpacesOnly(s: string, k: nat)
    requires k <= |s|
    ensures SpacesOnly(s) ==> SpacesOnly(s[k..])
  {
    assert forall i :: 0 <= i < |s[k..]| ==> s[k..][i] == s[k + i];
  }

  lemma ConcatSpacesOnly(a: string, b: string)
    ensures SpacesOnly(a) && SpacesOnly(b) ==> SpacesOnly(a + b)
  {
    assert forall i :: |a| <= i < |a + b| ==> (a + b)[i] == b[i - |a|];
  }

  lemma ConsSpacesOnly(c: char, r: string)
    ensures SpacesOnly(r) && (IsWs(c) ==> c == ' ') ==> SpacesOnly([c] + r)
  {
    assert forall i :: 0 < i < |[c] + r| ==> ([c] + r)[i] == r[i - 1];
  }

  lemma SpacesOnlyHasNoLineBreaks(s: string)
    requires SpacesOnly(s)
    ensures NoLineBreaks(s)
  {
  }

  /** A gap-free string without double whitespace has no whitespace run at all
      between an `a` and a later `b`. */
  lemma NoGapMeansNoRun(a: char, b: char, s: string, i: int, j: int)
    requires NoGap(a, b, s) && NoDoubleWs(s)
    requires 0 <= i && i + 1 < j < |s| && s[i] == a && s[j] == b
    ensures !AllWs(s[i + 1..j])
  {
    assert s[i + 1..j][0] == s[i + 1];
    if j > i + 2 {
      assert s[i + 1..j][1] == s[i + 2];
    }
  }

  // Each shape predicate survives taking a suffix and putting one character in
  // front, as long as the new first pair (or triple) is itself clean.

  lemma SuffixKeepsShapes(s: string, k: nat)
    requires k <= |s|
    ensures SpacesOnly(s) ==> SpacesOnly(s[k..])
    ensures NoDoubleWs(s) ==> NoDoubleWs(s[k..])
    ensures forall p :: NoWsBefore(p, s) ==> NoWsBefore(p, s[k..])
    ensures forall p :: NoWsAfter(p, s) ==> NoWsAfter(p, s[k..])
    ensures forall a, b :: NoGap(a, b, s) ==> NoGap(a, b, s[k..])
  {
    assert forall i :: 0 <= i < |s[k..]| ==> s[k..][i] == s[k + i];
  }

  lemma SuffixNoWsBefore(p: char, s: string, k: nat)
    requires k <= |s| && NoWsBefore(p, s)
    ensures NoWsBefore(p, s[k..])
  {
    forall i | 0 < i < |s[k..]| && s[k..][i] == p
      ensures !IsWs(s[k..][i - 1])
    {
      assert s[k + i] == p && s[k..][i - 1] == s[k + i - 1];
    }
  }

  lemma SuffixNoWsAfter(p: char, s: string, k: nat)
    requires k <= |s| && NoWsAfter(p, s)
    ensures NoWsAfter(p, s[k..])
  {
    forall i | 0 <= i < |s[k..]| - 1 && s[k..][i] == p
      ensures !IsWs(s[k..][i + 1])
    {
      assert s[k + i] == p && s[k..][i + 1] == s[k + i + 1];
    }
  }

  lemma ConsNoDoubleWs(c: char, r: string)
    requires NoDoubleWs(r)
    requires |r| > 0 && IsWs(r[0]) ==> !IsWs(c)
    ensures NoDoubleWs([c] + r)
  {
    assert forall i :: 0 < i < |[c] + r| ==> ([c] + r)[i] == r[i - 1];
  }

  lemma ConsNoWsBefore(p: char, c: char, r: string)
    requires NoWsBefore(p, r)
    requires |r| > 0 && r[0] == p ==> !IsWs(c)
    ensures NoWsBefore(p, [c] + r)
  {
    assert forall i :: 0 < i < |[c] + r| ==> ([c] + r)[i] == r[i - 1];
  }

  lemma ConsNoWsAfter(p: char, c: char, r: string)
    requires NoWsAfter(p, r)
    requires c == p && |r| > 0 ==> !IsWs(r[0])
    ensures NoWsAfter(p, [c] + r)
  {
    assert forall i :: 0 < i < |[c] + r| ==> ([c] + r)[i] == r[i - 1];
  }

  lemma ConsNoGap(a: char, b: char, c: char, r: string)
    requires NoGap(a, b, r)
    requires c == a && |r| > 1 && r[1] == b ==> !IsWs(r[0])
    ensures NoGap(a, b, [c] + r)
  {
    assert forall i :: 0 < i < |[c] + r| ==> ([c] + r)[i] == r[i - 1];
  }

  /** The non-whitespace content of a string, in order. */
  function Visible(s: string): string {
    if s == [] then [] else (if IsWs(s[0]) then [] else [s[0]]) + Visible(s[1..])
  }

  lemma {:induction false} VisibleConcat(a: string, b: string)
    ensures Visible(a + b) == Visible(a) + Visible(b)
  {
    if a == [] {
      assert a + b == b;
    } else {
      assert (a + b)[1..] == a[1..] + b;
      VisibleConcat(a[1..], b);
    }
  }

  lemma {:induction false} VisibleOfWs(s: string)
    requires AllWs(s)
    ensures Visible(s) == []
  {
    if s != [] {
      VisibleOfWs(s[1..]);
    }
  }

  /** Whitespace removed from the front of a string does not change its content. */
  lemma VisibleDropWs(s: string, n: nat)
    requires n <= |s| && AllWs(s[..n])
    ensures Visible(s) == Visible(s[n..])
  {
    assert s == s[..n] + s[n..];
    VisibleConcat(s[..n], s[n..]);
    VisibleOfWs(s[..n]);
  }

  /** `pat` occurs in `s` starting at index `k`. */
  predicate OccursAt(pat: string, s: string, k: int) {
    0 <= k && k + |pat| <= |s| && s[k..k + |pat|] == pat
  }

  predicate Contains(s: string, pat: string) {
    exists k | 0 <= k <= |s| :: OccursAt(pat, s, k)
  }

  lemma OccursAtTail(pat: string, s: string, k: int)
    requires |s| > 0 && 0 <= k
    ensures OccursAt(pat, s[1..], k) <==> OccursAt(pat, s, k + 1)
  {
    if 0 <= k && k + |pat| <= |s| - 1 {
      assert s[1..][k..k + |pat|] == s[k + 1..k + 1 + |pat|];
    }
  }

  /** `String.prototype.indexOf`: the first index at which `pat` occurs. */
  function IndexOf(pat: string, s: string): (r: Option<nat>)
    requires |pat| > 0
    ensures r.Some? ==> OccursAt(pat, s, r.value)
    ensures r.Some? ==> forall j :: 0 <= j < r.value ==> !OccursAt(pat, s, j)
    ensures r.None? ==> forall j :: !OccursAt(pat, s, j)
    decreases |s|
  {
    if |s| < |pat| then None
    else if pat <= s then
      assert s[0..|pat|] == pat;
      Some(0)
    else
      assert !OccursAt(pat, s, 0) by { assert s[..|pat|] == s[0..|pat|]; }
      var rest := IndexOf(pat, s[1..]);
      if rest.None? then
        assert forall j :: !OccursAt(pat, s, j) by {
          forall j
            ensures !OccursAt(pat, s, j)
          {
            if j > 0 {
              OccursAtTail(pat, s, j - 1);
            }
          }
        }
        None
      else
        assert forall j :: 0 <= j < rest.value + 1 ==> !OccursAt(pat, s, j) by {
          forall j | 0 <= j < rest.value + 1
            ensures !OccursAt(pat, s, j)
          {
            if j > 0 {
              OccursAtTail(pat, s, j - 1);
            }
          }
        }
        OccursAtTail(pat, s, rest.value);
        Some(rest.value + 1)
  }

  /** The length of the whitespace run at the front of `s`: `\s+` matched greedily. */
  function WsRun(s: string): (n: nat)
    ensures n <= |s|
    ensures forall i :: 0 <= i < n ==> IsWs(s[i])
    ensures n < |s| ==> !IsWs(s[n])
    decreases |s|
  {
    if s != [] && IsWs(s[0]) then 1 + WsRun(s[1..]) else 0
  }

  /** `s.replace(/c/g, '')` for a single character `c`, and PHP's
      `str_replace(c, '', s)`: every occurrence of `c` is dropped. */
  function RemoveAll(c: char, s: string): (r: string)
    ensures c !in r
    ensures |r| <= |s|
    ensures c !in s ==> r == s
    decreases |s|
  {
    if s == [] then []
    else
      assert s == [s[0]] + s[1..];
      if s[0] == c then RemoveAll(c, s[1..])
      else [s[0]] + RemoveAll(c, s[1..])
  }

  /** Only `c` is removed: every other character keeps its number of occurrences. */
  lemma {:induction false} RemoveAllCounts(c: char, s: string)
    ensures multiset(RemoveAll(c, s)) == multiset(s)[c := 0]
    decreases |s|
  {
    if s != [] {
      RemoveAllCounts(c, s[1..]);
      assert s == [s[0]] + s[1..];
      assert multiset(s) == multiset([s[0]]) + multiset(s[1..]);
    }
  }

  /** One removed character between two pieces leaves the pieces side by side. */
  lemma RemoveAllDropsOne(c: char, a: string, b: string)
    ensures RemoveAll(c, a + [c] + b) == RemoveAll(c, a + b)
  {
    var one: string := [c];
    assert RemoveAll(c, one) == [] by {
      assert one[1..] == [];
    }
    RemoveAllConcat(c, a, one);
    RemoveAllConcat(c, a + one, b);
    RemoveAllConcat(c, a, b);
    assert RemoveAll(c, a) + [] == RemoveAll(c, a);
  }

  /** Removal works piece by piece, so the characters that remain keep their order. */
  lemma {:induction false} RemoveAllConcat(c: char, a: string, b: string)
    ensures RemoveAll(c, a + b) == RemoveAll(c, a) + RemoveAll(c, b)
    decreases |a|
  {
    if a == [] {
      assert a + b == b;
    } else {
      var x, t := a[0], a[1..];
      var h: string := if x == c then [] else [x];
      calc {
        RemoveAll(c, a + b);
        == { assert a + b == [x] + (t + b); }
        RemoveAll(c, [x] + (t + b));
        == { RemoveAllCons(c, x, t + b); }
        h + RemoveAll(c, t + b);
        == { RemoveAllConcat(c, t, b); }
        h + (RemoveAll(c, t) + RemoveAll(c, b));
        (h + RemoveAll(c, t)) + RemoveAll(c, b);
        == { assert a == [x] + t; RemoveAllCons(c, x, t); }
        RemoveAll(c, a) + RemoveAll(c, b);
      }
    }
  }

  lemma RemoveAllCons(c: char, x: char, t: string)
    ensures RemoveAll(c, [x] + t) == (if x == c then [] else [x]) + RemoveAll(c, t)
  {
    assert ([x] + t)[0] == x && ([x] + t)[1..] == t;
  }

}
