/** The PHP built-ins the contact handler relies on, on text that is valid
    UTF-8 (a PHP string is a byte string; here it is the sequence of code
    points those bytes encode): `trim`, `empty`, `htmlspecialchars` with
    `ENT_QUOTES`, and `strlen`. */
module Php {

  /** The characters `trim` removes by default: space, tab, line feed,
      carriage return, NUL and vertical tab. All are ASCII, so stripping them
      from the bytes and from the code points is the same. */
  predicate IsTrimChar(c: char) {
    c == ' ' || c == '\t' || c == '\n' || c == '\r' || c as int == 0 || c as int == 0x0B
  }

  predicate AllTrim(s: string) {
    forall i :: 0 <= i < |s| ==> IsTrimChar(s[i])
  }

  /** The number of trim characters at the front. */
  function LeadingTrim(s: string): (n: nat)
    ensures n <= |s| && AllTrim(s[..n])
    ensures n < |s| ==> !IsTrimChar(s[n])
  {
    if s == [] || !IsTrimChar(s[0]) then 0
    else
      var m := LeadingTrim(s[1..]);
      assert s[..m + 1] == [s[0]] + s[1..][..m];
      m + 1
  }

  /** The length of `s` without its trailing trim characters. */
  function TrailingCut(s: string): (n: nat)
    ensures n <= |s| && AllTrim(s[n..])
    ensures n > 0 ==> !IsTrimChar(s[n - 1])
  {
    if s == [] || !IsTrimChar(s[|s| - 1]) then |s|
    else
      var m := TrailingCut(s[..|s| - 1]);
      assert s[m..] == s[..|s| - 1][m..] + [s[|s| - 1]];
      m
  }

  /** `trim`: the longest slice that neither starts nor ends with a trim
      character, once only trim characters are cut from both ends. */
  function Trim(s: string): (r: string)
    ensures r == [] || (!IsTrimChar(r[0]) && !IsTrimChar(r[|r| - 1]))
    ensures exists i :: 0 <= i <= |s| - |r| && r == s[i..i + |r|] && AllTrim(s[..i]) && AllTrim(s[i + |r|..])
  {
    var i := LeadingTrim(s);
    var t := s[i..];
    var j := TrailingCut(t);
    assert s[i..][..j] == s[i..i + j];
    assert s[i + j..] == t[j..];
    t[..j]
  }

  /** Trimming twice trims nothing more. */
  lemma TrimIdempotent(s: string)
    ensures Trim(Trim(s)) == Trim(s)
  {
    var r := Trim(s);
    if r != [] {
      assert LeadingTrim(r) == 0;
      assert r[0..] == r;
      assert TrailingCut(r) == |r|;
      assert r[..|r|] == r;
    }
  }

  /** A value trims to nothing iff it consists of trim characters only. */
  lemma TrimEmptyIffAllTrim(s: string)
    ensures Trim(s) == [] <==> AllTrim(s)
  {
    var i := LeadingTrim(s);
    var t := s[i..];
    var j := TrailingCut(t);
    assert Trim(s) == t[..j];
    if AllTrim(s) {
      assert i == |s|;
    }
    if j == 0 {
      assert t[0..] == t;
      assert i == |s|;
      assert s[..i] == s;
    }
  }

  /** PHP `empty` on a string: true for `""` and for `"0"`. */
  predicate IsEmpty(s: string)
    ensures IsEmpty(s) ==> |s| <= 1 && forall i :: 0 <= i < |s| ==> s[i] == '0'
  {
    s == "" || s == "0"
  }

  // ---------------------------------------------------------------------------
  // htmlspecialchars($s, ENT_QUOTES, 'UTF-8')

  const Amp := "&amp;"
  const Quot := "&quot;"
  const Apos := "&#039;"
  const Lt := "&lt;"
  const Gt := "&gt;"

  /** The four characters the escaped text never contains raw. */
  predicate Raw(c: char) {
    c == '<' || c == '>' || c == '"' || c == '\''
  }

  predicate Special(c: char) {
    c == '&' || Raw(c)
  }

  function EscapeChar(c: char): string {
    if c == '&' then Amp
    else if c == '"' then Quot
    else if c == '\'' then Apos
    else if c == '<' then Lt
    else if c == '>' then Gt
    else [c]
  }

  /** `htmlspecialchars` with `ENT_QUOTES`: each of `& " ' < >` becomes its
      entity (an `&` that already starts an entity is escaped again), and
      everything else is kept. */
  function Escape(s: string): (r: string)
    ensures forall i :: 0 <= i < |r| ==> !Raw(r[i])
    ensures (forall i :: 0 <= i < |s| ==> !Special(s[i])) ==> r == s
    ensures |r| >= |s|
  {
    if s == [] then []
    else
      var head := EscapeChar(s[0]);
      var tail := Escape(s[1..]);
      EscapeCharNoRaw(s[0]);
      ConcatNoRaw(head, tail);
      head + tail
  }

  lemma EscapeCharNoRaw(c: char)
    ensures forall i :: 0 <= i < |EscapeChar(c)| ==> !Raw(EscapeChar(c)[i])
  {
  }

  lemma ConcatNoRaw(a: string, b: string)
    requires forall i :: 0 <= i < |a| ==> !Raw(a[i])
    requires forall i :: 0 <= i < |b| ==> !Raw(b[i])
    ensures forall i :: 0 <= i < |a + b| ==> !Raw((a + b)[i])
  {
    forall i | 0 <= i < |a + b|
      ensures !Raw((a + b)[i])
    {
      if i < |a| {
        assert (a + b)[i] == a[i];
      } else {
        assert (a + b)[i] == b[i - |a|];
      }
    }
  }

  /** The inverse: the five entities read back, every other character kept. */
  function Unescape(t: string): string
    decreases |t|
  {
    if t == [] then []
    else if Amp <= t then "&" + Unescape(t[|Amp|..])
    else if Quot <= t then "\"" + Unescape(t[|Quot|..])
    else if Apos <= t then "'" + Unescape(t[|Apos|..])
    else if Lt <= t then "<" + Unescape(t[|Lt|..])
    else if Gt <= t then ">" + Unescape(t[|Gt|..])
    else [t[0]] + Unescape(t[1..])
  }

  lemma PrefixRest(p: string, rest: string)
    ensures p <= p + rest && (p + rest)[|p|..] == rest
  {
    assert (p + rest)[..|p|] == p;
  }

  /** Reading back one escaped character. */
  lemma UnescapeHead(c: char, rest: string)
    ensures Unescape(EscapeChar(c) + rest) == [c] + Unescape(rest)
  {
    var e := EscapeChar(c);
    var t := e + rest;
    PrefixRest(e, rest);
    if !Special(c) {
      assert t[0] == c && t[1..] == rest;
    } else if c == '&' {
    } else {
      assert t[1] == e[1];
    }
  }

  /** Escaping loses nothing: unescaping gives back the original text. */
  lemma {:induction false} UnescapeEscape(s: string)
    ensures Unescape(Escape(s)) == s
  {
    if s != [] {
      UnescapeHead(s[0], Escape(s[1..]));
      UnescapeEscape(s[1..]);
      assert s == [s[0]] + s[1..];
    }
  }

  // ---------------------------------------------------------------------------
  // strlen

  /** The number of UTF-8 bytes encoding one code point. */
  function Utf8Width(c: char): nat {
    if c as int < 0x80 then 1 else if c as int < 0x800 then 2 else if c as int < 0x10000 then 3 else 4
  }

  /** `strlen`: the byte length of the UTF-8 encoding. */
  function Strlen(s: string): (n: nat)
    ensures |s| <= n <= 4 * |s|
  {
    if s == [] then 0 else Utf8Width(s[0]) + Strlen(s[1..])
  }

  lemma {:induction false} StrlenConcat(a: string, b: string)
    ensures Strlen(a + b) == Strlen(a) + Strlen(b)
  {
    if a == [] {
      assert a + b == b;
    } else {
      assert (a + b)[1..] == a[1..] + b;
      StrlenConcat(a[1..], b);
    }
  }

  /** The byte length is at least the number of characters, and equal to it
      exactly for ASCII text. */
  lemma {:induction false} StrlenBounds(s: string)
    ensures Strlen(s) >= |s|
    ensures Strlen(s) == |s| <==> forall i :: 0 <= i < |s| ==> s[i] as int < 0x80
  {
    if s != [] {
      StrlenBounds(s[1..]);
      assert forall i :: 1 <= i < |s| ==> s[i] == s[1..][i - 1];
    }
  }

  function Occurrences(c: char, s: string): nat {
    if s == [] then 0 else (if s[0] == c then 1 else 0) + Occurrences(c, s[1..])
  }

  /** How many bytes escaping adds: four per `&`, five per quote of either kind, three per angle bracket. */
  function Growth(s: string): nat {
    4 * Occurrences('&', s) + 5 * (Occurrences('"', s) + Occurrences('\'', s))
      + 3 * (Occurrences('<', s) + Occurrences('>', s))
  }

  /** The byte length the handler's limits see: the original length plus the growth. */
  lemma {:induction false} EscapedStrlen(s: string)
    ensures Strlen(Escape(s)) == Strlen(s) + Growth(s)
  {
    if s != [] {
      EscapedStrlen(s[1..]);
      StrlenConcat(EscapeChar(s[0]), Escape(s[1..]));
      EscapeCharStrlen(s[0]);
      GrowthHead(s);
    }
  }

  lemma OccurrencesSingle(x: char, c: char)
    ensures Occurrences(x, [c]) == if c == x then 1 else 0
  {
    assert [c][1..] == [];
  }

  lemma GrowthSingle(c: char)
    ensures Growth([c]) == if c == '&' then 4 else if c == '"' || c == '\'' then 5 else if c == '<' || c == '>' then 3 else 0
  {
    OccurrencesSingle('&', c);
    OccurrencesSingle('"', c);
    OccurrencesSingle('\'', c);
    OccurrencesSingle('<', c);
    OccurrencesSingle('>', c);
  }

  lemma EscapeCharStrlen(c: char)
    ensures Strlen(EscapeChar(c)) == Utf8Width(c) + Growth([c])
  {
    GrowthSingle(c);
    if !Special(c) {
      assert Strlen([c]) == Utf8Width(c) + Strlen([c][1..]);
      assert [c][1..] == [];
    }
  }

  lemma GrowthHead(s: string)
    requires s != []
    ensures Growth(s) == Growth([s[0]]) + Growth(s[1..])
  {
    GrowthSingle(s[0]);
  }
}
