/** The page script's decisions, without the DOM: the e-mail pattern, the
    contact form's submit handler, the scroll spy that marks the active
    navigation link, and the navbar style switch. */
module Client {
  import opened Opt
  import opened Text

  // ---------------------------------------------------------------------------
  // isValidEmail: /^[^\s@]+@[^\s@]+\.[^\s@]+$/

  /** A character the class `[^\s@]` accepts. */
  predicate Plain(c: char) {
    !IsWs(c) && c != '@'
  }

  predicate AllPlain(s: string) {
    forall i :: 0 <= i < |s| ==> Plain(s[i])
  }

  /** The regular expression read as a concatenation: one or more plain
      characters, `@`, one or more plain characters, a dot, one or more plain
      characters, and nothing else (`^` and `$` without the `m` flag anchor at
      the ends of the whole string). The class admits `.`, so the dot that
      matches `\.` may be any dot after the first domain character. */
  ghost predicate EmailShape(s: string) {
    exists a: string, b: string, c: string ::
      s == a + "@" + b + "." + c && a != [] && b != [] && c != []
      && AllPlain(a) && AllPlain(b) && AllPlain(c)
  }

  /** The same language stated on positions: no whitespace, exactly one `@`,
      which is not the first character, and a dot after it that is neither the
      first nor the last character of the domain part. */
  predicate EmailRule(s: string) {
    NoWs(s)
    && exists k | 0 < k < |s| ::
         s[k] == '@'
         && (forall i | 0 <= i < |s| && i != k :: s[i] != '@')
         && (exists j | k + 1 < j < |s| - 1 :: s[j] == '.')
  }

  lemma AllPlainAt(a: string, b: string, c: string, s: string, i: nat)
    requires s == a + "@" + b + "." + c && AllPlain(a) && AllPlain(b) && AllPlain(c)
    requires i < |s|
    ensures i < |a| ==> s[i] == a[i]
    ensures |a| < i < |a| + 1 + |b| ==> s[i] == b[i - |a| - 1]
    ensures i == |a| + 1 + |b| ==> s[i] == '.'
    ensures |a| + 1 + |b| < i ==> s[i] == c[i - |a| - 2 - |b|]
    ensures i != |a| ==> Plain(s[i]) || s[i] == '.'
  {
  }

  lemma ShapeGivesRule(s: string)
    requires EmailShape(s)
    ensures EmailRule(s)
  {
    var a: string, b: string, c: string :|
      s == a + "@" + b + "." + c && a != [] && b != [] && c != []
      && AllPlain(a) && AllPlain(b) && AllPlain(c);
    var k := |a|;
    assert s[k] == '@';
    forall i | 0 <= i < |s|
      ensures !IsWs(s[i])
      ensures i != k ==> s[i] != '@'
    {
      AllPlainAt(a, b, c, s, i);
    }
    var j := |a| + 1 + |b|;
    assert s[j] == '.' && k + 1 < j < |s| - 1;
  }

  lemma SlicePlain(s: string, lo: nat, hi: nat)
    requires lo <= hi <= |s| && forall i :: lo <= i < hi ==> Plain(s[i])
    ensures AllPlain(s[lo..hi])
  {
    assert forall i :: 0 <= i < hi - lo ==> s[lo..hi][i] == s[lo + i];
  }

  /** A string cut at two positions and put back together. */
  lemma CutTwice(s: string, k: nat, j: nat)
    requires k < j < |s|
    ensures s == s[..k] + [s[k]] + s[k + 1..j] + [s[j]] + s[j + 1..]
  {
    assert s[..k + 1] == s[..k] + [s[k]];
    assert s[..j] == s[..k + 1] + s[k + 1..j];
    assert s[..j + 1] == s[..j] + [s[j]];
    assert s == s[..j + 1] + s[j + 1..];
  }

  lemma RuleGivesShape(s: string)
    requires EmailRule(s)
    ensures EmailShape(s)
  {
    var k :| 0 < k < |s| && s[k] == '@' && (forall i | 0 <= i < |s| && i != k :: s[i] != '@')
             && (exists j | k + 1 < j < |s| - 1 :: s[j] == '.');
    var j :| k + 1 < j < |s| - 1 && s[j] == '.';
    assert forall i :: 0 <= i < |s| && i != k ==> Plain(s[i]);
    SlicePlain(s, 0, k);
    SlicePlain(s, k + 1, j);
    SlicePlain(s, j + 1, |s|);
    CutTwice(s, k, j);
    assert s[j + 1..|s|] == s[j + 1..];
    assert [s[k]] == "@" && [s[j]] == ".";
    ShapeFrom(s, s[..k], s[k + 1..j], s[j + 1..]);
  }

  lemma ShapeFrom(s: string, a: string, b: string, c: string)
    requires s == a + "@" + b + "." + c && a != [] && b != [] && c != []
    requires AllPlain(a) && AllPlain(b) && AllPlain(c)
    ensures EmailShape(s)
  {
  }

  /** The regular expression and the positional rule accept the same strings. */
  lemma EmailShapeIsRule(s: string)
    ensures EmailShape(s) <==> EmailRule(s)
  {
    if EmailShape(s) {
      ShapeGivesRule(s);
    }
    if EmailRule(s) {
      RuleGivesShape(s);
    }
  }

  /** `isValidEmail`: one scan for whitespace and the `@`, then a search for a
      dot strictly inside the domain part. */
  method IsValidEmail(s: string) returns (ok: bool)
    ensures ok <==> EmailShape(s)
  {
    EmailShapeIsRule(s);
    var at := -1;
    var i := 0;
    while i < |s|
      invariant 0 <= i <= |s|
      invariant forall m :: 0 <= m < i ==> !IsWs(s[m])
      invariant at == -1 ==> forall m :: 0 <= m < i ==> s[m] != '@'
      invariant at != -1 ==> 0 <= at < i && s[at] == '@' && forall m :: 0 <= m < i && m != at ==> s[m] != '@'
    {
      if IsWs(s[i]) {
        return false;
      }
      if s[i] == '@' {
        if at != -1 {
          assert forall k :: 0 <= k < |s| && s[k] == '@' ==> exists m :: 0 <= m < |s| && m != k && s[m] == '@' by {
            forall k | 0 <= k < |s| && s[k] == '@'
              ensures exists m :: 0 <= m < |s| && m != k && s[m] == '@'
            {
              if k == at {
                assert s[i] == '@';
              } else {
                assert s[at] == '@';
              }
            }
          }
          return false;
        }
        at := i;
      }
      i := i + 1;
    }
    if at <= 0 {
      return false;
    }
    var j := at + 2;
    while j < |s| - 1
      invariant at + 2 <= j
      invariant forall m :: at + 1 < m < j && m < |s| - 1 ==> s[m] != '.'
    {
      if s[j] == '.' {
        return true;
      }
      j := j + 1;
    }
    return false;
  }

  // ---------------------------------------------------------------------------
  // The contact form's submit handler

  const FillAlert := "Please fill in all fields"
  const EmailAlert := "Please enter a valid email address"
  const RejectedAlert := "There was an error sending your message. Please try again."
  const NetworkAlert := "There was an error sending your message. Please try again or contact us directly."
  const SendingText := "Sending..."
  const Endpoint := "send-email.php"

  /** What `fetch` followed by `response.json()` yields: a rejected fetch, a
      body that is not JSON, or the parsed object's `success` truthiness and
      `message`. The HTTP status is not looked at. */
  datatype Reply = NetworkError | BadJson | Json(success: bool, message: Option<string>)

  datatype Request = Request(url: string, httpMethod: string, name: string, email: string, message: string)

  datatype Button = Button(text: string, disabled: bool)

  /** The handler's visible effects: alerts in order, requests sent, whether
      the form was reset, and the submit button afterwards. */
  datatype Submission = Submission(alerts: seq<string>, requests: seq<Request>, formReset: bool, button: Button)

  /** `formData.get` returns `null` for a missing field; `null` and `""` are falsy. */
  predicate Falsy(f: Option<string>) {
    f.None? || f.value == ""
  }

  /** How `alert` shows a missing property. */
  function Shown(m: Option<string>): string {
    match m
    case None => "undefined"
    case Some(t) => t
  }

  /** The submit handler, with the reply the server (or the network) gives as a parameter. */
  method Submit(name: Option<string>, email: Option<string>, message: Option<string>, button: Button, reply: Reply)
    returns (r: Submission)
    ensures Falsy(name) || Falsy(email) || Falsy(message) ==> r == Submission([FillAlert], [], false, button)
    ensures !Falsy(name) && !Falsy(email) && !Falsy(message) && !EmailShape(email.value) ==>
      r == Submission([EmailAlert], [], false, button)
    ensures !Falsy(name) && !Falsy(email) && !Falsy(message) && EmailShape(email.value) ==>
      r.requests == [Request(Endpoint, "POST", name.value, email.value, message.value)]
      && r.button == Button(button.text, false)
      && |r.alerts| == 1
      && (r.formReset <==> reply.Json? && reply.success)
      && (reply.Json? && reply.success ==> r.alerts == [Shown(reply.message)])
      && (reply.Json? && !reply.success ==> r.alerts == [if Falsy(reply.message) then RejectedAlert else reply.message.value])
      && (!reply.Json? ==> r.alerts == [NetworkAlert])
  {
    if Falsy(name) || Falsy(email) || Falsy(message) {
      return Submission([FillAlert], [], false, button);
    }
    var valid := IsValidEmail(email.value);
    if !valid {
      return Submission([EmailAlert], [], false, button);
    }
    var originalText := button.text;
    var btn := Button(SendingText, true);
    var request := Request(Endpoint, "POST", name.value, email.value, message.value);
    var alerts: seq<string>;
    var reset := false;
    match reply {
      case Json(success, m) =>
        if success {
          alerts := [Shown(m)];
          reset := true;
        } else {
          alerts := [if Falsy(m) then RejectedAlert else m.value];
        }
      case _ =>
        alerts := [NetworkAlert];
    }
    btn := Button(originalText, false);
    r := Submission(alerts, [request], reset, btn);
  }

  /** The handler never trims: a name of spaces passes the client-side checks
      and is sent as it is. */
  lemma SpacesAreNotEmpty(spaces: string)
    requires spaces != [] && forall i :: 0 <= i < |spaces| ==> spaces[i] == ' '
    ensures !Falsy(Some(spaces))
  {
  }

  // ---------------------------------------------------------------------------
  // Scroll spy

  datatype Section = Section(id: string, offsetTop: int, clientHeight: int)

  /** A section counts as current when the scroll offset lies in its box
      shifted up by 100 pixels, upper edge included and lower edge excluded. */
  predicate InView(s: Section, y: real) {
    var top := (s.offsetTop - 100) as real;
    top <= y < top + s.clientHeight as real
  }

  /** The last section in document order that is in view. */
  function LastInView(sections: seq<Section>, y: real): (r: Option<nat>)
    ensures r.Some? ==> r.value < |sections| && InView(sections[r.value], y)
    ensures r.Some? ==> forall j :: r.value < j < |sections| ==> !InView(sections[j], y)
    ensures r.None? ==> forall j :: 0 <= j < |sections| ==> !InView(sections[j], y)
  {
    if sections == [] then None
    else if InView(sections[|sections| - 1], y) then Some(|sections| - 1)
    else LastInView(sections[..|sections| - 1], y)
  }

  function CurrentId(sections: seq<Section>, y: real): string {
    match LastInView(sections, y)
    case None => ""
    case Some(k) => sections[k].id
  }

  /** The scroll handler: a pass over the sections that overwrites `current`
      whenever one is in view, then one pass over the links (`hrefs`, `None`
      for a link without the attribute) that marks exactly the links to
      `#current`. */
  method ScrollSpy(sections: seq<Section>, hrefs: seq<Option<string>>, y: real)
    returns (current: string, active: seq<bool>)
    ensures current == CurrentId(sections, y)
    ensures |active| == |hrefs|
    ensures forall i :: 0 <= i < |hrefs| ==> (active[i] <==> hrefs[i] == Some("#" + current))
  {
    current := "";
    var i := 0;
    while i < |sections|
      invariant 0 <= i <= |sections|
      invariant current == CurrentId(sections[..i], y)
    {
      assert sections[..i + 1][..i] == sections[..i];
      if InView(sections[i], y) {
        current := sections[i].id;
      }
      i := i + 1;
    }
    assert sections[..i] == sections;
    active := [];
    var j := 0;
    while j < |hrefs|
      invariant 0 <= j <= |hrefs|
      invariant |active| == j
      invariant forall m :: 0 <= m < j ==> (active[m] <==> hrefs[m] == Some("#" + current))
    {
      active := active + [hrefs[j] == Some("#" + current)];
      j := j + 1;
    }
  }

  /** With no section in view, `current` stays empty and a link whose href is
      the bare `#` is the one marked active. */
  lemma NothingInViewMarksBareHash(sections: seq<Section>, y: real)
    requires forall j :: 0 <= j < |sections| ==> !InView(sections[j], y)
    ensures CurrentId(sections, y) == ""
    ensures "#" + CurrentId(sections, y) == "#"
  {
    assert "#" + "" == "#";
  }

  // ---------------------------------------------------------------------------
  // Navbar

  datatype NavStyle = NavStyle(backgroundColor: string, backdropFilter: string)

  const Translucent := NavStyle("rgba(255, 255, 255, 0.95)", "blur(10px)")
  const Opaque := NavStyle("#FFFFFF", "none")

  /** The navbar is blurred exactly once the page is scrolled past 100 pixels. */
  function NavbarStyle(scrollY: real): (r: NavStyle)
    ensures r == Translucent || r == Opaque
    ensures r.backdropFilter == "none" <==> scrollY <= 100.0
  {
    if scrollY > 100.0 then Translucent else Opaque
  }

  /** The style is translucent exactly past 100 pixels (100 itself is still
      opaque), and once translucent it stays so further down the page. */
  lemma NavbarThreshold(y: real, z: real)
    ensures NavbarStyle(y) == Translucent <==> y > 100.0
    ensures NavbarStyle(y) == Opaque <==> y <= 100.0
    ensures y <= z && NavbarStyle(y) == Translucent ==> NavbarStyle(z) == Translucent
  {
  }
}
