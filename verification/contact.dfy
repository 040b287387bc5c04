/** The contact-form endpoint (`send-email.php`): the ordered checks that decide
    the single JSON response, the escaping and the byte-length limits, and what
    happens after `mail()` answers: the response code, the log line and the
    auto-reply. The e-mail filters of `filter_var`, the mail transport and the
    clock are parameters. */
module Contact {
  import opened Opt
  import opened Php
  import Text
  import Client

  /** The settings of `email-config.php` the handler reads. */
  datatype Config = Config(
    recipientEmail: string, organizationName: string, subjectPrefix: string,
    enableLogging: bool, contactLogFile: string, errorLogFile: string,
    sendAutoReply: bool, autoReplySubject: string, whatsapp: string)

  const EmailConfig := Config(
    "alma.solidearth@gmail.com", "Chayah Kalahari Project NPC", "New Contact Form Message - ",
    true, "contact-log.txt", "error-log.txt",
    true, "Thank you for contacting Chayah Kalahari Project NPC", "+27 83 388 0898")

  /** The handler's own limits; the configuration's `max_name_length` and
      `max_message_length` have the same values but are never read. */
  const MaxNameBytes := 100
  const MaxMessageBytes := 2000

  const MethodNotAllowed := "Method not allowed"
  const FieldsRequired := "All fields are required"
  const InvalidEmail := "Please enter a valid email address"
  const NameTooLong := "Name is too long"
  const MessageTooLong := "Message is too long"
  const Thanks := "Thank you for your message! We will get back to you soon."
  const SendFailed := "Sorry, there was an error sending your message. Please try again or contact us directly."

  /** `$_SERVER['REQUEST_METHOD']` and the string fields of `$_POST`. */
  datatype HttpRequest = HttpRequest(requestMethod: string, post: map<string, string>)

  /** `filter_var` with `FILTER_VALIDATE_EMAIL` and with `FILTER_SANITIZE_EMAIL`. */
  datatype EmailFilters = EmailFilters(validate: string -> bool, sanitize: string -> string)

  datatype Response = Response(code: int, success: bool, message: string)

  /** A call of `mail()`: recipient, subject, the `Reply-To` header when there
      is one, and the WhatsApp link the auto-reply body carries. */
  datatype Mail = Mail(to: string, subject: string, replyTo: Option<string>, whatsappLink: Option<string>)

  datatype LogLine = LogLine(file: string, line: string)

  /** Everything one request produces, in order: the response, the mails sent, the lines appended to logs. */
  datatype Outcome = Outcome(response: Response, mails: seq<Mail>, log: seq<LogLine>)

  /** The fields after escaping (name, message) and sanitising (email). */
  datatype Fields = Fields(name: string, email: string, message: string)

  datatype Checked = Rejected(response: Response) | Accepted(fields: Fields)

  /** `isset($_POST[key]) ? trim($_POST[key]) : ''`. */
  function Field(post: map<string, string>, key: string): string {
    if key in post then Trim(post[key]) else ""
  }

  function Reject(code: int, message: string): Checked {
    Rejected(Response(code, false, message))
  }

  /** The checks in the order the script makes them; the first that fails
      decides the response and ends the script. */
  function Check(req: HttpRequest, filters: EmailFilters): (r: Checked)
    ensures r.Rejected? ==> !r.response.success && (r.response.code == 400 || r.response.code == 405)
    ensures r.Accepted? ==>
      Posted(req) && Strlen(r.fields.name) <= MaxNameBytes && Strlen(r.fields.message) <= MaxMessageBytes
      && !IsEmpty(Field(req.post, "name")) && !IsEmpty(Field(req.post, "email"))
      && !IsEmpty(Field(req.post, "message")) && filters.validate(Field(req.post, "email"))
  {
    if req.requestMethod != "POST" then Reject(405, MethodNotAllowed)
    else
      var name := Field(req.post, "name");
      var email := Field(req.post, "email");
      var message := Field(req.post, "message");
      if IsEmpty(name) || IsEmpty(email) || IsEmpty(message) then Reject(400, FieldsRequired)
      else if !filters.validate(email) then Reject(400, InvalidEmail)
      else
        var safeName := Escape(name);
        var safeEmail := filters.sanitize(email);
        var safeMessage := Escape(message);
        if Strlen(safeName) > MaxNameBytes then Reject(400, NameTooLong)
        else if Strlen(safeMessage) > MaxMessageBytes then Reject(400, MessageTooLong)
        else Accepted(Fields(safeName, safeEmail, safeMessage))
  }

  /** The link `sendAutoReply` builds: every `+` of the configured number removed. */
  function WhatsAppLink(number: string): (r: string)
    ensures '+' !in r
    ensures '+' !in number ==> r == "https://wa.me/" + number
  {
    "https://wa.me/" + Text.RemoveAll('+', number)
  }

  /** A `+` anywhere in the number is dropped and the characters on both sides
      of it are kept, in order. */
  lemma WhatsAppLinkDropsPlus(a: string, b: string)
    ensures WhatsAppLink(a + ['+'] + b) == WhatsAppLink(a + b)
  {
    Text.RemoveAllDropsOne('+', a, b);
  }

  /** The whole script for one request. `mailOk` is what `mail()` returns for
      the message to the organisation and `now` is the timestamp `date` gives. */
  function HandleRequest(req: HttpRequest, filters: EmailFilters, config: Config, mailOk: bool, now: string): (o: Outcome)
    ensures |o.mails| <= 2 && |o.log| <= 1
    ensures o.response.success <==> o.response.code == 200
    ensures o.mails == [] <==> Check(req, filters).Rejected?
  {
    match Check(req, filters)
    case Rejected(response) => Outcome(response, [], [])
    case Accepted(f) =>
      var main := Mail(config.recipientEmail, config.subjectPrefix + config.organizationName, Some(f.email), None);
      var response := if mailOk then Response(200, true, Thanks) else Response(500, false, SendFailed);
      var log :=
        if !config.enableLogging then []
        else if mailOk then [LogLine(config.contactLogFile, now + " - Contact form submitted by: " + f.name + " (" + f.email + ")\n")]
        else [LogLine(config.errorLogFile, now + " - Failed to send email from: " + f.name + " (" + f.email + ")\n")];
      var autoReply :=
        if mailOk && config.sendAutoReply then [Mail(f.email, config.autoReplySubject, None, Some(WhatsAppLink(config.whatsapp)))]
        else [];
      Outcome(response, [main] + autoReply, log)
  }

  // The conditions of the individual checks, named for the lemmas below.

  predicate Posted(req: HttpRequest) {
    req.requestMethod == "POST"
  }

  predicate Missing(req: HttpRequest) {
    IsEmpty(Field(req.post, "name")) || IsEmpty(Field(req.post, "email")) || IsEmpty(Field(req.post, "message"))
  }

  predicate EmailRejected(req: HttpRequest, filters: EmailFilters) {
    !filters.validate(Field(req.post, "email"))
  }

  /** The limits as the raw text sees them: its byte length plus what escaping adds. */
  predicate NameOverLimit(req: HttpRequest) {
    var name := Field(req.post, "name");
    Strlen(name) + Growth(name) > MaxNameBytes
  }

  predicate MessageOverLimit(req: HttpRequest) {
    var message := Field(req.post, "message");
    Strlen(message) + Growth(message) > MaxMessageBytes
  }

  /** A request that is not a POST gets 405 whatever it carries, and nothing
      is sent or logged. */
  lemma MethodCheckedFirst(req: HttpRequest, filters: EmailFilters, config: Config, mailOk: bool, now: string)
    requires !Posted(req)
    ensures HandleRequest(req, filters, config, mailOk, now) == Outcome(Response(405, false, MethodNotAllowed), [], [])
  {
  }

  /** The checks restated on the raw fields: the limits compare the raw byte
      length plus the escaping growth. */
  lemma CheckByConditions(req: HttpRequest, filters: EmailFilters)
    ensures Check(req, filters) ==
      if !Posted(req) then Reject(405, MethodNotAllowed)
      else if Missing(req) then Reject(400, FieldsRequired)
      else if EmailRejected(req, filters) then Reject(400, InvalidEmail)
      else if NameOverLimit(req) then Reject(400, NameTooLong)
      else if MessageOverLimit(req) then Reject(400, MessageTooLong)
      else Accepted(Fields(Escape(Field(req.post, "name")), filters.sanitize(Field(req.post, "email")),
                           Escape(Field(req.post, "message"))))
  {
    EscapedStrlen(Field(req.post, "name"));
    EscapedStrlen(Field(req.post, "message"));
  }

  /** A rejection's response is the one sent; an accepted request is answered with 200 or 500. */
  lemma ResponseOfCheck(req: HttpRequest, filters: EmailFilters, config: Config, mailOk: bool, now: string)
    ensures var o := HandleRequest(req, filters, config, mailOk, now);
      && (Check(req, filters).Rejected? ==> o == Outcome(Check(req, filters).response, [], []))
      && (Check(req, filters).Accepted? ==> o.response.code in {200, 500})
  {
  }

  /** Which response a rejected request gets: each message is given exactly
      when every earlier check passed and its own check failed. The length
      limits are measured on the escaped text. */
  lemma CheckOrder(req: HttpRequest, filters: EmailFilters, config: Config, mailOk: bool, now: string)
    ensures var o := HandleRequest(req, filters, config, mailOk, now);
      && (o.response == Response(400, false, FieldsRequired) <==> Posted(req) && Missing(req))
      && (o.response == Response(400, false, InvalidEmail) <==>
            Posted(req) && !Missing(req) && EmailRejected(req, filters))
      && (o.response == Response(400, false, NameTooLong) <==>
            Posted(req) && !Missing(req) && !EmailRejected(req, filters) && NameOverLimit(req))
      && (o.response == Response(400, false, MessageTooLong) <==>
            Posted(req) && !Missing(req) && !EmailRejected(req, filters) && !NameOverLimit(req)
            && MessageOverLimit(req))
  {
    CheckByConditions(req, filters);
    ResponseOfCheck(req, filters, config, mailOk, now);
  }

  /** A request passes every check iff it is a POST with all three fields
      present, a valid address and both texts within their limits; only then
      is any mail sent or any line logged. */
  lemma RejectionSendsNothing(req: HttpRequest, filters: EmailFilters, config: Config, mailOk: bool, now: string)
    ensures var o := HandleRequest(req, filters, config, mailOk, now);
      var passes := Posted(req) && !Missing(req) && !EmailRejected(req, filters) && !NameOverLimit(req) && !MessageOverLimit(req);
      && (passes <==> Check(req, filters).Accepted?)
      && (!passes ==> o.mails == [] && o.log == [] && o.response.code in {400, 405} && !o.response.success)
      && (passes ==> |o.mails| >= 1 && o.mails[0].to == config.recipientEmail)
  {
    CheckByConditions(req, filters);
    ResponseOfCheck(req, filters, config, mailOk, now);
  }

  /** After the checks: 200 with the thanks iff `mail()` succeeded, else 500;
      with logging on, exactly one line, to the contact log on success and to
      the error log on failure; an auto-reply, to the sanitised address, iff
      the mail succeeded and auto-replies are configured. */
  lemma MailOutcome(req: HttpRequest, filters: EmailFilters, config: Config, mailOk: bool, now: string)
    requires Check(req, filters).Accepted?
    ensures var o := HandleRequest(req, filters, config, mailOk, now);
      var f := Check(req, filters).fields;
      && (o.response == Response(200, true, Thanks) <==> mailOk)
      && (o.response == Response(500, false, SendFailed) <==> !mailOk)
      && (config.enableLogging <==> |o.log| == 1)
      && (!config.enableLogging <==> o.log == [])
      && (config.enableLogging ==> (o.log[0].file == config.contactLogFile <==> mailOk || config.contactLogFile == config.errorLogFile))
      && (config.enableLogging && !mailOk ==> o.log[0].file == config.errorLogFile)
      && (|o.mails| == 2 <==> mailOk && config.sendAutoReply)
      && (|o.mails| == 2 ==> o.mails[1].to == f.email && o.mails[1].to == filters.sanitize(Field(req.post, "email")))
  {
  }

  /** What an accepted request carries on: the escaped name and message and the sanitised address. */
  lemma AcceptedFields(req: HttpRequest, filters: EmailFilters)
    requires Check(req, filters).Accepted?
    ensures Check(req, filters).fields
         == Fields(Escape(Field(req.post, "name")), filters.sanitize(Field(req.post, "email")), Escape(Field(req.post, "message")))
  {
  }

  /** The texts that reach the mail body and the log contain no raw `< > " '`,
      and unescaping them gives back the trimmed input. */
  lemma AcceptedFieldsAreEscaped(req: HttpRequest, filters: EmailFilters)
    requires Check(req, filters).Accepted?
    ensures var f := Check(req, filters).fields;
      (forall i :: 0 <= i < |f.name| ==> !Raw(f.name[i]))
      && (forall i :: 0 <= i < |f.message| ==> !Raw(f.message[i]))
      && Unescape(f.name) == Field(req.post, "name")
      && Unescape(f.message) == Field(req.post, "message")
  {
    AcceptedFields(req, filters);
    UnescapeEscape(Field(req.post, "name"));
    UnescapeEscape(Field(req.post, "message"));
  }

  /** A run of `<` is one byte per character and four once escaped. */
  lemma {:induction false} AngleRunEscaped(s: string)
    requires forall i :: 0 <= i < |s| ==> s[i] == '<'
    ensures Strlen(s) == |s|
    ensures Strlen(Escape(s)) == 4 * |s|
  {
    if s != [] {
      AngleRunEscaped(s[1..]);
      assert Strlen(Lt) == 4;
      StrlenConcat(Lt, Escape(s[1..]));
    }
  }

  /** A request that passes the earlier checks with a name over the limit once escaped gets "Name is too long". */
  lemma NameCheck(req: HttpRequest, filters: EmailFilters)
    requires Posted(req) && !Missing(req) && !EmailRejected(req, filters)
    requires Strlen(Escape(Field(req.post, "name"))) > MaxNameBytes
    ensures Check(req, filters) == Reject(400, NameTooLong)
  {
  }

  /** A name of `n` angle brackets is within the limit as typed (26 to 100
      bytes) but four times as long once escaped, so the script answers
      "Name is too long" although the raw name would fit. */
  lemma EscapingExpandsPastLimit(req: HttpRequest, filters: EmailFilters)
    requires Posted(req) && !Missing(req) && !EmailRejected(req, filters)
    requires 25 < |Field(req.post, "name")| <= MaxNameBytes
    requires forall i :: 0 <= i < |Field(req.post, "name")| ==> Field(req.post, "name")[i] == '<'
    ensures Strlen(Field(req.post, "name")) <= MaxNameBytes
    ensures Check(req, filters) == Reject(400, NameTooLong)
  {
    AngleRunEscaped(Field(req.post, "name"));
    NameCheck(req, filters);
  }

  /** The page script and the server disagree on what a filled-in field is:
      a name of spaces, or the name `0`, passes the script's check (it does not
      trim, and a non-empty string is truthy), but the server trims and applies
      `empty`, and answers "All fields are required". */
  lemma ClientAcceptsServerRejects(req: HttpRequest, filters: EmailFilters, raw: string)
    requires Posted(req) && "name" in req.post && req.post["name"] == raw
    requires raw == "0" || (raw != [] && forall i :: 0 <= i < |raw| ==> raw[i] == ' ')
    ensures !Client.Falsy(Some(raw))
    ensures Check(req, filters) == Reject(400, FieldsRequired)
  {
    if raw != "0" {
      TrimEmptyIffAllTrim(raw);
    } else {
      assert Trim(raw) == raw by {
        assert !IsTrimChar(raw[0]);
        assert LeadingTrim(raw) == 0 && raw[0..] == raw && TrailingCut(raw) == 1;
      }
    }
  }

  const ConfiguredDigits := "27 83 388 0898"

  lemma ConfiguredNumber()
    ensures EmailConfig.whatsapp == ['+'] + ConfiguredDigits
  {
  }

  lemma DigitsHaveNoPlus()
    ensures '+' !in ConfiguredDigits
  {
    var d := ConfiguredDigits;
    assert forall i :: 0 <= i < |d| ==> d[i] != '+';
  }

  /** With the configured number, the link drops the `+` but keeps the spaces. */
  lemma ConfiguredWhatsAppLink()
    ensures WhatsAppLink(EmailConfig.whatsapp) == "https://wa.me/" + ConfiguredDigits
  {
    ConfiguredNumber();
    DigitsHaveNoPlus();
    LinkOfPlusNumber(ConfiguredDigits);
  }

  /** A number written as `+` and digits gives the link with the digits as they are. */
  lemma LinkOfPlusNumber(d: string)
    requires '+' !in d
    ensures WhatsAppLink(['+'] + d) == "https://wa.me/" + d
  {
    assert (['+'] + d)[1..] == d;
  }
}
