/** The contact form's submit handler: validation, the three message texts,
    the `mailto:` and WhatsApp links that carry them, and the message region
    (`formMessage`) the handler, showFormMessage and the reset button write. */
module Submission {
  import opened Optional
  import opened Text
  import opened UriEncoding
  import opened Subjects
  import opened Validation

  const Recipient := "praveenmanickam823@gmail.com"
  const WhatsAppNumber := "919942010288"
  const SuccessNotice := "Form submitted successfully! Choose how you want to send your message:"

  /** The part of each link before its query. */
  const MailtoTarget := "mailto:" + Recipient
  const WhatsAppTarget := "https://wa.me/" + WhatsAppNumber

  /** Everything of the `mailto:` link up to the encoded subject. */
  const MailtoHead := MailtoTarget + "?subject="
  const BodyField := "&body="
  /** Everything of the WhatsApp link up to the encoded text. */
  const WhatsAppHead := WhatsAppTarget + "?text="

  /** The three plain texts, before encoding. */
  datatype Payload = Payload(emailSubject: string, emailBody: string, whatsappText: string)

  /** The two link targets offered after a successful submission. */
  datatype Links = Links(mailto: string, whatsapp: string)

  /** What one submission ends in: the message of the first failed rule, or
      the two links. */
  datatype Outcome = Rejected(message: string) | Accepted(links: Links)

  /** The texts built from the fields as read (trimmed; the phone as typed,
      not the cleaned digits). */
  function ComposePayload(f: Fields): Payload {
    Payload(
      "Idly Express Contact: " + SubjectText(f.subject),
      "Name: " + f.name + "\n" + "Phone: " + f.phone + "\n" + "Email: " + f.email + "\n"
        + "Subject: " + SubjectText(f.subject) + "\n\n" + "Message:\n" + f.message,
      "Hello Idly Express!\n\n" + "Name: " + f.name + "\n" + "Phone: " + f.phone + "\n"
        + "Email: " + f.email + "\n" + "Subject: " + SubjectText(f.subject) + "\n\n"
        + "Message: " + f.message)
  }

  function MailtoHref(subject: string, body: string): string {
    MailtoHead + EncodeURIComponent(subject) + BodyField + EncodeURIComponent(body)
  }

  function WhatsAppHref(text: string): string {
    WhatsAppHead + EncodeURIComponent(text)
  }

  function BuildLinks(p: Payload): Links {
    Links(MailtoHref(p.emailSubject, p.emailBody), WhatsAppHref(p.whatsappText))
  }

  /** The whole submit handler as a function of what the user typed. */
  function Evaluate(raw: Fields): Outcome {
    var f := ReadFields(raw);
    match FirstError(f)
    case Some(e) => Rejected(e)
    case None => Accepted(BuildLinks(ComposePayload(f)))
  }

  // ----- Reading the links back --------------------------------------------

  /** The text before and after the first `c`, if there is one. */
  function SplitAtFirst(t: string, c: char): (r: Option<(string, string)>)
    ensures r.Some? ==> t == r.value.0 + [c] + r.value.1 && c !in r.value.0
    ensures r.None? ==> c !in t
  {
    if t == [] then None
    else if t[0] == c then Some(([], t[1..]))
    else match SplitAtFirst(t[1..], c)
      case None => None
      case Some(parts) => Some(([t[0]] + parts.0, parts.1))
  }

  lemma {:induction false} SplitAtFirstOf(a: string, c: char, b: string)
    requires c !in a
    ensures SplitAtFirst(a + [c] + b, c) == Some((a, b))
  {
    if a == [] {
      assert a + [c] + b == [c] + b;
    } else {
      assert (a + [c] + b)[1..] == a[1..] + [c] + b;
      SplitAtFirstOf(a[1..], c, b);
      assert [a[0]] + a[1..] == a;
    }
  }

  /** The pieces of `t` between the occurrences of `c`. */
  function SplitAll(t: string, c: char): (pieces: seq<string>)
    ensures |pieces| >= 1
    decreases |t|
  {
    match SplitAtFirst(t, c)
    case None => [t]
    case Some(parts) => [parts.0] + SplitAll(parts.1, c)
  }

  /** The value of the first `name=value` field with the given name. */
  function FieldValue(fields: seq<string>, name: string): Option<string> {
    if fields == [] then None
    else match SplitAtFirst(fields[0], '=')
      case Some(nv) =>
        if nv.0 == name then Some(nv.1) else FieldValue(fields[1..], name)
      case None => FieldValue(fields[1..], name)
  }

  /** The query of a link to `target`: everything after `target?`. */
  function QueryOf(h: string, target: string): Option<string> {
    if |h| <= |target| || h[..|target|] != target || h[|target|] != '?' then None
    else Some(h[|target| + 1..])
  }

  /** A receiving mail client's view of the link (RFC 6068): the query is
      cut into header fields at each `&`, the `subject` and `body` fields
      are looked up by name, and their values percent-decoded to octets. */
  function ReadMailto(h: string): Option<(seq<Byte>, seq<Byte>)> {
    match QueryOf(h, MailtoTarget)
    case None => None
    case Some(q) => ReadMailtoQuery(q)
  }

  function ReadMailtoQuery(q: string): Option<(seq<Byte>, seq<Byte>)> {
    var fields := SplitAll(q, '&');
    match (FieldValue(fields, "subject"), FieldValue(fields, "body"))
    case (Some(sv), Some(bv)) =>
      (match (PercentDecode(sv), PercentDecode(bv))
       case (Some(subject), Some(body)) => Some((subject, body))
       case _ => None)
    case _ => None
  }

  /** WhatsApp's view of its link: the `text` parameter, percent-decoded. */
  function ReadWhatsApp(h: string): Option<seq<Byte>> {
    match QueryOf(h, WhatsAppTarget)
    case None => None
    case Some(q) =>
      match FieldValue(SplitAll(q, '&'), "text")
      case None => None
      case Some(v) => PercentDecode(v)
  }

  /** A field `name=value` whose name has no `=` reads back as that value. */
  lemma FieldOf(name: string, value: string)
    requires '=' !in name
    ensures SplitAtFirst(name + "=" + value, '=') == Some((name, value))
  {
    assert name + "=" + value == name + ['='] + value;
    SplitAtFirstOf(name, '=', value);
  }

  /** The query the `mailto:` link carries consists of exactly its two
      fields, subject first. */
  lemma MailtoFields(es: string, eb: string)
    requires '&' !in es && '&' !in eb
    ensures FieldValue(SplitAll("subject=" + es + BodyField + eb, '&'), "subject") == Some(es)
    ensures FieldValue(SplitAll("subject=" + es + BodyField + eb, '&'), "body") == Some(eb)
  {
    var f1, f2 := "subject" + "=" + es, "body" + "=" + eb;
    assert "subject=" + es + BodyField + eb == f1 + ['&'] + f2;
    assert '&' !in f1 && '&' !in f2;
    SplitAtFirstOf(f1, '&', f2);
    assert SplitAll(f2, '&') == [f2];
    assert SplitAll(f1 + ['&'] + f2, '&') == [f1, f2];
    FieldOf("subject", es);
    FieldOf("body", eb);
    assert [f1, f2][1..] == [f2];
  }

  lemma LinkQuery(target: string, q: string)
    ensures QueryOf(target + "?" + q, target) == Some(q)
  {
    var h := target + "?" + q;
    assert h[..|target|] == target;
    assert h[|target| + 1..] == q;
  }

  lemma MailtoShape(es: string, eb: string)
    ensures MailtoHead + es + BodyField + eb == MailtoTarget + "?" + ("subject=" + es + BodyField + eb)
  {
  }

  lemma WhatsAppShape(ew: string)
    ensures WhatsAppHead + ew == WhatsAppTarget + "?" + ("text" + "=" + ew)
  {
  }

  /** The `mailto:` link delivers exactly the subject and body it was built
      from: its two header fields decode to their UTF-8 bytes. */
  lemma MailtoRoundTrip(subject: string, body: string)
    ensures ReadMailto(MailtoHref(subject, body)) == Some((Utf8Encode(subject), Utf8Encode(body)))
  {
    var es, eb := EncodeURIComponent(subject), EncodeURIComponent(body);
    var q := "subject=" + es + BodyField + eb;
    MailtoShape(es, eb);
    LinkQuery(MailtoTarget, q);
    assert ReadMailtoQuery(q) == Some((Utf8Encode(subject), Utf8Encode(body))) by {
      EncodedHasNoDelimiters(subject);
      EncodedHasNoDelimiters(body);
      MailtoFields(es, eb);
      DecodeEncode(subject);
      DecodeEncode(body);
    }
  }

  /** The WhatsApp link delivers exactly the text it was built from. */
  lemma WhatsAppRoundTrip(text: string)
    ensures ReadWhatsApp(WhatsAppHref(text)) == Some(Utf8Encode(text))
  {
    var ew := EncodeURIComponent(text);
    var f := "text" + "=" + ew;
    WhatsAppShape(ew);
    LinkQuery(WhatsAppTarget, f);
    assert FieldValue(SplitAll(f, '&'), "text") == Some(ew) by {
      EncodedHasNoDelimiters(text);
      assert '&' !in f;
      assert SplitAll(f, '&') == [f];
      FieldOf("text", ew);
    }
    DecodeEncode(text);
  }

  // ----- What a submission ends in -----------------------------------------

  /** The rules decide in order and the first failure is the outcome: a
      rejection carries exactly that rule's message, and links are built
      only when every rule passes. */
  lemma EvaluateDecision(raw: Fields)
    ensures Evaluate(raw) == Rejected(MissingFieldsError) <==> Blank(raw)
    ensures Evaluate(raw) == Rejected(InvalidEmailError) <==>
      !Blank(raw) && !IsEmailShape(Trim(raw.email))
    ensures Evaluate(raw) == Rejected(InvalidPhoneError) <==>
      !Blank(raw) && IsEmailShape(Trim(raw.email)) && !IsValidPhone(Trim(raw.phone))
    ensures Evaluate(raw).Accepted? <==>
      !Blank(raw) && IsEmailShape(Trim(raw.email)) && IsValidPhone(Trim(raw.phone))
    ensures Evaluate(raw).Rejected? ==>
      Evaluate(raw).message in [MissingFieldsError, InvalidEmailError, InvalidPhoneError]
  {
    ValidationOrder(raw);
  }

  /** On success both links carry the exact texts of the handler: the
      mail subject and body, and the WhatsApp greeting text, built from the
      trimmed name, phone (as typed, separators included), e-mail and message
      and the subject's label. */
  lemma AcceptedLinksCarryTexts(raw: Fields)
    requires Evaluate(raw).Accepted?
    ensures ReadMailto(Evaluate(raw).links.mailto) == Some((
      Utf8Encode("Idly Express Contact: " + SubjectText(raw.subject)),
      Utf8Encode("Name: " + Trim(raw.name) + "\n" + "Phone: " + Trim(raw.phone) + "\n"
        + "Email: " + Trim(raw.email) + "\n" + "Subject: " + SubjectText(raw.subject) + "\n\n"
        + "Message:\n" + Trim(raw.message))))
    ensures ReadWhatsApp(Evaluate(raw).links.whatsapp) == Some(Utf8Encode(
      "Hello Idly Express!\n\n" + "Name: " + Trim(raw.name) + "\n" + "Phone: " + Trim(raw.phone) + "\n"
        + "Email: " + Trim(raw.email) + "\n" + "Subject: " + SubjectText(raw.subject) + "\n\n"
        + "Message: " + Trim(raw.message)))
  {
    var p := ComposePayload(ReadFields(raw));
    MailtoRoundTrip(p.emailSubject, p.emailBody);
    WhatsAppRoundTrip(p.whatsappText);
  }

  /** Nothing that ends a URI or starts a fragment or another query: no
      JavaScript white space, no `#` and no `?`. */
  predicate NoBreak(t: string) {
    forall i :: 0 <= i < |t| ==> !IsSpace(t[i]) && t[i] !in "#?"
  }

  lemma NoBreakConcat(a: string, b: string)
    requires NoBreak(a) && NoBreak(b)
    ensures NoBreak(a + b)
  {
    forall i | 0 <= i < |a + b| ensures !IsSpace((a + b)[i]) && (a + b)[i] !in "#?" {
      if i >= |a| { assert (a + b)[i] == b[i - |a|]; }
    }
  }

  lemma NoBreakChar(c: char)
    requires IsUnreserved(c) || c == '%' || IsUpperHexDigit(c)
    ensures !IsSpace(c) && c !in "#?"
  {
  }

  /** An encoded payload never breaks a link. */
  lemma EncodedNoBreak(s: string)
    ensures NoBreak(EncodeURIComponent(s))
  {
    var t := EncodeURIComponent(s);
    EncodedAlphabet(t);
    forall i | 0 <= i < |t| ensures !IsSpace(t[i]) && t[i] !in "#?" {
      NoBreakChar(t[i]);
    }
  }

  lemma MailtoQueryNoBreak(es: string, eb: string)
    requires NoBreak(es) && NoBreak(eb)
    ensures NoBreak("subject=" + es + BodyField + eb)
  {
    assert NoBreak("subject=") && NoBreak(BodyField);
    NoBreakConcat("subject=", es);
    NoBreakConcat("subject=" + es, BodyField);
    NoBreakConcat("subject=" + es + BodyField, eb);
  }

  /** The `mailto:` link is its fixed target, one `?`, and a query with no
      white space, no `#` and no further `?`: whatever the user typed cannot
      cut the link short, start a fragment or open a second query. */
  lemma MailtoIsUriSafe(subject: string, body: string)
    ensures MailtoHref(subject, body) == MailtoTarget + "?" + MailtoHref(subject, body)[|MailtoTarget| + 1..]
    ensures NoBreak(MailtoHref(subject, body)[|MailtoTarget| + 1..])
  {
    var es, eb := EncodeURIComponent(subject), EncodeURIComponent(body);
    var q := "subject=" + es + BodyField + eb;
    var h := MailtoHref(subject, body);
    MailtoShape(es, eb);
    assert h[|MailtoTarget| + 1..] == q;
    EncodedNoBreak(subject);
    EncodedNoBreak(body);
    MailtoQueryNoBreak(es, eb);
  }

  /** The same for the WhatsApp link. */
  lemma WhatsAppIsUriSafe(text: string)
    ensures WhatsAppHref(text) == WhatsAppTarget + "?" + WhatsAppHref(text)[|WhatsAppTarget| + 1..]
    ensures NoBreak(WhatsAppHref(text)[|WhatsAppTarget| + 1..])
  {
    var ew := EncodeURIComponent(text);
    var r := "text" + "=" + ew;
    WhatsAppShape(ew);
    assert NoBreak(r) by {
      EncodedNoBreak(text);
      assert NoBreak("text" + "=");
      NoBreakConcat("text" + "=", ew);
    }
    assert WhatsAppHref(text)[|WhatsAppTarget| + 1..] == r;
  }

  /** The checks of the submit handler in their order, each returning at
      the first failure, and the links built once all pass. */
  method Decide(raw: Fields) returns (outcome: Outcome)
    ensures outcome == Evaluate(raw)
  {
    var f := ReadFields(raw);
    if f.name == [] || f.phone == [] || f.email == [] || f.subject == [] || f.message == [] {
      return Rejected(MissingFieldsError);
    }
    if !EmailRegexTest(f.email) {
      return Rejected(InvalidEmailError);
    }
    var cleanPhone := StripSeparators(f.phone);
    if !PhoneRegexTest(cleanPhone) {
      return Rejected(InvalidPhoneError);
    }
    outcome := Accepted(BuildLinks(ComposePayload(f)));
  }

  // ----- The message region ------------------------------------------------

  /** The `type` argument of showFormMessage, which becomes the region's
      class `form-message error` or `form-message info`. */
  datatype Kind = Error | Info

  /** What the region shows: a plain text (textContent) or the block with the
      two links (innerHTML). */
  datatype Content = Plain(text: string) | Choices(links: Links)

  /** The `formMessage` element. `pendingHides` counts the five-second
      auto-hide timers that error messages have started and that have not
      fired yet; nothing cancels them. */
  class MessageRegion {
    var content: Content
    var kind: Option<Kind>
    var visible: bool
    var pendingHides: nat

    constructor ()
      ensures content == Plain([]) && kind == None && !visible && pendingHides == 0
    {
      content := Plain([]);
      kind := None;
      visible := false;
      pendingHides := 0;
    }

    /** showFormMessage: overwrite the text and the kind, show the region,
        and for an error start one more auto-hide timer. */
    method ShowFormMessage(message: string, k: Kind)
      modifies this
      ensures content == Plain(message) && kind == Some(k) && visible
      ensures pendingHides == old(pendingHides) + (if k == Error then 1 else 0)
    {
      content := Plain(message);
      kind := Some(k);
      visible := true;
      if k == Error {
        pendingHides := pendingHides + 1;
      }
    }

    /** One auto-hide timer fires: the region is hidden whatever it shows
        by then, and its content and kind stay. */
    method AutoHideFires()
      requires pendingHides > 0
      modifies this
      ensures !visible && pendingHides == old(pendingHides) - 1
      ensures content == old(content) && kind == old(kind)
    {
      visible := false;
      pendingHides := pendingHides - 1;
    }

    /** The submit handler. A rejected submission shows its rule's message
        as an error; an accepted one shows the notice and then (the handler's
        deferred step, taken here at once) replaces it with the two links. */
    method Submit(raw: Fields) returns (outcome: Outcome)
      modifies this
      ensures outcome == Evaluate(raw)
      ensures visible
      ensures outcome.Rejected? ==>
        content == Plain(outcome.message) && kind == Some(Error)
        && pendingHides == old(pendingHides) + 1
      ensures outcome.Accepted? ==>
        content == Choices(outcome.links) && kind == Some(Info)
        && pendingHides == old(pendingHides)
    {
      outcome := Decide(raw);
      match outcome
      case Rejected(message) =>
        ShowFormMessage(message, Error);
      case Accepted(links) =>
        ShowFormMessage(SuccessNotice, Info);
        content := Choices(links);
    }

    /** The reset button: after the fields are cleared the region is hidden
        and emptied. Pending auto-hide timers are not affected. */
    method ResetClicked()
      modifies this
      ensures !visible && content == Plain([])
      ensures kind == old(kind) && pendingHides == old(pendingHides)
    {
      visible := false;
      content := Plain([]);
    }
  }
}
