# Idly Express front end: contact form and navigation, modelled in Dafny

The Idly Express restaurant site runs one script, `script.js`. This project
models the parts of it that hold logic and proves what they do:

- **The contact form's submit handler.** It reads five fields and trims
  every one except the subject. Three rules then run in order, and the
  first failure is reported with its own message:
  - presence: no trimmed field is empty and the subject is not empty;
  - the e-mail pattern `^[^\s@]+@[^\s@]+\.[^\s@]+$`;
  - the phone rule: strip white space, `-`, `(` and `)`, then require 10
    to 15 ASCII digits.

  When all three pass, the handler does the following:
  - builds a mail subject, a mail body and a WhatsApp greeting text;
  - runs each through `encodeURIComponent`;
  - offers a `mailto:` link and a `https://wa.me/` link that carry them.
- **`getSubjectText`.** It maps the select box's codes to labels and falls
  back to the code itself.
- **The message region.** `showFormMessage` shows a message there; after a
  successful submission the handler's deferred step replaces it with the
  two links. An error message starts a five-second hide
  timer. The reset button hides and empties the region.
- **The navigation bar.**
  - The hamburger button, the nav links and clicks elsewhere open and close
    the mobile menu.
  - On scroll, the bar gets its `scrolled` class past 50 pixels and the
    back-to-top button shows past 300.
  - The nav link of the section being read is highlighted. This is the
    last section whose top minus 200 pixels the window has passed.
- **`validateForm`.** A generic required-field check that nothing in the
  script calls.

The modules follow the script's concerns:

- `Text`: JavaScript white space, and `trim`.
- `UriEncoding`:
  - `encodeURIComponent` as ECMA-262 defines it;
  - UTF-8 (RFC 3629);
  - the percent-decoding of section 2.1 of RFC 3986, used to state what a
    link carries.
- `Subjects`: the subject labels.
- `Validation`: the three rules, the order they run in, and `validateForm`.
- `Submission`:
  - the handler as a function `Evaluate`;
  - `Decide`, which mirrors the handler's early returns;
  - the links and their round trips;
  - the class `MessageRegion` for the message element.
- `Navigation`: the class `NavBar` with its click and scroll listeners,
  and the section selection.

What the user typed, the section positions and `scrollY` are parameters.
The page elements the listeners change are fields of the two classes.

Three behaviours of the code are easy to miss:

- **The subject is not trimmed before the presence check.** A blank
  subject only fails when it is the empty string.
- **The error hide timer is never cancelled.** A timer started by an
  earlier error hides the region when it fires, even if the region now
  shows a later success notice or the links. `MessageRegion.pendingHides`
  counts these timers.
- **The subject lookup is a dictionary with a fallback.** It is not a
  closed enumeration: the code `other` gives `Other`, and any unknown code,
  such as `xyz`, gives itself.

## Model

| member | source | states |
|---|---|---|
| Text.Trim | script.js:204-208 | the trimmed value is no longer than the input; what `trim` removes and keeps is stated by Text.TrimOfSplit and Text.TrimIsSplit |
| Text.TrimStartShape | script.js:204-208 | the start-trimmed string is a suffix of the input, everything dropped is JavaScript white space, and it does not start with white space |
| Text.TrimEndShape | script.js:204-208 | the end-trimmed string is a prefix of the input, everything dropped is white space, and it does not end with white space |
| Text.TrimOfSplit | script.js:204-208 | for any split of a string into white space, a core without white space at either end, and white space, `trim` returns exactly that core |
| Text.TrimIsSplit | script.js:204-208 | conversely, the input is always white space, then `trim`'s result, then white space |
| Text.TrimEnds | script.js:204-208 | a non-empty trimmed string neither starts nor ends with white space |
| Text.TrimEmptyIff | script.js:211 | a field trims to the empty (falsy) string if and only if it is empty or all white space |
| Text.TrimIdempotent | script.js:204-208 | trimming a trimmed value changes nothing |
| UriEncoding.HexDigit | script.js:232 | the digits of a `%HH` triplet are upper-case hexadecimal digits |
| UriEncoding.HexDigitRoundTrip | script.js:232 | reading a written hexadecimal digit back gives its value |
| UriEncoding.Utf8 | script.js:232 | a character becomes 1 byte below U+0080, 2 below U+0800, 3 below U+10000 and 4 above, with a lead byte in the range its length calls for and continuation bytes 0x80-0xBF |
| UriEncoding.Utf8RoundTrip | script.js:232 | the bytes of a character denote exactly that character |
| UriEncoding.Utf8DecodeEncode | script.js:232 | UTF-8 decoding of the encoding of any string gives that string back |
| UriEncoding.Utf8EncodeInjective | script.js:232 | two different strings never have the same UTF-8 bytes, so the bytes a link delivers determine the text |
| UriEncoding.EncodeURIComponent | script.js:232-249 | every encoded payload is a run of unreserved characters and `%HH` triplets with upper-case digits |
| UriEncoding.EncodedAlphabet | script.js:232-249 | an encoded payload contains only unreserved characters, `%` and upper-case hexadecimal digits |
| UriEncoding.EncodedHasNoDelimiters | script.js:232-249 | no space, tab, CR, LF, `&`, `=`, `?`, `#` or `+` survives encoding |
| UriEncoding.DecodeEncode | script.js:232-249 | percent-decoding an encoded payload gives back exactly the UTF-8 bytes of the original text |
| UriEncoding.EncodeAppend | script.js:232-249 | encoding a concatenation gives the concatenation of the encodings, so each character is encoded on its own, whatever surrounds it |
| UriEncoding.UnreservedKept | script.js:232-249 | an unreserved character appears as written in the encoding of any text that contains it, between the encodings of what precedes and what follows it |
| UriEncoding.EncodeUnchangedIff | script.js:232-249 | a text comes out of the encoding unchanged if and only if all its characters are unreserved |
| UriEncoding.EncodingGrows | script.js:232-249 | a text with any reserved character comes out strictly longer |
| Subjects.SubjectText | script.js:302-311 | a known code gives its label, an unknown code gives itself, and the result is empty only for the empty code |
| Subjects.SubjectTextTable | script.js:303-310 | the five codes give "Place an Order", "Bulk Catering Inquiry", "Feedback", "Complaint" and "Other", and "xyz" gives "xyz" |
| Validation.ReadFields | script.js:204-208 | the values as the handler reads them: every field trimmed except the subject; what that means for each rule is stated by Validation.ValidationOrder |
| Validation.EmailRegexTest | script.js:217-218 | `emailRegex.test` as an automaton run; what it accepts is stated by Validation.EmailRegexTestIff |
| Validation.RunLeads | script.js:217-218 | from every state, the e-mail automaton accepts exactly the suffixes that state's description allows |
| Validation.RunGivesShape | script.js:217-218 | an address the pattern accepts has the shape local@domain with a dot inside the domain and no white space or second `@` |
| Validation.ShapeGivesRun | script.js:217-218 | every address of that shape is accepted |
| Validation.EmailRegexTestIff | script.js:217-218 | the pattern test accepts an address if and only if it has a non-empty local part, one `@`, and a domain with a dot that is neither its first nor its last character, with no white space anywhere |
| Validation.EmailExampleAccepted | script.js:217-218 | `a@b.com` is accepted |
| Validation.EmailExamplesRefused | script.js:217-218 | `a@b` and `a@.com` are refused |
| Validation.EmailExampleSpace | script.js:217-218 | `a b@c.d` is refused |
| Validation.StripSeparators | script.js:225 | the cleanup never lengthens the number; what it removes and keeps is stated by Validation.StripKeepsOthers and Validation.StripAppend |
| Validation.StripKeepsOthers | script.js:225 | after the cleanup no separator is left, and every other character is kept exactly as often as it occurs |
| Validation.StripAppend | script.js:225 | the cleanup works piece by piece, so the kept characters stay in their order |
| Validation.StripKeepsClean | script.js:225 | a text without separators is unchanged by the cleanup |
| Validation.StripDropsSeparators | script.js:225 | a text of separators only is removed entirely |
| Validation.IsValidPhone | script.js:224-226 | the phone test on the cleaned number; what it accepts is stated by Validation.PhoneRuleIff |
| Validation.PhoneRuleIff | script.js:224-226 | a phone number passes if and only if it holds only ASCII digits and separators and 10 to 15 characters remain after the cleanup |
| Validation.PhoneExampleShort | script.js:224-226 | "123" is refused |
| Validation.PhoneExamplePlus | script.js:224-226 | "+919942010288" is refused, because `+` is not a separator |
| Validation.PhoneExampleDigits | script.js:224-226 | "9942010288" passes unchanged |
| Validation.StripGroups | script.js:225 | separator groups between digit groups disappear and the digits join in order |
| Validation.PhoneExampleGrouped | script.js:224-226 | "(994) 201-0288" passes |
| Validation.FirstError | script.js:210-229 | the message of the first rule the read fields break; stated in terms of the typed fields by Validation.ValidationOrder |
| Validation.ValidationOrder | script.js:204-229 | the missing-fields error is reported if and only if a trimmed field or the subject is empty; the e-mail error if and only if presence passes and the e-mail has the wrong shape; the phone error if and only if both earlier rules pass and the phone fails; no error if and only if all three pass |
| Validation.ValidateForm | script.js:120-134 | the result is true if and only if no required value is blank, and exactly the blank inputs are marked |
| Submission.ComposePayload | script.js:232-249 | the three message texts; their exact layout as the links deliver it is stated by Submission.AcceptedLinksCarryTexts |
| Submission.MailtoHref | script.js:264 | the `mailto:` link; what it delivers is stated by Submission.MailtoRoundTrip and its shape by Submission.MailtoIsUriSafe |
| Submission.WhatsAppHref | script.js:269 | the WhatsApp link; what it delivers is stated by Submission.WhatsAppRoundTrip and its shape by Submission.WhatsAppIsUriSafe |
| Submission.Evaluate | script.js:200-249 | the whole handler as a function of the typed fields; its decisions are stated by Submission.EvaluateDecision and its links by Submission.AcceptedLinksCarryTexts |
| Submission.SplitAtFirst | script.js:264 | the text splits around the first occurrence of the character, or does not contain it |
| Submission.SplitAtFirstOf | script.js:264 | splitting `a + [c] + b` at its first `c`, with `c` not in `a`, gives back `a` and `b` |
| Submission.MailtoFields | script.js:264 | cutting the link's query at each `&` gives exactly two header fields, and looking up `subject` and `body` by name gives the two encoded texts |
| Submission.MailtoRoundTrip | script.js:264 | the `mailto:` link's `subject` and `body` header fields, cut at `&` and found by name as RFC 6068 reads them, decode to exactly the UTF-8 bytes of the subject and body it was built from |
| Submission.WhatsAppRoundTrip | script.js:269 | the WhatsApp link's `text` parameter, found by name, decodes to exactly the UTF-8 bytes of its text |
| Submission.MailtoIsUriSafe | script.js:264 | the `mailto:` link is the fixed recipient, one `?`, and a query with no JavaScript white space (space, TAB, CR, LF and the rest of the set `trim` removes), no `#` and no further `?` |
| Submission.WhatsAppIsUriSafe | script.js:269 | the WhatsApp link is the fixed number's address, one `?`, and a query with no JavaScript white space, no `#` and no further `?` |
| Submission.EvaluateDecision | script.js:210-229 | a submission is rejected with each rule's message exactly when that rule is the first to fail, only with one of the three messages, and links are built exactly when every rule passes |
| Submission.AcceptedLinksCarryTexts | script.js:232-249 | on success the mail link carries "Idly Express Contact: " plus the label, and the body of Name, Phone, Email and Subject lines, a blank line and "Message:" on its own line before the message; the WhatsApp link carries the greeting, the same lines, and "Message: " followed by the message; the phone is the trimmed one, not the cleaned one |
| Submission.Decide | script.js:204-249 | the handler's checks with their early returns produce exactly the outcome `Evaluate` specifies |
| Submission.MessageRegion.ShowFormMessage | script.js:288-299 | the region shows the message with its kind, and an error starts one more hide timer |
| Submission.MessageRegion.AutoHideFires | script.js:295-297 | a firing timer hides the region whatever it shows and leaves its content |
| Submission.MessageRegion.Submit | script.js:200-284 | the outcome is the one `Evaluate` specifies; a rejection shows its message as an error with one more timer, and an acceptance ends with the two links shown as information |
| Submission.MessageRegion.ResetClicked | script.js:314-324 | the region is hidden and emptied, and pending timers stay |
| Navigation.CurrentId | script.js:84-93 | the id the handler settles on: "" when no section is reached, otherwise the id of the reached section after which none is reached |
| Navigation.LastReached | script.js:84-93 | the index chosen is a reached section, with no reached section after it, or -1 when none is reached |
| Navigation.ActiveSection | script.js:84-93 | the forward pass over the sections ends with the id of the last reached section, or "" when none is reached |
| Navigation.ScrollingDownNeverMovesBack | script.js:87-93 | scrolling further down never moves the highlight to an earlier section |
| Navigation.SortedSectionsBands | script.js:87-93 | with the sections in order of their tops, section k is highlighted exactly while it is reached and the next one is not |
| Navigation.NavBar.HamburgerClick | script.js:16-19 | both `active` flags are toggled, so they stay equal |
| Navigation.NavBar.NavLinkClick | script.js:22-27 | both flags are cleared |
| Navigation.NavBar.DocumentClick | script.js:30-38 | a click outside the menu and off the hamburger clears both flags when the menu is open; any other click changes nothing |
| Navigation.NavBar.Click | script.js:16-38 | after a click and its bubbling to the document, the flags are toggled (hamburger), cleared (nav link, or elsewhere with the menu open) or unchanged, and stay equal |
| Navigation.NavBar.HighlightLinks | script.js:95-100 | exactly the links whose href is `#` followed by the current id are active |
| Navigation.NavBar.OnScroll | script.js:83-101 | after a scroll to any position, fractional ones included, exactly the links pointing at the last reached section are active; the bar is shaded past 50 pixels and the back-to-top button shown past 300; the menu is untouched |

## Left out

- Page access is not modelled: `getElementById`, `querySelectorAll`, the `innerHTML` markup around the two links, class names and style strings. The fields of `MessageRegion` and `NavBar` stand for the parts that matter.
- `console.log` tracking of WhatsApp and phone link clicks, and the welcome messages, are not modelled: they are output only.
- Smooth scrolling is not modelled because it is a browser animation. This covers anchor clicks, the back-to-top button's click and `scrollIntoView`.
- The IntersectionObserver fade-ins and lazy image loading are not modelled: they are browser callbacks with fractional thresholds.
- The creation and styling of the back-to-top button are not modelled; only whether it is shown is.
- Submission.MessageRegion.Submit: the 100 ms deferral before the links replace the success notice is taken at once. The notice's own display is still modelled, through ShowFormMessage, and is then overwritten.
- Submission.MessageRegion.ResetClicked: the 100 ms deferral is taken at once. Clearing the input fields is left to the browser's native reset and is not modelled.
- Submission.MessageRegion.AutoHideFires: five seconds of time are not modelled. A pending timer may fire at any later point, as an event of its own.
- Subjects.SubjectText: keys inherited from the object prototype are not modelled. The lookup sees only the five own keys, so a code such as "toString" falls back to itself.
- UriEncoding.EncodeURIComponent: the URIError for lone surrogates is not modelled. A Dafny `char` is a Unicode scalar value, so such input cannot occur.
- Navigation.NavBar.OnScroll: the three scroll listeners are run together, in the order they were added, as one event. Each writes its own state (`scrolled`, the links' `active` flags, `backToTopShown`) and none reads another's, so their order does not matter.
