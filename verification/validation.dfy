/** The contact form's three validation rules (presence, e-mail pattern,
    phone number), run in that order with the first failure reported, and
    the unused generic validateForm helper. */
module Validation {
  import opened Optional
  import opened Text

  const MissingFieldsError := "Please fill in all required fields."
  const InvalidEmailError := "Please enter a valid email address."
  const InvalidPhoneError := "Please enter a valid phone number (10-15 digits)."

  /** The five values of the form, as the page holds them. */
  datatype Fields = Fields(name: string, phone: string, email: string, subject: string, message: string)

  /** What the submit handler reads: every field trimmed except the subject,
      which comes from a select box and is taken as it is. */
  function ReadFields(raw: Fields): Fields {
    Fields(Trim(raw.name), Trim(raw.phone), Trim(raw.email), raw.subject, Trim(raw.message))
  }

  // ----- Rule 1: presence --------------------------------------------------

  /** An empty string is falsy, so `!x` holds exactly for "". */
  predicate AnyMissing(f: Fields) {
    f.name == [] || f.phone == [] || f.email == [] || f.subject == [] || f.message == []
  }

  // ----- Rule 2: the e-mail pattern /^[^\s@]+@[^\s@]+\.[^\s@]+$/ ------------

  /** The class `[^\s@]`. */
  predicate InClass(c: char) {
    !IsSpace(c) && c != '@'
  }

  predicate AllInClass(s: string) {
    forall i :: 0 <= i < |s| ==> InClass(s[i])
  }

  /** What the pattern means: a non-empty local part, one `@`, and a domain
      that has a `.` which is neither its first nor its last character; no
      white space and no further `@` anywhere. */
  ghost predicate IsEmailShape(s: string) {
    exists i, j :: 0 < i && i + 1 < j < |s| - 1 && s[i] == '@' && s[j] == '.'
      && AllInClass(s[..i]) && AllInClass(s[i + 1..])
  }

  /** The states of a deterministic automaton that recognises the pattern:
      Local after one or more local characters, AtSign right after the `@`,
      Domain inside the domain with no usable dot yet, Dot right after a dot
      that follows at least one domain character, Tld once a character has
      followed such a dot (the accepting state). */
  datatype EmailState = Start | Local | AtSign | Domain | Dot | Tld | Reject

  function Step(q: EmailState, c: char): EmailState {
    match q
    case Start => if InClass(c) then Local else Reject
    case Local => if InClass(c) then Local else if c == '@' then AtSign else Reject
    case AtSign => if InClass(c) then Domain else Reject
    case Domain => if c == '.' then Dot else if InClass(c) then Domain else Reject
    case Dot => if InClass(c) then Tld else Reject
    case Tld => if InClass(c) then Tld else Reject
    case Reject => Reject
  }

  function Run(q: EmailState, t: string): EmailState
    decreases |t|
  {
    if t == [] then q else Run(Step(q, t[0]), t[1..])
  }

  /** `emailRegex.test(email)`. */
  predicate EmailRegexTest(s: string) {
    Run(Start, s) == Tld
  }

  /** A dot at some index in [lo, |t| - 1): followed by at least one more
      character. */
  ghost predicate HasDotFrom(t: string, lo: int) {
    exists k :: 0 <= k < |t| - 1 && lo <= k && t[k] == '.'
  }

  /** The suffixes that lead from each state to acceptance. */
  ghost predicate Leads(q: EmailState, t: string)
    decreases |t|
  {
    match q
    case Start => t != [] && InClass(t[0]) && Leads(Local, t[1..])
    case Local => exists i :: 0 <= i < |t| && t[i] == '@' && AllInClass(t[..i]) && AllInClass(t[i + 1..]) && HasDotFrom(t[i + 1..], 1)
    case AtSign => AllInClass(t) && HasDotFrom(t, 1)
    case Domain => AllInClass(t) && HasDotFrom(t, 0)
    case Dot => t != [] && AllInClass(t)
    case Tld => AllInClass(t)
    case Reject => false
  }

  lemma {:induction false} RejectSticks(t: string)
    ensures Run(Reject, t) == Reject
  {
    if t != [] {
      RejectSticks(t[1..]);
    }
  }

  lemma AllInClassCons(t: string)
    requires t != []
    ensures AllInClass(t) <==> InClass(t[0]) && AllInClass(t[1..])
  {
    if InClass(t[0]) && AllInClass(t[1..]) {
      forall i | 0 <= i < |t| ensures InClass(t[i]) {
        if i > 0 { assert t[i] == t[1..][i - 1]; }
      }
    }
  }

  lemma HasDotShift(t: string, lo: int)
    requires t != [] && lo >= 0
    ensures HasDotFrom(t, lo + 1) <==> HasDotFrom(t[1..], lo)
  {
    if HasDotFrom(t, lo + 1) {
      var k :| lo + 1 <= k < |t| - 1 && t[k] == '.';
      assert t[1..][k - 1] == '.';
    }
    if HasDotFrom(t[1..], lo) {
      var k :| lo <= k < |t| - 2 && t[1..][k] == '.';
      assert t[k + 1] == '.';
    }
  }

  /** The automaton accepts from `q` exactly the suffixes `Leads(q, _)`
      describes. */
  lemma {:induction false} RunLeads(q: EmailState, t: string)
    ensures Run(q, t) == Tld <==> Leads(q, t)
    decreases |t|, q
  {
    if t == [] {
      return;
    }
    var c, t' := t[0], t[1..];
    var q' := Step(q, c);
    if q' == Reject {
      RejectSticks(t');
      if q == Local && Leads(Local, t) {
        var i :| 0 <= i < |t| && t[i] == '@' && AllInClass(t[..i]) && AllInClass(t[i + 1..]) && HasDotFrom(t[i + 1..], 1);
        assert false;
      }
      if q != Start && q != Local && q != Reject {
        AllInClassCons(t);
      }
      return;
    }
    RunLeads(q', t');
    match q
    case Start =>
    case Local =>
      if c == '@' {
        LocalAfterAt(t);
      } else {
        LocalShift(t);
      }
    case AtSign =>
      AllInClassCons(t);
      HasDotShift(t, 0);
    case Domain =>
      AllInClassCons(t);
      if c == '.' {
        if t' != [] { assert t[0] == '.' && 0 < |t| - 1; }
      } else {
        HasDotShift(t, 0);
        DomainShift(t);
      }
    case Dot =>
      AllInClassCons(t);
    case Tld =>
      AllInClassCons(t);
    case Reject =>
  }

  lemma LocalAfterAt(t: string)
    requires t != [] && t[0] == '@'
    ensures Leads(Local, t) <==> Leads(AtSign, t[1..])
  {
    if Leads(Local, t) {
      var i :| 0 <= i < |t| && t[i] == '@' && AllInClass(t[..i]) && AllInClass(t[i + 1..]) && HasDotFrom(t[i + 1..], 1);
    }
    if Leads(AtSign, t[1..]) {
      assert AllInClass(t[..0]);
    }
  }

  lemma LocalShift(t: string)
    requires t != [] && InClass(t[0])
    ensures Leads(Local, t) <==> Leads(Local, t[1..])
  {
    if Leads(Local, t) {
      LocalShiftDown(t);
    }
    if Leads(Local, t[1..]) {
      LocalShiftUp(t);
    }
  }

  lemma LocalShiftDown(t: string)
    requires t != [] && InClass(t[0]) && Leads(Local, t)
    ensures Leads(Local, t[1..])
  {
    var t' := t[1..];
    var i :| 0 <= i < |t| && t[i] == '@' && AllInClass(t[..i]) && AllInClass(t[i + 1..]) && HasDotFrom(t[i + 1..], 1);
    assert i > 0;
    assert t'[i - 1] == '@';
    assert AllInClass(t'[..i - 1]) by {
      assert t'[..i - 1] == t[..i][1..];
    }
    assert t'[i..] == t[i + 1..];
  }

  lemma LocalShiftUp(t: string)
    requires t != [] && InClass(t[0]) && Leads(Local, t[1..])
    ensures Leads(Local, t)
  {
    var t' := t[1..];
    var i :| 0 <= i < |t'| && t'[i] == '@' && AllInClass(t'[..i]) && AllInClass(t'[i + 1..]) && HasDotFrom(t'[i + 1..], 1);
    assert t[i + 1] == '@';
    assert AllInClass(t[..i + 1]) by {
      assert t[..i + 1] == [t[0]] + t'[..i];
      AllInClassCons(t[..i + 1]);
    }
    assert t[i + 2..] == t'[i + 1..];
  }

  lemma DomainShift(t: string)
    requires t != [] && t[0] != '.'
    ensures HasDotFrom(t, 0) <==> HasDotFrom(t, 1)
  {
  }

  /** The automaton decides the pattern: the regular expression test accepts
      an address exactly when it has the shape local@domain.tld described
      by IsEmailShape. */
  lemma EmailRegexTestIff(s: string)
    ensures EmailRegexTest(s) <==> IsEmailShape(s)
  {
    if EmailRegexTest(s) {
      RunGivesShape(s);
    }
    if IsEmailShape(s) {
      ShapeGivesRun(s);
    }
  }

  lemma RunGivesShape(s: string)
    requires EmailRegexTest(s)
    ensures IsEmailShape(s)
  {
    RunLeads(Start, s);
    var t := s[1..];
    var i :| 0 <= i < |t| && t[i] == '@' && AllInClass(t[..i]) && AllInClass(t[i + 1..]) && HasDotFrom(t[i + 1..], 1);
    var d := t[i + 1..];
    var k :| 1 <= k < |d| - 1 && d[k] == '.';
    assert s[..i + 1] == [s[0]] + t[..i];
    AllInClassCons(s[..i + 1]);
    assert s[i + 1] == '@' && s[i + 2 + k] == '.';
    assert s[i + 2..] == d;
  }

  lemma ShapeGivesRun(s: string)
    requires IsEmailShape(s)
    ensures EmailRegexTest(s)
  {
    var i, j :| 0 < i && i + 1 < j < |s| - 1 && s[i] == '@' && s[j] == '.' && AllInClass(s[..i]) && AllInClass(s[i + 1..]);
    var t := s[1..];
    var d := t[i..];
    assert InClass(s[0]) by {
      assert s[..i][0] == s[0];
    }
    assert AllInClass(t[..i - 1]) by {
      assert t[..i - 1] == s[..i][1..];
    }
    assert AllInClass(d) && HasDotFrom(d, 1) by {
      assert d == s[i + 1..];
      assert d[j - i - 1] == '.';
    }
    assert t[i - 1] == '@';
    assert Leads(Local, t);
    RunLeads(Start, s);
  }

  /** Examples of the pattern: a plain address passes. */
  lemma EmailExampleAccepted()
    ensures EmailRegexTest("a@b.com")
  {
  }

  /** No dot after the `@`, or a dot right after it: refused. */
  lemma EmailExamplesRefused()
    ensures !EmailRegexTest("a@b")
    ensures !EmailRegexTest("a@.com")
  {
  }

  /** White space anywhere: refused. */
  lemma EmailExampleSpace()
    ensures !EmailRegexTest("a b@c.d")
  {
  }

  // ----- Rule 3: the phone number ------------------------------------------

  /** The class `[\s\-\(\)]` of the cleanup `replace`. */
  predicate IsSeparator(c: char) {
    IsSpace(c) || c == '-' || c == '(' || c == ')'
  }

  /** `phone.replace(/[\s\-\(\)]/g, '')`: every separator removed, every
      other character kept, in order. */
  function StripSeparators(s: string): (r: string)
    ensures |r| <= |s|
  {
    if s == [] then []
    else (if IsSeparator(s[0]) then [] else [s[0]]) + StripSeparators(s[1..])
  }

  /** No separator is left, and every other character is kept as often as
      it occurs. */
  lemma {:induction false} StripKeepsOthers(s: string)
    ensures forall i :: 0 <= i < |StripSeparators(s)| ==> !IsSeparator(StripSeparators(s)[i])
    ensures forall c :: !IsSeparator(c) ==> multiset(StripSeparators(s))[c] == multiset(s)[c]
  {
    if s != [] {
      StripKeepsOthers(s[1..]);
      assert s == [s[0]] + s[1..];
      var h: string := if IsSeparator(s[0]) then [] else [s[0]];
      assert StripSeparators(s) == h + StripSeparators(s[1..]);
    }
  }

  /** Removing separators distributes over concatenation, so the kept
      characters stay in their original order. */
  lemma {:induction false} StripAppend(a: string, b: string)
    ensures StripSeparators(a + b) == StripSeparators(a) + StripSeparators(b)
  {
    if a == [] {
      assert a + b == b;
    } else {
      var h: string := if IsSeparator(a[0]) then [] else [a[0]];
      assert (a + b)[0] == a[0];
      assert (a + b)[1..] == a[1..] + b;
      assert StripSeparators(a + b) == h + StripSeparators(a[1..] + b);
      StripAppend(a[1..], b);
      assert StripSeparators(a) == h + StripSeparators(a[1..]);
    }
  }

  predicate IsAsciiDigit(c: char) {
    '0' <= c <= '9'
  }

  /** `/^[0-9]{10,15}$/.test(cleanPhone)` */
  predicate PhoneRegexTest(d: string) {
    10 <= |d| <= 15 && forall i :: 0 <= i < |d| ==> IsAsciiDigit(d[i])
  }

  predicate IsValidPhone(phone: string) {
    PhoneRegexTest(StripSeparators(phone))
  }

  /** A phone number passes exactly when it consists of ASCII digits and
      separators only and has 10 to 15 digits. */
  lemma {:induction false} PhoneRuleIff(phone: string)
    ensures IsValidPhone(phone) <==>
      (forall i :: 0 <= i < |phone| ==> IsAsciiDigit(phone[i]) || IsSeparator(phone[i]))
      && 10 <= |StripSeparators(phone)| <= 15
  {
    var d := StripSeparators(phone);
    StripKeepsOthers(phone);
    if forall i :: 0 <= i < |phone| ==> IsAsciiDigit(phone[i]) || IsSeparator(phone[i]) {
      forall i | 0 <= i < |d| ensures IsAsciiDigit(d[i]) {
        var c := d[i];
        assert c in multiset(d);
        assert c in multiset(phone);
        var j :| 0 <= j < |phone| && phone[j] == c;
      }
    }
    if IsValidPhone(phone) {
      forall i | 0 <= i < |phone| ensures IsAsciiDigit(phone[i]) || IsSeparator(phone[i]) {
        var c := phone[i];
        if !IsSeparator(c) {
          assert c in multiset(phone);
          assert c in multiset(d);
          var j :| 0 <= j < |d| && d[j] == c;
        }
      }
    }
  }

  lemma {:induction false} StripKeepsClean(s: string)
    requires forall i :: 0 <= i < |s| ==> !IsSeparator(s[i])
    ensures StripSeparators(s) == s
  {
    if s != [] {
      StripKeepsClean(s[1..]);
      assert s == [s[0]] + s[1..];
    }
  }

  lemma {:induction false} StripDropsSeparators(s: string)
    requires forall i :: 0 <= i < |s| ==> IsSeparator(s[i])
    ensures StripSeparators(s) == []
  {
    if s != [] {
      StripDropsSeparators(s[1..]);
    }
  }

  /** Too few digits: refused. */
  lemma PhoneExampleShort()
    ensures !IsValidPhone("123")
  {
  }

  /** A leading `+` is not a separator, so it stays and fails the pattern. */
  lemma PhoneExamplePlus(plus: string)
    requires plus == "+919942010288"
    ensures !IsValidPhone(plus)
  {
    assert StripSeparators(plus)[0] == '+';
  }

  /** Ten bare digits pass. */
  lemma PhoneExampleDigits(digits: string)
    requires digits == "9942010288"
    ensures StripSeparators(digits) == digits && IsValidPhone(digits)
  {
    assert forall i :: 0 <= i < |digits| ==> IsAsciiDigit(digits[i]);
    StripKeepsClean(digits);
  }

  /** Separator groups between digit groups disappear. */
  lemma StripGroups(p1: string, d1: string, p2: string, d2: string, p3: string, d3: string)
    requires forall i :: 0 <= i < |p1| ==> IsSeparator(p1[i])
    requires forall i :: 0 <= i < |p2| ==> IsSeparator(p2[i])
    requires forall i :: 0 <= i < |p3| ==> IsSeparator(p3[i])
    requires forall i :: 0 <= i < |d1| ==> !IsSeparator(d1[i])
    requires forall i :: 0 <= i < |d2| ==> !IsSeparator(d2[i])
    requires forall i :: 0 <= i < |d3| ==> !IsSeparator(d3[i])
    ensures StripSeparators(p1 + d1 + p2 + d2 + p3 + d3) == d1 + d2 + d3
  {
    StripDropsSeparators(p1);
    StripDropsSeparators(p2);
    StripDropsSeparators(p3);
    StripKeepsClean(d1);
    StripKeepsClean(d2);
    StripKeepsClean(d3);
    var a := p1 + d1;
    var b := a + p2;
    var c := b + d2;
    var e := c + p3;
    assert StripSeparators(a) == d1 by { StripAppend(p1, d1); }
    assert StripSeparators(b) == d1 by { StripAppend(a, p2); }
    assert StripSeparators(c) == d1 + d2 by { StripAppend(b, d2); }
    assert StripSeparators(e) == d1 + d2 by { StripAppend(c, p3); }
    StripAppend(e, d3);
  }

  /** Parentheses, a space and a hyphen are removed before counting. */
  lemma PhoneExampleGrouped(grouped: string)
    requires grouped == "(994) 201-0288"
    ensures IsValidPhone(grouped)
  {
    var digits := "9942010288";
    assert StripSeparators(grouped) == digits by {
      StripGroups("(", "994", ") ", "201", "-", "0288");
      assert "(" + "994" + ") " + "201" + "-" + "0288" == grouped;
      assert "994" + "201" + "0288" == digits;
    }
    PhoneExampleDigits(digits);
  }

  // ----- The rules in order ------------------------------------------------

  /** The message of the first rule the read fields break, if any. */
  function FirstError(f: Fields): Option<string> {
    if AnyMissing(f) then Some(MissingFieldsError)
    else if !EmailRegexTest(f.email) then Some(InvalidEmailError)
    else if !IsValidPhone(f.phone) then Some(InvalidPhoneError)
    else None
  }

  /** Presence in terms of what the user typed: a field counts as missing
      when it is empty or only white space; the subject only when empty. */
  ghost predicate Blank(raw: Fields) {
    AllSpace(raw.name) || AllSpace(raw.phone) || AllSpace(raw.email)
    || raw.subject == [] || AllSpace(raw.message)
  }

  /** The rules run in a fixed order and the first failing one decides:
      presence, then the e-mail shape, then the phone number, each with its
      own message; no message means every rule passed. */
  lemma ValidationOrder(raw: Fields)
    ensures FirstError(ReadFields(raw)) == Some(MissingFieldsError) <==> Blank(raw)
    ensures FirstError(ReadFields(raw)) == Some(InvalidEmailError) <==>
      !Blank(raw) && !IsEmailShape(Trim(raw.email))
    ensures FirstError(ReadFields(raw)) == Some(InvalidPhoneError) <==>
      !Blank(raw) && IsEmailShape(Trim(raw.email)) && !IsValidPhone(Trim(raw.phone))
    ensures FirstError(ReadFields(raw)) == None <==>
      !Blank(raw) && IsEmailShape(Trim(raw.email)) && IsValidPhone(Trim(raw.phone))
  {
    TrimEmptyIff(raw.name);
    TrimEmptyIff(raw.phone);
    TrimEmptyIff(raw.email);
    TrimEmptyIff(raw.message);
    EmailRegexTestIff(Trim(raw.email));
  }

  // ----- validateForm ------------------------------------------------------

  /** validateForm over the values of the required inputs: the result is
      true exactly when no value is blank, and `marked[i]` records whether
      input i got the red border. */
  method ValidateForm(values: seq<string>) returns (isValid: bool, marked: seq<bool>)
    ensures |marked| == |values|
    ensures forall i :: 0 <= i < |values| ==> marked[i] == AllSpace(values[i])
    ensures isValid <==> forall i :: 0 <= i < |values| ==> !AllSpace(values[i])
  {
    isValid := true;
    marked := [];
    var k := 0;
    while k < |values|
      invariant 0 <= k <= |values| && |marked| == k
      invariant forall i :: 0 <= i < k ==> marked[i] == AllSpace(values[i])
      invariant isValid <==> forall i :: 0 <= i < k ==> !AllSpace(values[i])
    {
      TrimEmptyIff(values[k]);
      if Trim(values[k]) == [] {
        isValid := false;
        marked := marked + [true];
      } else {
        marked := marked + [false];
      }
      k := k + 1;
    }
  }
}
