/**
 * validateInput (php/contact.php:112-150): every rule is checked and every
 * violation is collected, in a fixed order: required fields, email, message
 * length, first name, last name, phone.
 */
module Validator {
  import opened Strings
  import opened Sanitizer

  /** The part of the handler's configuration the validator reads (php/contact.php:34-35). */
  datatype Config = Config(maxMessageLength: nat, requiredFields: seq<string>)

  const SiteConfig: Config :=
    Config(2000, ["first_name", "last_name", "email", "subject", "message"])

  /** PHP's empty($data[$key]) on a string field: missing, "" or "0". */
  predicate IsEmpty(data: Fields, key: string) {
    key !in data || data[key] == "" || data[key] == "0"
  }

  // ---------------------------------------------------------------------------
  // The three regular expressions, written as character classes
  // ---------------------------------------------------------------------------

  /** PCRE's \s without the u modifier: space, \t, \n, \v, \f, \r. */
  predicate IsRegexSpace(c: char) {
    c == ' ' || '\t' <= c <= '\r'
  }

  /** [a-zA-Z\s] */
  predicate IsNameChar(c: char) {
    'a' <= c <= 'z' || 'A' <= c <= 'Z' || IsRegexSpace(c)
  }

  /** [0-9\s\-\(\)] */
  predicate IsPhoneChar(c: char) {
    IsDigit(c) || IsRegexSpace(c) || c == '-' || c == '(' || c == ')'
  }

  /**
   * /^[a-zA-Z\s]+$/ (php/contact.php:133, 137). The '$' may also match before
   * a final "\n", but "\n" is itself in the class, so the whole value must be
   * made of class bytes.
   */
  predicate MatchesName(s: string) {
    |s| >= 1 && forall i :: 0 <= i < |s| ==> IsNameChar(s[i])
  }

  /**
   * /^[\+]?[0-9\s\-\(\)]+$/ (php/contact.php:142): an optional leading '+'
   * followed by at least one byte of the class ('+' itself is not in it).
   */
  predicate MatchesPhone(s: string) {
    var body := if |s| > 0 && s[0] == '+' then s[1..] else s;
    |body| >= 1 && forall i :: 0 <= i < |body| ==> IsPhoneChar(body[i])
  }

  // ---------------------------------------------------------------------------
  // Violations and their messages
  // ---------------------------------------------------------------------------

  datatype Violation =
    | Missing(field: string)
    | BadEmail
    | TooLong(max: nat)
    | BadFirstName
    | BadLastName
    | BadPhone

  /** ucfirst(str_replace('_', ' ', $field)): "first_name" is shown as "First name". */
  function DisplayName(field: string): string {
    Ucfirst(ReplaceChar(field, '_', ' '))
  }

  /** The message the source appends for each violation. */
  function Describe(v: Violation): string {
    match v
    case Missing(f) => DisplayName(f) + " is required."
    case BadEmail => "Please enter a valid email address."
    case TooLong(max) => "Message is too long. Maximum " + NatToString(max) + " characters allowed."
    case BadFirstName => "First name should only contain letters and spaces."
    case BadLastName => "Last name should only contain letters and spaces."
    case BadPhone => "Please enter a valid phone number."
  }

  function Messages(vs: seq<Violation>): (r: seq<string>)
    ensures |r| == |vs|
    ensures forall i :: 0 <= i < |vs| ==> r[i] == Describe(vs[i])
  {
    seq(|vs|, i requires 0 <= i < |vs| => Describe(vs[i]))
  }

  /** One violation if the rule fired, none otherwise. */
  function When(fired: bool, v: Violation): seq<Violation> {
    if fired then [v] else []
  }

  /** The required-field violations, in the order of the configured list. */
  function MissingFields(data: Fields, fields: seq<string>): seq<Violation>
  {
    if fields == [] then []
    else MissingFields(data, fields[..|fields| - 1])
         + When(IsEmpty(data, fields[|fields| - 1]), Missing(fields[|fields| - 1]))
  }

  /** The rules after the required fields; each format rule is skipped for an empty field. */
  predicate EmailRuleFires(data: Fields, isEmail: string -> bool) {
    !IsEmpty(data, "email") && !isEmail(data["email"])
  }

  predicate LengthRuleFires(data: Fields, config: Config) {
    !IsEmpty(data, "message") && |data["message"]| > config.maxMessageLength
  }

  predicate NameRuleFires(data: Fields, key: string) {
    !IsEmpty(data, key) && !MatchesName(data[key])
  }

  predicate PhoneRuleFires(data: Fields) {
    !IsEmpty(data, "phone") && !MatchesPhone(data["phone"])
  }

  /**
   * Every violation of `data`, in the order validateInput checks them.
   * `isEmail` stands for filter_var($email, FILTER_VALIDATE_EMAIL) !== false.
   */
  function Violations(data: Fields, config: Config, isEmail: string -> bool): seq<Violation>
  {
    MissingFields(data, config.requiredFields)
    + When(EmailRuleFires(data, isEmail), BadEmail)
    + When(LengthRuleFires(data, config), TooLong(config.maxMessageLength))
    + When(NameRuleFires(data, "first_name"), BadFirstName)
    + When(NameRuleFires(data, "last_name"), BadLastName)
    + When(PhoneRuleFires(data), BadPhone)
  }

  /** The message validateInput returns: "Valid", or all messages joined by single spaces. */
  function ResultMessage(vs: seq<Violation>): string {
    if vs == [] then "Valid" else Join(Messages(vs), " ")
  }

  // ---------------------------------------------------------------------------
  // validateInput
  // ---------------------------------------------------------------------------

  /**
   * validateInput: appends the message of each violated rule (the text
   * Describe gives), then reports validity and the combined message.
   */
  method ValidateInput(data: Fields, config: Config, isEmail: string -> bool)
    returns (valid: bool, message: string)
    ensures valid <==> Violations(data, config, isEmail) == []
    ensures message == ResultMessage(Violations(data, config, isEmail))
  {
    var errors: seq<string> := [];
    var fields := config.requiredFields;
    var i := 0;
    while i < |fields|
      invariant 0 <= i <= |fields|
      invariant errors == Messages(MissingFields(data, fields[..i]))
    {
      var field := fields[i];
      assert fields[..i + 1][..i] == fields[..i];
      MessagesStep(MissingFields(data, fields[..i]), IsEmpty(data, field), Missing(field));
      if IsEmpty(data, field) {
        errors := errors + [Describe(Missing(field))];
      }
      i := i + 1;
    }
    assert fields[..i] == fields;
    ghost var sofar := MissingFields(data, fields);

    MessagesStep(sofar, EmailRuleFires(data, isEmail), BadEmail);
    if EmailRuleFires(data, isEmail) {
      errors := errors + [Describe(BadEmail)];
    }
    sofar := sofar + When(EmailRuleFires(data, isEmail), BadEmail);
    assert errors == Messages(sofar);

    MessagesStep(sofar, LengthRuleFires(data, config), TooLong(config.maxMessageLength));
    if LengthRuleFires(data, config) {
      errors := errors + [Describe(TooLong(config.maxMessageLength))];
    }
    sofar := sofar + When(LengthRuleFires(data, config), TooLong(config.maxMessageLength));
    assert errors == Messages(sofar);

    MessagesStep(sofar, NameRuleFires(data, "first_name"), BadFirstName);
    if NameRuleFires(data, "first_name") {
      errors := errors + [Describe(BadFirstName)];
    }
    sofar := sofar + When(NameRuleFires(data, "first_name"), BadFirstName);
    assert errors == Messages(sofar);

    MessagesStep(sofar, NameRuleFires(data, "last_name"), BadLastName);
    if NameRuleFires(data, "last_name") {
      errors := errors + [Describe(BadLastName)];
    }
    sofar := sofar + When(NameRuleFires(data, "last_name"), BadLastName);
    assert errors == Messages(sofar);

    MessagesStep(sofar, PhoneRuleFires(data), BadPhone);
    if PhoneRuleFires(data) {
      errors := errors + [Describe(BadPhone)];
    }
    sofar := sofar + When(PhoneRuleFires(data), BadPhone);
    assert errors == Messages(sofar);
    assert sofar == Violations(data, config, isEmail);

    valid := errors == [];
    message := if errors == [] then "Valid" else Join(errors, " ");
  }

  /** Appending a rule's outcome appends its message, if any. */
  lemma MessagesStep(vs: seq<Violation>, fired: bool, v: Violation)
    ensures Messages(vs + When(fired, v)) == Messages(vs) + (if fired then [Describe(v)] else [])
  {
    if !fired {
      assert vs + When(fired, v) == vs;
    }
  }

  // ---------------------------------------------------------------------------
  // What the rules promise
  // ---------------------------------------------------------------------------

  /** A required-field violation is reported exactly for the listed fields that are empty. */
  lemma {:induction false} MissingFieldsExactly(data: Fields, fields: seq<string>, v: Violation)
    ensures v in MissingFields(data, fields) <==> v.Missing? && v.field in fields && IsEmpty(data, v.field)
  {
    if fields != [] {
      var init := fields[..|fields| - 1];
      MissingFieldsExactly(data, init, v);
      assert fields == init + [fields[|fields| - 1]];
    }
  }

  /** The required-field check of a list split in two: the first part's violations, then the second's. */
  lemma {:induction false} MissingFieldsConcat(data: Fields, a: seq<string>, b: seq<string>)
    ensures MissingFields(data, a + b) == MissingFields(data, a) + MissingFields(data, b)
    decreases |b|
  {
    if b == [] {
      assert a + b == a;
    } else {
      var init := b[..|b| - 1];
      var last := b[|b| - 1];
      assert (a + b)[..|a + b| - 1] == a + init;
      assert (a + b)[|a + b| - 1] == last;
      MissingFieldsConcat(data, a, init);
    }
  }

  /** The message list of `field`'s required check: its one message when empty, none otherwise. */
  function RequiredMessage(data: Fields, field: string, name: string): seq<string> {
    if IsEmpty(data, field) then [name + " is required."] else []
  }

  lemma MessagesConcat(a: seq<Violation>, b: seq<Violation>)
    ensures Messages(a + b) == Messages(a) + Messages(b)
  {
    forall i | 0 <= i < |a + b|
      ensures Messages(a + b)[i] == (Messages(a) + Messages(b))[i]
    {
      if i < |a| {
        assert (a + b)[i] == a[i];
      } else {
        assert (a + b)[i] == b[i - |a|];
      }
    }
  }

  /** The check of one required field gives its message exactly when the field is empty. */
  lemma MissingFieldsOne(data: Fields, f: string)
    ensures Messages(MissingFields(data, [f])) == RequiredMessage(data, f, DisplayName(f))
  {
    assert [f][..0] == [];
  }

  /** The check of five required fields, field by field. */
  lemma MissingFieldsFive(data: Fields, a: string, b: string, c: string, d: string, e: string)
    ensures MissingFields(data, [a, b, c, d, e]) ==
              MissingFields(data, [a]) + MissingFields(data, [b]) + MissingFields(data, [c])
              + MissingFields(data, [d]) + MissingFields(data, [e])
  {
    assert [a, b, c, d, e] == [a, b, c, d] + [e];
    assert [a, b, c, d] == [a, b, c] + [d];
    assert [a, b, c] == [a, b] + [c];
    assert [a, b] == [a] + [b];
    MissingFieldsConcat(data, [a, b, c, d], [e]);
    MissingFieldsConcat(data, [a, b, c], [d]);
    MissingFieldsConcat(data, [a, b], [c]);
    MissingFieldsConcat(data, [a], [b]);
  }

  /** The messages of five required fields, one per empty field, in the listed order. */
  lemma RequiredMessagesFive(data: Fields, a: string, b: string, c: string, d: string, e: string)
    ensures Messages(MissingFields(data, [a, b, c, d, e])) ==
              RequiredMessage(data, a, DisplayName(a)) + RequiredMessage(data, b, DisplayName(b))
              + RequiredMessage(data, c, DisplayName(c)) + RequiredMessage(data, d, DisplayName(d))
              + RequiredMessage(data, e, DisplayName(e))
  {
    MissingFieldsFive(data, a, b, c, d, e);
    var ma, mb, mc := MissingFields(data, [a]), MissingFields(data, [b]), MissingFields(data, [c]);
    var md, me := MissingFields(data, [d]), MissingFields(data, [e]);
    MessagesConcat(ma + mb + mc + md, me);
    MessagesConcat(ma + mb + mc, md);
    MessagesConcat(ma + mb, mc);
    MessagesConcat(ma, mb);
    MissingFieldsOne(data, a);
    MissingFieldsOne(data, b);
    MissingFieldsOne(data, c);
    MissingFieldsOne(data, d);
    MissingFieldsOne(data, e);
  }

  /**
   * Under the site's configuration the required-field messages come one per
   * empty field, in the configured order: first name, last name, email,
   * subject, message.
   */
  lemma SiteMissingOrder(data: Fields)
    ensures Messages(MissingFields(data, SiteConfig.requiredFields)) ==
              RequiredMessage(data, "first_name", "First name") + RequiredMessage(data, "last_name", "Last name")
              + RequiredMessage(data, "email", "Email") + RequiredMessage(data, "subject", "Subject")
              + RequiredMessage(data, "message", "Message")
  {
    RequiredMessagesFive(data, "first_name", "last_name", "email", "subject", "message");
    SiteRequiredMessages();
  }

  /** MissingFields yields only Missing violations. */
  lemma MissingFieldsAreMissing(data: Fields, fields: seq<string>)
    ensures forall v :: v in MissingFields(data, fields) ==> v.Missing?
  {
    forall v | v in MissingFields(data, fields)
      ensures v.Missing?
    {
      MissingFieldsExactly(data, fields, v);
    }
  }

  /** The data is valid exactly when no rule fires. */
  lemma ValidIffNoRuleFires(data: Fields, config: Config, isEmail: string -> bool)
    ensures Violations(data, config, isEmail) == [] <==>
      && (forall f :: f in config.requiredFields ==> !IsEmpty(data, f))
      && !EmailRuleFires(data, isEmail)
      && !LengthRuleFires(data, config)
      && !NameRuleFires(data, "first_name")
      && !NameRuleFires(data, "last_name")
      && !PhoneRuleFires(data)
  {
    var missing := MissingFields(data, config.requiredFields);
    if missing != [] {
      MissingFieldsExactly(data, config.requiredFields, missing[0]);
    }
    forall f | f in config.requiredFields && IsEmpty(data, f)
      ensures missing != []
    {
      MissingFieldsExactly(data, config.requiredFields, Missing(f));
    }
  }

  /**
   * Each rule after the required fields is reported exactly when it fires;
   * in particular the email, length, name and phone checks are skipped for
   * an empty field.
   */
  lemma RuleReportedIffFires(data: Fields, config: Config, isEmail: string -> bool)
    ensures var vs := Violations(data, config, isEmail);
      && (BadEmail in vs <==> EmailRuleFires(data, isEmail))
      && (TooLong(config.maxMessageLength) in vs <==> LengthRuleFires(data, config))
      && (BadFirstName in vs <==> NameRuleFires(data, "first_name"))
      && (BadLastName in vs <==> NameRuleFires(data, "last_name"))
      && (BadPhone in vs <==> PhoneRuleFires(data))
    ensures var vs := Violations(data, config, isEmail);
      && (IsEmpty(data, "email") ==> BadEmail !in vs)
      && (IsEmpty(data, "message") ==> TooLong(config.maxMessageLength) !in vs)
      && (IsEmpty(data, "first_name") ==> BadFirstName !in vs)
      && (IsEmpty(data, "last_name") ==> BadLastName !in vs)
      && (IsEmpty(data, "phone") ==> BadPhone !in vs)
  {
    MissingFieldsAreMissing(data, config.requiredFields);
  }

  /** The position of a violation's rule in the order of the checks. */
  function Rank(v: Violation): nat {
    match v
    case Missing(_) => 0
    case BadEmail => 1
    case TooLong(_) => 2
    case BadFirstName => 3
    case BadLastName => 4
    case BadPhone => 5
  }

  /** Violations come in the order of the checks, and each non-required rule at most once. */
  lemma ViolationsInCheckOrder(data: Fields, config: Config, isEmail: string -> bool)
    ensures var vs := Violations(data, config, isEmail);
      forall i, j :: 0 <= i < j < |vs| ==> Rank(vs[i]) < Rank(vs[j]) || (vs[i].Missing? && vs[j].Missing?)
  {
    var missing := MissingFields(data, config.requiredFields);
    MissingFieldsAreMissing(data, config.requiredFields);
    assert forall i :: 0 <= i < |missing| ==> missing[i] in missing;
  }

  /**
   * An empty required field is always reported, and its message
   * "<Display name> is required." appears in the returned text.
   */
  lemma MissingFieldInMessage(data: Fields, config: Config, isEmail: string -> bool, f: string)
    requires f in config.requiredFields && IsEmpty(data, f)
    ensures Violations(data, config, isEmail) != []
    ensures Contains(ResultMessage(Violations(data, config, isEmail)), DisplayName(f) + " is required.")
  {
    var vs := Violations(data, config, isEmail);
    MissingFieldsExactly(data, config.requiredFields, Missing(f));
    assert Missing(f) in vs;
    var k :| 0 <= k < |vs| && vs[k] == Missing(f);
    JoinContainsPart(Messages(vs), " ", k);
  }

  /** The display names of the site's required fields. */
  lemma SiteRequiredMessages()
    ensures DisplayName("first_name") == "First name"
    ensures DisplayName("last_name") == "Last name"
    ensures DisplayName("email") == "Email"
    ensures DisplayName("subject") == "Subject"
    ensures DisplayName("message") == "Message"
  {
    assert ReplaceChar("first_name", '_', ' ') == "first name";
    assert ReplaceChar("last_name", '_', ' ') == "last name";
    assert ReplaceChar("email", '_', ' ') == "email";
    assert ReplaceChar("subject", '_', ' ') == "subject";
    assert ReplaceChar("message", '_', ' ') == "message";
  }

  /** The text of the length violation under the site's configuration. */
  lemma SiteTooLongMessage()
    ensures Describe(TooLong(2000)) == "Message is too long. Maximum " + "2000" + " characters allowed."
  {
    assert DigitChar(0) == '0' && DigitChar(2) == '2';
    assert NatToString(2) == "2";
    assert NatToString(20) == "2" + "0";
    assert NatToString(200) == "20" + "0";
    assert NatToString(2000) == "200" + "0";
  }

  /**
   * Under the site's configuration a message of 2000 bytes passes the length
   * rule, and one of 2001 bytes or more is reported.
   */
  lemma SiteLengthBoundary(data: Fields, isEmail: string -> bool)
    requires "message" in data
    ensures |data["message"]| <= 2000 ==> TooLong(2000) !in Violations(data, SiteConfig, isEmail)
    ensures |data["message"]| > 2000 ==> TooLong(2000) in Violations(data, SiteConfig, isEmail)
  {
    RuleReportedIffFires(data, SiteConfig, isEmail);
  }
}
