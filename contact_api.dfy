/** The serverless contact endpoint: HTML escaping of user text, validation of
    the submitted form, and the guard chain the request handler runs before it
    hands the form to the mail transport. */
module ContactApi {
  import opened JsString
  import opened Optional

  // ---------------------------------------------------------------------------
  // HTML escaping
  // ---------------------------------------------------------------------------

  /** The five characters `escapeHtml` rewrites. */
  predicate IsHtmlSpecial(c: char) {
    c == '&' || c == '<' || c == '>' || c == '"' || c == '\''
  }

  /** The replacement of one character: its entity if it is special, itself otherwise. */
  function EscapeChar(c: char): (r: string)
    ensures IsHtmlSpecial(c) ==> 4 <= |r| && r[0] == '&' && r[|r| - 1] == ';'
    ensures !IsHtmlSpecial(c) ==> r == [c]
    ensures forall i :: 0 <= i < |r| ==> r[i] != '<' && r[i] != '>' && r[i] != '"' && r[i] != '\''
  {
    match c
    case '&' => "&amp;"
    case '<' => "&lt;"
    case '>' => "&gt;"
    case '"' => "&quot;"
    case '\'' => "&#039;"
    case _ => [c]
  }

  /** `escapeHtml`: each special character becomes its entity, every other
      character is copied in order. No markup-delimiting character survives,
      and text without special characters comes back unchanged. */
  function EscapeHtml(text: string): (r: string)
    ensures forall i :: 0 <= i < |r| ==> r[i] != '<' && r[i] != '>' && r[i] != '"' && r[i] != '\''
    ensures (forall i :: 0 <= i < |text| ==> !IsHtmlSpecial(text[i])) ==> r == text
    ensures |text| <= |r|
  {
    if text == [] then [] else EscapeChar(text[0]) + EscapeHtml(text[1..])
  }

  predicate StartsWith(s: string, prefix: string) {
    |prefix| <= |s| && s[..|prefix|] == prefix
  }

  /** The character an HTML reader sees at the front of `s`, and how many
      characters of `s` spell it: one of the five entities, or a plain character. */
  function DecodeHead(s: string): (d: (char, nat))
    requires s != []
    ensures 1 <= d.1 <= |s|
  {
    if StartsWith(s, "&amp;") then ('&', 5)
    else if StartsWith(s, "&lt;") then ('<', 4)
    else if StartsWith(s, "&gt;") then ('>', 4)
    else if StartsWith(s, "&quot;") then ('"', 6)
    else if StartsWith(s, "&#039;") then ('\'', 6)
    else (s[0], 1)
  }

  /** What an HTML reader makes of the escaped text: the five entities are
      decoded, any other character is read as itself. */
  function UnescapeHtml(s: string): string
    decreases |s|
  {
    if s == [] then []
    else
      var (c, n) := DecodeHead(s);
      [c] + UnescapeHtml(s[n..])
  }

  /** The replacement of a character is read back as that character. */
  lemma DecodeEscapeChar(c: char, rest: string)
    ensures DecodeHead(EscapeChar(c) + rest) == (c, |EscapeChar(c)|)
  {
    var s := EscapeChar(c) + rest;
    assert s[..|EscapeChar(c)|] == EscapeChar(c);
    if c == '&' {
    } else if c == '<' {
      assert s[1] == 'l';
    } else if c == '>' {
      assert s[1] == 'g';
    } else if c == '"' {
      assert s[1] == 'q';
    } else if c == '\'' {
      assert s[1] == '#';
    } else {
      assert s[0] == c;
    }
  }

  /** Decoding the replacement of one character gives that character back. */
  lemma UnescapeEscapeChar(c: char, rest: string)
    ensures UnescapeHtml(EscapeChar(c) + rest) == [c] + UnescapeHtml(rest)
  {
    var s := EscapeChar(c) + rest;
    DecodeEscapeChar(c, rest);
    assert s[|EscapeChar(c)|..] == rest;
  }

  /** Escaping loses nothing: a reader decoding the HTML body sees exactly the
      text the user submitted, each special character once. */
  lemma {:induction false} UnescapeEscapeHtml(text: string)
    ensures UnescapeHtml(EscapeHtml(text)) == text
  {
    if text != [] {
      UnescapeEscapeChar(text[0], EscapeHtml(text[1..]));
      UnescapeEscapeHtml(text[1..]);
      assert text == [text[0]] + text[1..];
    }
  }

  /** Different submitted texts never render to the same HTML. */
  lemma EscapeHtmlInjective(a: string, b: string)
    requires EscapeHtml(a) == EscapeHtml(b)
    ensures a == b
  {
    UnescapeEscapeHtml(a);
    UnescapeEscapeHtml(b);
  }

  // ---------------------------------------------------------------------------
  // The submitted payload
  // ---------------------------------------------------------------------------

  /** One property of the parsed JSON body: absent (`undefined`), `null`, a
      string, or any other JSON value, of which only its truthiness matters
      (`0` and `false` are falsy, other numbers, arrays and objects truthy). */
  datatype Field = Missing | Null | Str(s: string) | NonString(truthy: bool)

  /** JavaScript truthiness of a field: `undefined`, `null` and `''` are falsy,
      every non-empty string is truthy. */
  predicate FieldTruthy(f: Field): (b: bool)
    ensures f.Missing? || f.Null? || f == Str("") ==> !b
    ensures f.Str? && f.s != "" ==> b
  {
    match f
    case Missing => false
    case Null => false
    case Str(s) => s != ""
    case NonString(t) => t
  }

  /** The request body, destructured into the five properties the validator reads. */
  datatype Submission = Submission(
    companyName: Field, contactPerson: Field, email: Field, projectDetails: Field, honeypot: Field)

  /** `ContactFormData` as the validator returns it. */
  datatype ContactForm = ContactForm(
    companyName: string, contactPerson: string, email: string, projectDetails: string, honeypot: string)

  /** The validator's verdict; `TypeError` stands for the exception thrown when
      `.trim()` is called on a value that is not a string. */
  datatype Validation = Valid(form: ContactForm) | Invalid(error: string) | TypeError

  const SpamError := "Invalid submission detected"
  const RequiredError := "All fields are required"
  const EmailError := "Invalid email address"
  const DetailsError := "Project details must be at least 10 characters"
  const CompanyError := "Company name must be at least 2 characters"
  const PersonError := "Contact person name must be at least 2 characters"

  const MinDetailsLength := 10
  const MinNameLength := 2

  // ---------------------------------------------------------------------------
  // The e-mail pattern
  // ---------------------------------------------------------------------------

  /** A character of the class `[^\s@]`. */
  predicate PlainChar(c: char) {
    !IsWhitespace(c) && c != '@'
  }

  predicate PlainRun(s: string) {
    forall i :: 0 <= i < |s| ==> PlainChar(s[i])
  }

  /** The pattern `^[^\s@]+@[^\s@]+\.[^\s@]+$` read literally: three non-empty
      runs of `[^\s@]`, the first two separated by `@`, the last two by `.`. */
  ghost predicate MatchesEmailPattern(s: string) {
    exists a, d :: 0 < a && a + 1 < d && d + 1 < |s| && s[a] == '@' && s[d] == '.' &&
      PlainRun(s[..a]) && PlainRun(s[a + 1..d]) && PlainRun(s[d + 1..])
  }

  /** The e-mail test the validator applies to the trimmed address: a non-empty
      part before the first `@`, no whitespace and no second `@`, and a `.`
      in the domain that is neither its first nor its last character. */
  predicate IsEmailAddress(s: string): (b: bool)
    ensures b ==> 5 <= |s|
  {
    var at := IndexOf(s, '@');
    0 < at < |s| && PlainRun(s[..at]) && PlainRun(s[at + 1..]) &&
    exists k :: at + 1 < k < |s| - 1 && s[k] == '.'
  }

  lemma PlainRunSlice(s: string, i: nat, j: nat)
    requires PlainRun(s) && i <= j <= |s|
    ensures PlainRun(s[i..j])
  {
    forall k | 0 <= k < j - i ensures PlainChar(s[i..j][k]) {
      assert s[i..j][k] == s[i + k];
    }
  }

  lemma PlainRunJoin(x: string, y: string)
    requires PlainRun(x) && PlainRun(y)
    ensures PlainRun(x + y)
  {
    forall k | 0 <= k < |x + y| ensures PlainChar((x + y)[k]) {
      if k >= |x| { assert (x + y)[k] == y[k - |x|]; }
    }
  }

  /** Every address the test accepts matches the pattern. */
  lemma EmailTestSound(s: string)
    requires IsEmailAddress(s)
    ensures MatchesEmailPattern(s)
  {
    var at := IndexOf(s, '@');
    var k :| at + 1 < k < |s| - 1 && s[k] == '.';
    var domain := s[at + 1..];
    PlainRunSlice(domain, 0, k - at - 1);
    PlainRunSlice(domain, k - at, |domain|);
    assert s[at + 1..k] == domain[0..k - at - 1];
    assert s[k + 1..] == domain[k - at..|domain|];
    assert 0 < at && at + 1 < k && k + 1 < |s| && s[at] == '@' && s[k] == '.' &&
      PlainRun(s[..at]) && PlainRun(s[at + 1..k]) && PlainRun(s[k + 1..]);
  }

  /** A run of `[^\s@]` holds no `@`. */
  lemma PlainRunHasNoAt(x: string)
    requires PlainRun(x)
    ensures '@' !in x
  {
    forall k | 0 <= k < |x| ensures x[k] != '@' { assert PlainChar(x[k]); }
  }

  /** The two runs of the domain and the `.` between them form one run. */
  lemma DomainIsPlainRun(s: string, a: nat, d: nat)
    requires a + 1 < d < |s| && s[d] == '.'
    requires PlainRun(s[a + 1..d]) && PlainRun(s[d + 1..])
    ensures PlainRun(s[a + 1..])
  {
    assert PlainChar(s[d]);
    PlainRunJoin(s[a + 1..d], [s[d]]);
    PlainRunJoin(s[a + 1..d] + [s[d]], s[d + 1..]);
    assert s[a + 1..] == s[a + 1..d] + [s[d]] + s[d + 1..];
  }

  /** Every address matching the pattern passes the test. */
  lemma EmailTestComplete(s: string)
    requires MatchesEmailPattern(s)
    ensures IsEmailAddress(s)
  {
    var a, d :| 0 < a && a + 1 < d && d + 1 < |s| && s[a] == '@' && s[d] == '.' &&
      PlainRun(s[..a]) && PlainRun(s[a + 1..d]) && PlainRun(s[d + 1..]);
    PlainRunHasNoAt(s[..a]);
    IndexOfFirst(s, '@', a);
    DomainIsPlainRun(s, a, d);
    assert IndexOf(s, '@') + 1 < d < |s| - 1 && s[d] == '.';
  }

  /** The test and the pattern accept the same strings. */
  lemma EmailTestIsPattern(s: string)
    ensures IsEmailAddress(s) <==> MatchesEmailPattern(s)
  {
    if IsEmailAddress(s) { EmailTestSound(s); }
    if MatchesEmailPattern(s) { EmailTestComplete(s); }
  }

  /** An accepted address has exactly one `@`, preceded by something, and no whitespace. */
  lemma EmailAddressShape(s: string)
    requires IsEmailAddress(s)
    ensures forall i :: 0 <= i < |s| ==> !IsWhitespace(s[i])
    ensures exists at :: 0 < at < |s| - 1 && s[at] == '@' &&
                         forall i :: 0 <= i < |s| && s[i] == '@' ==> i == at
  {
    var at := IndexOf(s, '@');
    forall i | 0 <= i < |s|
      ensures !IsWhitespace(s[i]) && (s[i] == '@' ==> i == at)
    {
      if i < at {
        assert s[..at][i] == s[i];
      } else if i > at {
        assert s[at + 1..][i - at - 1] == s[i];
      }
    }
  }

  // ---------------------------------------------------------------------------
  // validateFormData
  // ---------------------------------------------------------------------------

  /** The honeypot lets the submission through: it is falsy, or a string that is blank once trimmed. */
  predicate HoneypotPasses(h: Field) {
    !FieldTruthy(h) || (h.Str? && Trim(h.s) == "")
  }

  predicate AllRequiredPresent(data: Submission) {
    FieldTruthy(data.companyName) && FieldTruthy(data.contactPerson) && FieldTruthy(data.email) && FieldTruthy(data.projectDetails)
  }

  /** The four required fields are strings and the honeypot is a string or absent:
      every `.trim()` call of the validator succeeds. */
  predicate TrimmableFields(data: Submission) {
    data.companyName.Str? && data.contactPerson.Str? && data.email.Str? && data.projectDetails.Str? &&
    !data.honeypot.NonString?
  }

  /** `honeypot?.trim() || ''`. */
  function TrimmedHoneypot(h: Field): (r: string)
    requires !h.NonString?
    ensures IsTrimmed(r)
    ensures HoneypotPasses(h) ==> r == ""
  {
    if h.Str? then Trim(h.s) else ""
  }

  /** The payload with every field trimmed. */
  function Trimmed(data: Submission): (t: ContactForm)
    requires TrimmableFields(data)
    ensures IsTrimmed(t.companyName) && IsTrimmed(t.contactPerson) && IsTrimmed(t.email) &&
            IsTrimmed(t.projectDetails) && IsTrimmed(t.honeypot)
    ensures |t.companyName| <= |data.companyName.s| && |t.contactPerson| <= |data.contactPerson.s| &&
            |t.email| <= |data.email.s| && |t.projectDetails| <= |data.projectDetails.s|
  {
    ContactForm(Trim(data.companyName.s), Trim(data.contactPerson.s), Trim(data.email.s),
                Trim(data.projectDetails.s), TrimmedHoneypot(data.honeypot))
  }

  /** The messages the validator can report. */
  predicate IsValidationMessage(e: string) {
    e == SpamError || e == RequiredError || e == EmailError ||
    e == DetailsError || e == CompanyError || e == PersonError
  }

  /** `validateFormData`: the honeypot trap, then the required fields, then
      trimming, then the e-mail pattern and the three minimum lengths; the
      first rule that fails decides the message. */
  function ValidateFormData(data: Submission): (v: Validation)
    ensures v.Invalid? ==> IsValidationMessage(v.error)
    ensures v.Valid? ==> HoneypotPasses(data.honeypot) && AllRequiredPresent(data) && TrimmableFields(data) &&
                         v == CheckTrimmed(Trimmed(data)) && v.form == Trimmed(data)
  {
    if FieldTruthy(data.honeypot) && !data.honeypot.Str? then TypeError
    else if FieldTruthy(data.honeypot) && Trim(data.honeypot.s) != "" then Invalid(SpamError)
    else if !AllRequiredPresent(data) then Invalid(RequiredError)
    else if !TrimmableFields(data) then TypeError
    else CheckTrimmed(Trimmed(data))
  }

  /** The rules applied after trimming: the e-mail pattern, then the three
      minimum lengths. */
  function CheckTrimmed(t: ContactForm): (v: Validation)
    ensures v.Invalid? ==> IsValidationMessage(v.error)
    ensures v.Valid? ==> v.form == t
  {
    if !IsEmailAddress(t.email) then Invalid(EmailError)
    else if |t.projectDetails| < MinDetailsLength then Invalid(DetailsError)
    else if |t.companyName| < MinNameLength then Invalid(CompanyError)
    else if |t.contactPerson| < MinNameLength then Invalid(PersonError)
    else Valid(t)
  }

  /** A honeypot that is non-blank after trimming rejects the submission whatever the other fields hold. */
  lemma HoneypotRejects(data: Submission)
    requires data.honeypot.Str? && Trim(data.honeypot.s) != ""
    ensures ValidateFormData(data) == Invalid(SpamError)
  {
    assert data.honeypot.s != "";
  }

  /** "All fields are required" is reported exactly when the honeypot lets the
      submission through and one of the four fields is empty or missing, so it
      precedes every e-mail and length check. */
  lemma RequiredErrorExactly(data: Submission)
    ensures ValidateFormData(data) == Invalid(RequiredError) <==>
            HoneypotPasses(data.honeypot) && !AllRequiredPresent(data)
  {
    if !HoneypotPasses(data.honeypot) {
      assert ValidateFormData(data) == TypeError || ValidateFormData(data) == Invalid(SpamError);
    } else if !AllRequiredPresent(data) {
      assert !(FieldTruthy(data.honeypot) && Trim(data.honeypot.s) != "");
    } else if TrimmableFields(data) {
      ValidateReachesRules(data);
      CheckTrimmedNeverRequired(Trimmed(data));
    }
  }

  /** The rules after trimming never report a missing field. */
  lemma CheckTrimmedNeverRequired(t: ContactForm)
    ensures CheckTrimmed(t) != Invalid(RequiredError)
  {
  }

  /** Whitespace-only fields pass the presence check; trimming then shows them empty,
      and a later rule reports them. */
  lemma BlankFieldsCaughtAfterTrimming(data: Submission)
    requires HoneypotPasses(data.honeypot) && !data.honeypot.NonString?
    requires data.companyName.Str? && data.contactPerson.Str? && data.email.Str? && data.projectDetails.Str?
    requires data.companyName.s != "" && data.contactPerson.s != "" && data.email.s != "" && data.projectDetails.s != ""
    requires AllWhitespace(data.email.s)
    ensures ValidateFormData(data) == Invalid(EmailError)
  {
    var e := data.email.s;
    var a := LeadingWhitespace(e);
    assert Trim(e) == e[a..a + |Trim(e)|];
  }

  /** A rule checked after trimming: whether it holds, and the message reported when it does not. */
  datatype Rule = Rule(holds: bool, message: string)

  /** The rules after trimming, in the order the validator checks them. */
  function FormRules(t: ContactForm): seq<Rule> {
    [Rule(IsEmailAddress(t.email), EmailError),
     Rule(|t.projectDetails| >= MinDetailsLength, DetailsError),
     Rule(|t.companyName| >= MinNameLength, CompanyError),
     Rule(|t.contactPerson| >= MinNameLength, PersonError)]
  }

  /** The message of the first rule that fails, if any. */
  function FirstFailure(rules: seq<Rule>): Option<string> {
    if rules == [] then None
    else if !rules[0].holds then Some(rules[0].message)
    else FirstFailure(rules[1..])
  }

  /** `FirstFailure` finds nothing exactly when every rule holds, and otherwise
      reports the message of a failing rule all of whose predecessors hold. */
  lemma {:induction false} FirstFailureIsFirst(rules: seq<Rule>)
    ensures FirstFailure(rules).None? <==> forall i :: 0 <= i < |rules| ==> rules[i].holds
    ensures FirstFailure(rules).Some? ==>
              exists i :: 0 <= i < |rules| && !rules[i].holds && rules[i].message == FirstFailure(rules).value &&
                          forall j :: 0 <= j < i ==> rules[j].holds
  {
    if rules != [] && rules[0].holds {
      var tail := rules[1..];
      FirstFailureIsFirst(tail);
      forall i | 0 < i < |rules| ensures rules[i] == tail[i - 1] { }
      if FirstFailure(tail).Some? {
        var i :| 0 <= i < |tail| && !tail[i].holds && tail[i].message == FirstFailure(tail).value &&
                 forall j :: 0 <= j < i ==> tail[j].holds;
        assert !rules[i + 1].holds && rules[i + 1].message == FirstFailure(rules).value;
        assert forall j :: 0 <= j < i + 1 ==> rules[j].holds;
      }
    }
  }

  /** Past the honeypot and presence checks, with only strings to trim, the
      verdict is that of the rules applied to the trimmed payload. */
  lemma ValidateReachesRules(data: Submission)
    requires HoneypotPasses(data.honeypot) && AllRequiredPresent(data) && TrimmableFields(data)
    ensures ValidateFormData(data) == CheckTrimmed(Trimmed(data))
  {
    assert !(FieldTruthy(data.honeypot) && !data.honeypot.Str?);
    assert !(FieldTruthy(data.honeypot) && Trim(data.honeypot.s) != "");
  }

  /** The rules after trimming report the first failure of the fixed order. */
  lemma CheckTrimmedFollowsRuleOrder(t: ContactForm)
    ensures CheckTrimmed(t) ==
              match FirstFailure(FormRules(t))
              case None => Valid(t)
              case Some(m) => Invalid(m)
  {
    var r0 := FormRules(t);
    var r1 := r0[1..];
    var r2 := r1[1..];
    var r3 := r2[1..];
    assert r3[1..] == [];
    assert FirstFailure(r3) == if r3[0].holds then None else Some(PersonError);
    assert FirstFailure(r2) == if r2[0].holds then FirstFailure(r3) else Some(CompanyError);
    assert FirstFailure(r1) == if r1[0].holds then FirstFailure(r2) else Some(DetailsError);
    assert FirstFailure(r0) == if r0[0].holds then FirstFailure(r1) else Some(EmailError);
  }

  /** Once the honeypot and presence checks pass, the verdict is the first
      failing rule of the fixed order, or the trimmed payload when none fails. */
  lemma ValidateFollowsRuleOrder(data: Submission)
    requires HoneypotPasses(data.honeypot) && AllRequiredPresent(data) && TrimmableFields(data)
    ensures ValidateFormData(data) ==
              match FirstFailure(FormRules(Trimmed(data)))
              case None => Valid(Trimmed(data))
              case Some(m) => Invalid(m)
  {
    ValidateReachesRules(data);
    CheckTrimmedFollowsRuleOrder(Trimmed(data));
  }

  /** A valid verdict carries trimmed fields, an empty honeypot, and satisfies every rule. */
  lemma ValidFormIsClean(data: Submission)
    requires ValidateFormData(data).Valid?
    ensures var f := ValidateFormData(data).form;
            f.honeypot == "" && IsTrimmed(f.companyName) && IsTrimmed(f.contactPerson) &&
            IsTrimmed(f.email) && IsTrimmed(f.projectDetails) &&
            IsEmailAddress(f.email) && |f.projectDetails| >= MinDetailsLength &&
            |f.companyName| >= MinNameLength && |f.contactPerson| >= MinNameLength
  {
    var t := Trimmed(data);
    assert t.honeypot == TrimmedHoneypot(data.honeypot);
  }

  /** The validated payload, sent again as a request body. */
  function Resubmission(f: ContactForm): Submission {
    Submission(Str(f.companyName), Str(f.contactPerson), Str(f.email), Str(f.projectDetails), Str(f.honeypot))
  }

  /** Trimming a resubmitted payload whose fields are already trimmed changes nothing. */
  lemma TrimmedResubmission(f: ContactForm)
    requires f.honeypot == "" && IsTrimmed(f.companyName) && IsTrimmed(f.contactPerson) &&
             IsTrimmed(f.email) && IsTrimmed(f.projectDetails)
    ensures TrimmableFields(Resubmission(f)) && Trimmed(Resubmission(f)) == f
  {
    TrimOfTrimmed(f.companyName);
    TrimOfTrimmed(f.contactPerson);
    TrimOfTrimmed(f.email);
    TrimOfTrimmed(f.projectDetails);
    TrimOfTrimmed(f.honeypot);
  }

  /** A resubmitted payload with non-empty fields and an empty honeypot passes
      the honeypot and presence checks. */
  lemma ResubmissionPassesChecks(f: ContactForm)
    requires f.honeypot == "" && f.companyName != "" && f.contactPerson != "" &&
             f.email != "" && f.projectDetails != ""
    ensures HoneypotPasses(Resubmission(f).honeypot) && AllRequiredPresent(Resubmission(f))
  {
  }

  /** A payload that is trimmed and satisfies every rule is accepted unchanged. */
  lemma CleanFormRevalidates(f: ContactForm)
    requires f.honeypot == "" && IsTrimmed(f.companyName) && IsTrimmed(f.contactPerson) &&
             IsTrimmed(f.email) && IsTrimmed(f.projectDetails)
    requires IsEmailAddress(f.email) && |f.projectDetails| >= MinDetailsLength &&
             |f.companyName| >= MinNameLength && |f.contactPerson| >= MinNameLength
    ensures ValidateFormData(Resubmission(f)) == Valid(f)
  {
    var again := Resubmission(f);
    assert f.email != "";
    ResubmissionPassesChecks(f);
    TrimmedResubmission(f);
    ValidateReachesRules(again);
    assert CheckTrimmed(f) == Valid(f);
  }

  /** Validation is idempotent: the payload it accepts is accepted again, unchanged. */
  lemma RevalidateIsStable(data: Submission, f: ContactForm)
    requires ValidateFormData(data) == Valid(f)
    ensures ValidateFormData(Resubmission(f)) == Valid(f)
  {
    ValidFormIsClean(data);
    CleanFormRevalidates(f);
  }

  /** The validator only throws when some field holds a value that is not a string. */
  lemma TypeErrorNeedsNonString(data: Submission)
    ensures ValidateFormData(data) == TypeError ==>
              data.companyName.NonString? || data.contactPerson.NonString? || data.email.NonString? ||
              data.projectDetails.NonString? || data.honeypot.NonString?
  {
    if !(data.companyName.NonString? || data.contactPerson.NonString? || data.email.NonString? ||
         data.projectDetails.NonString? || data.honeypot.NonString?) {
      assert !(FieldTruthy(data.honeypot) && !data.honeypot.Str?);
      if !HoneypotPasses(data.honeypot) {
        assert ValidateFormData(data) == Invalid(SpamError);
      } else if !AllRequiredPresent(data) {
        RequiredErrorExactly(data);
      } else {
        assert TrimmableFields(data);
        ValidateReachesRules(data);
        assert !CheckTrimmed(Trimmed(data)).TypeError?;
      }
    }
  }

  // ---------------------------------------------------------------------------
  // handler: the guard chain in front of the mail transport
  // ---------------------------------------------------------------------------

  /** The body-size cap, compared with the length of the body serialised as JSON. */
  const MaxBodyLength := 25 * 1024

  const MethodError := "Method not allowed"
  const TooLargeError := "Request body too large"
  const FallbackError := "Invalid data"
  const ConfigError := "Server configuration error"
  const SendError := "Failed to send email. Please try again later."

  /** An incoming request: its HTTP method, its parsed body, and the length of
      `JSON.stringify(body)`. */
  datatype Request = Request(httpMethod: string, body: Submission, serializedLength: nat)

  /** The process environment: variables that are set, with their values. */
  type Environment = map<string, string>

  /** The mail-transport settings read from the environment. */
  datatype MailConfig = MailConfig(host: string, port: string, user: string, pass: string, to: string)

  /** A variable is usable when it is set to a non-empty string. */
  predicate EnvSet(env: Environment, name: string) {
    name in env && env[name] != ""
  }

  predicate ConfigPresent(env: Environment) {
    EnvSet(env, "SMTP_HOST") && EnvSet(env, "SMTP_PORT") && EnvSet(env, "SMTP_USER") &&
    EnvSet(env, "SMTP_PASS") && EnvSet(env, "TO_EMAIL")
  }

  /** The JSON body of a response: `{ok: true}` or `{ok: false, error}`. */
  datatype Reply = Success | Failure(error: string)

  /** What the handler does with a request: answer it with a status and a reply,
      or let the validator's `TypeError` escape (`Crash`). */
  datatype Outcome = Respond(status: nat, reply: Reply) | Crash

  /** Where the guard chain leaves a request: rejected, escaped (`Crash`), or handed to
      the transport with the validated form and the configuration. */
  datatype Decision = Reject(status: nat, error: string) | Crash | Dispatch(form: ContactForm, config: MailConfig)

  /** The guards of `handler`, in order: method, body size, validation, configuration. */
  function Guard(req: Request, env: Environment): (d: Decision)
    ensures d.Dispatch? ==> req.httpMethod == "POST" && req.serializedLength <= MaxBodyLength &&
                            ConfigPresent(env) && ValidateFormData(req.body) == Valid(d.form)
    ensures req.httpMethod == "POST" && req.serializedLength <= MaxBodyLength &&
            ValidateFormData(req.body).Valid? && ConfigPresent(env) ==>
              d.Dispatch? && d.config == MailConfig(env["SMTP_HOST"], env["SMTP_PORT"], env["SMTP_USER"],
                                                    env["SMTP_PASS"], env["TO_EMAIL"])
  {
    if req.httpMethod != "POST" then Reject(405, MethodError)
    else if req.serializedLength > MaxBodyLength then Reject(413, TooLargeError)
    else match ValidateFormData(req.body)
      case TypeError => Decision.Crash
      case Invalid(e) => Reject(400, if e != "" then e else FallbackError)
      case Valid(form) =>
        if !ConfigPresent(env) then Reject(500, ConfigError)
        else Dispatch(form, MailConfig(env["SMTP_HOST"], env["SMTP_PORT"], env["SMTP_USER"],
                                       env["SMTP_PASS"], env["TO_EMAIL"]))
  }

  /** `handler`: the guard chain, then the transport, whose success
      (verification and both sends) is the input `delivered`. */
  function Handler(req: Request, env: Environment, delivered: bool): (o: Outcome)
    ensures o.Respond? ==> o.status in {200, 400, 405, 413, 500}
    ensures o.Respond? && o.status == 200 <==> Guard(req, env).Dispatch? && delivered
    ensures Guard(req, env).Dispatch? && !delivered ==> o == Respond(500, Failure(SendError))
  {
    match Guard(req, env)
    case Reject(status, e) => Respond(status, Failure(e))
    case Crash => Outcome.Crash
    case Dispatch(_, _) => if delivered then Respond(200, Success) else Respond(500, Failure(SendError))
  }

  /** A method other than POST is refused before anything else is looked at. */
  lemma NonPostRefused(req: Request, env: Environment, delivered: bool)
    requires req.httpMethod != "POST"
    ensures Handler(req, env, delivered) == Respond(405, Failure(MethodError))
  {
  }

  /** An oversized POST body is refused before validation. */
  lemma OversizedBodyRefused(req: Request, env: Environment, delivered: bool)
    requires req.httpMethod == "POST" && req.serializedLength > MaxBodyLength
    ensures Handler(req, env, delivered) == Respond(413, Failure(TooLargeError))
  {
  }

  /** An invalid body is refused with the validator's message, verbatim. */
  lemma InvalidBodyRefused(req: Request, env: Environment, delivered: bool)
    requires req.httpMethod == "POST" && req.serializedLength <= MaxBodyLength
    requires ValidateFormData(req.body).Invalid?
    ensures Handler(req, env, delivered) == Respond(400, Failure(ValidateFormData(req.body).error))
  {
  }

  /** A missing transport setting yields the same generic 500, whichever variable
      is missing: the reply does not depend on the environment. */
  lemma MissingConfigIsGeneric(req: Request, env1: Environment, env2: Environment, delivered: bool)
    requires req.httpMethod == "POST" && req.serializedLength <= MaxBodyLength
    requires ValidateFormData(req.body).Valid?
    requires !ConfigPresent(env1) && !ConfigPresent(env2)
    ensures Handler(req, env1, delivered) == Handler(req, env2, delivered) == Respond(500, Failure(ConfigError))
  {
  }
}
