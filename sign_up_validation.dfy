/**
 The sign-up validator of an identity provider's API connector: given the
 parsed body of a sign-up request it returns exactly one decision, chosen by a
 fixed chain of guard clauses of which the first that fires wins.
 */
module SignUpValidation {
  import opened PyStr

  datatype Option<T> = None | Some(value: T)

  /**
   A sign-up request as the validator sees it: either a body that is not valid
   JSON, or a parsed body with the three fields the validator reads; a field
   that is absent or JSON `null` is `None`.
   */
  datatype Request =
    | Malformed
    | Body(email: Option<string>, jobTitle: Option<string>, uiLocales: Option<string>)

  /**
   The HTTP response: the bare text `Ok` that lets the sign-up continue, or a
   block page with its schema version, its status (carried both in the JSON
   body and as the HTTP status), its action, a code and a message.
   */
  datatype Decision =
    | Allow(text: string)
    | BlockPage(version: string, status: int, action: string, code: string, userMessage: string)

  /** The hard-coded allow-list of email domains, in the order the message lists them. */
  const AllowedDomains: seq<string> := ["fabrikam.com", "contoso.com"]

  /** Shortest job title that is accepted. */
  const MinJobTitleLength: nat := 4

  function Block(code: string, message: string): Decision
  {
    BlockPage("1.0.0", 200, "ShowBlockPage", code, message)
  }

  const MalformedPage: Decision := Block("SingUp-Validation-01", "Invalid input data.")
  const EmailPage: Decision := Block("SingUp-Validation-02", "Email is mandatory.")
  const TitleMissingPage: Decision := Block("SingUp-Validation-02", "Display name is mandatory.")
  const TitleShortPage: Decision :=
    Block("SingUp-Validation-03", "Display name must contain at least four characters.")

  /**
   The message of the domain block page, which lists the allow-list joined by
   ", ". Unlike the other pages this one and `DomainPage` are functions rather
   than constants: the message is built by the recursive `Join`, and as
   functions they are unfolded only in the proofs that ask for the text.
   */
  function DomainMessage(): string
  {
    "You must have an account from '" + Join(AllowedDomains, ", ")
      + "' to register as an external user for Contoso."
  }

  function DomainPage(): Decision
  {
    Block("SingUp-Validation-02", DomainMessage())
  }

  /** Python truthiness of an optional string field: present and not empty. */
  predicate Truthy(field: Option<string>)
  {
    field.Some? && field.value != ""
  }

  /** The email guard: present, not empty and holding an `@`. */
  predicate EmailOk(req: Request)
  {
    req.Body? && Truthy(req.email) && '@' in req.email.value
  }

  /**
   The domain of an email, Python `email.split('@')[1]`: the text after the
   first `@` up to the next `@` or the end.
   */
  function Domain(email: string): (d: string)
    requires '@' in email
    ensures '@' !in d
    ensures var rest := email[IndexOf(email, '@') + 1..];
      d <= rest && (|d| == |rest| || rest[|d|] == '@')
  {
    Split(email, '@')[1]
  }

  /**
   The locale that is logged: `ui_locales` when present and not empty, else
   "default". It feeds nothing but the log.
   */
  function Language(req: Request): (lang: string)
    requires req.Body?
    ensures lang != ""
    ensures lang == "default" || req.uiLocales == Some(lang)
    ensures Truthy(req.uiLocales) ==> req.uiLocales == Some(lang)
  {
    if Truthy(req.uiLocales) then req.uiLocales.value else "default"
  }

  /** The validator: the guard clauses in the order the source checks them. */
  function Validate(req: Request): (d: Decision)
    ensures d.BlockPage? ==> d.version == "1.0.0" && d.status == 200 && d.action == "ShowBlockPage"
    ensures d.Allow? ==> d.text == "Ok"
    ensures d.BlockPage? ==> d.code in {"SingUp-Validation-01", "SingUp-Validation-02", "SingUp-Validation-03"}
  {
    if req.Malformed? then MalformedPage
    else if !EmailOk(req) then EmailPage
    else if Domain(req.email.value) !in AllowedDomains then DomainPage()
    else if !Truthy(req.jobTitle) then TitleMissingPage
    else if |req.jobTitle.value| < MinJobTitleLength then TitleShortPage
    else Allow("Ok")
  }

  // ---------------------------------------------------------------------------
  // The policy as an ordered list of rules, each stated on its own as a
  // condition under which the request violates it and the page it then gets,
  // applied by a generic first-violation evaluator. The rules share the field
  // checks and the pages with `Validate`; what the comparison checks is the
  // order of the guards and that the first match wins.

  datatype Rule = BodyMalformed | EmailMissing | DomainNotAllowed | TitleMissing | TitleTooShort

  const Rules: seq<Rule> := [BodyMalformed, EmailMissing, DomainNotAllowed, TitleMissing, TitleTooShort]

  /** When a request violates a rule, considered on its own. */
  predicate Violates(req: Request, rule: Rule)
  {
    match rule
    case BodyMalformed => req.Malformed?
    case EmailMissing => req.Body? && !EmailOk(req)
    case DomainNotAllowed => EmailOk(req) && Domain(req.email.value) !in AllowedDomains
    case TitleMissing => req.Body? && !Truthy(req.jobTitle)
    case TitleTooShort => req.Body? && Truthy(req.jobTitle) && |req.jobTitle.value| < MinJobTitleLength
  }

  function Outcome(rule: Rule): (d: Decision)
    ensures d.BlockPage?
  {
    match rule
    case BodyMalformed => MalformedPage
    case EmailMissing => EmailPage
    case DomainNotAllowed => DomainPage()
    case TitleMissing => TitleMissingPage
    case TitleTooShort => TitleShortPage
  }

  /** The outcome of the first rule the request violates, or `Ok` when it violates none. */
  function FirstViolated(rules: seq<Rule>, req: Request): (d: Decision)
    ensures d == Allow("Ok") <==> forall k :: 0 <= k < |rules| ==> !Violates(req, rules[k])
  {
    if rules == [] then Allow("Ok")
    else if Violates(req, rules[0]) then Outcome(rules[0])
    else FirstViolated(rules[1..], req)
  }

  /** First match wins: a violated rule decides when no earlier rule is violated. */
  lemma {:induction false} FirstViolatedPicksFirst(rules: seq<Rule>, req: Request, k: nat)
    requires k < |rules| && Violates(req, rules[k])
    requires forall j :: 0 <= j < k ==> !Violates(req, rules[j])
    ensures FirstViolated(rules, req) == Outcome(rules[k])
  {
    if k > 0 {
      assert !Violates(req, rules[0]);
      FirstViolatedPicksFirst(rules[1..], req, k - 1);
    }
  }

  /** The validator is the first-violation-wins evaluation of the rule list. */
  lemma ValidateIsFirstViolated(req: Request)
    ensures Validate(req) == FirstViolated(Rules, req)
  {
    if req.Malformed? {
      FirstViolatedPicksFirst(Rules, req, 0);
    } else if !EmailOk(req) {
      FirstViolatedPicksFirst(Rules, req, 1);
    } else if Domain(req.email.value) !in AllowedDomains {
      FirstViolatedPicksFirst(Rules, req, 2);
    } else if !Truthy(req.jobTitle) {
      FirstViolatedPicksFirst(Rules, req, 3);
    } else if |req.jobTitle.value| < MinJobTitleLength {
      FirstViolatedPicksFirst(Rules, req, 4);
    } else {
      assert forall k :: 0 <= k < |Rules| ==> !Violates(req, Rules[k]);
    }
  }

  // ---------------------------------------------------------------------------
  // The guard clauses one by one.

  /** A body that does not parse is blocked with code 01, whatever else holds. */
  lemma MalformedBodyBlocks()
    ensures Validate(Malformed) == Block("SingUp-Validation-01", "Invalid input data.")
  {
  }

  /** A missing, empty or `@`-less email is blocked with code 02, whatever the job title is. */
  lemma BadEmailBlocks(email: Option<string>, jobTitle: Option<string>, locale: Option<string>)
    requires email.None? || email.value == "" || '@' !in email.value
    ensures Validate(Body(email, jobTitle, locale)) == Block("SingUp-Validation-02", "Email is mandatory.")
  {
  }

  /** An email whose domain is not exactly an allow-listed one is blocked with code 02. */
  lemma DomainNotAllowedBlocks(email: string, jobTitle: Option<string>, locale: Option<string>)
    requires '@' in email && Domain(email) !in AllowedDomains
    ensures Validate(Body(Some(email), jobTitle, locale))
         == Block("SingUp-Validation-02", DomainMessage())
  {
  }

  /** With an allow-listed email, a missing or empty job title is blocked with code 02. */
  lemma MissingJobTitleBlocks(email: string, jobTitle: Option<string>, locale: Option<string>)
    requires '@' in email && Domain(email) in AllowedDomains
    requires jobTitle.None? || jobTitle.value == ""
    ensures Validate(Body(Some(email), jobTitle, locale))
         == Block("SingUp-Validation-02", "Display name is mandatory.")
  {
  }

  /** With an allow-listed email, a job title of one to three characters is blocked with code 03. */
  lemma ShortJobTitleBlocks(email: string, jobTitle: string, locale: Option<string>)
    requires '@' in email && Domain(email) in AllowedDomains
    requires 0 < |jobTitle| < MinJobTitleLength
    ensures Validate(Body(Some(email), Some(jobTitle), locale))
         == Block("SingUp-Validation-03", "Display name must contain at least four characters.")
  {
  }

  /**
   A request is allowed exactly when it parsed, its email holds an `@`, the
   domain is on the allow-list and the job title has at least four characters.
   */
  lemma AllowIff(req: Request)
    ensures Validate(req) == Allow("Ok") <==>
      req.Body? && req.email.Some? && '@' in req.email.value
      && Domain(req.email.value) in AllowedDomains
      && req.jobTitle.Some? && |req.jobTitle.value| >= MinJobTitleLength
  {
  }

  /** The locale never changes the decision. */
  lemma LocaleIgnored(email: Option<string>, jobTitle: Option<string>, l1: Option<string>, l2: Option<string>)
    ensures Validate(Body(email, jobTitle, l1)) == Validate(Body(email, jobTitle, l2))
  {
  }

  // ---------------------------------------------------------------------------
  // The domain taken from an address, and the allow-list message.

  /**
   The domain of `local@domain`, or of `local@domain@more`, is `domain` when
   neither `local` nor `domain` holds an `@`.
   */
  lemma {:induction false} DomainOf(local: string, domain: string, more: string)
    requires '@' !in local && '@' !in domain
    requires more == [] || more[0] == '@'
    ensures '@' in local + "@" + domain + more
    ensures Domain(local + "@" + domain + more) == domain
  {
    var email := local + "@" + domain + more;
    assert email == local + ['@'] + (domain + more);
    SplitAfterFree(local, '@', domain + more);
    SplitFirstPiece(domain, '@', more);
  }

  /**
   Any `local@d` with an allow-listed `d` and a job title of four or more
   characters is allowed, and so is `local@d@anything`: only the text up to
   the second `@` is compared with the allow-list.
   */
  lemma {:induction false} AllowedAddressAllowed(local: string, domain: string, more: string,
                                                 jobTitle: string, locale: Option<string>)
    requires '@' !in local && domain in AllowedDomains
    requires more == [] || more[0] == '@'
    requires |jobTitle| >= MinJobTitleLength
    ensures Validate(Body(Some(local + "@" + domain + more), Some(jobTitle), locale)) == Allow("Ok")
  {
    DomainOf(local, domain, more);
  }

  /** An address with nothing after its `@` has the empty domain and is blocked. */
  lemma {:induction false} EmptyDomainBlocked(local: string, jobTitle: Option<string>, locale: Option<string>)
    requires '@' !in local
    ensures Validate(Body(Some(local + "@"), jobTitle, locale)) == DomainPage()
  {
    DomainOf(local, "", "");
    assert local + "@" + "" + "" == local + "@";
  }

  /** The domain block page names every allow-listed domain. */
  lemma DomainMessageListsAllowList(k: nat)
    requires k < |AllowedDomains|
    ensures exists i :: OccursAt(AllowedDomains[k], DomainMessage(), i)
  {
    JoinContains(AllowedDomains, ", ", k);
    var list := Join(AllowedDomains, ", ");
    var i: nat :| OccursAt(AllowedDomains[k], list, i);
    var prefix := "You must have an account from '";
    var suffix := "' to register as an external user for Contoso.";
    assert DomainMessage() == prefix + list + suffix;
    assert (prefix + list + suffix)[|prefix| + i..|prefix| + i + |AllowedDomains[k]|]
        == list[i..i + |AllowedDomains[k]|];
    assert OccursAt(AllowedDomains[k], DomainMessage(), |prefix| + i);
  }

  /** The domain block page's message, spelled out. */
  lemma DomainMessageText()
    ensures DomainMessage()
         == "You must have an account from '" + "fabrikam.com, contoso.com"
            + "' to register as an external user for Contoso."
  {
    assert Join(AllowedDomains, ", ") == "fabrikam.com" + ", " + Join(["contoso.com"], ", ");
    assert Join(AllowedDomains, ", ") == "fabrikam.com, contoso.com";
  }

  // ---------------------------------------------------------------------------
  // Worked examples where the code differs from what one might expect.

  /** The domain of "a@Contoso.com" keeps its capital letter. */
  lemma CapitalisedDomain()
    ensures Domain("a@Contoso.com") == "Contoso.com"
  {
    assert "a@Contoso.com" == "a" + "@" + "Contoso.com" + "";
    DomainOf("a", "Contoso.com", "");
  }

  /** The comparison with the allow-list is case-sensitive. */
  lemma CaseSensitiveDomain()
    ensures Validate(Body(Some("a@Contoso.com"), Some("Director"), None)) == DomainPage()
  {
    CapitalisedDomain();
    assert "Contoso.com" !in AllowedDomains by {
      assert "Contoso.com"[0] == 'C' && AllowedDomains[1][0] == 'c';
      assert |"Contoso.com"| == 11 && |AllowedDomains[0]| == 12;
    }
    DomainNotAllowedBlocks("a@Contoso.com", Some("Director"), None);
  }

  /** The domain of "a@contoso.com" is allow-listed. */
  lemma ContosoDomain()
    ensures Domain("a@contoso.com") == "contoso.com" == AllowedDomains[1]
  {
    assert "a@contoso.com" == "a" + "@" + "contoso.com" + "";
    DomainOf("a", "contoso.com", "");
  }

  /** A three-character job title is too short. */
  lemma ThreeLetterTitle()
    ensures Validate(Body(Some("a@contoso.com"), Some("CEO"), None)) == TitleShortPage
  {
    ContosoDomain();
    ShortJobTitleBlocks("a@contoso.com", "CEO", None);
  }

  /** "a@b@c" has the domain "b". */
  lemma DomainStopsAtSecondAt()
    ensures Domain("a@b@c") == "b"
  {
    assert "a@b@c" == "a" + "@" + "b" + "@c";
    DomainOf("a", "b", "@c");
  }
}
