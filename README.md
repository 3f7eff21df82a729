# Sign-up validator of an API connector

A model of the Azure Function `SignUpValidation` that an identity provider
calls while a user signs up. The function reads the JSON body of the request
and returns one decision, chosen by a fixed chain of guard clauses where the
first one that fires wins:

1. a body that is not valid JSON gets a block page with code `SingUp-Validation-01`;
2. the locale (`ui_locales`, else `"default"`) is read and only logged;
3. a missing, empty or `@`-less `email` gets code `SingUp-Validation-02`;
4. a domain (`email.split('@')[1]`) that is not exactly `fabrikam.com` or
   `contoso.com` gets code `SingUp-Validation-02`, with a message that lists the
   allow-list joined by `", "`;
5. a missing or empty `jobTitle` gets code `SingUp-Validation-02`;
6. a `jobTitle` shorter than four characters gets code `SingUp-Validation-03`;
7. anything else gets the bare text `Ok`, which lets the sign-up go on.

Every block page carries version `"1.0.0"`, status 200 and action
`ShowBlockPage`.

The project has two modules:

- `PyStr` (`py_str.dfy`): the Python string operations the validator uses,
  `str.split` with a one-character separator and `str.join` with a separator
  of any length, together with `IndexOf`, the helper that finds the first
  separator for `Split` (it behaves like `s.index(c)` when `c` occurs). It
  proves that `Split` and `Join` are inverse to each other, and that a joined
  string contains each of its pieces.
- `SignUpValidation` (`sign_up_validation.dfy`): the request and decision
  datatypes, the validator `Validate` as a function, and the lemmas about it.
  The policy is also stated as an ordered list of rules: each rule's condition
  is stated on its own, and a generic first-violation evaluator
  (`FirstViolated`) applies them. The rules share the field checks (`EmailOk`,
  `Truthy`, `Domain`) and the pages with `Validate`, so the lemma that
  `Validate` agrees with this evaluation on every request checks the order of
  the guards and that the first match wins.

Where the code differs from what one might expect, the model follows the
code:

- the codes are spelled `SingUp-…`;
- a malformed body gets the message "Invalid input data.";
- the allow-list is hard-coded and compared case-sensitively;
- the domain stops at the second `@`. So `a@b@c` has the domain `b`, and
  `a@contoso.com@anything` passes the allow-list (`AllowedAddressAllowed`);
- the allow outcome is the bare text `Ok`, not a JSON `Continue` body;
- the file has no Basic-Authentication gate and no optional-title policy.

## Model

| member | source | states |
|---|---|---|
| `SignUpValidation.Validate` | SignUpValidation/__init__.py:9-67 | every block page has version "1.0.0", status 200 and action ShowBlockPage, and its code is one of the three `SingUp-Validation-0n` codes; the allow outcome is the text "Ok" |
| `SignUpValidation.ValidateIsFirstViolated` | SignUpValidation/__init__.py:13-67 | on every request the validator gives the page of the first rule in the order malformed body, email, domain, job title missing, job title short that the request violates, and "Ok" when it violates none |
| `SignUpValidation.FirstViolated` | SignUpValidation/__init__.py:13-67 | the rule-list evaluation gives "Ok" exactly when no rule in the list is violated |
| `SignUpValidation.FirstViolatedPicksFirst` | SignUpValidation/__init__.py:13-67 | first match wins: a violated rule decides the outcome when no earlier rule in the list is violated |
| `SignUpValidation.MalformedBodyBlocks` | SignUpValidation/__init__.py:13-20 | an unparseable body gets the block page with code SingUp-Validation-01 and "Invalid input data." |
| `SignUpValidation.Language` | SignUpValidation/__init__.py:26 | the logged locale is never empty; it is `ui_locales` when that is present and non-empty, and "default" otherwise |
| `SignUpValidation.LocaleIgnored` | SignUpValidation/__init__.py:26-27 | two requests that differ only in `ui_locales` get the same decision |
| `SignUpValidation.BadEmailBlocks` | SignUpValidation/__init__.py:30-35 | an absent, empty or `@`-less email gets code SingUp-Validation-02 and "Email is mandatory.", whatever the job title and locale |
| `SignUpValidation.Truthy` | SignUpValidation/__init__.py:30 | Python truthiness of an optional string field, as the tests at lines 26, 30 and 51 use it: present and not empty; it has no contract of its own, and `AllowIff`, `BadEmailBlocks` and `MissingJobTitleBlocks` state what it decides |
| `SignUpValidation.EmailOk` | SignUpValidation/__init__.py:30 | the email guard: present, not empty and holding an `@`; it has no contract of its own, and `BadEmailBlocks` and `AllowIff` state its effect on the decision |
| `SignUpValidation.Domain` | SignUpValidation/__init__.py:38 | the domain holds no `@`; it is the text after the first `@` up to the next `@` or the end of the address |
| `SignUpValidation.DomainOf` | SignUpValidation/__init__.py:38 | the domain of `local@domain` and of `local@domain@more` is `domain` when `local` and `domain` hold no `@` |
| `SignUpValidation.CapitalisedDomain` | SignUpValidation/__init__.py:38 | the domain of "a@Contoso.com" is "Contoso.com", capital letter kept |
| `SignUpValidation.ContosoDomain` | SignUpValidation/__init__.py:38-42 | the domain of "a@contoso.com" is "contoso.com", which is on the allow-list |
| `SignUpValidation.DomainStopsAtSecondAt` | SignUpValidation/__init__.py:38 | the domain of "a@b@c" is "b" |
| `SignUpValidation.DomainNotAllowedBlocks` | SignUpValidation/__init__.py:41-48 | an email whose domain is not on the allow-list gets code SingUp-Validation-02 and the allow-list message, whatever the job title |
| `SignUpValidation.CaseSensitiveDomain` | SignUpValidation/__init__.py:42 | "a@Contoso.com" is blocked: the allow-list comparison is case-sensitive |
| `SignUpValidation.EmptyDomainBlocked` | SignUpValidation/__init__.py:38-48 | an address ending in its only `@` has the empty domain and gets the domain block page |
| `SignUpValidation.DomainMessage` | SignUpValidation/__init__.py:43-45 | the f-string of the domain block page; it has no contract of its own, and `DomainMessageText` and `DomainMessageListsAllowList` state its value |
| `SignUpValidation.DomainMessageListsAllowList` | SignUpValidation/__init__.py:43-45 | the domain block page's message contains every allow-listed domain |
| `SignUpValidation.DomainMessageText` | SignUpValidation/__init__.py:43-45 | the domain block page's message is "You must have an account from 'fabrikam.com, contoso.com' to register as an external user for Contoso." |
| `SignUpValidation.MissingJobTitleBlocks` | SignUpValidation/__init__.py:51-56 | with an allow-listed email, an absent or empty job title gets code SingUp-Validation-02 and "Display name is mandatory." |
| `SignUpValidation.ShortJobTitleBlocks` | SignUpValidation/__init__.py:59-64 | with an allow-listed email, a job title of one to three characters gets code SingUp-Validation-03 and "Display name must contain at least four characters." |
| `SignUpValidation.ThreeLetterTitle` | SignUpValidation/__init__.py:59-64 | "a@contoso.com" with job title "CEO" gets the short-title page |
| `SignUpValidation.AllowIff` | SignUpValidation/__init__.py:30-67 | the decision is "Ok" exactly when the body parsed, the email holds an `@`, its domain is allow-listed and the job title has at least four characters |
| `SignUpValidation.AllowedAddressAllowed` | SignUpValidation/__init__.py:38-67 | every `local@d` and `local@d@more` with an allow-listed `d` and a job title of four or more characters is allowed |
| `PyStr.IndexOf` | SignUpValidation/__init__.py:38 | the index found holds the separator, and no earlier position does |
| `PyStr.Split` | SignUpValidation/__init__.py:38 | `split` gives at least one piece, no piece holds the separator, there are two or more pieces exactly when the separator occurs, and the first piece is the text up to the first separator |
| `PyStr.Join` | SignUpValidation/__init__.py:43-45 | Python `sep.join(parts)`; it has no contract of its own, and `JoinSplit`, `SplitJoin` and `JoinContains` state its properties |
| `PyStr.JoinSplit` | SignUpValidation/__init__.py:38 | joining the pieces of a split with the separator gives back the string |
| `PyStr.SplitJoin` | SignUpValidation/__init__.py:38 | splitting a join of separator-free pieces gives back the pieces |
| `PyStr.IndexOfAfterFree` | SignUpValidation/__init__.py:38 | in `pre + c + post` where `pre` has no `c`, the first `c` is at index `|pre|` |
| `PyStr.SplitAfterFree` | SignUpValidation/__init__.py:38 | splitting `pre + c + post`, where `pre` has no `c`, gives `pre` followed by the pieces of `post` |
| `PyStr.SplitFirstPiece` | SignUpValidation/__init__.py:38 | the first piece of `pre + post` is `pre` when `pre` has no separator and `post` is empty or starts with one |
| `PyStr.JoinContains` | SignUpValidation/__init__.py:43-45 | every piece of a `join` occurs in the joined string |

## Left out

- The Azure Functions HTTP plumbing (`func.HttpRequest`, `func.HttpResponse`, mimetype). The response is the `Decision` datatype. The block page's `status` field stands for both the JSON `status` and the HTTP status code, which are both 200.
- JSON parsing (`req.get_json()`). Its failure is the `Malformed` request; an absent field and a JSON `null` field are both `None`.
- JSON serialisation (`json.dumps`) of the block page body.
- The logging calls (lines 7, 23, 27, 39). `Language` computes the logged locale, which feeds nothing else.
- Bodies that parse to something other than a JSON object (such as `null` or an array), and non-string `email`, `jobTitle` or `ui_locales` values. In Python these raise or behave by dynamic typing; the model's fields are optional strings.
- `len()` counts code points. The model's strings are sequences of Unicode scalar values, which agree with it except for lone surrogates.
