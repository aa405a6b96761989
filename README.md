# AD-Reset: verified model of the self-service password reset

AD-Reset lets a user reset an Active Directory password by proving control
of the address on file. The user asks for a one-time six-digit code
(`POST /api/send-code`). The service looks the username up in the directory
and compares the address ignoring case. It mails a code and records it for
five minutes. The user then submits the code with a new password
(`POST /api/reset-password`). The service repeats the directory check,
consumes the code and writes the password.

This project models the logic of that service in Dafny:

- `text.dfy`, module `Text`: the Python string operations the service
  relies on. These are `split`, `join`, substring test, `replace(pat, '')`
  and ASCII `lower()`. It proves that split and join are inverses.
- `directory.dfy`, module `Directory`:
  - base-DN normalisation of the `LDAP_BASE_DN` setting;
  - the `domain\account` bind identity;
  - the `CN=<username>,<base>` entry name;
  - the outcome reported by `reset_ad_password`.
- `code_store.dfy`, module `CodeStore`:
  - the verification-code table as a class `CodeTable` holding a
    `map<string, Entry>`;
  - `SendVerificationCode` and `VerifyCode` as methods that update it;
  - code generation from six digit draws;
  - lemmas about single calls and about arbitrary sequences of stores and
    checks.
- `handlers.dfy`, module `Handlers`: the two request handlers as methods.
  They take the directory lookup, mail and password-write results as inputs
  and drive the table. Two scenario methods show the intended flow and the
  exact-spelling key.
- `wrappers.dfy`, module `Wrappers`: `Option`.

Time is an integer clock in microseconds, the resolution of Python's
`datetime`. A code lives `5 * 60 * 1000000` ticks. Expiry is strict: a code
checked at its expiration instant still verifies.

Mail delivery has four modelled outcomes (`MailOutcome`). One of them,
`QuitFailed`, breaks the rule that a failed send leaves no pending code; see
"## Findings". `SendVerificationCode` and the handlers follow the code as
written.

## Model

| member | source | states |
|---|---|---|
| `Text.Split` | backend/app.py:72 | `str.split` on one character: at least one field, and no field contains the separator |
| `Text.JoinSplit` | backend/app.py:72 | joining the fields of a split with the same separator gives back the original string |
| `Text.SplitJoin` | backend/app.py:72 | splitting a join of separator-free fields gives back exactly those fields |
| `Text.RemoveAll` | backend/app.py:88-89 | `replace(pat, '')` never lengthens the string |
| `Text.StripPrefix` | backend/app.py:88-89 | removing `pat` from `pat + v` leaves `v` when `v` holds no `pat` |
| `Text.SameIgnoringCaseCharacterized` | backend/app.py:274 | two addresses pass the `lower()` comparison exactly when they have the same length and agree at every position after lower-casing each character, so only ASCII case variants match |
| `Text.CaseVariantsMatch` | backend/app.py:310 | addresses differing only in ASCII letter case match |
| `Directory.NormalizeUnset` | backend/app.py:67-68 | an unset or empty base-DN setting gives the empty base DN |
| `Directory.NormalizeKeepsDn` | backend/app.py:69-70 | a setting containing `DC=` (case-sensitive) is used unchanged |
| `Directory.NormalizeDomainComponents` | backend/app.py:71-72 | for a dotted domain, the base DN's comma fields are exactly `DC=<label>` per dotted label, in order |
| `Directory.NormalizeTwoLabels` | backend/app.py:72 | `a.b` becomes `DC=a,DC=b` (e.g. `corp.test` to `DC=corp,DC=test`) |
| `Directory.BindName` | backend/app.py:88-90 | a bind identity exists exactly when the service DN is set, and it begins with the base DN's domain value |
| `Directory.BindDomainIsFirstLabel` | backend/app.py:88 | for a base DN built from a dotted domain, the domain half of the bind name is the first dotted label |
| `Directory.AccountNameOfUserDn` | backend/app.py:228-229 | the account half of the bind name recovers `<name>` from a DN built as `CN=<name>,<base>` |
| `Directory.BindNameForDomain` | backend/app.py:88-90 | with both DNs built by the service's own conventions, the bind identity is `<first label>\<name>` |
| `Directory.BindDomainOfDnSetting` | backend/app.py:69-70 | for a base-DN setting already in DN form, `DC=<d>,...`, the domain half of the bind name is `<d>` |
| `Directory.BindNameForDnSetting` | backend/app.py:228-229 | with the base DN set as `DC=<d>,...` and the service DN as `CN=<name>,...`, the bind identity is `<d>\<name>` |
| `Directory.UserDn` | backend/app.py:244 | for a username without a comma, the target DN's components are `CN=<username>` followed by the base DN's components; `AccountNameOfUserDn` recovers the username from it |
| `Directory.ResetAdPassword` | backend/app.py:222-251 | as written: a refused bind gives failure with the connection message; any exception gives failure carrying its text; a returned modification call gives success with the success message |
| `Directory.RefusedWriteReportedAsSuccess` | backend/app.py:245-247 | a modification the directory refused is still reported as a successful reset |
| `Directory.ResetAdPasswordChecked` | backend/app.py:245-247 | corrected: success is reported exactly when the directory accepted the new password |
| `Directory.CheckedDiffersOnlyOnRefusal` | backend/app.py:240-251 | the corrected and as-written versions agree on every outcome except a refused modification |
| `CodeStore.NewCode` | backend/app.py:156 | a generated code has six characters, each in `0`..`9`, and digit `i` is draw `i` |
| `CodeStore.EveryCodeIsReachable` | backend/app.py:156 | every six-digit string, leading zeros included, is produced by some draws |
| `CodeStore.CodeTable.constructor` | backend/app.py:56 | the table starts empty |
| `CodeStore.CodeTable.SendVerificationCode` | backend/app.py:153-198 | reports true only when delivered. When the message reached the transport, stores `{code, now + 5 min}` under the address as given, replacing any earlier entry and keeping every other key. Otherwise the table is unchanged. A failure before the transport escapes as an exception |
| `CodeStore.QuitFailureStoresCode` | backend/app.py:175-192 | as written, a send whose session close raises after the message was handed over returns `False` while the new code stays recorded under the address |
| `CodeStore.CodeTable.SendVerificationCodeChecked` | backend/app.py:180-182 | corrected send: a code is recorded exactly when the send reports success; any other result leaves the table unchanged |
| `CodeStore.CodeTable.VerifyCode` | backend/app.py:200-220 | returns true exactly on a `Match` verdict and leaves the table as `Settle` prescribes for the verdict |
| `CodeStore.NoEntryLeavesTable` | backend/app.py:204-206 | with no entry for the address, verification fails and the table is unchanged |
| `CodeStore.ExpiredEntryIsDeleted` | backend/app.py:209-212 | when `now > expiration`, verification fails whatever the code and removes only that address's entry |
| `CodeStore.LiveAtExpirationInstant` | backend/app.py:209 | at `now == expiration` the right code still verifies (strict comparison) |
| `CodeStore.MismatchKeepsEntry` | backend/app.py:214-216 | a wrong code before expiry fails and leaves the table unchanged |
| `CodeStore.MatchConsumesEntry` | backend/app.py:218-220 | the right code before expiry succeeds and removes that entry only; the same code then finds no entry |
| `CodeStore.KeyIsExactAddress` | backend/app.py:181 | the key is the raw address: another spelling, even one equal ignoring case, finds no entry |
| `CodeStore.NothingAcceptedWithoutEntry` | backend/app.py:204-206 | with no entry and no new send for an address, no sequence of checks succeeds for it |
| `CodeStore.AcceptedAtMostOnce` | backend/app.py:218-220 | between two sends to an address, at most one check for it succeeds, over any interleaving of operations on any addresses |
| `CodeStore.OtherAddressesIsolated` | backend/app.py:181 | stores and checks for other addresses never add, change or remove this address's entry |
| `CodeStore.WrongGuessesKeepCode` | backend/app.py:214-216 | after any number of wrong guesses before expiry the table is unchanged and the right code still verifies |
| `Handlers.SendCode` | backend/app.py:253-286 | 400 when the address is empty (checked first) or the username is empty. The same 500 reply for a failed lookup and for a mismatched address. The table is touched only after the directory match. 200 exactly when the message is delivered |
| `Handlers.ResetPassword` | backend/app.py:294-323 | 400 when any field is missing, when the address does not match the directory, or when the code is not a `Match`. The code check happens only after the match. The write is reached exactly when the code matched; 200 exactly when the write reports success |
| `Handlers.RequestThenResetTwice` | backend/app.py:270-323 | request, delivery and reset before expiry succeed and write the password; the same reset again is refused with 400 and does not reach the write |
| `Handlers.ResetWithOtherSpelling` | backend/app.py:181 | a code requested under one spelling of the address is refused under another spelling that also matches the directory |
| `Handlers.NoEnumerationSignal` | backend/app.py:271-276 | an unknown user and a mismatched address both fail the directory check, which `SendCode` answers with one identical reply |

## Findings

| source | as written | input that shows it | evidently intended | confidence | as-written member | corrected member |
|---|---|---|---|---|---|---|
| backend/app.py:245-247 | the boolean returned by `modify_password` is discarded and success is reported | bind succeeds; the server refuses the new password, e.g. a complexity-policy violation or `unicodePwd` over the unencrypted connection of line 226. ldap3 then returns `False` without raising, since `raise_exceptions` is off by default | report failure when the modification is refused | medium: depends on the library's default of returning `False`; not executed | `Directory.RefusedWriteReportedAsSuccess` (about `Directory.ResetAdPassword`) | `Directory.ResetAdPasswordChecked` |
| backend/app.py:175-192 | the code is stored at line 181 before `server.quit()` runs in the `finally` of line 184. If `quit()` raises, the `except` at 186 or 192 returns `False` | the message is accepted, then the server drops the connection before answering QUIT, so `quit()` raises `SMTPServerDisconnected`. `send_code` answers 500 "send failed" while the mailed code stays valid for five minutes | record a code only when the send is reported successful (the comment at line 180) | medium: follows from the control flow of lines 175-198; not executed | `CodeStore.QuitFailureStoresCode` | `CodeStore.CodeTable.SendVerificationCodeChecked` |

The handler `Handlers.ResetPassword` takes the write's `(success, message)`
pair as an input, so either version of the write can supply it.
`Handlers.SendCode` calls the as-written `SendVerificationCode`, so its
contract keeps the source's behaviour on `QuitFailed`: 500 with the code
recorded.

## Left out

- HTTP plumbing: routing, `request.get_json`, `jsonify`, CORS and the `get-config` endpoint. A body that is not JSON, and field values that are JSON but not strings, are not modelled. Request fields are `Option<string>`, and Python truthiness is "present and non-empty".
- Directory lookup (`get_user_email_from_ad`, app.py:82-151) is network I/O to ldap3. Only its result is modelled, as the input `adEmail`. Not modelled: the preference for `mail` over `userPrincipalName`, the doubled bind, and the search filter built from the unescaped username.
- The password modification and bind are network I/O. They appear as the `WriteOutcome` input of `ResetAdPassword`, and as the `(bool, ResetMessage)` input of `ResetPassword`. The exact Python exception text (e.g. for an unset `LDAP_USER_DN`) is the `detail` string of `Raised`.
- The target DN of the password modification: `Directory.UserDn` builds it, but the modification is an input outcome, so the model does not tie the outcome to that DN.
- Mail composition and SMTP transport are I/O. They appear as the `MailOutcome` input. The SMTP-error and other-error branches differ only in logging, so both are `TransportFailed`.
- Randomness (`secrets.randbelow`) is replaced by six digit draws. The wall clock is replaced by an integer instant passed in. Local-time jumps of the naive `datetime` are not modelled.
- Logging, `.env` loading and the other configuration reads, `main`/`app.run`, and the unused `winrm` import. Only the base-DN normalisation of configuration is modelled.
- Concurrent requests against the shared table: the source has no locking, and each request is modelled as running to completion.
- `Text.Lower`: only ASCII letters are lower-cased. Python's full Unicode `str.lower()` is not modelled.
- Messages are named constructors of `Message` and `ResetMessage`, not the service's literal texts.
- `Text.RemoveAll`: its contract states only that the result is no longer than the input. Its meaning on the strings the service builds is given by `Text.StripPrefix` and `Text.RemoveAbsent`.
