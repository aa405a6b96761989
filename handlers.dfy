/** The two request handlers of the password-reset service. The directory
    lookup, the mail transport and the password write are outcomes passed
    in; the handlers decide the response and drive the code table. */
module Handlers {
  import opened Wrappers
  import opened Text
  import opened CodeStore
  import opened Directory

  /** The message of each response, named for what it tells the user. */
  datatype Message =
    | EmailRequired
    | UsernameRequired
    | UserNotFound
    | CodeSent
    | CodeSendFailed
    | CodeSendFailedRetry
    | AllFieldsRequired
    | InvalidUsernameOrEmail
    | CodeInvalidOrExpired
    | PasswordResult(detail: ResetMessage)

  /** The JSON body's `success` and `message`, and the HTTP status. */
  datatype Response = Response(success: bool, status: int, message: Message)

  /** Python truthiness of a request field or lookup result: present and
      not empty. */
  predicate Present(field: Option<string>)
  {
    field.Some? && field.value != ""
  }

  /** The directory check of both handlers: the lookup produced an address
      and it equals the supplied one ignoring case. */
  predicate DirectoryMatches(email: string, adEmail: Option<string>)
  {
    Present(adEmail) && SameIgnoringCase(email, adEmail.value)
  }

  predicate AllPresent(username: Option<string>, email: Option<string>, code: Option<string>, newPassword: Option<string>)
  {
    Present(username) && Present(email) && Present(code) && Present(newPassword)
  }

  /** POST /api/send-code. `adEmail` is what the directory lookup for
      `username` returns, `mail` what happens to the message. `lookedUp` and
      `mailed` report whether the lookup and the send were reached. */
  method SendCode(table: CodeTable, username: Option<string>, email: Option<string>,
                  adEmail: Option<string>, mail: MailOutcome, draws: seq<int>, now: int)
    returns (r: Response, lookedUp: bool, mailed: bool)
    requires ValidDraws(draws)
    modifies table
    ensures r.success <==> r.status == 200
    ensures lookedUp <==> Present(email) && Present(username)
    ensures mailed <==> lookedUp && DirectoryMatches(email.value, adEmail)
    ensures !Present(email) ==> r == Response(false, 400, EmailRequired)
    ensures Present(email) && !Present(username) ==> r == Response(false, 400, UsernameRequired)
    ensures lookedUp && !mailed ==> r == Response(false, 500, UserNotFound)
    ensures mailed && mail == Delivered ==> r == Response(true, 200, CodeSent)
    ensures mailed && (mail == TransportFailed || mail == QuitFailed) ==> r == Response(false, 500, CodeSendFailed)
    ensures mailed && mail == ComposeFailed ==> r == Response(false, 500, CodeSendFailedRetry)
    ensures r.status == 200 <==> mailed && mail == Delivered
    ensures !mailed ==> table.codes == old(table.codes)
    ensures mailed && (mail == Delivered || mail == QuitFailed) ==>
              table.codes == old(table.codes)[email.value := Entry(NewCode(draws), now + CodeLifetime)]
    ensures mailed && (mail == TransportFailed || mail == ComposeFailed) ==> table.codes == old(table.codes)
  {
    lookedUp, mailed := false, false;
    if !Present(email) {
      return Response(false, 400, EmailRequired), lookedUp, mailed;
    }
    if !Present(username) {
      return Response(false, 400, UsernameRequired), lookedUp, mailed;
    }
    lookedUp := true;
    if !Present(adEmail) {
      return Response(false, 500, UserNotFound), lookedUp, mailed;
    }
    if !Present(adEmail) || Lower(email.value) != Lower(adEmail.value) {
      return Response(false, 500, UserNotFound), lookedUp, mailed;
    }
    mailed := true;
    var sent := table.SendVerificationCode(email.value, draws, now, mail);
    match sent
    case Returned(true) => r := Response(true, 200, CodeSent);
    case Returned(false) => r := Response(false, 500, CodeSendFailed);
    case Raised => r := Response(false, 500, CodeSendFailedRetry);
  }

  /** POST /api/reset-password. `adEmail` is the directory lookup for
      `username`, `write` what `reset_ad_password` returns when called.
      `lookedUp` and `wrote` report whether the lookup and the password
      write were reached. */
  method ResetPassword(table: CodeTable, username: Option<string>, email: Option<string>,
                       code: Option<string>, newPassword: Option<string>,
                       adEmail: Option<string>, write: (bool, ResetMessage), now: int)
    returns (r: Response, lookedUp: bool, wrote: bool)
    modifies table
    ensures r.success <==> r.status == 200
    ensures lookedUp <==> AllPresent(username, email, code, newPassword)
    ensures !lookedUp ==> r == Response(false, 400, AllFieldsRequired)
    ensures lookedUp && !DirectoryMatches(email.value, adEmail) ==>
              r == Response(false, 400, InvalidUsernameOrEmail) && table.codes == old(table.codes)
    ensures lookedUp && DirectoryMatches(email.value, adEmail) ==>
              table.codes == Settle(old(table.codes), email.value, Check(old(table.codes), email.value, code.value, now))
    ensures wrote <==> lookedUp && DirectoryMatches(email.value, adEmail) &&
                       Check(old(table.codes), email.value, code.value, now) == Match
    ensures lookedUp && DirectoryMatches(email.value, adEmail) && !wrote ==>
              r == Response(false, 400, CodeInvalidOrExpired)
    ensures wrote ==> r == Response(write.0, if write.0 then 200 else 500, PasswordResult(write.1))
    ensures r.status == 200 <==> wrote && write.0
    ensures !lookedUp ==> table.codes == old(table.codes)
  {
    lookedUp, wrote := false, false;
    if !AllPresent(username, email, code, newPassword) {
      return Response(false, 400, AllFieldsRequired), lookedUp, wrote;
    }
    lookedUp := true;
    if !Present(adEmail) || Lower(email.value) != Lower(adEmail.value) {
      return Response(false, 400, InvalidUsernameOrEmail), lookedUp, wrote;
    }
    var verified := table.VerifyCode(email.value, code.value, now);
    if !verified {
      return Response(false, 400, CodeInvalidOrExpired), lookedUp, wrote;
    }
    wrote := true;
    var (success, message) := write;
    r := Response(success, if success then 200 else 500, PasswordResult(message));
  }

  /** The intended flow: a code is requested for a matching username and
      address and delivered; the reset with that code before expiry writes
      the password and succeeds; repeating the reset with the same code is
      refused without reaching the directory write. */
  method RequestThenResetTwice(table: CodeTable, username: string, email: string, adEmail: string,
                               newPassword: string, draws: seq<int>,
                               sentAt: int, resetAt: int, againAt: int)
    returns (sent: Response, reset: Response, again: Response, wroteOnce: bool, wroteTwice: bool)
    requires username != "" && email != "" && newPassword != ""
    requires DirectoryMatches(email, Some(adEmail))
    requires ValidDraws(draws)
    requires resetAt <= sentAt + CodeLifetime
    modifies table
    ensures sent == Response(true, 200, CodeSent)
    ensures reset == Response(true, 200, PasswordResult(ResetSucceeded)) && wroteOnce
    ensures again == Response(false, 400, CodeInvalidOrExpired) && !wroteTwice
    ensures email !in table.codes
  {
    var code := NewCode(draws);
    var looked, mailed;
    sent, looked, mailed := SendCode(table, Some(username), Some(email), Some(adEmail), Delivered, draws, sentAt);
    reset, looked, wroteOnce := ResetPassword(table, Some(username), Some(email), Some(code), Some(newPassword),
                                              Some(adEmail), (true, ResetSucceeded), resetAt);
    again, looked, wroteTwice := ResetPassword(table, Some(username), Some(email), Some(code), Some(newPassword),
                                               Some(adEmail), (true, ResetSucceeded), againAt);
  }

  /** A code requested under one spelling of the address is not found when
      the reset spells it differently, even though both spellings pass the
      case-insensitive directory check. */
  method ResetWithOtherSpelling(table: CodeTable, username: string, email: string, spelled: string,
                                adEmail: string, newPassword: string, draws: seq<int>, sentAt: int, resetAt: int)
    returns (sent: Response, reset: Response, wrote: bool)
    requires username != "" && email != "" && newPassword != ""
    requires DirectoryMatches(email, Some(adEmail)) && DirectoryMatches(spelled, Some(adEmail))
    requires spelled != email && spelled !in table.codes
    requires ValidDraws(draws)
    modifies table
    ensures sent == Response(true, 200, CodeSent)
    ensures reset == Response(false, 400, CodeInvalidOrExpired) && !wrote
  {
    var code := NewCode(draws);
    var looked, mailed;
    sent, looked, mailed := SendCode(table, Some(username), Some(email), Some(adEmail), Delivered, draws, sentAt);
    reset, looked, wrote := ResetPassword(table, Some(username), Some(spelled), Some(code), Some(newPassword),
                                          Some(adEmail), (true, ResetSucceeded), resetAt);
  }

  /** Not finding the user and finding a different address give the same
      response, so the reply does not reveal which one happened. */
  lemma NoEnumerationSignal(email: string, other: string)
    requires !SameIgnoringCase(email, other)
    ensures !DirectoryMatches(email, None) && !DirectoryMatches(email, Some(""))
    ensures !DirectoryMatches(email, Some(other))
  {
  }

}
