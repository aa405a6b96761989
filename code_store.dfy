/** The table of pending verification codes (`verification_codes`): one
    entry per email address, written when a code has been mailed, read,
    expired and consumed by `verify_code`. Time is an integer clock in
    microseconds, the resolution of the wall clock the service reads; the
    random digits of a code are passed in as draws. */
module CodeStore {

  /** Number of digits in a verification code. */
  const CodeLength: nat := 6

  /** Five minutes, in microseconds. */
  const CodeLifetime: int := 5 * 60 * 1000000

  /** A pending code and the instant after which it no longer verifies. */
  datatype Entry = Entry(code: string, expiration: int)

  // ---------------------------------------------------------------------
  // Code generation.

  /** Six independent draws, each a value `randbelow(10)` can return. */
  predicate ValidDraws(draws: seq<int>)
  {
    |draws| == CodeLength && forall i :: 0 <= i < |draws| ==> 0 <= draws[i] < 10
  }

  predicate IsDigits(s: string)
  {
    forall i :: 0 <= i < |s| ==> '0' <= s[i] <= '9'
  }

  function DigitChar(d: int): char
    requires 0 <= d < 10
  {
    ('0' as int + d) as char
  }

  function DigitValue(c: char): int
  {
    c as int - '0' as int
  }

  /** The code is the decimal digits of the draws, in draw order; a leading
      zero is kept. */
  function NewCode(draws: seq<int>): (code: string)
    requires ValidDraws(draws)
    ensures |code| == CodeLength && IsDigits(code)
    ensures forall i :: 0 <= i < |code| ==> DigitValue(code[i]) == draws[i]
  {
    seq(CodeLength, i requires 0 <= i < CodeLength => DigitChar(draws[i]))
  }

  /** The draws that produce a given code. */
  function DrawsOf(code: string): seq<int>
  {
    seq(|code|, i requires 0 <= i < |code| => DigitValue(code[i]))
  }

  /** Every six-digit string is a code some draws produce, so the generator
      reaches the whole code space. */
  lemma EveryCodeIsReachable(code: string)
    requires |code| == CodeLength && IsDigits(code)
    ensures ValidDraws(DrawsOf(code)) && NewCode(DrawsOf(code)) == code
  {
    var draws := DrawsOf(code);
    assert ValidDraws(draws);
    var c := NewCode(draws);
    forall i | 0 <= i < CodeLength
      ensures c[i] == code[i]
    {
      assert DigitValue(c[i]) == DigitValue(code[i]);
    }
  }

  // ---------------------------------------------------------------------
  // What `verify_code` decides, and what it leaves in the table.

  /** The four outcomes of `verify_code`. */
  datatype Verdict = NoEntry | Expired | Mismatch | Match

  function Check(codes: map<string, Entry>, email: string, code: string, now: int): Verdict
  {
    if email !in codes then NoEntry
    else if now > codes[email].expiration then Expired
    else if codes[email].code != code then Mismatch
    else Match
  }

  /** The table after a verdict: expired and matched entries are deleted. */
  function Settle(codes: map<string, Entry>, email: string, v: Verdict): map<string, Entry>
  {
    if v == Expired || v == Match then codes - {email} else codes
  }

  /** What happened to the message carrying a new code. */
  datatype MailOutcome =
    | Delivered        // handed to the transport, session closed
    | TransportFailed  // connecting, logging in or sending raised
    | QuitFailed       // handed to the transport, then closing the session raised
    | ComposeFailed    // building the message raised, before the transport was used

  /** `send_verification_code` either returns its boolean or lets an
      exception escape to the request handler. */
  datatype SendResult = Returned(sent: bool) | Raised

  class CodeTable {
    var codes: map<string, Entry>

    constructor ()
      ensures codes == map[]
    {
      codes := map[];
    }

    /** Generates a code, mails it, and records it only once the message has
        been handed to the transport. The key is the address exactly as
        supplied; a new code replaces any pending one for that address. */
    method SendVerificationCode(email: string, draws: seq<int>, now: int, mail: MailOutcome)
      returns (r: SendResult)
      requires ValidDraws(draws)
      modifies this
      ensures r == Returned(true) <==> mail == Delivered
      ensures r == Raised <==> mail == ComposeFailed
      ensures mail == Delivered || mail == QuitFailed ==>
                codes == old(codes)[email := Entry(NewCode(draws), now + CodeLifetime)]
      ensures mail == TransportFailed || mail == ComposeFailed ==> codes == old(codes)
    {
      var code := NewCode(draws);
      var expiration := now + CodeLifetime;
      if mail == ComposeFailed {
        return Raised;
      }
      if mail == TransportFailed {
        return Returned(false);
      }
      codes := codes[email := Entry(code, expiration)];
      if mail == QuitFailed {
        return Returned(false);
      }
      return Returned(true);
    }

    /** `send_verification_code` with the guarantee its callers rely on: a
        code is recorded exactly when the send is reported successful, so a
        reported failure leaves the table as it was. */
    method SendVerificationCodeChecked(email: string, draws: seq<int>, now: int, mail: MailOutcome)
      returns (r: SendResult)
      requires ValidDraws(draws)
      modifies this
      ensures r == Returned(true) <==> mail == Delivered
      ensures r == Raised <==> mail == ComposeFailed
      ensures r == Returned(true) ==> codes == old(codes)[email := Entry(NewCode(draws), now + CodeLifetime)]
      ensures r != Returned(true) ==> codes == old(codes)
    {
      var code := NewCode(draws);
      var expiration := now + CodeLifetime;
      if mail == ComposeFailed {
        return Raised;
      }
      if mail != Delivered {
        return Returned(false);
      }
      codes := codes[email := Entry(code, expiration)];
      return Returned(true);
    }

    /** `verify_code`: no entry fails; an expired entry is deleted and fails;
        a wrong code fails and keeps the entry; the right code succeeds and
        deletes the entry. */
    method VerifyCode(email: string, code: string, now: int) returns (ok: bool)
      modifies this
      ensures ok <==> Check(old(codes), email, code, now) == Match
      ensures codes == Settle(old(codes), email, Check(old(codes), email, code, now))
    {
      if email !in codes {
        return false;
      }
      var stored := codes[email];
      if now > stored.expiration {
        codes := codes - {email};
        return false;
      }
      if stored.code != code {
        return false;
      }
      codes := codes - {email};
      return true;
    }
  }

  /** As written, a send whose session close fails after the message was
      handed over reports failure while its code stays recorded. */
  method QuitFailureStoresCode(table: CodeTable, email: string, draws: seq<int>, now: int)
    returns (r: SendResult)
    requires ValidDraws(draws)
    modifies table
    ensures r == Returned(false)
    ensures email in table.codes && table.codes[email] == Entry(NewCode(draws), now + CodeLifetime)
  {
    r := table.SendVerificationCode(email, draws, now, QuitFailed);
  }

  // ---------------------------------------------------------------------
  // One call of `verify_code`.

  /** Without an entry the check fails and the table is unchanged. */
  lemma NoEntryLeavesTable(codes: map<string, Entry>, email: string, code: string, now: int)
    requires email !in codes
    ensures Check(codes, email, code, now) == NoEntry
    ensures Settle(codes, email, Check(codes, email, code, now)) == codes
  {
  }

  /** Past its expiration an entry fails whatever code is supplied, and is
      deleted; every other entry is kept. */
  lemma ExpiredEntryIsDeleted(codes: map<string, Entry>, email: string, code: string, now: int)
    requires email in codes && now > codes[email].expiration
    ensures Check(codes, email, code, now) == Expired
    ensures Settle(codes, email, Expired).Keys == codes.Keys - {email}
    ensures forall e :: e in codes && e != email ==> Settle(codes, email, Expired)[e] == codes[e]
  {
  }

  /** Expiry is strict: at the expiration instant itself the right code
      still verifies. */
  lemma LiveAtExpirationInstant(codes: map<string, Entry>, email: string)
    requires email in codes
    ensures Check(codes, email, codes[email].code, codes[email].expiration) == Match
  {
  }

  /** A wrong code before expiry fails and keeps the table as it was. */
  lemma MismatchKeepsEntry(codes: map<string, Entry>, email: string, code: string, now: int)
    requires email in codes && now <= codes[email].expiration && code != codes[email].code
    ensures Check(codes, email, code, now) == Mismatch
    ensures Settle(codes, email, Mismatch) == codes
  {
  }

  /** The right code succeeds exactly once: it deletes that entry only, and
      the same code then finds no entry. */
  lemma MatchConsumesEntry(codes: map<string, Entry>, email: string, now: int, later: int)
    requires email in codes && now <= codes[email].expiration
    ensures Check(codes, email, codes[email].code, now) == Match
    ensures Settle(codes, email, Match).Keys == codes.Keys - {email}
    ensures forall e :: e in codes && e != email ==> Settle(codes, email, Match)[e] == codes[e]
    ensures Check(Settle(codes, email, Match), email, codes[email].code, later) == NoEntry
  {
  }

  /** The key is the address as supplied: a code stored under one spelling is
      not found under another, even one equal to it ignoring case. */
  lemma KeyIsExactAddress(codes: map<string, Entry>, stored: string, asked: string, entry: Entry, code: string, now: int)
    requires stored != asked && asked !in codes
    ensures Check(codes[stored := entry], asked, code, now) == NoEntry
  {
  }

  // ---------------------------------------------------------------------
  // Sequences of stores and checks against the table.

  /** A table operation: a code recorded by a send, or a `verify_code` call. */
  datatype Event = Stored(email: string, entry: Entry) | Attempted(email: string, code: string, at: int)

  function Step(codes: map<string, Entry>, ev: Event): map<string, Entry>
  {
    match ev
    case Stored(email, entry) => codes[email := entry]
    case Attempted(email, code, at) => Settle(codes, email, Check(codes, email, code, at))
  }

  function Replay(codes: map<string, Entry>, events: seq<Event>): map<string, Entry>
    decreases |events|
  {
    if events == [] then codes else Replay(Step(codes, events[0]), events[1..])
  }

  /** Whether an event is a successful `verify_code` for `email`. */
  predicate Accepts(codes: map<string, Entry>, ev: Event, email: string)
  {
    ev.Attempted? && ev.email == email && Check(codes, email, ev.code, ev.at) == Match
  }

  /** How many events of the sequence verify successfully for `email`. */
  function Accepted(codes: map<string, Entry>, events: seq<Event>, email: string): nat
    decreases |events|
  {
    if events == [] then 0
    else (if Accepts(codes, events[0], email) then 1 else 0)
         + Accepted(Step(codes, events[0]), events[1..], email)
  }

  predicate NoStoreFor(events: seq<Event>, email: string)
  {
    forall i :: 0 <= i < |events| ==> !(events[i].Stored? && events[i].email == email)
  }

  predicate Untouched(events: seq<Event>, email: string)
  {
    forall i :: 0 <= i < |events| ==> events[i].email != email
  }

  /** Without an entry and without a new send, no check succeeds. */
  lemma {:induction false} NothingAcceptedWithoutEntry(codes: map<string, Entry>, events: seq<Event>, email: string)
    requires email !in codes && NoStoreFor(events, email)
    ensures Accepted(codes, events, email) == 0
    decreases |events|
  {
    if events != [] {
      assert email !in Step(codes, events[0]);
      NothingAcceptedWithoutEntry(Step(codes, events[0]), events[1..], email);
    }
  }

  /** One-time use: between two sends to an address, at most one check for
      that address succeeds, whatever codes and times are tried. */
  lemma {:induction false} AcceptedAtMostOnce(codes: map<string, Entry>, events: seq<Event>, email: string)
    requires NoStoreFor(events, email)
    ensures Accepted(codes, events, email) <= 1
    ensures email !in codes ==> Accepted(codes, events, email) == 0
    decreases |events|
  {
    if events != [] {
      var next := Step(codes, events[0]);
      assert NoStoreFor(events[1..], email);
      if Accepts(codes, events[0], email) {
        NothingAcceptedWithoutEntry(next, events[1..], email);
      } else {
        AcceptedAtMostOnce(next, events[1..], email);
        if email !in codes {
          assert email !in next;
        }
      }
    }
  }

  /** Per-address isolation: operations on other addresses neither add,
      change nor remove this address's entry. */
  lemma {:induction false} OtherAddressesIsolated(codes: map<string, Entry>, events: seq<Event>, email: string)
    requires Untouched(events, email)
    ensures email in Replay(codes, events) <==> email in codes
    ensures email in codes ==> Replay(codes, events)[email] == codes[email]
    decreases |events|
  {
    if events != [] {
      assert Untouched(events[1..], email);
      OtherAddressesIsolated(Step(codes, events[0]), events[1..], email);
    }
  }

  /** Wrong guesses before expiry never use up a code: after any number of
      them, the right code still verifies until the expiration instant. */
  lemma {:induction false} WrongGuessesKeepCode(codes: map<string, Entry>, events: seq<Event>, email: string, at: int)
    requires email in codes && at <= codes[email].expiration
    requires forall i :: 0 <= i < |events| ==>
               events[i].Attempted? && events[i].email == email &&
               events[i].code != codes[email].code && events[i].at <= codes[email].expiration
    ensures Replay(codes, events) == codes
    ensures Check(Replay(codes, events), email, codes[email].code, at) == Match
    decreases |events|
  {
    if events != [] {
      assert Step(codes, events[0]) == codes;
      WrongGuessesKeepCode(codes, events[1..], email, at);
    }
  }

}
