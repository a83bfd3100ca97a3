/** The password-reset token state machine of the server: issuing a
    time-limited token for an account (`/api/forgot-password`) and redeeming
    it to set a new password (`/api/reset-password/:token`), over a store of
    accounts keyed by their unique email. The clock, the random bytes and the
    outcome of the mail transport are inputs. */
module PasswordReset {

  import opened Wrappers
  import opened Hex

  /** A token stays valid for five minutes, in milliseconds. */
  const ExpiryMs: int := 300000

  /** One user document. `password` is stored exactly as submitted. */
  datatype Account = Account(
    email: string,
    password: string,
    resetToken: Option<string>,
    resetTokenExpiry: Option<int>)

  datatype ForgotOutcome = NotFound | DispatchFailed | Sent

  datatype ResetOutcome = InvalidOrExpired | PasswordUpdated

  /** The token fields are set together and cleared together. */
  predicate Paired(a: Account) {
    a.resetToken.Some? <==> a.resetTokenExpiry.Some?
  }

  predicate Pending(a: Account) {
    a.resetToken.Some?
  }

  /** The query of the redeem handler: the stored token equals `token` and the
      stored expiry lies strictly after `now`. */
  predicate Redeemable(a: Account, token: string, now: int)
    ensures Redeemable(a, token, now) ==> Pending(a) && a.resetToken.value == token
    ensures !Pending(a) ==> !Redeemable(a, token, now)
  {
    a.resetToken == Some(token) && a.resetTokenExpiry.Some? && a.resetTokenExpiry.value > now
  }

  /** Some account of the store answers the redeem query. */
  predicate Matches(accounts: map<string, Account>, token: string, now: int)
    ensures accounts == map[] ==> !Matches(accounts, token, now)
    ensures Matches(accounts, token, now) ==>
      exists e :: e in accounts && accounts[e].resetToken == Some(token)
  {
    exists e :: e in accounts && Redeemable(accounts[e], token, now)
  }

  /** No two accounts hold the same pending token. */
  predicate TokensDistinct(accounts: map<string, Account>) {
    forall e1, e2 ::
      e1 in accounts && e2 in accounts && e1 != e2 && Pending(accounts[e1]) ==>
        accounts[e1].resetToken != accounts[e2].resetToken
  }

  /** No account other than `email` holds `token`. */
  predicate FreshFor(accounts: map<string, Account>, email: string, token: string) {
    forall e :: e in accounts && e != email ==> accounts[e].resetToken != Some(token)
  }

  /** The account after issuance at `now`: it redeems `token` exactly until
      `now + ExpiryMs` (exclusive), and its identity and password are kept. */
  function WithToken(a: Account, token: string, now: int): (r: Account)
    ensures r.email == a.email && r.password == a.password
    ensures Paired(r) && Pending(r)
    ensures forall t :: Redeemable(r, token, t) <==> t < now + ExpiryMs
    ensures forall other, t :: other != token ==> !Redeemable(r, other, t)
  {
    a.(resetToken := Some(token), resetTokenExpiry := Some(now + ExpiryMs))
  }

  /** The account after a successful redemption: it has the new password and
      no longer redeems any token at any time. */
  function Consumed(a: Account, password: string): (r: Account)
    ensures r.email == a.email && r.password == password
    ensures Paired(r) && !Pending(r)
    ensures forall token, t :: !Redeemable(r, token, t)
  {
    a.(password := password, resetToken := None, resetTokenExpiry := None)
  }

  /** The store after a forgot-password request: unchanged when the email is
      unknown, otherwise only that account is changed, to WithToken. */
  function IssueStore(accounts: map<string, Account>, email: string, token: string, now: int)
    : (r: map<string, Account>)
    ensures r.Keys == accounts.Keys
    ensures email !in accounts ==> r == accounts
    ensures forall e :: e in accounts && e != email ==> r[e] == accounts[e]
    ensures email in accounts ==> r[email] == WithToken(accounts[email], token, now)
  {
    if email in accounts then accounts[email := WithToken(accounts[email], token, now)]
    else accounts
  }

  /** `after` is `before` with the account `e`, which answered the redeem
      query, consumed with `password`; every other account is unchanged. */
  predicate RedeemedAt(
    before: map<string, Account>, after: map<string, Account>,
    e: string, token: string, password: string, now: int)
    ensures RedeemedAt(before, after, e, token, password, now) ==>
      e in before && e in after && after.Keys == before.Keys && after[e].password == password && !Pending(after[e])
    ensures RedeemedAt(before, after, e, token, password, now) ==>
      forall f :: f in before && f != e ==> after[f] == before[f]
  {
    e in before && Redeemable(before[e], token, now) &&
    after == before[e := Consumed(before[e], password)]
  }

  /** The store is keyed by each account's email, and every account has its
      token fields paired. */
  predicate WellFormed(accounts: map<string, Account>) {
    forall e :: e in accounts ==> accounts[e].email == e && Paired(accounts[e])
  }

  /** The user collection: accounts keyed by their unique email. */
  class UserStore {
    var accounts: map<string, Account>

    ghost predicate Valid()
      reads this
    {
      WellFormed(accounts)
    }

    constructor (initial: map<string, Account>)
      requires WellFormed(initial)
      ensures Valid() && accounts == initial
    {
      accounts := initial;
    }

    /** `POST /api/forgot-password`: find the account by exact email, store a
        token made of the 32 random bytes with an expiry five minutes after
        `now`, save, and only then try to send the mail (`mailOk` is the mail
        transport's outcome). The saved token stays whatever the mail does. */
    method RequestReset(email: string, random: seq<byte>, now: int, mailOk: bool)
      returns (outcome: ForgotOutcome)
      requires Valid()
      requires |random| == TokenBytes
      modifies this
      ensures Valid()
      ensures outcome == NotFound <==> email !in old(accounts)
      ensures outcome != NotFound ==> outcome == (if mailOk then Sent else DispatchFailed)
      ensures accounts == IssueStore(old(accounts), email, Token(random), now)
    {
      if email !in accounts {
        return NotFound;
      }
      var user := accounts[email];
      var token := Token(random);
      user := user.(resetToken := Some(token));
      user := user.(resetTokenExpiry := Some(now + ExpiryMs));
      accounts := accounts[email := user];
      if mailOk {
        outcome := Sent;
      } else {
        outcome := DispatchFailed;
      }
    }

    /** `POST /api/reset-password/:token`: find some account whose token is
        `token` and whose expiry is after `now`; store `password` on it as
        submitted, clear both token fields, and save. When several accounts
        match, any one of them may be chosen. */
    method ResetPassword(token: string, password: string, now: int)
      returns (outcome: ResetOutcome)
      requires Valid()
      modifies this
      ensures Valid()
      ensures outcome == PasswordUpdated <==> Matches(old(accounts), token, now)
      ensures outcome == InvalidOrExpired ==> accounts == old(accounts)
      ensures outcome == PasswordUpdated ==>
        exists e :: RedeemedAt(old(accounts), accounts, e, token, password, now)
    {
      if !Matches(accounts, token, now) {
        return InvalidOrExpired;
      }
      var e :| e in accounts && Redeemable(accounts[e], token, now);
      ghost var before := accounts;
      var user := accounts[e];
      user := user.(password := password);
      user := user.(resetToken := None);
      user := user.(resetTokenExpiry := None);
      accounts := accounts[e := user];
      assert RedeemedAt(before, accounts, e, token, password, now);
      outcome := PasswordUpdated;
    }
  }

  /** Issuing keeps every account's token fields paired and the store keyed
      by email. */
  lemma IssuePreservesWellFormed(accounts: map<string, Account>, email: string, token: string, now: int)
    requires WellFormed(accounts)
    ensures WellFormed(IssueStore(accounts, email, token, now))
  {
  }

  /** Redeeming keeps every account's token fields paired and the store keyed
      by email. */
  lemma RedeemPreservesWellFormed(
    before: map<string, Account>, after: map<string, Account>,
    e: string, token: string, password: string, now: int)
    requires WellFormed(before) && RedeemedAt(before, after, e, token, password, now)
    ensures WellFormed(after)
  {
  }

  /** A store with no pending reset answers no token. */
  lemma NoPendingNoMatch(accounts: map<string, Account>, token: string, now: int)
    requires forall e :: e in accounts ==> !Pending(accounts[e])
    ensures !Matches(accounts, token, now)
  {
  }

  /** A token is accepted if and only if some account stores exactly that
      token with an expiry strictly after now: at `now == expiry` it is
      refused, and once refused for expiry it stays refused. */
  lemma ExpiryIsStrict(a: Account, token: string, now: int, later: int)
    requires a.resetToken == Some(token) && a.resetTokenExpiry.Some?
    ensures Redeemable(a, token, now) <==> now < a.resetTokenExpiry.value
    ensures !Redeemable(a, token, a.resetTokenExpiry.value)
    ensures !Redeemable(a, token, now) && now <= later ==> !Redeemable(a, token, later)
  {
  }

  /** Right after issuing, the new token redeems until `now + ExpiryMs`
      (exclusive); if no other account held it, it redeems only then. */
  lemma IssuedTokenWindow(
    accounts: map<string, Account>, email: string, token: string, now: int, t: int)
    requires email in accounts
    ensures t < now + ExpiryMs ==> Matches(IssueStore(accounts, email, token, now), token, t)
    ensures FreshFor(accounts, email, token) ==>
      (Matches(IssueStore(accounts, email, token, now), token, t) <==> t < now + ExpiryMs)
  {
  }

  /** Issuing keeps pending tokens distinct when the new token is held by no
      other account. */
  lemma IssuePreservesDistinct(accounts: map<string, Account>, email: string, token: string, now: int)
    requires TokensDistinct(accounts) && FreshFor(accounts, email, token)
    ensures TokensDistinct(IssueStore(accounts, email, token, now))
  {
  }

  /** Redeeming keeps pending tokens distinct. */
  lemma RedeemPreservesDistinct(
    before: map<string, Account>, after: map<string, Account>,
    e: string, token: string, password: string, now: int)
    requires TokensDistinct(before) && RedeemedAt(before, after, e, token, password, now)
    ensures TokensDistinct(after)
  {
  }

  /** One-time use: the redeemed account answers no token afterwards, and when
      pending tokens were distinct, no account of the store answers the
      redeemed token again, at any time. */
  lemma OneTimeUse(
    before: map<string, Account>, after: map<string, Account>,
    e: string, token: string, password: string, now: int, later: int)
    requires RedeemedAt(before, after, e, token, password, now)
    ensures forall other :: !Redeemable(after[e], other, later)
    ensures TokensDistinct(before) ==> !Matches(after, token, later)
  {
  }

  /** Supersession: re-issuing for the same account with a different token
      leaves the old token redeeming nowhere, provided no other account held
      it. Other accounts are never touched. */
  lemma ReissueSupersedes(
    accounts: map<string, Account>, email: string,
    first: string, second: string, now1: int, now2: int, t: int)
    requires email in accounts && first != second
    requires FreshFor(accounts, email, first)
    ensures !Matches(IssueStore(IssueStore(accounts, email, first, now1), email, second, now2), first, t)
  {
  }

  /** The issue, redeem, redeem-again flow on a store with no pending reset: issue for a known
      account, redeem the issued token before expiry, then redeem it again. */
  method IssueRedeemTwice(
    initial: map<string, Account>, email: string, random: seq<byte>,
    now: int, password1: string, password2: string)
    returns (issued: ForgotOutcome, first: ResetOutcome, second: ResetOutcome, stored: Account)
    requires WellFormed(initial) && email in initial
    requires forall e :: e in initial ==> !Pending(initial[e])
    requires |random| == TokenBytes
    ensures issued == Sent && first == PasswordUpdated && second == InvalidOrExpired
    ensures stored.email == email && stored.password == password1 && !Pending(stored)
  {
    var store := new UserStore(initial);
    issued := store.RequestReset(email, random, now, true);
    var token := Token(random);
    IssuedTokenWindow(initial, email, token, now, now + ExpiryMs - 1);
    first := store.ResetPassword(token, password1, now + ExpiryMs - 1);
    ghost var e :| RedeemedAt(IssueStore(initial, email, token, now), store.accounts, e, token, password1, now + ExpiryMs - 1);
    assert e == email;
    OneTimeUse(IssueStore(initial, email, token, now), store.accounts, e, token, password1, now + ExpiryMs - 1, now + ExpiryMs - 1);
    second := store.ResetPassword(token, password2, now + ExpiryMs - 1);
    stored := store.accounts[email];
  }
}
