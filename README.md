# Password-reset token state machine

A model of the two request handlers of a small Express/MongoDB server that
lets a user reset a forgotten password. `POST /api/forgot-password` looks up
the account by email, stores a random token (32 bytes written as 64 lower-case
hex characters) with an expiry five minutes ahead, saves the account and then
mails a reset link. `POST /api/reset-password/:token` looks for an account
holding that token with an expiry strictly in the future, stores the submitted
password and clears both token fields.

- `wrappers.dfy`: the `Option` type used for the nullable token fields.
- `hex.dfy` (module `Hex`): the token format, `HexEncode`, its inverse
  `HexDecode` and the round-trip lemmas in both directions.
- `reset.dfy` (module `PasswordReset`): the `Account` record, the user
  collection as the class `UserStore` (a map from email to account that the
  two handler methods update), the pure functions that specify the handlers'
  effect on one account and on the store, and the lemmas: paired token fields,
  strict expiry, one-time use, supersession by re-issue, and that no other
  account changes.

The clock (`Date.now()`), the random bytes (`crypto.randomBytes(32)`) and the
outcome of the mail transport are parameters of the methods. The code stores
the password exactly as submitted (server.js:75); no hashing is modelled.

MongoDB's `findOne` on the token returns some matching document when several
accounts hold the same token. `ResetPassword` therefore redeems any one
matching account. Store-wide one-time use and supersession are proved under
the condition that no two accounts share a pending token (`TokensDistinct`,
`FreshFor`); the redeemed account itself answers no token until a new one is
issued for it, unconditionally.

## Model

| member | source | states |
|---|---|---|
| `Hex.HexEncode` | server.js:36 | the token text has two characters per random byte, each in `0-9a-f`: the lower-case digit of the byte's high nibble, then that of its low nibble |
| `Hex.HexDecode` | server.js:36 | an accepted string has even length, two hex digits per decoded byte |
| `Hex.DecodeEncode` | server.js:36 | decoding the hex encoding of any bytes gives those bytes back |
| `Hex.EncodeDecode` | server.js:36 | every string the decoder accepts is the encoding of its result, so the hex form is a bijection |
| `Hex.DecodeTotal` | server.js:36 | every even-length string over `0-9a-f` decodes, so the hex form is a bijection between byte strings and such strings |
| `Hex.EncodeInjective` | server.js:36 | distinct random bytes give distinct tokens |
| `Hex.Token` | server.js:36 | a token built from 32 random bytes has 64 characters from `0-9a-f` and decodes back to those bytes |
| `PasswordReset.Redeemable` | server.js:66-69 | the redeem query's filter on one account (stored token equal to the submitted one, stored expiry strictly after now); only an account with a pending reset for exactly that token passes it |
| `PasswordReset.Matches` | server.js:66-71 | some account of the store passes the redeem query; an empty store matches nothing, and a match implies some account holds the token |
| `PasswordReset.RedeemedAt` | server.js:75-78 | the saved store after redeeming account `e`: same emails, `e` holds the submitted password with no pending reset, every other account unchanged |
| `PasswordReset.WithToken` | server.js:37-38 | the issued account keeps its email and password, has both token fields set, and redeems the new token exactly while the time is before `now + 300000`, and no other token |
| `PasswordReset.Consumed` | server.js:75-77 | the redeemed account keeps its email, holds the submitted password as given, has both token fields cleared and redeems no token at any time |
| `PasswordReset.IssueStore` | server.js:30-39 | an unknown email leaves the store unchanged; a known one changes only that account, to its issued form; the set of accounts is unchanged |
| `PasswordReset.UserStore.constructor` | server.js:18-25 | a user collection keyed by email whose accounts have paired token fields |
| `PasswordReset.UserStore.RequestReset` | server.js:28-62 | outcome `NotFound` exactly for an unknown email, otherwise `Sent` or `DispatchFailed` by the mail outcome; the new store is `IssueStore` of the old one with the hex token of the random bytes, whatever the mail outcome; paired fields preserved |
| `PasswordReset.UserStore.ResetPassword` | server.js:65-81 | succeeds if and only if some account holds the token with expiry strictly after now; on failure the store is unchanged; on success exactly one such account is replaced by its consumed form and nothing else changes |
| `PasswordReset.IssuePreservesWellFormed` | server.js:37-39 | issuing keeps both token fields set or both absent on every account |
| `PasswordReset.RedeemPreservesWellFormed` | server.js:75-78 | redeeming keeps both token fields set or both absent on every account |
| `PasswordReset.NoPendingNoMatch` | server.js:66-73 | when no account has a pending reset, every token is refused |
| `PasswordReset.ExpiryIsStrict` | server.js:68 | a stored token is accepted exactly while now is before its expiry, refused at the expiry instant, and stays refused afterwards |
| `PasswordReset.IssuedTokenWindow` | server.js:36-39 | right after issuing, the new token is accepted at every time before `now + 300000`; when no other account held it, at no other time |
| `PasswordReset.IssuePreservesDistinct` | server.js:37-39 | issuing a token held by no other account keeps pending tokens pairwise distinct |
| `PasswordReset.RedeemPreservesDistinct` | server.js:75-78 | redeeming keeps pending tokens pairwise distinct |
| `PasswordReset.OneTimeUse` | server.js:66-78 | after a redemption the redeemed account answers no token, and with distinct pending tokens the redeemed token is refused store-wide at any later time |
| `PasswordReset.ReissueSupersedes` | server.js:30-39 | re-issuing for an account with a different token makes the previous token redeem nowhere (when no other account held it) |
| `PasswordReset.IssueRedeemTwice` | server.js:28-81 | on a store with no pending reset: issuing for a known email with mail delivered gives `Sent`, redeeming the token one millisecond before expiry succeeds and stores the password, and redeeming it again is refused |

## Left out

- HTTP plumbing: the Express app, JSON parsing, CORS, routing, status codes and message texts, and `app.listen` (server.js:1-12, 83-85); responses are the outcome datatypes `ForgotOutcome` and `ResetOutcome`.
- Environment and connections: `dotenv` and `mongoose.connect` (server.js:8, 15).
- The mail transport (server.js:41-61): only its success or failure is modelled, as the `mailOk` input; the link text built from the request's host header is presentation only.
- Randomness and the clock: `crypto.randomBytes` and `Date.now()` are inputs (`random`, `now`), so the freshness of a random token is a hypothesis (`FreshFor`) of the lemmas that need it, not something the model guarantees.
- Schema validation and store failures: a missing or empty password fails Mongoose's `required` check on save, which the handler does not catch; such exceptions from the store are not modelled, and `ResetPassword` accepts any string.
- A request body without an `email` field is not modelled; `RequestReset` takes an email string.
- Concurrency: two redemptions of the same still-valid token racing between lookup and save are outside this sequential model.
