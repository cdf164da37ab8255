# ko-fi-goal core in Dafny

A model of the request handling of a donation-goal overlay. The app has
three handlers, and all of them work on one goal row (id 1):

- **Access gate** (`middleware.js`). Requests to protected paths need an
  `Authorization` header whose second space-separated piece is the Base64
  encoding of credentials matching the `AUTH_USER`/`AUTH_PASS`
  environment values. The scheme word in front of it is never checked. Anything else gets one fixed
  401 challenge. It is modelled as the pure function `AccessGate.Authorize`.
  The helpers beside it are JavaScript's `split` and destructuring (module
  `Text`) and a strict Base64 codec (module `Base64`, section 4 of RFC 4648).
- **Admin actions** (`app/actions.js`). `updateGoal` overwrites amount,
  text, second-half flag and second amount of the goal row. `setSecondHalf`
  overwrites only the flag. They are methods of the class `GoalStore.Store`,
  whose field `rows` is the goals table.
- **Ko-fi webhook** (`app/api/webhook/route.js`). The handler reads
  `data` from `req.body` and checks its verification token against
  `KOFI_WEBHOOK_SECRET`. Only then does it write the notification's
  amount, in cents, into the goal row. It is the method
  `GoalStore.Store.Post`, which returns the reply.

Environment values are parameters of type `Option<string>`, and `None`
stands for an unset variable. A form field is also an `Option<string>`,
with `None` for the `null` that `formData.get` returns for a missing
field. The properties of a webhook notification are `GoalStore.JsValue`
values, which keep `undefined` and `null` apart, because the guard
compares them with the strict `!==`. The float conversions to cents are the two
uninterpreted function fields of `GoalStore.ToCents`.

Three behaviours of the code are worth knowing, and the model keeps them:

- The webhook **overwrites** `amount_in_cents` with the one notification's
  cents (app/api/webhook/route.js:20-23). The comment on line 19 speaks of
  incrementing the counter, but nothing adds to the stored amount.
- The handler takes `data` straight from `req.body`
  (app/api/webhook/route.js:9). It decodes no JSON or form body, and it has
  no error response of its own for a body without `data`.
- `updateGoal` never writes the display-image flag
  (app/actions.js:16-23), although the form submits a `displayImage`
  field.

## Model

| member | source | states |
|---|---|---|
| `Text.Split` | middleware.js:15 | `split` on one character: at least one piece, no piece contains the separator, and joining the pieces with the separator gives back the input |
| `Text.SplitHead` | middleware.js:15-17 | the first piece of a split is a prefix of the input, and there is a second piece exactly when the input contains the separator |
| `Text.SplitSecond` | middleware.js:17 | when the separator occurs, it ends the first piece, and the second piece runs from there up to the end of the input or the next separator |
| `Text.SplitJoin` | middleware.js:17 | splitting the join of separator-free pieces gives back those pieces (split is the inverse of join) |
| `Text.SplitAtFirst` | middleware.js:15 | text before the first separator is the first piece, and the rest is split on its own |
| `Text.AsciiBytes` | middleware.js:17 | the bytes of ASCII text turn back into that same text under the byte/text view of `toString()` |
| `Base64.IndexOf` | middleware.js:17 | a character has a 6-bit value exactly when it is in the RFC 4648 alphabet, and that value encodes back to the character |
| `Base64.Encode` | middleware.js:17 | the encoding has four characters per started group of three bytes |
| `Base64.EncodeAlphabet` | middleware.js:15-17 | every character of an encoding is from the alphabet or `=`, so an encoded token never contains the space that `split(" ")` cuts on |
| `Base64.DecodeGroup` | middleware.js:17 | a decoded quantum carries 1 to 3 bytes (3 unless it is the final one) and re-encodes to the same four characters |
| `Base64.EncodeDecode` | middleware.js:17 | the contract of `Base64.Decode`, which models `Buffer.from(encoded, "base64")`. Decoding is strict: whatever it accepts is exactly the encoding of the bytes it returns |
| `Base64.DecodeEncode` | middleware.js:17 | decoding the encoding of any bytes gives back those bytes |
| `Base64.DecodeIffEncode` | middleware.js:17 | `Base64.Decode` is the exact inverse of encoding: `Decode(s) == Some(b)` if and only if `s == Encode(b)` |
| `AccessGate.Authorize` | middleware.js:6-28 | the result is Next or the single 401 challenge, whatever the reason. An unprotected path always passes. A missing header on a protected path is challenged. Nothing protected passes while AUTH_USER is unset |
| `AccessGate.ProtectedIffRooted` | middleware.js:4-11 | the contract of `AccessGate.IsProtected`, the `startsWith` test over the protected list: because `/` is in the list, a path is gated exactly when it starts with `/` |
| `AccessGate.PublicPathsAreGated` | middleware.js:3-11 | the public list exempts nothing: paths under `/_next` or `/favicon.ico` are gated and challenged without credentials |
| `AccessGate.Token` | middleware.js:15 | the second space-separated piece of the header is present exactly when the header contains a space, and it never contains a space |
| `AccessGate.TokenAfterScheme` | middleware.js:15 | `AccessGate.Token` is the piece after the first space, up to the next space |
| `AccessGate.NoTokenIsChallenged` | middleware.js:14-27 | fails closed: a header with no space, one ending after the space, or one with a doubled space has no token and is challenged |
| `AccessGate.SchemeIsIgnored` | middleware.js:15-16 | the scheme word is never checked: `Basic x` and `Foo x` get the same decision |
| `AccessGate.Credentials` | middleware.js:17 | colon-free text is the user piece with no password piece. Otherwise the user piece is the text up to the first colon, and the password piece is the text after it, up to the end or the second colon |
| `AccessGate.CredentialsPieces` | middleware.js:17 | user and password are the first two `:` pieces; a third piece is ignored, and colon-free text has no password piece |
| `AccessGate.EncodedTextDecides` | middleware.js:15-20 | on a protected path, an encoded ASCII credential passes exactly when its user piece equals AUTH_USER and its password piece equals AUTH_PASS |
| `AccessGate.BasicRoundTrip` | middleware.js:15-20 | `Basic base64(user:pass)` with colon-free ASCII parts passes exactly when the path is unprotected or both equal the configured values |
| `AccessGate.TrailingPiecesIgnored` | middleware.js:17-18 | appending `:extra` after the password does not change the decision |
| `AccessGate.PasswordlessWhenPassUnset` | middleware.js:17-18 | with AUTH_PASS unset, the colon-free credential equal to AUTH_USER passes, because an absent piece equals an unset variable |
| `GoalStore.Store.UpdateGoal` | app/actions.js:5-25 | only the goal row changes: its amount, text, second-half flag and second amount come from the form, and its display flag stays |
| `GoalStore.Store.SetSecondHalf` | app/actions.js:27-34 | only the goal row's second-half flag changes, to the raw field value |
| `GoalStore.Store.Post` | app/api/webhook/route.js:3-26 | an absent `data` throws before any write. A token not strictly equal to the secret gives 401 "Unauthorized" and an unchanged table, and a `null` token is always refused. Otherwise only the goal row's amount is replaced by this notification's cents, and the reply is 200 "OK" |
| `GoalStore.FromField` | app/actions.js:6-13 | a form field read with `formData.get` is a string or `null`, never `undefined` |
| `GoalStore.FromEnv` | app/api/webhook/route.js:10 | a `process.env` entry is a string or `undefined`, never `null` |
| `GoalStore.OnlyGoalRowWritten` | app/actions.js:16-24 | writing the row with id 1 leaves every other row as it was |
| `GoalStore.ApplyFormColumns` | app/actions.js:6-23 | the contract of `GoalStore.ApplyForm`, the row `updateGoal` writes: the stored amount is the parsed conversion and the second amount the coerced one. Text and flag are stored raw, and the display flag is unchanged |
| `GoalStore.DisplayImageFieldIgnored` | app/actions.js:16-24 | the submitted displayImage field has no effect on the stored row |
| `GoalStore.ApplyFormIdempotent` | app/actions.js:16-24 | applying the same form twice gives the same row as applying it once |
| `GoalStore.ApplyAmountOverwrites` | app/api/webhook/route.js:15-23 | the contract of `GoalStore.ApplyAmount`, the row the webhook writes: the amount becomes this notification's cents and no other column changes. The later of two notifications decides, and a redelivery changes nothing |
| `GoalStore.ApplyAmountIsNotIncrement` | app/api/webhook/route.js:19-23 | when the stored amount is non-zero, the result is not the old amount plus the notification's |
| `GoalStore.UnsetSecretAcceptsMissingToken` | app/api/webhook/route.js:10-12 | the consequence of `GoalStore.TokenAccepted`, the strict `!==` guard: with the secret unset, a notification whose token property is missing passes, while a `null` token and every string token are refused |

## Left out

- AccessGate.Authorize: the token is decoded strictly (padded, canonical RFC 4648 Base64), and anything else is challenged. Node's `Buffer.from(token, "base64")` is lenient: it skips stray characters and accepts missing padding, so a few malformed tokens that the source might let through are challenged here.
- Text.BytesToText: `toString()` decodes UTF-8. The model maps each byte to the character with the same code, which agrees with UTF-8 only on ASCII. The credential lemmas are therefore stated for ASCII text.
- GoalStore.Store.Post: the source's query chain (`from("goals").eq("id", 1).upsert(...)` with a payload that carries no id) is library behaviour the model cannot see. The model writes the amount column of row 1, as the filter intends.
- GoalStore.Store.Post: `Threw` stands for the TypeError raised on an absent `data`. The framework's response to it is not modelled.
- GoalStore.Store.Post: `RequestBody` stands for a body already parsed into an object with a `data` property. In a Next.js App Router route handler, `req` is a Web `Request`, and `req.body` is a `ReadableStream` or `null`. So `data` is undefined, or reading it throws, and every request as deployed ends on the `Threw` path. The model's 401 and 200 paths describe the handler as it would behave if it received a parsed body.
- The float conversions `Math.round(parseFloat(v) * 100)` and `Math.round(v * 100)` are uninterpreted parameters. NaN results and rounding are not modelled.
- The database's coercion of the raw `showSecondHalf` value into its column type is not modelled. The row keeps the raw value.
- Supabase error returns are not modelled, and neither is an update against a missing row. Every store method requires the seeded goal row.
- `config.matcher` routing (middleware.js:31-33), response-object construction, `console.log` and reading `process.env` are left out. Environment values are parameters.
- app/page.js and app/goal/page.jsx are not part of this model. They hold the React pages, the realtime subscription and the display formatting.
- Concurrency, live-update fan-out and webhook deduplication are out of scope: the code has none of them.
