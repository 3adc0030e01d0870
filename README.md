# TaxMate waitlist endpoint in Dafny

This is a model of the TaxMate waitlist API route (`app/api/waitlist/route.ts`), with proofs about it.

`POST` takes a JSON body `{ name?, email, message? }` and handles it in these steps:

1. It checks the address in two stages. First comes a presence test: the value must be non-empty and contain `@`. Then comes the pattern `^[^\s@]+@[^\s@]+\.[^\s@]+$`.
2. It inserts a row into the `waitlist` table, whose email column is unique. The stored row holds:
   - `name || null`;
   - `email.toLowerCase().trim()`;
   - `message || null`.
3. It maps SQLSTATE `23505` (unique violation) to a 400 "already on the waitlist" answer. Any other failure becomes a generic 500.
4. It reads the row count. From it the handler derives the signup's position, the early-bird flag (`position <= 100`) and the seats left (`max(0, 100 - position)`).
5. If a mail service is configured, it sends a welcome email. A failed send is ignored.
6. It answers 200 with a fixed acknowledgement.

`GET` always answers 405.

The files:

- `wrappers.dfy`: `Option` and `Result`.
- `js_text.dfy`: the JavaScript string built-ins the handler uses.
  - The `\s` class: the exact ECMAScript WhiteSpace and LineTerminator set.
  - `trim`, `toLowerCase` (ASCII letters) and the decimal rendering of a count in a template literal.
  - Lemmas: `trim` is a slice with only whitespace around it; it is idempotent; it commutes with lower-casing; it is the identity on text without whitespace.
- `email_validation.dfy`: the address check.
  - The pattern's language is a predicate over where the `@` and the `.` fall.
  - An executable test (the first `@`, then an inner `.`) is a direct decision procedure for the pattern's language, proved to accept exactly that language.
  - `CheckEmail` puts the two stages in order.
- `store.dfy`: the `waitlist` table.
  - It is a class holding `rows: seq<Row>`, with the unique-email constraint as its invariant.
  - `Insert` can be given a fault to report. `Count` can be told to fail.
- `welcome.dfy`: the values derived from the count, and the welcome email's parameters.
  - The email's parameters are sender, recipient, subject, greeting, branch and numbers.
  - The mail service is a class whose `outbox` grows by one message per accepted send.
- `waitlist_route.dfy`: the two handlers.
  - `Post` is a method on the table and the mailer, with one `ensures` per path through the source.
  - `Enroll` is the part from the insert on.
- `scenarios.dfy`: what a client can conclude from `Post`'s contract alone.
  - The same request repeated `n` times adds at most one row.
  - A signup followed by the same address with a trailing space gives two different answers.

Calls into the outside world become parameters of `Post`:

- `body` is `None` when the body cannot be read as JSON (or is `null`).
- `storeFault` stands for a database failure other than the unique constraint.
- `countFails` stands for the count query failing. The source then uses `count || 0`, so the position is 0.
- `sendFails` stands for the mail service throwing.
- `mailer` is `null` when no mail API key is configured.

Two consequences of the code are worth spelling out:

- **Trailing space.** After `"User@Example.com"` has joined, `"user@example.com "` is refused as "Invalid email format", not as a duplicate. The pattern admits no whitespace, so the request never reaches the insert (`WaitlistScenarios.TrailingSpaceVariant`), and `.trim()` never changes an address that reaches it (`WaitlistRoute.NormalizeAccepted`).
- **Empty name or message.** `|| null` stores an empty string as null too (`WaitlistRoute.OrNull`).

## Model

| member | source | states |
|---|---|---|
| EmailValidation.CheckEmail | app/api/waitlist/route.ts:37-52 | accepts exactly the present values matching the pattern, and returns them unchanged and free of whitespace; "email required" exactly when the value is missing, empty or has no '@'; "invalid format" exactly when it has an '@' but fails the pattern |
| EmailValidation.EmailPatternTestIsRegex | app/api/waitlist/route.ts:46-47 | splitting at the first '@' and looking for an inner '.' after it accepts exactly the language of `^[^\s@]+@[^\s@]+\.[^\s@]+$` |
| EmailValidation.AcceptedEmailShape | app/api/waitlist/route.ts:46 | an accepted address has no whitespace and exactly one '@', and a '.' after the '@' that is neither the first nor the last character of the domain |
| EmailValidation.RegexImpliesPresence | app/api/waitlist/route.ts:38-47 | an address the pattern accepts also passes the presence test, so the presence test only decides which rejection is given |
| EmailValidation.TrailingWhitespaceFailsRegex | app/api/waitlist/route.ts:46 | any text followed by a whitespace character is rejected by the pattern |
| EmailValidation.LowerKeepsRegex | app/api/waitlist/route.ts:46-60 | lower-casing an accepted address keeps it accepted |
| EmailValidation.AcceptedExample | app/api/waitlist/route.ts:46 | "User@Example.com" matches the pattern |
| EmailValidation.RejectedExamples | app/api/waitlist/route.ts:46 | "foo@bar", "@x.com" and "a b@c.com" do not match the pattern |
| JsText.Trim | app/api/waitlist/route.ts:60 | the trimmed text is no longer than the input, and neither starts nor ends with whitespace |
| JsText.TrimIsSlice | app/api/waitlist/route.ts:60 | `trim` keeps a contiguous slice of its input, with only whitespace before and after it |
| JsText.TrimOfUnspaced | app/api/waitlist/route.ts:60 | text without whitespace is unchanged by `trim` |
| JsText.TrimIdempotent | app/api/waitlist/route.ts:60 | trimming twice is trimming once |
| JsText.TrimLowerCommute | app/api/waitlist/route.ts:60 | `toLowerCase().trim()` equals `trim().toLowerCase()` |
| JsText.ToLowerIsLowerCase | app/api/waitlist/route.ts:60 | the lower-cased text has no upper-case letter, and text without one is its own lower case |
| JsText.DecimalRoundTrip | app/api/waitlist/route.ts:93 | the digits the template literal renders for a position read back as that position |
| WaitlistRoute.NormalizeAccepted | app/api/waitlist/route.ts:60 | for an address that passed validation, `toLowerCase().trim()` is just `toLowerCase()` |
| WaitlistRoute.NormalizeIdempotent | app/api/waitlist/route.ts:60 | normalising a normalised address changes nothing |
| WaitlistRoute.OrNull | app/api/waitlist/route.ts:59-61 | the stored field is null exactly when the value is absent or empty, and otherwise the value itself |
| WaitlistRoute.InsertPayload | app/api/waitlist/route.ts:57-63 | the inserted row is name-or-null, the lower-cased address and message-or-null |
| WaitlistRoute.InsertKeepsNormalized | app/api/waitlist/route.ts:57-64 | appending the row built from an accepted request keeps every stored address lower-case and matching the pattern |
| WaitlistRoute.NormalizedRowsAreFixed | app/api/waitlist/route.ts:60 | a stored address is its own normal form |
| WaitlistRoute.GreetingUsesStoredName | app/api/waitlist/route.ts:124 | the email greets exactly the name that was stored, or "there" when null was stored |
| WaitlistRoute.Post | app/api/waitlist/route.ts:33-208 | per path: unreadable body gives 500; the presence and pattern failures give their 400s; a unique violation gives the duplicate 400; any other store fault gives 500. In each of these the table and the outbox are unchanged. Otherwise exactly the normalised row is appended, and 200 is returned whether or not a mailer is configured or the send fails. The mail goes to the address as typed, with the position read after the insert (0 if the count fails). The unique constraint and the all-normalised invariant are kept. |
| WaitlistRoute.Enroll | app/api/waitlist/route.ts:55-201 | the same paths and new state as `Post`, for a request whose address passed both checks |
| WaitlistRoute.Get | app/api/waitlist/route.ts:211-216 | the answer is 405 with "Method not allowed. Use POST to join the waitlist." and depends on nothing |
| RecordStore.UniqueMeansAtMostOne | app/api/waitlist/route.ts:66-73 | under the unique constraint an address is held by exactly one row when present and by none otherwise |
| RecordStore.WaitlistTable.Insert | app/api/waitlist/route.ts:55-75 | a reported fault leaves the table unchanged; an address already present is refused with 23505 and the table unchanged; otherwise the row is appended. The unique constraint is kept. |
| RecordStore.WaitlistTable.Count | app/api/waitlist/route.ts:77-80 | the exact number of rows, or none when the query fails |
| Welcome.SpotsLeft | app/api/waitlist/route.ts:83 | seats left are between 0 and 100, are 0 exactly when the position is at least 100, and add up with the position to 100 up to the hundredth signup |
| Welcome.EarlyBirdAndSpotsLeft | app/api/waitlist/route.ts:82-84 | a non-early-bird has no seats left, seats left imply early bird, and position 100 is an early bird with 0 seats left |
| Welcome.SubjectNamesPosition | app/api/waitlist/route.ts:92-94 | the subject names the position (and reads back as it) exactly for early birds, and is the general welcome exactly otherwise |
| Welcome.GreetingName | app/api/waitlist/route.ts:124 | the greeting is never empty, and is "there" exactly when the name is absent, empty or itself "there" |
| Welcome.WelcomeEmailParameters | app/api/waitlist/route.ts:89-94 | fixed sender, the given recipient and position, the early-bird branch exactly up to position 100 with its seats adding up to 100, otherwise no seats and the general subject |
| Welcome.Mailer.Send | app/api/waitlist/route.ts:87-191 | a send that throws adds nothing to the outbox; otherwise the message is appended |
| WaitlistScenarios.SubmitRepeatedly | app/api/waitlist/route.ts:66-73 | while the store and the mail service behave, sending the same accepted request n times adds at most one row, answers duplicate from the second time on, and leaves exactly one row for the address |
| WaitlistScenarios.TrailingSpaceVariant | app/api/waitlist/route.ts:46-64 | an accepted signup followed by its lower-cased address plus a whitespace character: the first joins, the second is refused as malformed, and the table holds the single lower-cased row |

## Left out

- The database and mail clients and their configuration from environment variables (`route.ts:22-31`). The table is an in-memory class, and the clients' failures are the parameters `storeFault`, `countFails` and `sendFails`. A configured or missing mail key is a non-null or null `mailer`.
- Concurrency. Two requests can interleave between the insert and the count, so the position one of them sees can include the other's row. The model is sequential, so the count is always the table size right after the insert.
- The HTML body of the welcome email (`route.ts:95-187`). A message is reduced to its branch (early-bird or general), the greeting name, the position and the seats left.
- Unicode `toLowerCase`: only ASCII letters are lower-cased. The whitespace set of `\s` and `trim` is modelled in full.
- JSON parsing and the request/response objects. The body is a record with optional string fields. A field holding a non-string JSON value (a number, an array) is not modelled.
- The `created_at` column, which the database fills in.
- `JsText.Decimal`: does not model the exponent notation JavaScript uses for numbers of 10^21 and above. Positions that large do not occur.
- Errors thrown by the runtime other than the ones above (for instance, running out of memory). These would also give the generic 500.
- The React pages and components and the site layout: they are presentation and hold no logic of the endpoint.
