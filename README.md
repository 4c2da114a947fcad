# wishhh capsule core in Dafny

Wishhh is a "digital time capsule" web app. A signed-in user writes a capsule:
a title, optional text, an optional image, video or audio file, an unlock
instant, an optional password, an optional recipient e-mail address, and an
"open once" switch. The capsule is stored sealed. Anyone with the capsule's
share link sees a countdown until the unlock instant. After that they may
open it, after entering the password when one is set. A scheduled job e-mails
the recipients of capsules that have just unlocked.

This project models the part of the app that decides who may see what, and
when. It proves properties of that model.

- **Credential records** (`credential_record.dfy`, `hash_capsule_password.dfy`,
  `verify_capsule_password.dfy`, `client_crypto.dfy`). A stored password hash
  takes one of three shapes: `pbkdf2:<salt>:<hash>`, the legacy
  `<salt>:<sha256>`, or a bare `btoa` text. The model covers how the
  `hash-capsule-password` function writes these records, and how the two edge
  functions and the legacy browser helper read them back.
- **Server gates**:
  - `verify-capsule-password` checks the token, the password length, the
    unlock time, the open-once flag and then the password. Only then does it
    disclose the capsule.
  - `get-signed-media-url` issues a one-hour link only for an unlocked
    capsule, and only for a path contained in the stored media path.
  - `hash-capsule-password` requires a bearer token and a 4–100 unit
    password before it hashes or verifies.
- **Validators** (`validation.dfy`): the `sanitizeText` escaper, the
  `isValidUUID` token test and the field rules of `createCapsuleSchema`.
- **Countdown** (`countdown_timer.dfy`): the days/hours/minutes/seconds
  arithmetic, and a `Countdown` class for the component's state and its
  interval.
- **Viewing page** (`view_capsule.dfy`): a `ViewCapsulePage` class. It holds
  the page's state, and its handlers log every backend request in `calls`.
  `SelectScreen` picks the screen a state shows.
- **Creation form** (`create_capsule.dfy`): a `CreateCapsuleForm` class for
  the form. It covers the file picker rules, the error record built by the
  issue loop, the storage path, and the upload → hash → insert sequence.
- **Notification job** (`send_capsule_notification.dfy`): caller
  authorization, the selection of due capsules, and the loop that sorts each
  capsule into `success` or `failed`.

Common conventions:

- Every backend call is a parameter: an RPC answer, an edge-function answer,
  a storage upload, a table insert, SendGrid's status, or `auth.getUser()`.
  A `Reply<T>` is `Failed` or `Data(x)`. The classes record the requests
  they send in a `calls` log, in the order they are sent.
- The cryptographic primitives are the fields of a `Suite` value. These are
  SHA-256 (FIPS 180-4), PBKDF2-HMAC-SHA-256 (RFC 8018 section 5.2) and
  base 64 (RFC 4648 section 4). The model treats them as deterministic
  functions it knows nothing about, except that `Conforms` fixes their output
  lengths.
- Instants are integer milliseconds.
- JavaScript string lengths are counted in UTF-16 code units
  (`Utf16Length`).
- `trim` and the regular-expression class `\s` use ECMAScript's white space
  and line terminators.
- A function body that catches an exception is written as a `Try…` function
  returning `Option<bool>`, where `None` means "threw". The caller maps that
  to `false`.

## Model

| member | source | states |
|---|---|---|
| Capsules.PublicView | supabase/functions/verify-capsule-password/index.ts:152-163 | the disclosed capsule always says it has a password; its type has no field for the hash |
| CredentialRecord.Classify | supabase/functions/hash-capsule-password/index.ts:52-78 | every stored string is read as one of the three shapes, which writes back to the same string, with no `:` inside a salt or hash |
| CredentialRecord.ClassifyFormat | supabase/functions/hash-capsule-password/index.ts:46-78 | a record whose fields hold no `:` is read back as the shape that wrote it |
| CredentialRecord.ClassifyPbkdf2 | supabase/functions/hash-capsule-password/index.ts:46-58 | `pbkdf2:<salt>:<hash>` is read as a PBKDF2 record with that salt and hash |
| CredentialRecord.ClassifySalted | supabase/functions/hash-capsule-password/index.ts:66-68 | `<salt>:<hash>` is read as a legacy salted record |
| CredentialRecord.ThreeSegments | supabase/functions/hash-capsule-password/index.ts:54-57 | three segments tagged `pbkdf2` re-join to the stored text |
| CredentialRecord.TwoSegments | supabase/functions/hash-capsule-password/index.ts:66-68 | two segments re-join to the stored text |
| Hex.ToHex | supabase/functions/hash-capsule-password/index.ts:11-13 | two lower-case hexadecimal digits per byte |
| Hex.ByteToHex | supabase/functions/hash-capsule-password/index.ts:12 | two lower-case hexadecimal digits whose value is the byte |
| Hex.DecodeHex | supabase/functions/hash-capsule-password/index.ts:60 | the salt decodes exactly when `/.{2}/g` finds a match among its UTF-16 code units, into at most half as many bytes as code units |
| Hex.MatchPairs | supabase/functions/hash-capsule-password/index.ts:60 | `/.{2}/g` yields two-code-unit pieces, at most half as many as code units |
| Hex.UnitText | supabase/functions/hash-capsule-password/index.ts:60 | the text `parseInt` reads of a piece: the code units before the first surrogate |
| Hex.ParsePairs | supabase/functions/hash-capsule-password/index.ts:60 | one byte per piece |
| Hex.AstralSaltCharacter | supabase/functions/hash-capsule-password/index.ts:60 | the salt `ab😀cd` decodes to `[0xab, 0, 0xcd]`: the emoji's surrogate pair is one piece, stored as 0 |
| JsString.CodeUnits | supabase/functions/hash-capsule-password/index.ts:60 | a string has as many code units as its UTF-16 length |
| JsString.CodeUnitsAppend | supabase/functions/hash-capsule-password/index.ts:60 | the code units of a concatenation are those of its parts, in order |
| Hex.DecodeToHex | supabase/functions/hash-capsule-password/index.ts:11-13 | decoding the hex text of a non-empty byte array gives that array back |
| HashCapsulePassword.HashPasswordPbkdf2 | supabase/functions/hash-capsule-password/index.ts:16-47 | the record is classified as PBKDF2 with the hex salt and the hex PBKDF2 output; the salt text decodes back to the salt bytes |
| HashCapsulePassword.HashSegment | supabase/functions/hash-capsule-password/index.ts:46-63 | the record splits into the tag, the salt text and the hash text |
| HashCapsulePassword.VerifyPasswordPbkdf2 | supabase/functions/hash-capsule-password/index.ts:50-83 | true exactly when the `try` body returns true; a throw counts as false |
| HashCapsulePassword.HashThenVerify | supabase/functions/hash-capsule-password/index.ts:16-83 | a record made with a non-empty salt verifies with its own password |
| HashCapsulePassword.ToHexInjective | supabase/functions/hash-capsule-password/index.ts:11-13 | equal hex texts come from equal byte arrays |
| HashCapsulePassword.WrongPasswordNeedsCollision | supabase/functions/hash-capsule-password/index.ts:54-65 | another password passes only if PBKDF2 gives both the same output for that salt |
| HashCapsulePassword.Handle | supabase/functions/hash-capsule-password/index.ts:85-187 | 401 exactly without a bearer token or a user; 500 for a body that does not parse; 400 for a password outside 4–100 units; a `hash` answer is a PBKDF2 record of the random salt that verifies; for `verify` with a share token: 400 "Invalid shareToken format" for a malformed token, `isValid: false` when no row or no hash is found, and otherwise `isValid` exactly when the row's hash accepts the password; 400 "Invalid action" for any other request |
| VerifyCapsulePassword.VerifyPassword | supabase/functions/verify-capsule-password/index.ts:15-70 | true exactly when the `try` body returns true |
| VerifyCapsulePassword.SameVerdictAsHashFunction | supabase/functions/verify-capsule-password/index.ts:15-70 | gives the same verdict as the hash function's verifier on every password and record |
| VerifyCapsulePassword.AcceptsIssuedRecord | supabase/functions/verify-capsule-password/index.ts:19-52 | a record issued by `hash-capsule-password` opens with its password |
| VerifyCapsulePassword.AcceptsLegacySalted | supabase/functions/verify-capsule-password/index.ts:53-61 | a legacy `salt:SHA256(salt‖password)` record opens with its password |
| VerifyCapsulePassword.EmptyRecordNeverMatches | supabase/functions/verify-capsule-password/index.ts:62-64 | an empty record never matches a non-empty password |
| VerifyCapsulePassword.Handle | supabase/functions/verify-capsule-password/index.ts:72-175 | 400 exactly for missing inputs or a malformed token; `isValid` holds exactly when every gate passes and the password verifies, and then the public view is disclosed |
| VerifyCapsulePassword.MalformedTokenRefusedBeforeLookup | supabase/functions/verify-capsule-password/index.ts:92-99 | a malformed token gets 400 whatever the database holds |
| VerifyCapsulePassword.TimeGate | supabase/functions/verify-capsule-password/index.ts:128-135 | "still locked" exactly before the unlock instant |
| VerifyCapsulePassword.OpenOnceIsTerminal | supabase/functions/verify-capsule-password/index.ts:137-142 | an opened open-once capsule is refused with any password |
| VerifyCapsulePassword.Discloses | supabase/functions/verify-capsule-password/index.ts:144-166 | passing every gate gives `isValid: true` with the public view |
| VerifyCapsulePassword.PetalScenario | supabase/functions/verify-capsule-password/index.ts:84-166 | the first correct request discloses an open-once capsule; once the row is marked opened, the same request is refused |
| ClientCrypto.HashPassword | src/lib/crypto.ts:9-25 | the record has exactly two segments: the salt's hex text and the SHA-256 hex of salt text plus password |
| ClientCrypto.VerifyPassword | src/lib/crypto.ts:30-52 | true exactly when the `try` body returns true |
| ClientCrypto.HashThenVerify | src/lib/crypto.ts:9-52 | a record from `hashPassword` verifies with its password |
| ClientCrypto.ServerAcceptsClientRecord | src/lib/crypto.ts:9-25 | the edge function accepts the records `hashPassword` writes |
| ClientCrypto.WithoutSeparatorUsesBase64 | src/lib/crypto.ts:32-37 | a record without `:` matches exactly when it equals `btoa(password)` |
| ClientCrypto.IgnoresLaterSegments | src/lib/crypto.ts:32 | segments after the second do not change the verdict |
| ClientCrypto.SameLeadingSegments | src/lib/crypto.ts:32-48 | with two non-empty leading segments, only those two are read |
| ClientCrypto.SaltedBranch | src/lib/crypto.ts:39-48 | with two non-empty leading segments, the SHA-256 comparison decides |
| ClientCrypto.RejectsPbkdf2Record | src/lib/crypto.ts:30-48 | a `pbkdf2:` record never verifies here |
| GetSignedMediaUrl.Handle | supabase/functions/get-signed-media-url/index.ts:9-112 | 500 for a body that does not parse; 400 exactly for missing inputs or a malformed token; then, in order, 404 "Capsule not found" without a row, 403 while locked, 404 without stored media, 403 for a path the stored path does not contain, 500 when signing fails; 200 exactly when the capsule exists, is unlocked, has media whose stored path contains the requested path, and signing succeeds; the answer is the link for the requested path, valid 3600 s |
| GetSignedMediaUrl.LockedBeforeMediaChecks | supabase/functions/get-signed-media-url/index.ts:57-65 | a locked capsule gets 403 before its media is looked at |
| GetSignedMediaUrl.IgnoresOpenOnce | supabase/functions/get-signed-media-url/index.ts:42-104 | the open-once flags do not change the answer |
| GetSignedMediaUrl.ForeignPathRefused | supabase/functions/get-signed-media-url/index.ts:78-84 | a path with a character the stored path lacks gets 403 |
| GetSignedMediaUrl.TraversalRefused | supabase/functions/get-signed-media-url/index.ts:78-84 | `../u1/secret.png` against `u1/1700000000000.png` gets 403 |
| GetSignedMediaUrl.InfixIsSigned | supabase/functions/get-signed-media-url/index.ts:78-104 | any non-empty infix of the stored path is signed |
| Validation.SanitizeIsEscapeMap | src/lib/validation.ts:4-11 | the five replacements in order equal escaping each character on its own |
| Validation.ReplaceAll | src/lib/validation.ts:6-10 | a global replacement leaves text without the character unchanged |
| Validation.SanitizeChar | src/lib/validation.ts:4-11 | one character becomes its HTML entity, or stays as it is |
| Validation.SanitizeAppend | src/lib/validation.ts:4-11 | escaping distributes over concatenation |
| Validation.SanitizeRemovesSpecials | src/lib/validation.ts:4-11 | the output holds none of `<`, `>`, `"`, `'` and `/` |
| Validation.SanitizeKeepsPlain | src/lib/validation.ts:4-11 | text without those five characters is unchanged |
| Validation.SanitizeIdempotent | src/lib/validation.ts:4-11 | escaping twice is escaping once |
| Validation.UuidIsNarrowedServerShape | src/lib/validation.ts:14-17 | the client test is the server's 8-4-4-4-12 shape, with version digit 1–5 and variant digit 8, 9, a or b |
| Validation.ClientTokenPassesServer | src/lib/validation.ts:14-17 | every token the page accepts also passes the edge functions' check |
| Validation.ScriptTagSomewhere | src/lib/validation.ts:26 | `/<script/i` matches exactly when `<script` occurs in any ASCII letter case |
| Validation.TitleIssues | src/lib/validation.ts:21-26 | the title passes exactly when, trimmed, it has 1–100 units and no script tag |
| Validation.TitleTrimInsensitive | src/lib/validation.ts:21-26 | white space around the title never changes the issues |
| Validation.BlankTitleRequired | src/lib/validation.ts:21-24 | a blank title gives exactly "Title is required" |
| Validation.ContentIssues | src/lib/validation.ts:27-31 | content passes exactly when null or at most 10,000 units |
| Validation.EmailIssues | src/lib/validation.ts:32-38 | the recipient passes exactly when null, empty, or an address of at most 255 units |
| Validation.PasswordIssues | src/lib/validation.ts:39-44 | the password passes exactly when empty or 4–100 units, with at most one issue |
| Validation.DateIssues | src/lib/validation.ts:45-47 | the date passes exactly when present |
| Validation.TimeIssues | src/lib/validation.ts:48 | the time passes exactly when it matches `^([01]?[0-9]\|2[0-3]):[0-5][0-9]$` |
| Validation.TimeSound | src/lib/validation.ts:48 | every accepted time is `H:MM` or `HH:MM` of a clock time of the day |
| Validation.TimeComplete | src/lib/validation.ts:48 | every clock time of the day is accepted in both spellings, and reads back |
| Validation.SchemaAccepts | src/lib/validation.ts:20-49 | the schema accepts exactly when each field rule does |
| CountdownTimer.CalculateTimeLeft | src/components/CountdownTimer.tsx:21-38 | zeros once the unlock instant is reached; otherwise a normal decomposition covering the remaining time to within a second |
| CountdownTimer.TimeLeftUnique | src/components/CountdownTimer.tsx:32-37 | it is the only normal decomposition that does so |
| CountdownTimer.TimeLeftNonIncreasing | src/components/CountdownTimer.tsx:21-38 | the displayed time never grows as the clock advances |
| CountdownTimer.Countdown.constructor | src/components/CountdownTimer.tsx:17-18 | first render: zeros, not complete |
| CountdownTimer.Countdown.Refresh | src/components/CountdownTimer.tsx:21-40 | the new time left; complete and one more `onUnlock` call once the instant is reached |
| CountdownTimer.Countdown.Mount | src/components/CountdownTimer.tsx:20-44 | computes once, then the interval runs |
| CountdownTimer.Countdown.Tick | src/components/CountdownTimer.tsx:42-44 | a running interval refreshes; a cleared one changes nothing |
| CountdownTimer.Countdown.Cleanup | src/components/CountdownTimer.tsx:46 | the interval stops; nothing else changes |
| CountdownTimer.Countdown.Render | src/components/CountdownTimer.tsx:49-87 | nothing once complete; otherwise the boxes Days, Hours, Minutes and Seconds in that order, each showing its padded field, which reads back as the field's value |
| CountdownTimer.Pad | src/components/CountdownTimer.tsx:77 | a non-negative value is its decimal text, with a `0` in front exactly below ten, and reads back as the value; any value shows at least two characters |
| JsString.DecimalStringValue | src/components/CountdownTimer.tsx:77 | `String(n)` is all digits and reads back as `n` |
| JsString.DecimalStringInjective | src/pages/CreateCapsule.tsx:151 | different numbers have different decimal texts |
| JsString.LeadingZeroValue | src/components/CountdownTimer.tsx:77 | a leading `0` does not change the value a digit string reads as |
| ViewCapsule.Merge | src/pages/ViewCapsule.tsx:131-133 | the returned fields win; the id and the unlocked flag are kept |
| ViewCapsule.SelectScreen | src/pages/ViewCapsule.tsx:212-405 | content only for a loaded, ready, revealed capsule that is not spent; media only with a signed link; the prompt only for an unrevealed password capsule |
| ViewCapsule.SpentNeverShown | src/pages/ViewCapsule.tsx:267-289 | an opened open-once capsule shows only loading, the security error or "already opened" |
| ViewCapsule.RevealedExactly | src/pages/ViewCapsule.tsx:212-405 | content is shown exactly when loaded, not in error, not spent, ready and revealed |
| ViewCapsule.ViewCapsulePage.constructor | src/pages/ViewCapsule.tsx:32-43 | the first render shows the spinner and has sent nothing |
| ViewCapsule.ViewCapsulePage.Mount | src/pages/ViewCapsule.tsx:48-103 | no token: nothing; a malformed token: security error, nothing sent; otherwise one fetch, the first row, readiness from the clock, and auto-reveal of an opened capsule without a password or open-once |
| ViewCapsule.ViewCapsulePage.HandleUnlock | src/pages/ViewCapsule.tsx:105-107 | sets ready; nothing else changes |
| ViewCapsule.ViewCapsulePage.TypePassword | src/pages/ViewCapsule.tsx:374-377 | stores the text and clears the error |
| ViewCapsule.SignedLink | src/pages/ViewCapsule.tsx:145-164 | the link changes only after a signing request whose answer holds a non-empty link, and then to that link |
| ViewCapsule.MarkedCapsule | src/pages/ViewCapsule.tsx:182-194 | the capsule is kept, marked opened exactly when it already was or a mark request for a share link succeeded |
| ViewCapsule.ViewCapsulePage.RevealCapsule | src/pages/ViewCapsule.tsx:145-195 | a spent capsule is refused unchanged; otherwise revealed, a signing request for its media, a mark request when not yet opened, the link as `SignedLink` and the capsule as `MarkedCapsule` |
| ViewCapsule.ViewCapsulePage.HandleReveal | src/pages/ViewCapsule.tsx:197-203 | an unrevealed password capsule waits for its password; a spent one changes nothing, link included; otherwise as `RevealCapsule` |
| ViewCapsule.ViewCapsulePage.HandlePasswordSubmit | src/pages/ViewCapsule.tsx:109-142 | length 0 or over 100: error, nothing sent; otherwise one verification request; a rejection shows the error and keeps the capsule, the revealed flag and the link; an acceptance merges the returned fields and then reveals the merged capsule as `RevealCapsule` does, with its signing and mark requests after the verification |
| ViewCapsule.MalformedTokenNeverSent | src/pages/ViewCapsule.tsx:48-58 | a malformed token shows the security error and sends nothing |
| ViewCapsule.OpenOnceClosesAfterReveal | src/pages/ViewCapsule.tsx:166-195 | an open-once capsule is shown closed, and switches to "already opened" once its opening is recorded |
| CreateCapsule.FieldErrorsLastWins | src/pages/CreateCapsule.tsx:110-119 | a field has an error exactly when an issue names it, and the error is the last such issue's message |
| CreateCapsule.CollectFieldErrors | src/pages/CreateCapsule.tsx:111-116 | the loop builds the error record of the issues |
| CreateCapsule.FileExtension | src/pages/CreateCapsule.tsx:150 | the text after the last dot: it ends the name right after a dot and holds no dot; the whole name when there is no dot |
| JsString.LastSegment | src/pages/CreateCapsule.tsx:150 | the last segment of a split holds no separator |
| JsString.SplitLastSuffix | src/pages/CreateCapsule.tsx:150 | when the separator occurs, the last segment ends the string right after a separator |
| CreateCapsule.StoragePath | src/pages/CreateCapsule.tsx:151 | the path lies under the user's folder |
| CreateCapsule.StoragePathDistinct | src/pages/CreateCapsule.tsx:151 | uploads of the same file by the same user at different milliseconds get different paths |
| CreateCapsule.StoragePathExtension | src/pages/CreateCapsule.tsx:150-151 | the stored path keeps the file's extension |
| CreateCapsule.MediaKind | src/pages/CreateCapsule.tsx:162 | the MIME prefix before the first `/` |
| CreateCapsule.AcceptedMediaKind | src/pages/CreateCapsule.tsx:162 | an accepted file is stored as `image`, `video` or `audio` |
| CreateCapsule.NullIfBlankMeaning | src/pages/CreateCapsule.tsx:182 | null exactly when the text is all white space; otherwise its trimmed infix |
| CreateCapsule.InsertedRecordFields | src/pages/CreateCapsule.tsx:176-190 | the trimmed title; content and recipient null exactly when blank; the media path under the user's folder with the file's extension; the password flag exactly when a hash was requested |
| CreateCapsule.RequestsShape | src/pages/CreateCapsule.tsx:148-194 | the upload comes first; hashing only for a switched-on, non-empty password after a successful upload; the insert last, only when every earlier request succeeded, with a hash exactly when password-protected |
| CreateCapsule.Persisted | src/pages/CreateCapsule.tsx:144-211 | created exactly when the upload, the hashing and the insert that were needed all succeeded |
| CreateCapsule.RecordPasswordConsistent | src/pages/CreateCapsule.tsx:166-187 | a row has a hash exactly when it is marked as password-protected |
| CreateCapsule.CreateCapsuleForm.constructor | src/pages/CreateCapsule.tsx:25-36 | the initial field values |
| CreateCapsule.CreateCapsuleForm.Edit | src/pages/CreateCapsule.tsx:25-32 | the typed values; media, errors and requests unchanged |
| CreateCapsule.CreateCapsuleForm.HandleFileChange | src/pages/CreateCapsule.tsx:44-81 | a missing, oversized or non-media file leaves the form as it was; otherwise the file is kept, with a preview only for an image; no other field can change |
| CreateCapsule.CreateCapsuleForm.RemoveMedia | src/pages/CreateCapsule.tsx:83-86 | no file and no preview; no other field can change |
| CreateCapsule.CreateCapsuleForm.Validate | src/pages/CreateCapsule.tsx:98-119 | passes exactly when the schema reports nothing; the error record is built from the issues |
| CreateCapsule.CreateCapsuleForm.HandleSubmit | src/pages/CreateCapsule.tsx:96-212 | invalid: errors, nothing sent; unlock not in the future: nothing sent; otherwise the request sequence, the outcome of `Persisted`, and the spinner off |
| CreateCapsule.CreateCapsuleForm.Submit | src/pages/CreateCapsule.tsx:133-211 | refuses an unlock instant not in the future; otherwise sends the requests and turns the spinner off |
| CreateCapsule.CreateCapsuleForm.Persist | src/pages/CreateCapsule.tsx:148-163 | uploads a file first and stops when the upload fails |
| CreateCapsule.CreateCapsuleForm.Store | src/pages/CreateCapsule.tsx:165-194 | hashing when needed, then the insert; stops at the first failure |
| SendCapsuleNotification.TrimmedHeader | supabase/functions/send-capsule-notification/index.ts:63 | an absent header stays absent; a present one is trimmed |
| SendCapsuleNotification.Selected | supabase/functions/send-capsule-notification/index.ts:99-106 | exactly the rows unlocked at `now`, not yet notified, with a recipient |
| SendCapsuleNotification.Recipient | supabase/functions/send-capsule-notification/index.ts:127-128 | the stored address; a null one reads as "null", which the pattern refuses |
| SendCapsuleNotification.Dispose | supabase/functions/send-capsule-notification/index.ts:22-49 | a capsule succeeds exactly when its address matches and SendGrid, configured with key and sender, answers 202; a bad address fails |
| SendCapsuleNotification.EmailShapedIsPattern | supabase/functions/send-capsule-notification/index.ts:127 | the test at the only `@` accepts exactly the strings `a@b.c` with `a`, `b`, `c` non-empty runs free of white space and `@` |
| SendCapsuleNotification.ItemRequestsShape | supabase/functions/send-capsule-notification/index.ts:191-209 | no request for a bad address; the flag update follows a send exactly when the capsule succeeds |
| SendCapsuleNotification.ShapedIsPattern | supabase/functions/send-capsule-notification/index.ts:127 | every string the test accepts splits as `a@b.c` with the required runs |
| SendCapsuleNotification.PatternIsShaped | supabase/functions/send-capsule-notification/index.ts:127 | every `a@b.c` with the required runs passes the test |
| SendCapsuleNotification.ProcessBatch | supabase/functions/send-capsule-notification/index.ts:122-214 | the success and failed lists and the requests, in iteration order |
| SendCapsuleNotification.EveryIdOnce | supabase/functions/send-capsule-notification/index.ts:122-213 | every selected id lands in exactly one of the two lists |
| SendCapsuleNotification.MarkedExactlySucceeded | supabase/functions/send-capsule-notification/index.ts:191-209 | a capsule is flagged as notified exactly when it is reported as a success |
| SendCapsuleNotification.SendsOnlyWellFormed | supabase/functions/send-capsule-notification/index.ts:126-195 | every send goes to a well-formed address of a selected capsule, with SendGrid configured |
| SendCapsuleNotification.Handle | supabase/functions/send-capsule-notification/index.ts:60-226 | 401 exactly without cron secret or bearer user; 500 on a query error; an empty selection sends nothing; otherwise the counts equal the list lengths and add up to the selection |

## Left out

- Cryptographic internals: SHA-256, PBKDF2 and base 64 are the fields of a
  `Suite`. `crypto.getRandomValues` is a salt parameter.
- Supabase and SendGrid: queries, RPCs, storage, `auth.getUser()` and the
  mail API are parameters. The SQL of `get_capsule_by_share_token` and
  `mark_capsule_opened` is not part of this model.
- Query order: the notification query has no ordering, and the model takes
  table order.
- CORS preflight (`OPTIONS`) responses, headers, environment lookups other
  than the SendGrid and cron settings, and logging.
- The text of 500 answers: every caught exception is `InternalError`.
- Bodies whose fields are not strings are not modelled; a body that fails to
  parse is `None`.
- `src/lib/dates.ts` and the calendar: the unlock instant built from the
  chosen day and time is a parameter of `HandleSubmit`, and the unlock
  instant of a fetched capsule is an integer.
- zod's e-mail test is the parameter `isEmail`. The date rule only checks
  that a date was picked.
- UI-only code: toasts, navigation, the QR code, copying the link,
  animations, the media player markup and the HTML e-mail template.
- Concurrency: each handler is one sequential step. React batches state
  updates and handlers read the state of their render; `HandleSubmit` reads
  the form once (`Snapshot`) to match. Overlapping handlers and stale
  closures are not modelled.
- The `FileReader` preview arrives asynchronously; the model sets it at once.
- Interval timing: `Tick` takes the clock as a parameter; when the interval
  fires is not modelled. The effect re-running on new props is not modelled.
- ViewCapsule.ViewCapsulePage.HandlePasswordSubmit: reveals the merged
  capsule. In the page, `revealCapsule`'s closure still holds the capsule of
  the render before the merge, so after a successful mark request the page's
  capsule is that older copy marked opened. Stale closures are not modelled.
- The password input's `maxLength={100}` attribute is not modelled; the
  submit handler's own length check is.
- Validation.SchemaAccepts: states that the schema is the conjunction of the
  field rules, a structural fact; the meaning of each rule is in that rule's
  own contract.
- CreateCapsule.Record: has no contract of its own; the inserted row is
  described by `InsertedRecordFields`.
