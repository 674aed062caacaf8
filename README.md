# WhatsApp session gateway, modelled in Dafny

The service keeps several WhatsApp Web sessions, each known by a session name.
Each session has a row in the `waSession` table: its status (`connecting`, `qr`,
`connected`, `disconnected` or `signed_out`), the last QR code and the last
error. Sessions that are live in this process also have a client in an
in-memory registry.

- **Startup.** Every row that is not signed out is restored.
- **Shutdown.** Every registered client is destroyed.
- **Pairing.** `qrSignIn` creates a fresh client. It marks the row
  `connecting`, attaches listeners for `qr`, `ready`, `auth_failure` and
  `disconnected`, and waits until the first of them settles a promise.
- **Other operations.** `signOut`, `getSession` and `qrConnect`.
- **`send`.** Delivers a text or a base64 media file to a chat id.
- **`sendMass`.** Splits a comma-separated `number|alias` list. It then sends
  each recipient a copy of the message with `{{ name }}` replaced by the alias,
  optionally followed by a timestamp footer.

Two helpers are modelled as well:

- `normalizePhoneNumber` rewrites Indonesian phone numbers into the
  trunk-zero national form.
- `isEmail` is the e-mail regular expression.

Modules:

- `Base`: `Option` and `Result`.
- `Text`: the JavaScript string primitives the code calls, and helpers for
  stating and deciding them:
  - the ECMAScript whitespace set, `trim` and `split` on one character;
  - `Join`, which the code never calls: it is the inverse that states what
    `split` does;
  - `IndexOf` and `LastIndexOf`, which the code never calls either: the scan
    that decides the e-mail pattern uses them;
  - lemmas that characterise these: `trim` is determined by its shape, and
    split/join are inverse.
- `Phone`: `normalizePhoneNumber`.
- `Validation`: `isEmail`. The regular expression is written as the language
  it accepts (`EmailShape`) and as a scan (`ScanEmail`), proved to agree.
- `Dispatch`: the pure expressions inside `send` and `sendMass`:
  - chat-id qualification;
  - the two base64 prefix replacements;
  - the choice between media and text;
  - the recipient list;
  - the global `{{\s*name\s*}}` replacement;
  - the footer;
  - the per-recipient request.
- `Sessions`: the service itself.
  - `WhatsappService` is a class whose fields are:
    - the registry (`sessions`);
    - the table (`store`);
    - the listeners each created client carries (`bindings`);
    - the `destroy()` calls made (`destroyCalls`);
    - a counter for new client identities.
  - Each listener is a method (`OnRestoredEvent`, `OnSignInEvent`) driven by
    the events a client emits.
  - The environment's answers are parameters: which `initialize()` throws,
    what `getState()` reports, whether `sendMessage` succeeds, the clock text.
  - The handshake is specified by fold functions over the event sequence
    (`SignInRecordAfter`, `SettleAll`, …) and lemmas about them.
  - The broadcast is specified by `Broadcast`, one planned attempt per
    recipient.

Where the code differs from what its own messages and names suggest, the model
follows the code:

- **No handshake timeout.** `qrSignIn` waits until some listener settles the
  promise; a call with no events yet is `Pending`.
- **Case-sensitive placeholder.** `{{NAME}}` is not replaced.
- **Repeated sign-out succeeds.** Signing out an already signed-out session
  rewrites the row again.
- **Sign-in failures keep the registry entry.** The `auth_failure` and
  `disconnected` listeners attached by `qrSignIn` update the row and destroy the
  client, but do not remove it from the registry. Only the restore listeners
  do.
- **Status updates keep the QR code.** A row marked `connecting` or
  `disconnected` keeps an earlier QR code.
- **`qrConnect` answers for any other status.** It passes the status checks
  for every status other than `disconnected` and `connected`, `signed_out`
  included, and then asks for the image of the stored code. A row that has a
  code gets it and its image. A row without one asks for the image of `''`,
  which the QR library refuses, so the call fails there. This happens for a
  fresh `connecting` row and for every row after `signOut`, which clears the
  code. The model answers with the image of the empty code instead (see
  "Left out").

## Definitions

These functions are the model's reading of the source; they carry little or
no contract of their own. The lemmas in the table below characterise each.

- `Text.Trim` (src/utils/function/validation.ts:3, src/service/whatsapp/whatsapp.service.ts:344): `trim`, fixed by `TrimShape` and `TrimUnique`.
- `Text.Split` (src/service/whatsapp/whatsapp.service.ts:342-343, 348-349): `split` on one character, fixed by `SplitPieces`, `SplitThenJoin` and `JoinThenSplit`.
- `Text.Join`: the inverse of `Split`, used only to state it; the code has no `join`.
- `Validation.EmailShape` (src/utils/function/validation.ts:2): the language of the e-mail pattern; `Validation.ScanEmail` decides it (`ScanEmailIsShape`).
- `Dispatch.Render` (src/service/whatsapp/whatsapp.service.ts:351): the global `{{\s*name\s*}}` replace, characterised by `RenderScans`, `RenderLiteral` and `RenderPlaceholder`.
- `Dispatch.Personalise` (src/service/whatsapp/whatsapp.service.ts:351-354): `Render` followed by `WithFooter` when `enableTimeNotes` is set; `RecipientRequest` states its use.
- `Sessions.HandlerRecord`, `Sessions.HandlerRegistry`, `Sessions.HandlerDestroys` (src/service/whatsapp/whatsapp.service.ts:85-116, 198-239): what one listener does to the row, the registry and the `destroy()` calls; `OnRestoredEvent` and `OnSignInEvent` are proved to do exactly this.
- `Sessions.SettlementOf`, `Sessions.Settle`, `Sessions.Outcome` (src/service/whatsapp/whatsapp.service.ts:190-254): what each listener settles the pairing promise with, settle-once, and how `qrSignIn` turns the settlement into its answer; characterised by `SettleAllFirstWins` and `HandshakeDecidedByFirstEvent`.
- `Sessions.Planned`, `Sessions.Broadcast` (src/service/whatsapp/whatsapp.service.ts:347-367): the attempt for one recipient and the attempts of a broadcast; characterised by `BroadcastOnePerRecipient`, and `SendTo` and `SendMass` are proved to make them.

## Model

| member | source | states |
|---|---|---|
| Text.TrimShape | src/utils/function/validation.ts:3 | `trim` removes only whitespace, and what it keeps starts and ends with a non-whitespace character |
| Text.TrimUnique | src/utils/function/validation.ts:3 | any split of a string into whitespace, a core with non-whitespace ends, and whitespace has `trim` equal to that core |
| Text.TrimIdempotent | src/service/whatsapp/whatsapp.service.ts:344 | trimming a trimmed string changes nothing |
| Text.TrimIgnoresPadding | src/utils/function/validation.ts:3 | whitespace added on either side does not change the trimmed text |
| Text.LeadingWhitespaceSpec | src/utils/function/validation.ts:3 | the leading run counted is all whitespace and stops at the first other character |
| Text.TrailingWhitespaceSpec | src/utils/function/validation.ts:3 | the trailing run counted is all whitespace and stops at the last other character |
| Text.SplitPieces | src/service/whatsapp/whatsapp.service.ts:342-343 | no piece of `split(sep)` contains the separator |
| Text.SplitThenJoin | src/service/whatsapp/whatsapp.service.ts:342-343 | joining the pieces with the separator gives the input back |
| Text.JoinThenSplit | src/service/whatsapp/whatsapp.service.ts:342-343 | splitting a join of separator-free pieces gives the pieces back |
| Text.SplitAppend | src/service/whatsapp/whatsapp.service.ts:342-343 | the pieces of `a,b` are the pieces of `a` followed by those of `b` |
| Text.TrimBlank | src/service/whatsapp/whatsapp.service.ts:344-345 | a string of whitespace trims to the empty string, which `filter(Boolean)` drops |
| Text.SplitWithoutSeparator | src/service/whatsapp/whatsapp.service.ts:348-349 | a string without the separator splits into itself alone |
| Text.IndexOf | src/utils/function/validation.ts:2 | a helper of the e-mail scan (the code calls no `indexOf`): the first position of a character, or none when it does not occur |
| Text.LastIndexOf | src/utils/function/validation.ts:2 | a helper of the e-mail scan (the code calls no `lastIndexOf`): the last position of a character, or none when it does not occur |
| Phone.Digits | src/utils/formatter/phone.ts:2 | removing non-digits leaves only ASCII digits and never lengthens the text |
| Phone.NormalizePhoneNumber | src/utils/formatter/phone.ts:1-14 | an unrecognised number is returned as given; a recognised one becomes digits only, starting with `0`, at most one longer than its digits |
| Phone.DigitsAppend | src/utils/formatter/phone.ts:2 | the digit filter distributes over concatenation |
| Phone.DigitsAt | src/utils/formatter/phone.ts:2 | a non-digit anywhere is dropped and a digit is kept in place |
| Phone.DigitsOfDigits | src/utils/formatter/phone.ts:2 | a string of digits passes the filter unchanged |
| Phone.NormalizeIdempotent | src/utils/formatter/phone.ts:1-14 | normalising twice equals normalising once |
| Phone.NormalizeIgnoresFormatting | src/utils/formatter/phone.ts:2-13 | once a branch applies, only the digits of the input matter |
| Phone.NormalizeAgreesOnSpellings | src/utils/formatter/phone.ts:4-8 | `62…`, `0…` and, for mobile numbers, bare `8…` all normalise to the trunk-zero form |
| Validation.ScanEmailSound | src/utils/function/validation.ts:2 | every string the scan accepts matches the regular expression |
| Validation.ScanEmailComplete | src/utils/function/validation.ts:2 | every match is accepted, split at the first `@` and the last `.` after it |
| Validation.ScanEmailIsShape | src/utils/function/validation.ts:2 | the scan accepts exactly the language of the regular expression |
| Validation.IsEmail | src/utils/function/validation.ts:1-4 | true exactly when the trimmed text matches the regular expression |
| Validation.IsEmailIgnoresPadding | src/utils/function/validation.ts:3 | surrounding whitespace never changes the verdict |
| Validation.AcceptedEmail | src/utils/function/validation.ts:2-3 | an accepted address has exactly one `@`, a non-empty local part and domain from their classes, a final `.` with two or more letters, and no whitespace |
| Validation.EmailSplitChars | src/utils/function/validation.ts:2 | each character of a match belongs to the class of its part |
| Dispatch.ChatId | src/service/whatsapp/whatsapp.service.ts:306 | the id contains `@`; it is the input when that already has `@`, otherwise the input followed by `@c.us` |
| Dispatch.ChatIdIdempotent | src/service/whatsapp/whatsapp.service.ts:306 | qualifying twice equals qualifying once |
| Dispatch.LongestDataUriHeader | src/service/whatsapp/whatsapp.service.ts:310 | the greedy `^data:.*;base64,` match is the longest header up to the bound, or none exists |
| Dispatch.StripBase64Prefix | src/service/whatsapp/whatsapp.service.ts:309-311 | the cleaned data is a suffix of the input |
| Dispatch.StripDataUri | src/service/whatsapp/whatsapp.service.ts:309-311 | `data:<mime>;base64,<payload>` yields exactly the payload |
| Dispatch.StripBareMarker | src/service/whatsapp/whatsapp.service.ts:311 | `base64,<payload>` yields the payload |
| Dispatch.StripRawPayload | src/service/whatsapp/whatsapp.service.ts:309-311 | raw base64 is passed through unchanged |
| Dispatch.Compose | src/service/whatsapp/whatsapp.service.ts:308-324 | media wins when base64 and MIME type are both non-empty, with file name `file` and caption `''` as defaults; otherwise non-empty text; otherwise nothing to send |
| Dispatch.Clean | src/service/whatsapp/whatsapp.service.ts:344-345 | every entry kept is non-empty and already trimmed, and no more entries than pieces |
| Dispatch.CleanOne | src/service/whatsapp/whatsapp.service.ts:344-345 | one piece becomes its trimmed text, or nothing when it is blank; with `CleanAppend` this fixes the value on every list |
| Dispatch.CleanKeepsOut | src/service/whatsapp/whatsapp.service.ts:344-345 | a character in no piece is in no entry |
| Dispatch.CleanAppend | src/service/whatsapp/whatsapp.service.ts:344-345 | trimming and filtering distributes over concatenation |
| Dispatch.Entries | src/service/whatsapp/whatsapp.service.ts:342-345 | every target is non-empty, trimmed and free of commas |
| Dispatch.ParseRecipient | src/service/whatsapp/whatsapp.service.ts:348-349 | the address is the text before the first bar; the alias is the text from there up to the next bar, or empty when there is no bar |
| Dispatch.ParseAll | src/service/whatsapp/whatsapp.service.ts:347-349 | one recipient per entry, in order |
| Dispatch.ParseAllAppend | src/service/whatsapp/whatsapp.service.ts:347-349 | parsing distributes over concatenation |
| Dispatch.Recipients | src/service/whatsapp/whatsapp.service.ts:342-349 | the i-th recipient is parsed from the i-th non-empty trimmed entry |
| Dispatch.RecipientsAppend | src/service/whatsapp/whatsapp.service.ts:342-349 | the recipients of `a,b` are those of `a` followed by those of `b` |
| Dispatch.EntriesAppend | src/service/whatsapp/whatsapp.service.ts:342-345 | the targets of `a,b` are the targets of `a` followed by those of `b` |
| Dispatch.EntriesOfPiece | src/service/whatsapp/whatsapp.service.ts:342-345 | a comma-free `to` is one target, its trimmed text, or no target when it is blank |
| Dispatch.EntriesIgnorePadding | src/service/whatsapp/whatsapp.service.ts:344 | whitespace around a comma-free entry does not change the target |
| Dispatch.EntriesBlank | src/service/whatsapp/whatsapp.service.ts:344-345 | a `to` made only of whitespace has no target |
| Dispatch.EntriesDropBlank | src/service/whatsapp/whatsapp.service.ts:345 | a blank entry between two commas is dropped: the targets are those on either side |
| Dispatch.PaddedEntries | src/service/whatsapp/whatsapp.service.ts:342-345 | a padded entry, a blank entry and a second entry give the two trimmed entries |
| Dispatch.PaddedEntriesExample | src/service/whatsapp/whatsapp.service.ts:342-345 | the list ` 628` bar `Al , ,629` bar `Bo` gives exactly two targets, `628` bar `Al` and `629` bar `Bo` |
| Dispatch.PaddedRecipients | src/service/whatsapp/whatsapp.service.ts:342-349 | a padded list with a blank entry gives one recipient per non-blank entry, in order |
| Dispatch.PaddedRecipientsExample | src/service/whatsapp/whatsapp.service.ts:342-349 | the padded list for `628` and `629` gives both recipients with aliases `Al` and `Bo`, in order |
| Dispatch.Unpadded | src/service/whatsapp/whatsapp.service.ts:342-345 | a comma-free entry with no whitespace at either end is its own single target |
| Dispatch.SingleEntry | src/service/whatsapp/whatsapp.service.ts:342-345 | a trimmed entry without commas is the only target |
| Dispatch.ParseAddressAlias | src/service/whatsapp/whatsapp.service.ts:348-349 | an address and an alias joined by a bar parse into those two halves |
| Dispatch.SingleRecipient | src/service/whatsapp/whatsapp.service.ts:342-349 | one address-bar-alias entry is one recipient |
| Dispatch.TwoRecipients | src/service/whatsapp/whatsapp.service.ts:342-349 | two entries are two recipients in order |
| Dispatch.RecipientsExample | src/service/whatsapp/whatsapp.service.ts:342-349 | the two-entry list for Alice and Bob gives both recipients with their aliases, in order |
| Dispatch.PlaceholderLength | src/service/whatsapp/whatsapp.service.ts:351 | a match of `{{\s*name\s*}}` at the start is at least 8 characters and lies within the text |
| Dispatch.PlaceholderLengthSound | src/service/whatsapp/whatsapp.service.ts:351 | a match found is `{{`, whitespace, `name`, whitespace, `}}` |
| Dispatch.PlaceholderLengthComplete | src/service/whatsapp/whatsapp.service.ts:351 | every placeholder at the start is found with its whole length |
| Dispatch.RenderScans | src/service/whatsapp/whatsapp.service.ts:351 | the `{` shortcut is harmless: rendering equals the plain left-to-right scan that tries a match at every position and resumes after each match |
| Dispatch.RenderLiteral | src/service/whatsapp/whatsapp.service.ts:351 | text without `{` is copied unchanged |
| Dispatch.RenderPlaceholder | src/service/whatsapp/whatsapp.service.ts:351 | each placeholder, whatever whitespace it holds, becomes the alias |
| Dispatch.RenderOnePlaceholder | src/service/whatsapp/whatsapp.service.ts:351 | plain text around one placeholder renders as that text around the alias |
| Dispatch.RenderGreeting | src/service/whatsapp/whatsapp.service.ts:351 | `Hi {{name}}` renders as `Hi ` and the alias |
| Dispatch.RenderSpacedPlaceholder | src/service/whatsapp/whatsapp.service.ts:351 | `Hi {{ name }}!` renders with the alias in place |
| Dispatch.RenderKeepsOtherWords | src/service/whatsapp/whatsapp.service.ts:351 | `{{` followed by another word stays as written |
| Dispatch.RenderIsCaseSensitive | src/service/whatsapp/whatsapp.service.ts:351 | `{{NAME}}` stays as written |
| Dispatch.WithFooter | src/service/whatsapp/whatsapp.service.ts:352-354 | the message is kept as a prefix, and grows by `\n\nSENDED ON : ` and the time exactly when the notes are enabled |
| Dispatch.RecipientRequest | src/service/whatsapp/whatsapp.service.ts:357-364 | the request for one recipient has the address as `to` and the personalised message, and the same session and media |
| Sessions.MarkConnecting | src/service/whatsapp/whatsapp.service.ts:184-188 | the row becomes `connecting`; an existing row keeps its code and error |
| Sessions.SettleAllFirstWins | src/service/whatsapp/whatsapp.service.ts:190-240 | a settled promise never changes; an unsettled one ends up with what the first event settles it with |
| Sessions.SignInRegistryKeepsEntry | src/service/whatsapp/whatsapp.service.ts:213-239 | the sign-in listeners register the client once `ready` fired and never remove an entry |
| Sessions.SignInDestroysOnFailures | src/service/whatsapp/whatsapp.service.ts:191-239 | every `auth_failure` or `disconnected` destroys this client once, and nothing else destroys |
| Sessions.HandshakeDecidedByFirstEvent | src/service/whatsapp/whatsapp.service.ts:190-254 | the handshake result is fixed by the first event: the QR image, `already_connected`, or the failure message; pending without events |
| Sessions.SettleAllAppend | src/service/whatsapp/whatsapp.service.ts:190-240 | two runs of events settle the promise as their concatenation does |
| Sessions.SignInRecordAppend | src/service/whatsapp/whatsapp.service.ts:198-239 | two runs of events leave the row as their concatenation does |
| Sessions.SignInDestroysAppend | src/service/whatsapp/whatsapp.service.ts:191-239 | two runs of events destroy as their concatenation does |
| Sessions.SendOutcome | src/service/whatsapp/whatsapp.service.ts:285-325 | delivery happens exactly when the session is registered, its state is `CONNECTED`, there is something to send and the network accepts it; each refusal carries its own error; a delivery goes to the registered client at the qualified chat id |
| Sessions.BroadcastOnePerRecipient | src/service/whatsapp/whatsapp.service.ts:347-373 | one attempt per recipient, the i-th being the personalised send to the i-th recipient |
| Sessions.DestroyEach | src/service/whatsapp/whatsapp.service.ts:59-67 | one `destroy()` per registry entry, covering every registered client and nothing else |
| Sessions.WhatsappService.constructor | src/service/whatsapp/whatsapp.service.ts:17-21 | an empty registry over the given table |
| Sessions.WhatsappService.OnRestoredEvent | src/service/whatsapp/whatsapp.service.ts:85-116 | `ready` marks the row connected; `auth_failure` and `disconnected` mark it disconnected with the error and remove the registry entry, and `auth_failure` also destroys the client |
| Sessions.WhatsappService.OnSignInEvent | src/service/whatsapp/whatsapp.service.ts:198-239 | each listener's row update, registration on `ready`, destroy on failure, and a settle-once promise |
| Sessions.WhatsappService.DeliverAll | src/service/whatsapp/whatsapp.service.ts:190-240 | a run of events leaves the row, registry, destroy calls and promise as the folds over that run say |
| Sessions.WhatsappService.RestoreSession | src/service/whatsapp/whatsapp.service.ts:71-121 | a session in memory is skipped; otherwise a fresh client gets the restore listeners and is registered unless `initialize()` throws |
| Sessions.WhatsappService.RestoreRow | src/service/whatsapp/whatsapp.service.ts:32-50 | one restore attempt; on failure the row is marked disconnected with the error |
| Sessions.WhatsappService.OnModuleInit | src/service/whatsapp/whatsapp.service.ts:23-55 | every non-signed-out row is attempted once; failures are recorded in their rows, successes registered with a new restore client; rows and clients already there are untouched |
| Sessions.WhatsappService.OnModuleDestroy | src/service/whatsapp/whatsapp.service.ts:57-69 | every registered client is destroyed once, the registry is emptied, and the table is untouched |
| Sessions.WhatsappService.GetSession | src/service/whatsapp/whatsapp.service.ts:123-135 | the row when it exists, `session … not found` otherwise |
| Sessions.WhatsappService.QrConnect | src/service/whatsapp/whatsapp.service.ts:142-166 | not found, disconnected and connected are refused; any other status answers the stored code and its image |
| Sessions.WhatsappService.StartSignIn | src/service/whatsapp/whatsapp.service.ts:179-188 | a fresh client with sign-in listeners and an unsettled promise, and the row marked connecting |
| Sessions.WhatsappService.AwaitPairing | src/service/whatsapp/whatsapp.service.ts:244-254 | the client is registered and the result is what the promise settles with |
| Sessions.WhatsappService.SignInNewClient | src/service/whatsapp/whatsapp.service.ts:179-254 | the result is the first event's outcome, or the `initialize()` error; the row, registry and destroy calls follow the whole run of events |
| Sessions.WhatsappService.QrSignIn | src/service/whatsapp/whatsapp.service.ts:168-255 | a connected client in memory answers `already_connected` and changes nothing; otherwise as `SignInNewClient` |
| Sessions.WhatsappService.SignOut | src/service/whatsapp/whatsapp.service.ts:257-283 | refused without a row; otherwise the registered client is destroyed and removed and the row becomes `signed_out` with code and error cleared |
| Sessions.WhatsappService.Send | src/service/whatsapp/whatsapp.service.ts:285-325 | the result is `SendOutcome` for the current registry |
| Sessions.WhatsappService.SendTo | src/service/whatsapp/whatsapp.service.ts:347-367 | the attempt for one recipient is the planned personalised send |
| Sessions.WhatsappService.SendMass | src/service/whatsapp/whatsapp.service.ts:327-376 | an empty `to` is refused; otherwise the attempts are the broadcast over the recipients, in order |

## Left out

- `isValidUrl` (src/utils/function/validation.ts:6-13) depends on the WHATWG URL parser, which is not part of this model.
- `listSessions` (whatsapp.service.ts:137-140) returns the whole table, which is the `store` field itself.
- Logging, `console.log` and the random 30–90 second pause between broadcast sends (`getRandomDelay`, `delay`) are not modelled.
- `dateDayTimeFullFormatter(new Date())` is not part of this model. The clock text is a parameter (`Round.time`).
- Only the results of `initialize()`, `getState()` and `sendMessage` are modelled, and they are parameters. The browser session, its local auth storage and the message objects returned by `sendMessage` are left out.
- Database calls are assumed to succeed. This leaves out:
  - the `findMany` failure that `onModuleInit` catches and logs;
  - failing `update`/`upsert` calls inside listeners;
  - lookup errors.
- `QRCode.toDataURL` is assumed to succeed. Its image is represented by the code it encodes (`DataUrl`), so the `qr` listener's catch path is not modelled.
- Sessions.WhatsappService.QrConnect: answers `DataUrl("")` for a row without a QR code. The QR library refuses the empty text, so the source throws there (a fresh `connecting` row, or any row after `signOut` cleared the code).
- Asynchronous interleaving is reduced to fixed points. Events are delivered as runs:
  - while `initialize()` runs;
  - while the caller awaits the pairing promise;
  - between service calls, through `OnRestoredEvent`/`OnSignInEvent`.
- Sessions.WhatsappService.RestoreSession: events a restored client emits while its `initialize()` is still running are not interleaved. They can only be delivered afterwards through `OnRestoredEvent`. So the model misses the case where such an event removes the entry before line 119 registers the client anyway.
- Sessions.DestroyEach: visits the registry in an unspecified order. The source visits it in `Map` insertion order.
- Sessions.WhatsappService.OnModuleDestroy: states which clients are destroyed and how many calls are made, but not their order.
- Sessions.WhatsappService.OnModuleInit: takes the rows the query returns as a parameter. It requires them to be exactly the distinct non-signed-out rows, in the table's order.
- Sessions.WhatsappService.SendMass: returns the list of attempts so that the proof can state them. The source returns nothing and only logs each failure. Whether callers await it lies outside the service.
- Sessions.WhatsappService.SendMass: every attempt is made against the registry as it was when the call began. The source waits 30–90 seconds between sends, and listeners may remove the entry meanwhile, so a later `send` can fail with "not found or not initialized" (whatsapp.service.ts:298-299). The model does not capture a registry that changes during a broadcast.
- Dispatch.Render: inserts the alias literally. JavaScript's `replace` would expand `$&`, `$1`, `$$` and the like inside an alias.
