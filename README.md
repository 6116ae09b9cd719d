# Valkyrie core, modelled in Dafny

This project models three pieces of the Valkyrie chat bot:

- **Zoom meeting allocation** (`lib/zoom.ts`, module `Zoom`). The bot signs a JSON Web Token for the pool's API key. It then looks up the roster of pooled Zoom users; a roster answer other than status 200 is an error. To open a meeting, the bot lists the live meetings of every pooled account. It keeps the accounts whose listing came back empty. It picks one of them with `Math.floor(Math.random() * k)` and creates a meeting on that account. Finally it writes the native-app join link (`zoommtg://…`) into the created meeting.
- **The "`<command> help`" receive middleware** (`scripts/alias-help-command.js`, module `AliasHelp`). The middleware strips the bot's address from a message, trims it and lowers its case. It goes on only if the first occurrence of "help" in that text is after its first character, and only if the word index of "help" after splitting on spaces is at most 2. When both hold, it re-sends `<alias>help <first word>` to the bot as a new message from the same user. An index of -1, meaning no word is exactly "help", also passes, so "hubot foo helpful" is re-sent (see Findings). A text that starts with "help" passes through even when "help" is also a later word, as in "hubot helpdesk help".
- **Configuration validation helpers** (`lib/config.js`, module `Config`). A missing configuration value or an invalid room name is logged as a warning on the local `shell` adapter. On every other adapter it throws an Error.

Two supporting modules:

- `Wrappers`: `Option` and `Result`.
- `JsString`: the ECMAScript string operations the scripts chain together. These are `trim`, `toLowerCase`, `indexOf` on strings and arrays, `split` on one character, and `replace` of the first occurrence. `replace` includes the `$` patterns of the replacement string.

The models take external inputs as parameters:

- Everything that came over HTTP: the roster answer, each account's live-meeting listing and the meeting-creation answer.
- The clock reading.
- The random draw, a real number in `[0, 1)`.
- The bot's respond-pattern match.
- The process environment.
- The chat adapter's room helpers.

Users, accounts, sessions and tokens are datatypes, because no field of theirs is assigned after construction. A created meeting is a class, because `createMeeting` sets its `app_url` field in place. The re-sent chat message is a datatype too: line 61 of the middleware assigns its `metadata` after construction, and the model folds that assignment into the message value the decision carries.

## Model

| member | source | states |
|---|---|---|
| `Zoom.UserTypeOf` | lib/zoom.ts:37-41 | A user-type code maps back to Basic (1), Pro (2) or Corp (3). Exactly those codes are known, and decoding inverts `Code`. |
| `Zoom.UserTypeRoundTrip` | lib/zoom.ts:37-41 | Decoding a user type's code gives the same user type back. |
| `Zoom.MeetingTypeOf` | lib/zoom.ts:88-93 | A meeting-type code maps back to Instant (1), Scheduled (2), FixedRecurring (3) or FloatingRecurring (8). Exactly those codes are known. |
| `Zoom.MeetingTypeRoundTrip` | lib/zoom.ts:88-93 | Decoding a meeting type's code gives the same meeting type back. |
| `Zoom.MeetingsUrl` | lib/zoom.ts:8 | Filling `{userId}` with an email puts the email, `$`-expanded, between `https://api.zoom.us/v2/users/` and `/meetings`. An email without `$` appears verbatim. |
| `Zoom.Account.LiveMeetingsRequest` | lib/zoom.ts:112-121 | Listing live meetings is a GET of the user's meetings resource, `https://api.zoom.us/v2/users/<email>/meetings` for an email without `$`. |
| `Zoom.Account.CreateMeetingRequest` | lib/zoom.ts:128-139 | Creating a meeting is a POST to the same meetings resource that the listing reads. |
| `Zoom.AppJoinUrl` | lib/zoom.ts:10 | Filling `{meetingId}` appends the expanded meeting id to `zoommtg://zoom.us/join?action=join&confno=`. An id without `$` appears verbatim. |
| `Zoom.FillAppJoin` | lib/zoom.ts:142 | Replacing the placeholder at the end of the app-join template appends the expanded id to the template's prefix. |
| `Zoom.AppJoinUrlInjective` | lib/zoom.ts:142 | Two different meeting ids without `$` never share an app link. |
| `Zoom.TokenFrom` | lib/zoom.ts:13-20 | The token is issued for the API key and signed with the secret. Its `exp` is the issuing clock reading plus 100000. |
| `Zoom.TokenFromOutlivesWindow` | lib/zoom.ts:16 | Read as seconds, the way JWT readers read `exp`, the token is not yet expired 100 seconds after issue. It is also not expired at the second whose number equals the issuing millisecond. |
| `Zoom.TokenFromSeconds` | lib/zoom.ts:13-20 | The corrected token: `exp` is in seconds, and the token expires exactly 100 seconds after the second it was issued in. |
| `Zoom.TokenFromSecondsWindow` | lib/zoom.ts:16 | The corrected token is valid at second `s` iff `s` is less than 100 seconds after the issuing second. |
| `Zoom.Session.Accounts` | lib/zoom.ts:62-63 | There is one account per roster user, in roster order. Each account is signed for with the session's key and secret. |
| `Zoom.Session.AccountForEmail` | lib/zoom.ts:83-85 | The account is addressed by the given email and signed for with the session's own key and secret. |
| `Zoom.GetSession` | lib/zoom.ts:22-35 | A session is made iff the roster answer has status 200, and it holds the answered users. Any other status fails with `Error looking up users: <inspected body>.`. A rejected request fails with its reason. |
| `Zoom.ProbeAll` | lib/zoom.ts:60-69 | The probe result is Ok iff every account's listing came back. It then pairs each account, in order, with "its listing is empty". Otherwise the probe is rejected with the reason of some failed listing. |
| `Zoom.Available` | lib/zoom.ts:70-73 | An account is kept iff it is paired with `true`. The result is no longer than the input. |
| `Zoom.AvailableAppend` | lib/zoom.ts:70-73 | The filter keeps roster order: filtering a concatenation concatenates the filtered parts. |
| `Zoom.ChosenIndex` | lib/zoom.ts:74 | For `k` idle accounts the drawn index lies in `[0, k)`. With no idle account it is 0. |
| `Zoom.ChosenIndexInterval` | lib/zoom.ts:74 | Index `j` is drawn iff the random draw lies in `[j/k, (j+1)/k)`, so every idle account has the same chance. |
| `Zoom.FloorExactly` | lib/zoom.ts:74 | `Math.floor(x)` is `j` exactly when `x` lies in `[j, j + 1)`. |
| `Zoom.DivideAgainstScale` | lib/zoom.ts:74 | For a positive `k`, `n / k <= d` exactly when `n <= d * k`. |
| `Zoom.ScaleMonotone` | lib/zoom.ts:74 | Scaling by a positive factor keeps the order of two reals in both directions. `ChosenIndexInterval` relies on this. |
| `Zoom.NextAvailableAccount` | lib/zoom.ts:59-76 | The chosen account is a roster account and its listing was empty. The call is rejected exactly when some listing failed, and the rejection carries a failed listing's reason. When every listing came back, the call succeeds iff some account is idle. It fails with no account iff none is idle. |
| `Zoom.NextAvailableAccountIsDrawn` | lib/zoom.ts:70-76 | The chosen account is the idle account, in roster order, at index `floor(draw * k)`. |
| `Zoom.EmptyRosterFails` | lib/zoom.ts:74-76 | An empty roster never yields an account. |
| `Zoom.BusyIdleIdle` | lib/zoom.ts:70-76 | Take a roster where the first account is busy and the next two are idle. A draw below 0.5 picks the second account, any other draw picks the third, and the first is never picked. |
| `Zoom.Meeting.constructor` | lib/zoom.ts:95-103 | A meeting built from a creation answer holds that answer's fields and has no app link yet. |
| `Zoom.CreateMeeting` | lib/zoom.ts:128-145 | The method posts to the account's meetings URL. A rejection is reported with its reason. An answer becomes a fresh meeting that holds the answer and whose app link is the filled app-join template for its id. |
| `Zoom.NextAvailableMeeting` | lib/zoom.ts:59-77 | One listing request goes out per roster user, in roster order. A creation request follows only when an account was chosen, and it goes to that account. When every listing came back and some account is idle, exactly one creation request is sent. The result is that account's created meeting, or the failure. |
| `AliasHelp.Decide` | scripts/alias-help-command.js:22-71 | A message that has no text or no bot address passes through. So does one whose cleaned text has "help" first at its start, or not at all. A re-send happens only when "help" has word index at most 2. The re-sent message comes from the same user, keeps the metadata and reads `<alias>help <first word>`. |
| `AliasHelp.Middleware` | scripts/alias-help-command.js:22-71 | The middleware always ends by calling `next()` and never calls `done()`. It re-sends at most one message, from the same user with the same metadata. It re-sends exactly when there is text, the bot's address matches, the first occurrence of "help" in the cleaned text is after its start, and the word index of "help" is at most 2. |
| `AliasHelp.Calls` | scripts/alias-help-command.js:35-70 | Every path ends in exactly one `next()` or `done()` call, which comes last. `robot.adapter.receive` is called iff the message is re-sent, and what it receives is the re-sent message. `done()` is called iff the middleware stops. |
| `AliasHelp.Stripped` | scripts/alias-help-command.js:28-30 | The first occurrence of the bot's address is cut out and the rest is trimmed; the text is only trimmed when the address does not occur. Neither end of the result is white space. |
| `AliasHelp.Cleaned` | scripts/alias-help-command.js:28-31 | The cleaned text has the stripped text's length and letters up to case, and no upper-case letter. |
| `AliasHelp.PossibleCommand` | scripts/alias-help-command.js:42-45 | The possible command is the longest prefix of the stripped text without a space, in its original case. |
| `AliasHelp.FlippedHelpRequest` | scripts/alias-help-command.js:46 | The flipped request is "help " followed by a space-free prefix of the stripped text, which ends at the text's first space. |
| `AliasHelp.FirstWordHelp` | scripts/alias-help-command.js:34 | A text whose first word is "help" has "help" at position 0. |
| `AliasHelp.LowerKeepsHelp` | scripts/alias-help-command.js:31-34 | A text that starts with "help" still starts with "help" after lowering. |
| `AliasHelp.CommandIsNotHelp` | scripts/alias-help-command.js:34-51 | Once "help" is known not to start the cleaned text, the first word is not "help", so the flipped request is never `help help`. |
| `AliasHelp.HelpNotFirstWord` | scripts/alias-help-command.js:34-41 | When "help" does not start the cleaned text, the word "help" is not at word index 0. |
| `AliasHelp.HelpHelpUnreachable` | scripts/alias-help-command.js:48-53 | The `done()` branch is dead: the middleware never stops and never calls `done()`. |
| `AliasHelp.ResendExactlyWhen` | scripts/alias-help-command.js:23-64 | The message is re-sent iff it has text, the bot's address matches, the first occurrence of "help" in the cleaned text is after its start, and the word index of "help" is at most 2. |
| `AliasHelp.StrippedExample` | scripts/alias-help-command.js:28-30 | Stripping "hubot " from "hubot foo helpful" leaves "foo helpful". |
| `AliasHelp.StrippedAtStart` | scripts/alias-help-command.js:28-30 | When the bot's address is found at the very start, stripping cuts it off the front and trims the rest. |
| `AliasHelp.AddressAtStartExample` | scripts/alias-help-command.js:29 | The address "hubot " is found at position 0 of "hubot foo helpful". |
| `AliasHelp.TrimExample` | scripts/alias-help-command.js:30 | Trimming "foo helpful" leaves it unchanged. |
| `AliasHelp.SplitExample` | scripts/alias-help-command.js:41 | "foo helpful" splits into the words "foo" and "helpful". |
| `AliasHelp.CleanedExample` | scripts/alias-help-command.js:28-31 | The cleaned text of "hubot foo helpful" is "foo helpful". |
| `AliasHelp.LowerExample` | scripts/alias-help-command.js:31 | Lowering "foo helpful" leaves it unchanged. |
| `AliasHelp.HelpPositionExample` | scripts/alias-help-command.js:34 | "help" occurs in "foo helpful" at position 4, which is after the start. |
| `AliasHelp.CommandExample` | scripts/alias-help-command.js:42-45 | The possible command of "hubot foo helpful" is "foo". |
| `AliasHelp.HelpfulIsRewritten` | scripts/alias-help-command.js:41 | "hubot foo helpful" has no word "help" (index -1). It is still re-sent as `<alias>help foo`. |
| `AliasHelp.HelpWordIndexExample` | scripts/alias-help-command.js:41 | No word of the cleaned "hubot foo helpful" is exactly "help", so the word index is -1. |
| `AliasHelp.FooHelpIsRewritten` | scripts/alias-help-command.js:23-64 | "hubot foo help" has "help" as its second word (index 1) and is re-sent as `<alias>help foo`. |
| `AliasHelp.FooHelpStrippedExample` | scripts/alias-help-command.js:28-30 | Stripping "hubot " from "hubot foo help" leaves "foo help". |
| `AliasHelp.FooHelpAddressExample` | scripts/alias-help-command.js:29 | The address "hubot " is found at position 0 of "hubot foo help". |
| `AliasHelp.FooHelpTrimExample` | scripts/alias-help-command.js:30 | Trimming "foo help" leaves it unchanged. |
| `AliasHelp.FooHelpCleanedExample` | scripts/alias-help-command.js:28-31 | The cleaned text of "hubot foo help" is "foo help". |
| `AliasHelp.FooHelpLowerExample` | scripts/alias-help-command.js:31 | Lowering "foo help" leaves it unchanged. |
| `AliasHelp.FooHelpSplitExample` | scripts/alias-help-command.js:41 | "foo help" splits into the words "foo" and "help". |
| `AliasHelp.FooHelpPositionExample` | scripts/alias-help-command.js:34 | "help" first occurs in "foo help" at position 4, which is after the start. |
| `AliasHelp.FooHelpWordIndexExample` | scripts/alias-help-command.js:41 | The word "help" is at index 1 in the cleaned "hubot foo help". |
| `AliasHelp.FooHelpCommandExample` | scripts/alias-help-command.js:42-45 | The possible command of "hubot foo help" is "foo". |
| `AliasHelp.FooHelpFlippedExample` | scripts/alias-help-command.js:46 | The flipped request for "hubot foo help" is "help foo". |
| `AliasHelp.DecideIntended` | scripts/alias-help-command.js:38-41 | The corrected decision re-sends only when the word "help" is present at word index 0 to 2. The re-sent message comes from the same user, keeps the metadata and reads `<alias>help <first word>`. |
| `AliasHelp.IntendedNeedsHelpWord` | scripts/alias-help-command.js:38-41 | Under the corrected test, "help" is exactly the second or third word of the cleaned text. |
| `AliasHelp.IntendedDiffersOnlyOnMissingWord` | scripts/alias-help-command.js:41 | The written decision and the corrected one differ only on messages where no word is exactly "help". |
| `JsString.TrimStart` | scripts/alias-help-command.js:30 | Leading white space is removed: what is left is a suffix that does not start with white space. |
| `JsString.TrimEnd` | scripts/alias-help-command.js:30 | Trailing white space is removed: what is left is a prefix that does not end with white space. |
| `JsString.Trim` | scripts/alias-help-command.js:30 | Trimming never lengthens a text, and neither end of the result is white space. |
| `JsString.TrimDropsOnlyWhite` | scripts/alias-help-command.js:30 | Trimming keeps an infix of the text and drops only white space on either side of it. |
| `JsString.TrimEmptyIffWhite` | scripts/alias-help-command.js:30 | The trimmed text is empty exactly when every character of the text is white space. |
| `JsString.TrimKeepsTrimmed` | scripts/alias-help-command.js:30 | A text that neither starts nor ends with white space is its own trim. |
| `JsString.ToLower` | scripts/alias-help-command.js:31 | Lowering keeps the length and lowers each character on its own. No upper-case letter is left. |
| `JsString.LowerCharIsLower` | scripts/alias-help-command.js:31 | A lowered character is not an upper-case letter, and lowering it again changes nothing. |
| `JsString.ToLowerPrefix` | scripts/alias-help-command.js:31 | Lowering commutes with taking a prefix. |
| `JsString.ToLowerNoUpper` | scripts/alias-help-command.js:31 | A text without upper-case letters is its own lower case. |
| `JsString.NotOccursAt` | scripts/alias-help-command.js:34 | A pattern cannot occur at a position whose character differs from the pattern's first character. |
| `JsString.IndexOfFrom` | scripts/alias-help-command.js:34 | For a start `k` within the text, the result is the first position at or after `k` where the pattern occurs, or -1 when it occurs nowhere there. |
| `JsString.IndexOf` | scripts/alias-help-command.js:34 | The result is the first occurrence of the pattern, or -1 when there is none. |
| `JsString.SeqIndexOf` | scripts/alias-help-command.js:41 | The result is -1 iff the element is absent. Otherwise it is the index of the element's first occurrence. |
| `JsString.Split` | scripts/alias-help-command.js:41 | There is always at least one piece and no piece holds the separator. The first piece is the text up to the first separator. |
| `JsString.SplitNone` | scripts/alias-help-command.js:41 | A text without the separator is a single piece. |
| `JsString.SplitFirst` | scripts/alias-help-command.js:41 | The first separator ends the first piece, and the rest is split on its own. |
| `JsString.JoinSplit` | scripts/alias-help-command.js:41 | Joining the pieces with the separator gives back the original text. |
| `JsString.SplitJoin` | scripts/alias-help-command.js:41 | Splitting pieces that were joined and hold no separator gives back the pieces. |
| `JsString.Expand` | lib/zoom.ts:114 | A replacement without `$` is inserted literally. |
| `JsString.ExpandAppend` | lib/zoom.ts:114 | A replacement expands piece by piece: splitting it anywhere except right after a `$` expands each part on its own and concatenates the results. |
| `JsString.ExpandPatterns` | lib/zoom.ts:114 | On its own, `$$` stands for `$`, `$&` for the matched text, `` $` `` for the text before the match and `$'` for the text after it. |
| `JsString.ReplaceFirst` | scripts/alias-help-command.js:29 | When the pattern does not occur, the text is unchanged. Otherwise the text before the first occurrence and the text after it are kept. The occurrence itself becomes the `$`-expansion of the replacement, with the matched text and its surroundings. |
| `JsString.FillTemplate` | lib/zoom.ts:130 | When the placeholder's first character does not occur before the placeholder, `replace` substitutes exactly that placeholder. |
| `JsString.RemoveFirst` | scripts/alias-help-command.js:29 | Replacing the first occurrence with `""` cuts exactly that occurrence out. |
| `Config.IsShellIgnoresCase` | lib/config.js:49 | The adapter counts as the shell iff its name is "shell" in any mix of cases. |
| `Config.LogOrThrow` | lib/config.js:48-59 | On the shell adapter the helper logs `<message> This will break the build in production.` and returns `""`. On any other adapter it throws an Error carrying the message. |
| `Config.FetchConfigOrReportIssue` | lib/config.js:32-40 | A set, non-empty value is returned with no warning. A missing or empty value throws `Could not get necessary value for configKey: <key>.` off the shell adapter. On the shell adapter it is returned raw after one warning. |
| `Config.FetchConfigReturnsSetValue` | lib/config.js:32-40 | Off the shell adapter, any value that comes back is set and non-empty. |
| `Config.FetchRoomInfoOrReportIssue` | lib/config.js:17-22 | A valid room name returns the lookup result. An invalid one throws `Could not get flow object for: <room>.` off the shell adapter. On the shell adapter it returns the lookup result after one warning. |
| `Config.FetchRoomReturnsValidRoom` | lib/config.js:17-22 | Off the shell adapter, a room that comes back was looked up under a valid name. |

## Left out

- HTTP is not modelled: axios, its query parameters and its default rejection of non-2xx statuses. Each HTTP result is an input. So `GetSession`'s non-200 branch is modelled as written. With axios's defaults, only a 2xx status other than 200 (201 or 204, say) reaches that branch; other statuses reject earlier.
- The roster request (a GET of `https://api.zoom.us/v2/users`) is not modelled as a request value: `GetSession` starts from its answer.
- The access token is not part of the modelled requests. Requests carry only their method and URL.
- `jwt.sign` is not modelled: no signature, no header and no encoding. A token is the payload together with the secret it is signed with.
- The logger output is not modelled: the warning text is kept as a value. `util.inspect` of the response body is not modelled either: it is an input string.
- `Zoom.ProbeAll`: when several listings fail, `Promise.all` reports whichever failure settles first. The model reports the first failure in roster order, and its contract promises only "some failed listing's reason".
- `Zoom.NextAvailableAccount`: with no idle account, the source evaluates `undefined.createMeeting()`, which throws a TypeError. The model returns `NoAccountAvailable` in its place.
- `Zoom.ProbeAll`, `Zoom.NextAvailableAccount`: the live-meeting listing answer is a function of the account. So two roster users with the same email get the same answer, while the source sends one request for each. Zoom account emails are unique, so this does not arise in practice.
- A listing whose answer lacks the `meetings` field is treated as a failed listing (`ProbeFailed`). The source would throw on `.length` of `undefined`.
- `Math.random()` is an exact real draw in `[0, 1)`. Floating-point rounding of `draw * k` is not modelled.
- Only the fields that `createMeeting` changes are mutable in `Zoom.Meeting`: `app_url` is a `var`, and the other fields are constants.
- `JsString.IndexOfFrom`: a start past the end of the text gives -1, while JavaScript clamps it to the length (`"ab".indexOf("", 5)` is 2). The model only starts the search at 0.
- `JsString.ToLower` lowers ASCII letters only. Full Unicode case mapping is not modelled. Strings are sequences of characters rather than UTF-16 code units.
- `AliasHelp.Decide`: the respond pattern is taken to have no capture groups. Line 43 writes the whole match array into a string, which equals the matched text only in that case.
- `AliasHelp.Decide`: `robot.alias` is taken to be a string. When no alias is configured it is `false`, and the template would render "false".
- `Config.FetchRoomInfoOrReportIssue`: `isRoomNameValid` and `getRoomInfoFromIdOrName` come from `lib/flowdock-util`, which is not part of this model. They are function parameters.
- The doc comments of `lib/config.js` say both helpers "return an empty string" on the shell adapter. The code drops the `""` that `logOrThrow` returns: it returns the raw environment value or the lookup result. The model follows the code.
- `scripts/suggest.js` and `scripts/passport-init.js` are not part of this model.

## Findings

| source | as written | input that shows it | evidently intended | confidence | as-written member | corrected member |
|---|---|---|---|---|---|---|
| scripts/alias-help-command.js:41 | `split(" ").indexOf("help") <= 2` also lets through -1, when no word is exactly "help" | "hubot foo helpful" is re-sent as `<alias>help foo` | "help" is the second or third word: `0 <= index <= 2` | high; not executed | `AliasHelp.HelpfulIsRewritten` | `AliasHelp.DecideIntended` |
| lib/zoom.ts:16 | `exp` is `getTime() + 100000`, a count of milliseconds | a token issued at any time is still valid 100 seconds later, and at the second numbered by its issuing millisecond | `exp` in seconds, 100 seconds after issue (RFC 7519, section 4.1.4 NumericDate) | medium; not executed | `Zoom.TokenFromOutlivesWindow` | `Zoom.TokenFromSeconds` |
