# Outlook compose task pane: a Dafny model

The task pane (`src/taskpane/taskpane.ts`) turns a small form into a new
Outlook message. The user fills in `to`, `cc`, `bcc`, subject, an HTML body
and a text box of attachments, one per line. The pane then does three things:

- it splits the recipient fields into addresses;
- it classifies the attachment lines into base64 data URIs and http(s) URLs;
- it pushes everything into Outlook. It opens a new message window when the
  mailbox offers `displayNewMessageForm`. Otherwise it fills in an already
  open compose item, calling one setter or attachment method after another
  and stopping at the first failure.

The project models that logic as pure functions and proves what they
guarantee.

| file | module | what it holds |
|---|---|---|
| `wrappers.dfy` | `Wrappers` | `Option` |
| `seqs.dfy` | `Seqs` | `FilterMap` (map, then keep the `Some`s) and its order-preserving embedding |
| `text.dfy` | `Text` | JavaScript string semantics: `trim`, `split` on a character class, `indexOf`, `slice`, ASCII case folding |
| `recipients.dfy` | `Recipients` | `parseRecipients` |
| `data_uri.dfy` | `DataUri` | `isDataUriBase64`, `isHttpUrl`, `splitDataUri`, the `attachment.<ext>` name |
| `attachments.dfy` | `Attachments` | line splitting, `guessFileNameFromUrl`'s path-segment choice, `buildAttachments` |
| `compose.dfy` | `Compose` | `openComposeWithData`: branch selection, call order, abort on failure |

How the model represents the host:

- **Host.** The Office host is a value. `Host` holds an optional `Mailbox`,
  which says whether `displayNewMessageForm` exists and holds an optional
  current `Item`. An `Item` records which setters and attachment methods it
  has, and whether `itemType` and `saveAsync` are truthy.
- **Call results.** Every call that can fail takes its result, in order, from
  a list of `CallResult`s. Calls past the end of the list succeed.
- **Dispatch result.** A dispatch returns the trace of host calls attempted
  and the final status (`Report`). The 700 ms pause is a `Wait(700)` step in
  the trace.
- **Missing methods.** The attachment methods are called without checking
  that they exist. A missing item or method therefore fails that call with
  `TypeError`, and the call still appears in the trace as attempted.

**Letter case of the base64 marker.** The recogniser is case-insensitive:
its pattern `^data:(...)?;base64,` carries the `i` flag. `splitDataUri`,
however, looks for `";base64,"` with `indexOf`, which is case-sensitive. The
model keeps this behaviour as written:

- `DataUri.LowerCaseMarkerIsFound`: with a lower-case marker, the split gives
  the media type and the payload the recogniser saw.
- `DataUri.MixedCaseMarkerIsMissed`: with a marker such as `;BASE64,` and no
  lower-case marker anywhere in the line, `indexOf` returns -1. `slice(5, -1)`
  then gives a media type that runs to the next-to-last character, and
  `slice(7)` gives a payload that starts two characters after `data:`. For
  `DATA:;BASE64,QUJD` the payload is `ASE64,QUJD` instead of `QUJD`, so the
  payload is always wrong. The name is wrong only when the text after the
  scheme contains a `/`: the extension then comes from what follows that
  slash. Without a media type group and without a slash, the name is
  `attachment.bin`, the same as a lower-case marker would give
  (`DataUri.MixedCaseNameWithoutGroup`).
- `DataUri.LaterLowerCaseMarker`: when the matched marker is not in lower
  case but a lower-case `;base64,` comes later in the line, the split
  happens at the later marker. The media type then includes the matched
  marker and what follows it, and the payload is only the text after the
  later marker.

## Model

| member | source | states |
|---|---|---|
| `Text.TrimSpec` | src/taskpane/taskpane.ts:12 | `Trim` keeps an infix of the input. Only whitespace lies before and after it, and the infix neither starts nor ends with whitespace. |
| `Text.TrimUnique` | src/taskpane/taskpane.ts:12 | A string has only one such infix, so the declarative description determines `trim` completely. |
| `Text.TrimIdempotent` | src/taskpane/taskpane.ts:12 | Trimming a trimmed string changes nothing. |
| `Text.SplitRoundTrip` | src/taskpane/taskpane.ts:11 | `split` on a character class gives one more piece than there are separators. Putting the separators back between the pieces rebuilds the input. |
| `Text.SplitPiecesAvoidSeparators` | src/taskpane/taskpane.ts:11 | No piece of a split contains a separator. |
| `Recipients.ParseRecipients` | src/taskpane/taskpane.ts:9-14 | Every recipient is non-empty, has no whitespace at either end and contains no `,`, `;` or newline. There are at most one more recipients than separators. Empty input gives no recipients. Every piece between separators that is not blank appears, trimmed, among the recipients. Every recipient is the trimmed form of some such piece. The recipients follow the pieces in order, one per non-blank piece, so order and repeated addresses are kept. |
| `Text.TrimThenDropIsFilterMap` | src/taskpane/taskpane.ts:11-13 | Trimming every piece and then dropping the empty strings gives the same list as one pass that keeps each non-blank piece's trim. |
| `Text.NonBlankPiecesInOrder` | src/taskpane/taskpane.ts:11-13 | The kept strings embed into the pieces through a strictly increasing index map. The map hits exactly the non-blank pieces, and each kept string is its piece's trim. |
| `Recipients.ParseJoinRoundTrip` | src/taskpane/taskpane.ts:9-14 | Take well-formed recipients and join them with any of the three separators. Parsing the result returns the same list, in the same order. |
| `DataUri.DataUriRecogniserCorrect` | src/taskpane/taskpane.ts:24-26 | The executable test holds exactly when the trimmed text matches `^data:([-\w.]+\/[-\w.+]+)?;base64,`, ignoring ASCII case. The pattern is stated declaratively: some end position of the optional group makes it match. |
| `DataUri.DataUriIsNotHttpUrl` | src/taskpane/taskpane.ts:24-29 | No text passes both the data-URI test and the http(s) test. |
| `DataUri.SplitDataUriRoundTrip` | src/taskpane/taskpane.ts:30-35 | Take text that starts with `data:` in any case and contains `;base64,`. Then scheme + media type + marker + payload rebuilds it, and the marker used is its first occurrence. |
| `DataUri.SplitDataUriOfParts` | src/taskpane/taskpane.ts:30-35 | Splitting `scheme + mime + ";base64," + payload` gives back `mime` and `payload`, provided the scheme and media type contain no `;`. |
| `DataUri.LowerCaseMarkerIsFound` | src/taskpane/taskpane.ts:24-35 | On a line that matches the pattern with its marker written in lower case, the split gives exactly the media type group and the text after the marker. |
| `DataUri.MixedCaseMarkerIsMissed` | src/taskpane/taskpane.ts:24-35 | Take a line that matches the pattern but contains no lower-case `;base64,`. The split takes the media type from position 5 up to the last character and the payload from position 7. Both differ from the parts the pattern matched. |
| `DataUri.MixedCaseNameWithoutGroup` | src/taskpane/taskpane.ts:30-47 | For such a line without a media type group and without a slash after the scheme, the name is still `attachment.bin`, as the matched empty group gives. |
| `DataUri.LaterLowerCaseMarker` | src/taskpane/taskpane.ts:24-35 | Take a line whose matched marker is not in lower case but which contains a lower-case `;base64,` later on. The split happens at that later marker. The media type then differs from the matched group, and the payload differs from the text after the matched marker. |
| `DataUri.SanitizeExtension` | src/taskpane/taskpane.ts:47 | Stripping keeps only `[\w.+-]` characters, never lengthens the text, and leaves text made of those characters unchanged. Every allowed character occurs in the result as often as in the input, and text with no allowed character becomes empty. |
| `DataUri.SanitizeExtensionAppend` | src/taskpane/taskpane.ts:47 | Stripping distributes over concatenation. |
| `DataUri.ExtensionOfMediaType` | src/taskpane/taskpane.ts:46-47 | A media type `type/subtype` built from the pattern's character classes gives `subtype` as the extension. |
| `DataUri.ExtensionWithoutSlash` | src/taskpane/taskpane.ts:46-47 | A media type without `/` (including an empty one) gives the extension `bin`. |
| `Attachments.AttachmentLinesAreTrimmed` | src/taskpane/taskpane.ts:38-41 | Every kept line is non-empty and already trimmed. Every line that is not blank is kept, in trimmed form, and every kept line is the trimmed form of a line of the text. The kept lines follow the text's lines in order, one per non-blank line. |
| `Attachments.LinesIgnoreCarriageReturns` | src/taskpane/taskpane.ts:39-40 | After trimming, splitting on `\r?\n` gives the same lines as splitting on `\n`. |
| `Attachments.SplitLinesDropsCarriageReturns` | src/taskpane/taskpane.ts:39 | Splitting on `\r?\n` and splitting on `\n` give the same number of pieces. The pieces differ at most by a `\r` at the end. |
| `Attachments.LastPathSegmentSpec` | src/taskpane/taskpane.ts:19 | No segment is chosen exactly when the path consists only of slashes. Otherwise the chosen segment is non-empty, contains no slash, starts the path or follows a slash, and is followed only by slashes. |
| `Attachments.LastSegmentIsUnique` | src/taskpane/taskpane.ts:19 | Only one segment meets that description. |
| `Attachments.GuessFileNameFromUrlSpec` | src/taskpane/taskpane.ts:16-22 | The name is `attachment` when the URL does not parse. A path of slashes only uses `attachment` as the segment. Otherwise the name is the decoded last segment, or `attachment` when decoding throws. |
| `Attachments.ClassifyLineSpec` | src/taskpane/taskpane.ts:44-51 | A line yields a record exactly when, once trimmed, it matches `^data:([-\w.]+\/[-\w.+]+)?;base64,` or starts with `http://` or `https://`, in any letter case. The record is base64 exactly when the pattern matches, so the data-URI test wins. Its value is the line and it is never inline. A base64 name is `attachment.` followed by `[\w.+-]` characters. A url name is `attachment` for a URL that does not parse, and otherwise the decoded last path segment. |
| `Attachments.AttachmentsFollowLines` | src/taskpane/taskpane.ts:37-54 | The output maps into the non-blank lines by a strictly increasing index map. Each record is its own line's classification, and every data-URI or http(s) line is represented. |
| `Attachments.BuildAttachments` | src/taskpane/taskpane.ts:37-54 | The loop that pushes one record per classified line computes exactly the embedding-characterised list. |
| `Seqs.FilterMapLoop` | src/taskpane/taskpane.ts:43-53 | A loop that pushes the record of each line that yields one, in line order, builds exactly the filtered and mapped list. |
| `Attachments.Base64EntryOfWellFormedLine` | src/taskpane/taskpane.ts:45-48 | Take a line that matches the pattern, has its marker in lower case and does not end in whitespace. Its record is `attachment.<subtype>`, or `attachment.bin` without a media type, with the line as value and not inline. Its payload is the text after the marker. |
| `Compose.RunSequentialSpec` | src/taskpane/taskpane.ts:157-228 | A chain of awaited calls attempts a prefix of its calls, in order. It ends without error exactly when all calls succeed, having then made all of them. Otherwise it stops right after the first failing call and carries that call's error. |
| `Compose.AttachmentPartition` | src/taskpane/taskpane.ts:74-80 | Every attachment goes to exactly one of the url list and the base64 list. |
| `Compose.UrlFilesAreUrlEntries` | src/taskpane/taskpane.ts:74-79 | The url list holds, in order, one file record per url entry, with that entry's name, URL and inline flag. No other entry is included. |
| `Compose.Base64EntriesAreBase64Entries` | src/taskpane/taskpane.ts:80 | The base64 list holds exactly the base64 entries, in order. |
| `Compose.NewWindowBranch` | src/taskpane/taskpane.ts:88-135 | With `displayNewMessageForm` present, the first call opens a window and every later call is the wait or a base64 add. The status is one of the four new-window statuses. |
| `Compose.ComposeBranch` | src/taskpane/taskpane.ts:138-229 | Without `displayNewMessageForm`, but with an item whose `itemType` and `saveAsync` are truthy, the compose path runs. It opens no window and ends applied or failed. |
| `Compose.UnsupportedBranch` | src/taskpane/taskpane.ts:231-232 | With neither capability, no host call is made and the usage message is reported. |
| `Compose.NewWindowPathSpec` | src/taskpane/taskpane.ts:91-134 | The window opens with the parsed fields and exactly the url attachments. If that throws, the path stops with that error. If there are no base64 entries, it stops after one call. Otherwise come `Wait(700)` and then a prefix of the base64 adds. It reports success exactly when all of them succeed, and otherwise the error of the first failing add. |
| `Compose.NewWindowWithoutItem` | src/taskpane/taskpane.ts:111-113 | Base64 adds target the pane's current item. When there is none, or it lacks the method, the first add fails with `TypeError` and nothing further is attempted. |
| `Compose.Base64Calls` | src/taskpane/taskpane.ts:211-220 | One base64 add per base64 entry, in order. Each passes the payload that the split gives for that entry's value, with the entry's name and inline flag. The payload is the text after the first lower-case `;base64,`, or the text from index 7 when there is none (see "Letter case of the base64 marker"). |
| `Compose.UrlCalls` | src/taskpane/taskpane.ts:200-208 | One file add per url record, in order, with that record's URL, name and inline flag. |
| `Compose.ComposePlanOrdered` | src/taskpane/taskpane.ts:159-220 | The compose path's calls go to, cc, bcc, subject, body, url adds, base64 adds, and never move back to an earlier stage. |
| `Compose.FieldCallsContents` | src/taskpane/taskpane.ts:159-198 | A field setter is called exactly when its value is non-empty and the item has that setter. Recipients are passed as `{displayName, emailAddress}` records; subject and body are passed verbatim. The setters come in the order to, cc, bcc, subject, body, and none is called twice. |
| `Compose.ComposePlanContents` | src/taskpane/taskpane.ts:200-220 | The plan starts with the field setters. Then comes one file add per url record, in order, with its URL, name and inline flag. Then comes one base64 add per base64 entry, in order, with the payload the split gives (as for `Compose.Base64Calls`), its name and inline flag. There is one add per attachment, and the compose path never opens a window or waits. |
| `Compose.ComposeRunSpec` | src/taskpane/taskpane.ts:157-228 | The compose path makes a prefix of its plan. It reports success exactly when every planned call succeeds, and then it has made all of them. On failure, the last call made is the first that failed and gives the reported error. |
| `Compose.RequestFromForm` | src/taskpane/taskpane.ts:64-71 | The recipient lists hold only well-formed recipients. A missing form field reads as empty: no recipients, empty subject or body, no attachments. |
| `Compose.OpenNewWindowFromForm` | src/taskpane/taskpane.ts:64-98 | End to end: the new window receives the parsed recipients, the subject and body as typed, and the url attachments of the text box. Together with the base64 entries these account for every attachment. |

## Left out

- DOM access, status text and console logging (`q`, `setStatus`, `console.*`) are not modelled. The form is a `Form` value with `None` for a missing element, and the final status is a `Report` constructor rather than a message string.
- `loadCrmData`, `clearForm`, `runAutoTest`, `autoFillTestData`, the `Office.onReady` wiring, the window load guard and `openCrmDialog` (src/taskpane/taskpane.ts:236-480) are left out. They are storage, timers, dialogs and event binding.
- The `URL` constructor and `decodeURIComponent` are parameters (`UrlLib`): a path extractor and a decoder, each returning `None` where the call throws. Only the choice of the last non-empty path segment is modelled.
- Office.js callbacks and the 700 ms timer are not modelled as time or concurrency. Each fallible call takes the next result from a list, and the timer is a `Wait(700)` step in the trace.
- Recipients: a `null` or `undefined` field is not modelled separately from the empty string. This is because the source maps both to `""` before parsing.
- Strings are sequences of Unicode characters. JavaScript uses UTF-16 code units, so lengths and `slice` indices differ for characters outside the Basic Multilingual Plane. No character the task pane looks for lies outside that plane.
- `trim` removes the ECMAScript WhiteSpace and LineTerminator characters, with the space separators (category Zs) of Unicode 15. A Zs character that a later Unicode version adds is not included.
- The `isInline` flags of both attachment kinds are carried through, but `buildAttachments` always sets them to `false`.
- `NewWindowWithoutItem` treats a missing current item and a missing `addFileAttachmentFromBase64Async` alike. In the source both throw a `TypeError` inside the promise executor. The model does not reproduce the exact error message text.
- `Compose.RunSequentialSpec` assumes that a call whose callback never fires does not exist. In the source, such a call would leave the awaiting chain pending forever.
