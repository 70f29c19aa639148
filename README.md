# Message router and outbound payloads of a Messenger chat relay

This project models the core of a webhook-driven Messenger bot. The router
(`handles/handle.js`) keeps three process-wide tables: the command registry,
the per-user states and the per-user conversation logs. For each inbound event
it checks the sender, appends to the sender's log, then takes the first branch
that applies:

1. An image as first attachment: wait for a prompt about that image.
2. The keyword `stop`: leave the current mode.
3. A pending image prompt: analyse the image with the text as the prompt.
4. A registered command: run it, unless it is admin-only and the sender is not an admin.
5. Otherwise: run the default command `ai`.

The outbound side (`handles/message.js`) checks a message and builds the JSON
payload that is posted to the messaging platform.

Files:

- `wrappers.dfy`: `Option`, for properties that may be absent.
- `jsstring.dfy` (module `JsString`): what the router needs of JavaScript strings.
  - `trim`, over the full ECMAScript whitespace and line-terminator set.
  - `toLowerCase`, with ASCII case folding.
  - `split(' ')`, which splits on each single space.
  - A `Join` that inverts `Split`, with both round trips proved.
- `outbound.dfy` (module `Outbound`): `sendMessage` and `sendGeneratedImage` as
  pure functions from the recipient and the message to `Option<Payload>`.
- `router.dfy` (module `Router`): the class `MessageRouter`.
  - Its fields are the three tables, as `map`s.
  - Its methods mutate them as `handleMessage`, `askForImagePrompt` and the registration loop do.
  - `HandleMessage` returns a `Status` and the outbound `Action`s in source order:
    messages sent, commands run and analyzer calls.
  - Its contract ties the new user states and the actions to the pure function
    `Respond`. `Respond` is split as the source is: `RespondToText` covers the
    text branch and `Dispatch` covers command dispatch.
  - The router's properties are proved as lemmas about `Respond`.

Inputs that stand for calls the model cannot see:

- `adminIds` is the admin list from the configuration file.
- `commandThrows` says whether the command's `execute` throws.
- `analysis` is what the image analyzer did: it answered, possibly with the
  empty string (its `answer || ''`), or it threw.

The model follows the code literally, including these behaviours:

- The text is split on single spaces (`split(' ')`), not on runs of whitespace.
  So `"help  me"` gives the arguments `["", "me"]`.
- The log entry holds the raw, untrimmed text whenever the text is non-empty.
  This holds for an image message too. `"Image"` is logged only when the text is
  missing or empty.
- The locked-command state is set before `execute`. So it also stays set when
  the command throws.
  - The fallback to `ai` never sets it.
  - The fallback runs `ai` without checking its role.
  - The locked state is never read (`LockedCommandIsNeverRead`).
- An event that has a sender but no `message` is not silently ignored.
  - Line 32 reads `event.message.text` and throws a TypeError.
  - By then lines 29-30 may have created an empty log for the sender.
  - `HandleMessage` returns `Threw` in that case, with that log change and nothing else.
- After an image prompt is answered, the pending prompt is not cleared
  (`PendingPromptPersists`).

## Model

| member | source | states |
|---|---|---|
| `JsString.TrimStart` | handles/handle.js:38 | the result is a suffix of the input, everything cut off is whitespace, and the result does not start with whitespace |
| `JsString.TrimEnd` | handles/handle.js:38 | the result is a prefix of the input, everything cut off is whitespace, and the result does not end with whitespace |
| `JsString.Trim` | handles/handle.js:38 | `trim` returns a string no longer than its input with no whitespace at either end; these two clauses alone would allow `""`, so what it keeps is fixed by the `TrimStart`/`TrimEnd` contracts (only whitespace is cut) and by `TrimIgnoresPadding` and `TrimOfUnpadded` (exactly the surrounding whitespace is cut) |
| `JsString.JoinHead` | handles/handle.js:56-57 | the first piece is a prefix of the single-space join; when there are more pieces, a space follows it and the rest of the join is the join of the remaining pieces |
| `JsString.TrimIgnoresPadding` | handles/handle.js:38 | whitespace added at either end does not change what `trim` returns |
| `JsString.TrimOfUnpadded` | handles/handle.js:38 | a string with no whitespace at either end is its own trim; with the lemma above, `trim` removes exactly the surrounding whitespace |
| `JsString.ToLower` | handles/handle.js:57 | `toLowerCase` keeps the length and folds every character on its own |
| `JsString.ToLowerIdempotent` | handles/handle.js:15 | folding case twice is the same as folding it once |
| `JsString.Split` | handles/handle.js:56 | `split(' ')` gives at least one piece, no piece holds a space, and joining the pieces with single spaces gives back the input |
| `JsString.JoinSplit` | handles/handle.js:56 | splitting a single-space join of space-free pieces gives back those pieces, so `Split` and `Join` are inverse bijections |
| `JsString.SplitToLower` | handles/handle.js:56-57 | folding case commutes with `split(' ')` |
| `JsString.SplitExamples` | handles/handle.js:56 | `"help me"` splits into two pieces, a double space gives an empty piece, and `""` gives one empty piece |
| `Outbound.MessagePayload` | handles/message.js:28-61 | no payload exactly when the message is missing or has neither truthy text nor an attachment; the recipient is the sender id; text is present exactly when truthy, and then unchanged; the attachment is copied; quick replies are copied when given, and otherwise are exactly the one "Menu" reply |
| `Outbound.GeneratedImagePayload` | handles/message.js:83-102 | no payload exactly when the URL is missing or empty; otherwise the recipient is the sender id and the message is only a reusable image attachment with that URL, with no text and no quick replies |
| `Outbound.PayloadIsFixedPoint` | handles/message.js:36-61 | sending the message part of a built payload again builds the same payload |
| `Outbound.PlainTextGetsMenu` | handles/message.js:50-61 | every non-empty plain text, which is what the router sends, goes out with exactly the default "Menu" quick reply |
| `Outbound.EmptyRepliesSuppressMenu` | handles/message.js:50-51 | an explicit empty quick-reply list is truthy and is copied, so no menu is added |
| `Outbound.GeneratedImageHasNoMenu` | handles/message.js:91-102 | `sendGeneratedImage` posts the same image attachment that `sendMessage` would, but without the default quick reply |
| `Router.IsStop` | handles/handle.js:42 | a trimmed text means stop exactly when it is four characters, s/S, t/T, o/O, p/P, that is, "stop" in any mix of cases and nothing else |
| `Router.CommandName` | handles/handle.js:56-57 | the command name is the text up to the first space, or all of it when it has none, lower-cased |
| `Router.CommandArgs` | handles/handle.js:56-57 | there are no arguments exactly when the text has no space; otherwise the arguments joined with single spaces are the text after the first space |
| `Router.Registered` | handles/handle.js:13-17 | after registering definitions in order, the registry's keys are the old keys plus the lower-cased name of each definition |
| `Router.AnalysisActions` | handles/handle.js:97-111 | a progress message, then the analyzer call with the URL and prompt as given, then exactly one of: the answer when it is non-empty, "no useful info" when it is empty, or the error message when analysis fails |
| `Router.Respond` | handles/handle.js:34-87 | only the sender's state entry can change, and every command run is a registry key |
| `Router.RespondToText` | handles/handle.js:38-53 | for the trimmed text, only the sender's state entry can change, and every command run is a registry key |
| `Router.Dispatch` | handles/handle.js:55-86 | command dispatch changes only the sender's state entry and runs only registry keys |
| `Router.CommandNameIgnoresCase` | handles/handle.js:56-59 | the command name of a text and of its lower-cased form agree, and so do their argument counts |
| `Router.SameNameUpToCase` | handles/handle.js:15 | texts that agree up to case ("HELP", "help", "Help") select the same registry key |
| `Router.CommandNameIsLowerWord` | handles/handle.js:57 | the command name has no space and is already lower case |
| `Router.CommandLineRoundTrip` | handles/handle.js:56-57 | the first piece followed by the arguments, joined with single spaces, is the trimmed text, and no argument holds a space |
| `Router.StopIgnoresCaseAndPadding` | handles/handle.js:38-42 | any capitalisation of "stop" with any surrounding whitespace is recognised as stop |
| `Router.RegisteredKeepsUntouched` | handles/handle.js:13-15 | a name that no definition lower-cases to keeps whatever the registry held for it before |
| `Router.LastRegistrationWins` | handles/handle.js:13-15 | the last definition whose lower-cased name is a key is the one stored under that key |
| `Router.RegisteredKeyedByLowerName` | handles/handle.js:15 | registration keeps every key equal to the lower-cased name of its command |
| `Router.RegistryKeysAreLowerCase` | handles/handle.js:15 | every registry key is lower case, so lookup by a lower-cased name is case-insensitive |
| `Router.ImageTakesPrecedence` | handles/handle.js:34-36 | an image as first attachment sets the awaiting-prompt state with its URL and sends exactly one prompt request, whatever the text says |
| `Router.OnlyFirstAttachmentCounts` | handles/handle.js:34-35 | a message whose first attachment is not an image is handled exactly as if it had no attachments, so an image in any later place is never seen |
| `Router.StopClearsAnyState` | handles/handle.js:42-46 | "stop" deletes the sender's state, whatever it was, and sends exactly one confirmation |
| `Router.PendingPromptBypassesCommands` | handles/handle.js:49-53 | while a prompt is pending, the trimmed text is the analysis prompt for the stored URL, the state is kept, and no command runs, even if the text names one |
| `Router.AdminOnlyCommandRefused` | handles/handle.js:62-65 | a role-0 command asked for by a non-admin gives exactly one refusal; nothing runs and the state is kept |
| `Router.LockedBeforeExecute` | handles/handle.js:67-73 | a permitted registered command locks the sender to its name before it runs, gets the remaining split pieces as arguments, and adds exactly one error message when it throws |
| `Router.FallbackGetsWholeText` | handles/handle.js:74-82 | an unregistered name runs `ai` with the whole trimmed text as its only argument, leaves the state alone, and adds exactly the default-command error message when `ai` throws |
| `Router.UnknownWithoutDefault` | handles/handle.js:83-85 | without `ai`, an unregistered name gets exactly one "not understood" message |
| `Router.RoleGateOnlyBypassedByFallback` | handles/handle.js:59-82 | an admin-only command runs for a non-admin only when it is `ai` reached as the fallback with the whole text |
| `Router.AtMostOneExecute` | handles/handle.js:59-86 | at most one command runs per event, and only as the first action |
| `Router.SilentWithoutTextOrImage` | handles/handle.js:34-37 | a message with no image first and no truthy text changes no state and sends nothing |
| `Router.LockedCommandIsNeverRead` | handles/handle.js:49-86 | a locked-command state yields the same actions as no state at all |
| `Router.PendingPromptPersists` | handles/handle.js:49-53 | after a prompt is answered, the next text that is not "stop" is analysed against the same stored URL |
| `Router.MessageRouter.constructor` | handles/handle.js:7-9 | the three tables start empty |
| `Router.MessageRouter.Register` | handles/handle.js:15 | stores the command under its lower-cased name, replacing any earlier one, and keeps the registry invariant |
| `Router.MessageRouter.LoadCommands` | handles/handle.js:13-17 | registers the definitions in order; the registry becomes `Registered(old registry, defs)` and nothing else changes |
| `Router.MessageRouter.AskForImagePrompt` | handles/handle.js:91-94 | keeps the registry invariant; sets the sender's state to awaiting a prompt for the URL and sends exactly one prompt request |
| `Router.MessageRouter.HandleText` | handles/handle.js:37-53 | keeps the registry invariant; the new user states and the actions are those `RespondToText` gives for the old ones; the registry and the logs are unchanged |
| `Router.MessageRouter.DispatchCommand` | handles/handle.js:55-86 | keeps the registry invariant; the new user states and the actions are those `Dispatch` gives for the old ones; the registry and the logs are unchanged |
| `Router.MessageRouter.HandleMessage` | handles/handle.js:20-88 | keeps the registry invariant; a falsy sender id changes nothing and sends nothing; a missing message creates the empty log and throws; otherwise exactly one entry with the raw text, or "Image", is appended to the sender's log, nothing else in the logs changes, and the states and actions are those `Respond` gives |

## Left out

- Loading command files from the `cmds` directory with `readdirSync` and `require` is not modelled. `LoadCommands` takes the list of definitions in file order.
- Reading `configure.json` is not modelled. The admin list is the `adminIds` parameter.
- The HTTP call in `analyzeImageWithGemini` is not modelled. Its result is the `analysis` parameter, with `answer || ''` folded into `Answer("")`.
- `getAttachments` is left out. It is a Graph API call that the router never uses.
- `typingIndicator` and the `request` POSTs with their callbacks are I/O and are left out. The model stops at the payload that would be posted.
- Concurrency is not modelled. Each event is one atomic sequential step, so concurrent events for one user cannot interleave, and the un-awaited error sends are ordered as written.
- The command implementations behind `execute` are not modelled. They are reduced to "returns or throws", so anything a command sends itself is not among the actions. The `execute` arguments other than the `args` list (sender id, token, raw event) are not recorded.
- Console logging and the exact French message texts are left out. Messages are `Notice` tags.
- `ToLower` folds ASCII letters only. JavaScript's `toLowerCase` also folds other Unicode letters.
- Strings are sequences of Unicode scalar values, not UTF-16 code units.
- An image attachment whose `payload` is missing makes line 35 throw. That case is not modelled: every inbound attachment carries a URL.
- Outbound attachments are modelled as `{type, url, is_reusable}` only. A command may pass any attachment object, such as a template or an image without `is_reusable`, but `sendMessage` only tests the attachment for truthiness and copies it unchanged, so no behaviour of the core is lost.
- Non-string values are not modelled: a numeric sender id, a non-string `text`, or a non-array `adminId`.
