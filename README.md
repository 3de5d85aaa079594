# SnapSend.ng WhatsApp service, modelled in Dafny

This project models `WhatsAppService` in the SnapSend.ng API server
(`server/api/src/services/whatapp.service.ts`). It covers two parts:

- **Outbound dispatch (`sendMessage`).** The service checks that the number is
  all digits and that the text is not blank. It then formats the number,
  refuses to go on while the WhatsApp client is not ready, and sends. It makes
  at most three attempts, with a one-second pause after every failed attempt
  except the last. Every error leaves the method re-thrown as
  `"Failed to send message: " + message`.
- **Inbound handlers.** `init` registers two `'message'` handlers:
  - The AI handler fires when the text contains `#ai` in any letter case. It
    strips every `#ai` match, trims the rest, asks the AI about it, and
    replies with the AI's text. When that text is missing or empty, or the AI
    throws, it replies with a fixed apology.
  - The greeting handler answers a text that is exactly "hi" in any letter
    case. The greeting is addressed to the sender's phone number, which is the
    sender id up to its first `@`.

The project has three modules:

- `JsString` (`jsstring.dfy`) states the JavaScript string built-ins the
  service uses: `split('@')[0]`, `toLowerCase`, `includes`, `trim`, the
  `/^\d+$/` test and `replace(/\D/g, '')`.
- `Dispatcher` (`dispatcher.dfy`) holds `sendMessage`:
  - `Dispatcher.Dispatch` is a function describing what one call returns and
    what it does to the outside world.
  - `Dispatcher.SendMessage` is the method with the source's `retries` loop,
    proved equal to that function.
  - Lemmas derive the call bound, the rejections and the surfaced error.
- `Router` (`router.dfy`) holds the two handlers as functions from a message
  and the AI's behaviour to an optional reply, with lemmas about them.

The service's surroundings become inputs:

- The client's readiness (`WHATSAPP.info` being set) is a `bool`.
- The client's own `sendMessage` is a function from the attempt number (from 0)
  to `Delivered` or `Threw(e)`.
- `GoogleAi.chatWithAi` is a function from the prompt to `Answered(text)` or
  `Threw`. The text is `None` when `response.text` is undefined.
- What `sendMessage` does outside is returned as a log of `SendCall(chatId, body)`
  and `Delay(1000)` effects.

Details of the code the model keeps:

- The number is checked against `^\d+$` before non-digits are stripped. The
  stripping (line 140) therefore never changes an accepted number, and every
  send goes to `to + "@c.us"`.
- The greeting test compares the lower-cased text to `"hi"` without trimming
  it, so `" hi"` gets no greeting.
- The validation and readiness errors are raised inside the `try`, so they too
  come out behind the `"Failed to send message: "` prefix.

## Model

| member | source | states |
|---|---|---|
| JsString.LowerCharPreimage | server/api/src/services/whatapp.service.ts:102 | the only characters `toLowerCase` turns into a given non-capital character are that character and, for a small letter, its capital |
| JsString.Includes | server/api/src/services/whatapp.service.ts:62 | `includes` is true exactly when the pattern occurs at some index |
| JsString.Before | server/api/src/services/whatapp.service.ts:54 | `split(sep)[0]` is a prefix of the id without `sep`, and it is the whole id or is followed by `sep` |
| JsString.StripNonDigits | server/api/src/services/whatapp.service.ts:140 | `replace(/\D/g, '')` returns only digits, is never longer, and leaves an all-digit string unchanged |
| JsString.StripNonDigitsChar | server/api/src/services/whatapp.service.ts:140 | one character is kept exactly when it is a digit |
| JsString.StripNonDigitsAppend | server/api/src/services/whatapp.service.ts:140 | the replacement of a concatenation is the concatenation of the replacements, so every digit of the input is kept, in order, and nothing else |
| JsString.LeadingSpace | server/api/src/services/whatapp.service.ts:135 | counts the white space a string starts with: all counted characters are space, and the next one is not |
| JsString.TrailingSpace | server/api/src/services/whatapp.service.ts:135 | counts the white space a string ends with: all counted characters are space, and the one before is not |
| JsString.TrimIsCore | server/api/src/services/whatapp.service.ts:64 | `trim` keeps a contiguous piece that neither starts nor ends with space and has only space around it, and is empty exactly when the whole string is space |
| Dispatcher.Wrap | server/api/src/services/whatapp.service.ts:174-176 | every error re-thrown by `sendMessage` starts with "Failed to send message: " |
| Dispatcher.SendMessage | server/api/src/services/whatapp.service.ts:122-178 | the method's outcome and effects log are those of the checks followed by the retry loop (`Dispatch`) |
| Dispatcher.SendWithRetries | server/api/src/services/whatapp.service.ts:147-163 | the `retries` loop produces exactly the outcome and log of the recursive retry specification |
| Dispatcher.FailedAttemptsShape | server/api/src/services/whatapp.service.ts:158-161 | `k` failed attempts then one more call make `k + 1` calls and `k` pauses, and nothing else |
| Dispatcher.RetryDeliversAt | server/api/src/services/whatapp.service.ts:148-161 | when attempt `k` is the first to deliver, the loop resolves after the failed attempts before it and one more call |
| Dispatcher.RetryExhausted | server/api/src/services/whatapp.service.ts:158-161 | when every remaining attempt fails, the loop rejects with the last attempt's error after one call per attempt, pauses between them |
| Dispatcher.RejectsInvalidNumber | server/api/src/services/whatapp.service.ts:130-132 | a number that is empty or has a non-digit fails with the prefixed "Invalid phone number format", with no call and no pause, whatever the text and the client |
| Dispatcher.RejectsBlankMessage | server/api/src/services/whatapp.service.ts:135-137 | with a valid number, the call fails with the prefixed "Message cannot be empty" and does nothing exactly when the text is empty or all white space |
| Dispatcher.RejectsWhenNotReady | server/api/src/services/whatapp.service.ts:143-145 | with a valid number and text, an unready client gives the prefixed "WhatsApp client is not ready" and no call |
| Dispatcher.SendsOnlyWhenAccepted | server/api/src/services/whatapp.service.ts:128-151 | the client is called at all exactly when the number, the text and the client pass their checks |
| Dispatcher.AcceptedDispatch | server/api/src/services/whatapp.service.ts:130-151 | once the checks pass, the loop is entered with the chat id `to + "@c.us"`: formatting does not change an accepted number |
| Dispatcher.DeliveredAfterFailures | server/api/src/services/whatapp.service.ts:140-163 | if the first `k` (< 3) attempts fail and the next delivers, the call resolves after exactly `k + 1` calls and `k` pauses |
| Dispatcher.AllAttemptsFail | server/api/src/services/whatapp.service.ts:158-176 | if all three attempts fail, the call rejects with the third attempt's error behind the prefix, after three calls and two pauses, in that order |
| Dispatcher.RetryShape | server/api/src/services/whatapp.service.ts:148-163 | whatever the client does, the loop's log is some fewer-than-three failed attempts, each followed by a pause, then one last call |
| Dispatcher.RetrySentIff | server/api/src/services/whatapp.service.ts:148-163 | the loop resolves exactly when one of attempts 0, 1 and 2 delivers |
| Dispatcher.SentIffSomeAttemptDelivers | server/api/src/services/whatapp.service.ts:128-163 | `sendMessage` resolves exactly when all checks pass and one of the three attempts delivers |
| Dispatcher.AtMostThreeCalls | server/api/src/services/whatapp.service.ts:140-163 | whatever the inputs: at most three calls, one pause fewer than calls (none when there is no call), every call to `to + "@c.us"` with the text unchanged |
| Router.StripMarker | server/api/src/services/whatapp.service.ts:64 | `replace(/#ai/gi, '')` never lengthens the text and removes a multiple of three characters |
| Router.StripAfterHashless | server/api/src/services/whatapp.service.ts:64 | a piece without '#' passes through the replacement unchanged, and the scan goes on after it |
| Router.StripsLeadingMarker | server/api/src/services/whatapp.service.ts:64 | a marker in any letter case at the start is deleted, and the scan resumes right after it |
| Router.StripsEveryMarker | server/api/src/services/whatapp.service.ts:64 | with the `g` flag every match goes: two markers around a piece without '#' leave exactly that piece |
| Router.StripsTwoMarkersExample | server/api/src/services/whatapp.service.ts:64 | "#ai x #AI" becomes " x ": the second marker is removed too |
| Router.MarkerOccursAt | server/api/src/services/whatapp.service.ts:62-64 | the lower-cased text has `#ai` at `i` exactly where the case-insensitive pattern matches at `i` |
| Router.StripMarkerKeeps | server/api/src/services/whatapp.service.ts:64 | with no match at any index, the replacement returns the text unchanged |
| Router.StripMarkerShrinks | server/api/src/services/whatapp.service.ts:64 | with a match at some index, the replacement returns a shorter text |
| Router.StripMarkerChangesIffWantsAi | server/api/src/services/whatapp.service.ts:62-64 | the AI branch's test and the stripping agree: the replacement changes the text exactly when the branch fires |
| Router.NoHashNoMarker | server/api/src/services/whatapp.service.ts:62-64 | a text without '#' does not trigger the AI branch and is left alone by the replacement |
| Router.OnePassLeavesMarker | server/api/src/services/whatapp.service.ts:64 | the single left-to-right pass turns "##aiai" into "#ai" |
| Router.MarkerCanSurviveStripping | server/api/src/services/whatapp.service.ts:62-64 | "##aiai" triggers the AI branch, and the prompt the AI gets is "#ai", which still carries the marker |
| Router.LeadingMarkerStripped | server/api/src/services/whatapp.service.ts:62-64 | a marker in any letter case at the start, with none after it, triggers the branch, and the prompt is the rest, trimmed |
| Router.QuestionTrimmed | server/api/src/services/whatapp.service.ts:64 | `trim` removes the one leading blank of " what is 2+2" |
| Router.PromptExample | server/api/src/services/whatapp.service.ts:62-69 | "#AI what is 2+2" triggers the AI branch with the prompt "what is 2+2" |
| Router.AiReply | server/api/src/services/whatapp.service.ts:70-86 | the reply is never empty; it is the AI's text whenever that text is non-empty, and the apology whenever the text is missing or empty or the AI throws |
| Router.AiHandlerReply | server/api/src/services/whatapp.service.ts:62-87 | the AI handler replies exactly when the lower-cased text contains `#ai`; the reply is the AI's answer to the stripped, trimmed prompt when that answer is non-empty, and the apology when the answer is undefined or empty or the AI throws |
| Router.MarkerOnly | server/api/src/services/whatapp.service.ts:62-86 | the text "#ai" gives the AI an empty prompt, and if the AI throws, the apology is sent |
| Router.GreetingTexts | server/api/src/services/whatapp.service.ts:102 | the greeting test passes for "hi", "Hi", "hI" and "HI" and for no other text |
| Router.GreetingNamesSender | server/api/src/services/whatapp.service.ts:94-103 | the greeting is "Hello! Welcome to SnapSend.ng, " followed by the sender id up to its first '@', and that number holds no '@' |
| Router.GreetingIsNotTrimmed | server/api/src/services/whatapp.service.ts:102 | " hi" gets no greeting: the text is not trimmed before the comparison |
| Router.AtMostOneReply | server/api/src/services/whatapp.service.ts:52-105 | the two handlers together send at most one reply, and none exactly when the text neither contains the marker nor is a greeting |

## Left out

- `init`'s `qr`, `ready`, `authenticated`, `auth_failure` and `disconnected` handlers (lines 14-49) only show the QR code or log. They are not modelled. Readiness is the `ready` input.
- `init`'s construction and start of the client and its failure path (lines 107-119) are not modelled; they only log and re-throw.
- `isClientReady` (lines 180-182) is never called. The readiness gate of `sendMessage` is modelled through the `ready` input.
- The spinner, the colouring and all console output, including the message logs in both handlers, are not modelled. They do not change any result.
- `Date.now()` timing is not modelled, and neither is the time the one-second `setTimeout` takes. A pause appears as a `Delay(1000)` entry in the effects log.
- The two `'message'` handlers run independently and asynchronously. The model treats each as one step and lists their replies in registration order. The order does not matter: `Router.AtMostOneReply` shows at most one of them replies.
- A rejected `msg.reply` promise is not modelled, because the handlers never await or inspect it.
- `GoogleAi.chatWithAi` is a network call, so it is an input function. `server/api/src/services/googleAi.service.ts` is not part of this model.
- `server/api/src/index.ts`, the configuration files and `server/api/src/utils/routes.ts` are not part of this model. They only wire up frameworks and clients.
- JsString.LowerCharPreimage: `toLowerCase` is modelled on the ASCII letters A-Z only, and every other character is kept as it is. Full Unicode case mapping at lines 62 and 102 is not modelled. For example, JavaScript lower-cases 'İ' (U+0130) to "i̇", so "#aİ" fires the AI branch while `/#ai/gi` leaves it unchanged. `Router.StripMarkerChangesIffWantsAi` therefore holds only for the ASCII lower-casing modelled here. The regular expression itself needs no such caveat: without the `u` flag its case-insensitive matching never maps a non-ASCII character to an ASCII one, so it matches exactly the ASCII case variants of `#ai`.
- A client `sendMessage` call (line 151) or a `GoogleAi.chatWithAi` call (line 69) whose promise never settles is not modelled. The source then never resolves, never retries and never replies. In the model every attempt and every AI call ends in a result, so every `Run` has an outcome.
- Strings are Dafny sequences of Unicode scalar values, not JavaScript's UTF-16 code units. Lone surrogates cannot be represented, and a character outside the Basic Multilingual Plane is one element here but two code units, so `length` can differ.
