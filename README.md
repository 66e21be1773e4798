# Trip planner backend: session store and model-reply handling

A Dafny model of the two pieces of the trip-planning backend that carry logic of their own.

1. **The in-memory session store** (`ConversationStore`). It is a table from a client-supplied session id to a conversation state: the wizard `step`, the collected `data` and `lastActive`, a time in milliseconds. A state is stale once more than 30 minutes (1 800 000 ms) have passed since `lastActive`; the comparison is strict. Reads replace a missing or stale entry with a fresh one. Updates shallow-merge a partial state onto the expiry-checked current one. Reset overwrites the entry. A periodic sweep deletes the stale entries. The model is a class holding a `map<string, ConversationState>`. Its methods take the clock reading `now` as a parameter. The sweep is an explicit method with a loop over the keys.
2. **One model turn** (`askGemini`). It assembles the prompt from the fixed system instructions, the history joined by newlines and the user's message. It calls the hosted model and strips code fences from the raw reply: every "```json" in any letter case, then every "```", then surrounding whitespace. It then parses the result. Both failures become fixed fallback replies, so the function never throws. The model call and `JSON.parse` are function parameters (`generate`, `parse`). The string built-ins the clean-up uses (`replace` with a global pattern, `trim`, `join`) are modelled in `Text`. What is proved about them: global removal only deletes characters, leaves text without a match unchanged, keeps a leading part in which no match can start, and leaves no "```" behind; trimming removes exactly the whitespace at both ends; joining puts each entry at its offset with one separator between neighbours.

Files: `wrappers.dfy` (Option, Result), `json.dfy` (JSON values), `text.dfy` (string built-ins), `instructions.dfy` (the system instructions, kept verbatim), `conversation_store.dfy` (module `SessionStore`), `gemini_service.dfy` (module `GeminiService`). `SessionStore.SessionLifecycle` walks one session through a first read, three updates, a reset and a read after expiry, with the expected state asserted after each step.

## Model

| member | source | states |
|---|---|---|
| SessionStore.FreshState | backend/src/conversationStore.ts:26-28 | A new state is at step `source` with empty `data`. It is live at every instant up to 30 minutes after `now` and stale one millisecond later. |
| SessionStore.Expired | backend/src/conversationStore.ts:33 | The definition of staleness shared by the read and the sweep: more than `ExpiryTime` ms since `lastActive`, compared strictly. The sweep at line 55 uses the same test. ExpiryBoundary pins the boundary down. |
| SessionStore.ExpiryBoundary | backend/src/conversationStore.ts:19-33 | The window is 1 800 000 ms. With exactly that much elapsed a state is still live; one millisecond more and it is stale (strict `>`). |
| SessionStore.SweepAgreesWithGet | backend/src/conversationStore.ts:52-60 | The sweep keeps exactly the live entries, unchanged. A read at the same `now` sees the same state for every id, before and after the sweep. |
| SessionStore.ResetThenGet | backend/src/conversationStore.ts:48-50 | After a reset, a read at the same `now` returns the fresh state. A second reset at the same `now` leaves the table as it was. |
| SessionStore.ConversationStore.constructor | backend/src/conversationStore.ts:18-24 | The store starts empty. |
| SessionStore.ConversationStore.Get | backend/src/conversationStore.ts:30-40 | A missing id gets a fresh state, which is returned and stored. A stored state is replaced exactly when it is stale (both directions). The result is never stale. A live read changes nothing, not even `lastActive`. Only `sessionId` is written. |
| SessionStore.ConversationStore.Update | backend/src/conversationStore.ts:42-46 | Each field the patch has replaces the current one; `data` is replaced wholesale. Each field it lacks is kept from the expiry-checked current state. `lastActive` is `now` even when the patch gives one. On a missing or stale id the result has the patch's step or `source`, and the patch's data or `{}`. Only `sessionId` is written. |
| SessionStore.ConversationStore.Reset | backend/src/conversationStore.ts:48-50 | The entry becomes a fresh state whatever was there. Other entries are untouched. A read right after returns step `source` and empty `data`. |
| SessionStore.ConversationStore.CleanupExpiredSessions | backend/src/conversationStore.ts:52-60 | Afterwards the table holds exactly the entries that were live at `now`, each unchanged. A read at `now` sees what it saw before. |
| Text.RemoveMatches | backend/src/services/geminiService.ts:91-92 | The definition of `replace(/pat/g, "")`, with the `i` flag folding ASCII case only: scanning from the left, a match is dropped and the scan resumes after it, otherwise the character is kept. Its contract states that the result is no longer than the input. The lemmas below pin the definition down. |
| Text.RemoveMatchesOnlyDeletes | backend/src/services/geminiService.ts:91-92 | Removal only deletes characters: the result's characters form a sub-multiset of the input's. |
| Text.RemoveMatchesNoMatch | backend/src/services/geminiService.ts:91-92 | Where the pattern matches nowhere, removal returns the text unchanged. |
| Text.RemoveMatchesKeepsPrefix | backend/src/services/geminiService.ts:91-92 | A leading part with no character that could start a match is kept as it is, and removal goes on after it. |
| Text.RemoveFencesLeavesNone | backend/src/services/geminiService.ts:92 | After every "```" is removed, no "```" is left. Removal cannot join backticks into a new fence. |
| Text.TrimStart | backend/src/services/geminiService.ts:93 | The result is what follows a whitespace-only prefix, and it does not start with whitespace. |
| Text.TrimEnd | backend/src/services/geminiService.ts:93 | The result is what precedes a whitespace-only suffix, and it does not end with whitespace. |
| Text.Trim | backend/src/services/geminiService.ts:93 | The result has whitespace at neither end (the JavaScript `trim` set: white space and line terminators). |
| Text.TrimOffset | backend/src/services/geminiService.ts:93 | The trimmed text is a slice of the input, and only whitespace lies before and after that slice. |
| Text.TrimSurrounded | backend/src/services/geminiService.ts:93 | Trimming whitespace + core + whitespace gives the core, when the core has no whitespace at its ends. |
| Text.NoFenceAfterTrim | backend/src/services/geminiService.ts:92-93 | Trimming text that has no "```" leaves text that has none. |
| Text.Join | backend/src/services/geminiService.ts:75 | The definition of `history.join("\n")`: no entries give the empty string, otherwise the entries with one separator between neighbours. JoinEntry, JoinSeparator and JoinLength pin it down. |
| Text.JoinEntry | backend/src/services/geminiService.ts:75 | History entry `i` stands in the joined text at its offset: every earlier entry plus one separator after each. |
| Text.JoinSeparator | backend/src/services/geminiService.ts:75 | Between entry `i` and entry `i+1` the joined text holds exactly one separator. |
| Text.JoinLength | backend/src/services/geminiService.ts:75 | The joined text ends exactly where the last entry ends. |
| GeminiService.Prompt | backend/src/services/geminiService.ts:71-79 | The definition of the prompt template for a given system text: the lines of the template literal with their four-space indentation, the joined history and the user's message put in. PromptFrame and PromptHistoryEntry pin it down. |
| GeminiService.BuildPrompt | backend/src/services/geminiService.ts:68-79 | The prompt `askGemini` sends: the template filled with the fixed system instructions, an omitted history counting as an empty one. OmittedHistoryIsEmpty pins the default down; AskGemini's contract is stated over this prompt. |
| GeminiService.PromptFrame | backend/src/services/geminiService.ts:71-79 | The prompt carries the system text after its first line break. It ends with "User: " + message and then the "AI:" line. With no history it is only those around the fixed labels. |
| GeminiService.OmittedHistoryIsEmpty | backend/src/services/geminiService.ts:68 | Omitting the history gives the same prompt as an empty history. |
| GeminiService.PromptHistoryEntry | backend/src/services/geminiService.ts:71-79 | Every history entry appears in the prompt in its order, after the system text and before the user's message. A newline follows each entry that is not the last. |
| GeminiService.JsonFenceIsFence | backend/src/services/geminiService.ts:91 | An opening "```json" in any letter case starts with a plain "```". |
| GeminiService.CleanReply | backend/src/services/geminiService.ts:90-93 | The cleaned text contains no "```", no "```json" in any letter case, and no whitespace at either end. |
| GeminiService.JsonFencePass | backend/src/services/geminiService.ts:91 | The first pass removes an opening fence in any letter case. It keeps the closing fence and a middle with no "```" in it; single backticks in the middle are kept. |
| Text.FencePass | backend/src/services/geminiService.ts:92 | The second pass removes the closing fence after a middle with no "```" in it. When the middle ends in one or two backticks, the three backticks removed are the first of that run, so the result is still the middle. |
| Text.BacktickRunPass | backend/src/services/geminiService.ts:92 | One or two backticks followed by a closing fence come out as the one or two backticks: the scan matches at the first backtick. |
| GeminiService.FencedReplyUnwraps | backend/src/services/geminiService.ts:89-95 | A reply wrapped as "```json" (any case), whitespace, body, whitespace, "```" cleans to exactly the body, which is then what gets parsed. The body may hold single or double backticks (inline code); it only needs no "```" of its own and no whitespace at its ends. |
| GeminiService.CleanTextIsFixed | backend/src/services/geminiService.ts:90-93 | Text with no fence and no whitespace at its ends passes the clean-up unchanged. Plain JSON is parsed as sent. |
| GeminiService.CleanReplyIdempotent | backend/src/services/geminiService.ts:90-93 | Cleaning twice is the same as cleaning once. |
| GeminiService.ParseFailureReply | backend/src/services/geminiService.ts:99-102 | The definition of the reply when the cleaned text is not valid JSON: `resp` "Sorry, I had trouble understanding. Could you please repeat?" and `ui` "source". FallbacksDiffer and AskGemini pin down its use. |
| GeminiService.ApiErrorReply | backend/src/services/geminiService.ts:109-112 | The definition of the reply when the model call fails: `resp` "Something went wrong while planning your trip. Please try again." and `ui` "source". FallbacksDiffer and AskGemini pin down its use. |
| GeminiService.FallbacksDiffer | backend/src/services/geminiService.ts:96-113 | Both fallbacks have `ui` "source", and the parse fallback differs from the model-error fallback. |
| GeminiService.AskGemini | backend/src/services/geminiService.ts:68-114 | A failed model call returns the "Something went wrong…" reply. A cleaned reply that parses is returned as parsed. One that does not parse returns the "Sorry, I had trouble understanding…" reply. Every input yields a reply; nothing is thrown. |

## Behaviour callers should know

The model follows the code in every case below.

- `update` returns nothing. It does not return the merged record.
- `update` accepts any step. Nothing keeps the step moving forward through the wizard order.
- `update` replaces `data` wholesale. Earlier answers are dropped when a patch carries new `data`, so collected data does not accumulate. `SessionLifecycle` shows an answer disappearing this way.
- A live read does not refresh `lastActive`. Only a read that replaces a missing or stale entry, an `update` or a `reset` sets it.

## Left out

- The ten-minute `setInterval` timer that triggers the sweep: the sweep is the explicit method `CleanupExpiredSessions`, called with the time of the run.
- `Date.now()`: each operation takes one clock reading, `now`. The source reads the clock up to three times in one `update` (the expiry test, the fresh state, the stamp). The model does not capture the milliseconds that can pass between those readings.
- Console logging in the sweep and in `askGemini`.
- SessionStore.ConversationStore.Get, SessionStore.ConversationStore.Update: aliasing. `get` returns the stored object itself, and `update`'s shallow spread stores the caller's `data` object by reference. A caller that later mutates the returned state, its `data`, or the `data` it passed in changes the stored session without stamping `lastActive` and without an expiry check. The model passes states and patches as values, so it cannot express that.
- A partial update whose key is present with the value `undefined`: an object spread would copy that `undefined` in. A `Patch` field is either present with a value or absent.
- `data` values that are not JSON (functions, `undefined`), key order inside JSON objects, and binary floating point: `Json` numbers are `real`.
- The Gemini SDK, the model name, and how the reply text is produced: `generate` is a parameter returning the reply text or a failure. A failure stands for any exception from the call or from reading the text.
- `JSON.parse` itself: `parse` is a parameter, with `None` standing for the syntax error it throws.
- Loading the environment and the startup failure when the API key is missing: configuration, not behaviour of a turn.
- The HTTP routes (`backend/src/routes/aiRoutes.ts`, `backend/src/routes/ai.ts`), the server bootstrap, the Mongoose-backed conversation service and model, and the React front end. The older route in `ai.ts` calls `getTripResponse` and `conversationStore.add`, which the modelled code does not define.
- The reply's `ui` stays a plain string rather than a `Step`: the instructions ask for "travelInterests", while `Step` names that stage "interests".
