# brand-fact: the link scanner, the submit reducer and the form handler

A Dafny model of the three pieces of logic in the brand-fact web app that do
not depend on the browser.

- **The facts display** (`src/components/FactsDisplay.jsx`). `extractLinksFromContent`
  runs the markdown-link pattern `\[([^\]]+)\]\(([^)]+)\)` left to right over a fact's
  text. It splits the text into an ordered list of text and link parts and collects
  the links. It also builds the cleaned content: every link match is deleted, then
  every run of `\s*\(\s*\)` is deleted in one pass. The component picks one of four
  views from its props: spinner, error panel, empty prompt or fact list.
  The modules are `LinkScan` and `FactsView`.
- **The app's submit handler** (`src/App.jsx`). `handleSubmit` is modelled as a pure
  reducer `Step(State, Payload)` over `{isLoading, error, brand, facts}`.
  The module is `AppState`.
- **The form's submit handler** (`src/components/BrandForm.jsx`). It validates the
  inputs and returns early with an error map. Otherwise it emits a loading payload,
  calls the fact service with the trimmed inputs, and emits a result payload: the
  facts with list keys, or an error message. No result payload is sent when the service
  rejects with `null` or `undefined`. The module is `BrandForm`, and the
  handler is modelled as the list of effects it performs, in order.
  `Submission` feeds those payloads into the reducer and then into the view selection.

`Common` holds the shared records (`Fact`, `Brand`, `Payload`, `State`). `Strings` holds
JavaScript's white-space set, `trim` and decimal rendering.

How the pattern is read. `[^\]]+` and `[^)]+` cannot give back characters usefully, so a
match at `i` exists exactly when:

- `s[i]` is `[`;
- the first `]` after it is at `j > i + 1`;
- `s[j + 1]` is `(`;
- the first `)` after that is at `k > j + 2`.

`LinkScan.Engine` walks the string this way. `FindMatch` is `exec` with the `g` flag: the
leftmost match at or after `lastIndex`. `StripLinksFrom` and `CleanParensFrom` are the two
global `replace` calls. Each one tries its pattern at each position, drops a match whole
and keeps any other character.

The scanner's postcondition, `Extracted`, ties its parts to the replace result. Re-rendering the parts
(`Reassemble`: text verbatim, links as `[text](url)`) gives back the input.
Every part agrees with the pattern at the offset where it sits (`Agrees`). The text
parts, concatenated, are exactly what `content.replace(linkRegex, '')` leaves (`TextOf`).

## Model

| member | source | states |
|---|---|---|
| LinkScan.MatchAt | src/components/FactsDisplay.jsx:6 | A match at `i` starts at `i` and spells `[text](url)` there. The text is non-empty with no `]`, and the url is non-empty with no `)`. |
| LinkScan.MatchAtRecognises | src/components/FactsDisplay.jsx:6 | Conversely, every occurrence of `[text](url)` with such groups is the match at its start, with exactly those groups: the pattern recognises precisely the well-shaped links. |
| LinkScan.EngineSound | src/components/FactsDisplay.jsx:6 | Whatever the group-by-group walk reports, once it has read a valid prefix, is a well-shaped link spelled at the match start. |
| LinkScan.FindMatch | src/components/FactsDisplay.jsx:13 | `exec` from `lastIndex` returns the leftmost match at or after it. It returns nothing exactly when no position from there on starts a match. |
| LinkScan.StripLinksFrom | src/components/FactsDisplay.jsx:46 | The link replacement from position `p` on never yields more than the characters from `p` on. |
| LinkScan.StripLinks | src/components/FactsDisplay.jsx:46 | The link replacement never lengthens the text, and leaves text without any match unchanged. |
| LinkScan.StripLinksBeforeMatch | src/components/FactsDisplay.jsx:46 | The global link replacement keeps the text before the leftmost match verbatim, drops the match, and continues after it. |
| LinkScan.StripLinksNoMatch | src/components/FactsDisplay.jsx:46 | Past the last match, the link replacement keeps the rest of the string unchanged. |
| LinkScan.AddText | src/components/FactsDisplay.jsx:19-24 | Pushing the gap before a match, which holds no match itself, as a text part keeps the parts lossless, pattern-agreeing and well split, and keeps them in step with the replacement. |
| LinkScan.AddLink | src/components/FactsDisplay.jsx:26-34 | Pushing the match as a link part and moving past its end keeps the same invariant. |
| LinkScan.ScanStep | src/components/FactsDisplay.jsx:13-35 | One loop iteration extends the covered prefix to the end of the match. The parts still end in a link, and the links list grows by exactly that link. |
| LinkScan.ScanRest | src/components/FactsDisplay.jsx:37-43 | When no match remains, the tail pushed as the last text part completes a cover of the whole input. |
| LinkScan.ExtractLinksFromContent | src/components/FactsDisplay.jsx:4-53 | The parts re-render the input exactly and agree with the pattern where they sit. No text part is empty, no two text parts are adjacent, and every link is well shaped. `links` is the list of link parts in order. The text parts concatenate to the link-stripped input, and `cleanedContent` is the input with links and then empty parentheses removed. |
| LinkScan.EmptySplit | src/components/FactsDisplay.jsx:13-43 | A well-split list of parts that re-renders `s` is empty exactly when `s` is empty. |
| LinkScan.OnlyTextWithoutLinks | src/components/FactsDisplay.jsx:13-43 | In a string with no match, every part that agrees with the pattern is a text part. |
| LinkScan.NoLinksSplit | src/components/FactsDisplay.jsx:13-43 | A non-empty string with no match admits one split only: a single text part equal to the string. |
| LinkScan.ExtractEdgeCases | src/components/FactsDisplay.jsx:4-53 | Any extraction that meets the scanner's contract has no parts, no links and empty cleaned content for empty input. For non-empty input without links it has one text part equal to the input, no links, and cleaned content that is the input with empty parentheses removed. |
| LinkScan.SingleLinkSplit | src/components/FactsDisplay.jsx:13-43 | A string that is one well-shaped link `[text](url)` admits exactly one split: the single link part. A text part cannot start where the pattern matches. |
| LinkScan.SingleLinkExtraction | src/components/FactsDisplay.jsx:4-53 | Extracting `[text](url)` gives exactly one link part, the links list `[{text, url}]`, and empty cleaned content. |
| LinkScan.StripLinksWithoutBracket | src/components/FactsDisplay.jsx:46 | Where no `[` remains, the link replacement changes nothing. |
| LinkScan.StripLinksPrefix | src/components/FactsDisplay.jsx:46 | Bracket-free text before a link is kept verbatim, and the link is dropped. |
| LinkScan.StripOneLink | src/components/FactsDisplay.jsx:46 | One link between bracket-free texts `a` and `b` strips to `a + b`. |
| LinkScan.EmptyParensAt | src/components/FactsDisplay.jsx:50 | A `\s*\(\s*\)` match at `i` spells white space, then `(` at the end of that run, then white space, then a closing `)` at its last position. |
| LinkScan.EmptyParensAtRecognises | src/components/FactsDisplay.jsx:50 | Conversely, white space, `(`, white space, `)` starting at `i` is matched there, up to that `)`. |
| LinkScan.CleanParensFrom | src/components/FactsDisplay.jsx:50 | The empty-parentheses replacement never lengthens what it scans. |
| LinkScan.Cleaned | src/components/FactsDisplay.jsx:46-50 | The cleaned content is never longer than the input. |
| LinkScan.CleanParensKeepsProse | src/components/FactsDisplay.jsx:50 | The cleanup deletes only white space and parentheses. Every other character survives, in order. |
| LinkScan.CleanParensWithoutParen | src/components/FactsDisplay.jsx:50 | Without an opening parenthesis, the cleanup changes nothing. |
| LinkScan.TrailingEmptyParens | src/components/FactsDisplay.jsx:48-50 | For parenthesis-free text followed by `()`, the cleanup removes the `()` together with the white space before it, and nothing else. |
| LinkScan.CleanedExample | src/components/FactsDisplay.jsx:48-50 | The example of the source comment, `text. ([link](url))`, cleans to `text.`. |
| LinkScan.CleanedTrailingParens | src/components/FactsDisplay.jsx:48-50 | `Acquired the company. ()` cleans to `Acquired the company.`. |
| LinkScan.CleanParensSinglePass | src/components/FactsDisplay.jsx:50 | The cleanup is one pass: `(())` leaves `()` behind. |
| FactsView.Select | src/components/FactsDisplay.jsx:57-89 | The spinner shows exactly when loading. The error panel, carrying the message, shows exactly when not loading and the error is truthy. The empty prompt shows exactly when neither holds and there is no brand or no fact. Otherwise the list shows the brand, the count line and one card per fact, in order. |
| FactsView.CardOf | src/components/FactsDisplay.jsx:110-121 | A card is keyed by the fact's id, shows its cleaned content (never longer than the raw content), and shows the source string verbatim. |
| FactsView.CountLabel | src/components/FactsDisplay.jsx:105-107 | The count line starts with the decimal count, which reads back as the number of facts. It is `<n> fact found` exactly when there is one fact, and `<n> facts found` for any other count. |
| AppState.Step | src/App.jsx:12-30 | A truthy `loading` yields the cleared loading state. An absent `loading` leaves the flag alone, and `loading: false` clears it. Otherwise the error is the submitted one exactly when it is truthy, the facts are the submitted ones or none, and the brand is replaced exactly when name and URL are both non-empty. |
| AppState.LoadingForgetsEverything | src/App.jsx:13-23 | A loading payload reads nothing but its flag. Any prior state and any other fields give the same result. |
| AppState.Run | src/App.jsx:12-30 | Applying payloads in order: everything before a loading payload is forgotten, so the result is what the rest makes of the cleared state. Payloads that never mention `loading` leave the flag as it was. |
| AppState.RunLoadingThen | src/App.jsx:12-30 | After a loading payload, the result of the next payload does not depend on the state before the search. |
| AppState.RunConsistent | src/App.jsx:12-30 | Starting from a state that holds no results while loading, and applying payloads that each say whether they are loading, the state never holds an error, brand or facts while loading. |
| AppState.NoStaleError | src/App.jsx:17-25 | After a loading payload and an error-free result, no error is left and loading is off. Without a name and URL, the old brand is gone too. |
| BrandForm.Validate | src/components/BrandForm.jsx:25-33 | The name error is present exactly when the name is all white space. A blank URL gives `URL is required` whatever the URL check says. A non-blank URL has an error exactly when the check rejects the raw string, and then the error is the invalid-URL message. |
| BrandForm.ValidateReadsRawUrlOnly | src/components/BrandForm.jsx:29-33 | The URL check is consulted on the raw, untrimmed URL only, and not at all for a blank one. |
| BrandForm.WithIds | src/components/BrandForm.jsx:52-55 | Key assignment keeps the number and order of the facts and their content and source. Each key is `fact-<index>-<timestamp>`. |
| BrandForm.FactId | src/components/BrandForm.jsx:54 | A key is `fact-`, the index in decimal, `-`, and the timestamp in decimal. The two fields are exactly the numbers' decimal renderings, with no leading zeros, and both read back as their numbers. |
| BrandForm.FactIdsDiffer | src/components/BrandForm.jsx:54 | Keys of different indices differ, whatever the timestamps. |
| BrandForm.WithIdsDistinct | src/components/BrandForm.jsx:52-55 | All keys of one result list are distinct. |
| BrandForm.ErrorMessage | src/components/BrandForm.jsx:69 | The error payload's message is never empty. It is the thrown message when that is truthy, and `Failed to generate facts` otherwise. |
| BrandForm.ResultPayload | src/components/BrandForm.jsx:58-71 | After the call, the payload carries the given (trimmed) name and URL and `loading: false`. It carries the keyed facts exactly when the service returned, and the error message exactly when it threw, never both. Nothing is sent when the rejection value is `null` or `undefined`. |
| BrandForm.HandleSubmit | src/components/BrandForm.jsx:21-75 | Invalid input yields exactly one effect, recording the errors. Valid input yields, in order: clearing the errors, loading on, the loading payload, and the service call with the trimmed inputs. Then comes the result payload, unless the rejection value is nullish, and last, loading off. |
| BrandForm.InvalidInputStops | src/components/BrandForm.jsx:35-38 | On invalid input, nothing is announced, nothing loads and the service is never called. Only a non-empty error map is recorded. |
| BrandForm.ValidInputCallsService | src/components/BrandForm.jsx:40-74 | On valid input, the service is called with non-blank trimmed inputs, the loading payload precedes that call, and the handler ends with loading off. |
| Strings.Trim | src/components/BrandForm.jsx:25-29 | Trimming never lengthens a string. It gives the empty string exactly when the input is all white space, and a non-empty result neither starts nor ends with white space. |
| Strings.TrimSlice | src/components/BrandForm.jsx:47-48 | Trimming keeps one contiguous slice, and what it removes on both sides is white space. |
| Strings.SkipSpaces | src/components/FactsDisplay.jsx:50 | `\s*` consumes the longest run of white space from its start. |
| Strings.NatToString | src/components/BrandForm.jsx:54 | The decimal rendering is a non-empty string of digits, one digit long exactly for numbers below ten, and without a leading zero unless the number is zero. |
| Strings.NatToStringRoundTrip | src/components/BrandForm.jsx:54 | Reading the decimal rendering back gives the number. |
| Strings.NatToStringInjective | src/components/BrandForm.jsx:54 | Different numbers render differently. |
| Submission.Notified | src/components/BrandForm.jsx:44-71 | A payload reaches the app exactly when the handler notifies it, and there are no more payloads than effects. |
| Submission.NotifiedConcat | src/components/BrandForm.jsx:43-71 | The payloads of two runs back to back are those of the first, then those of the second. |
| Submission.ValidPayloads | src/components/BrandForm.jsx:43-71 | A valid submission passes the app the loading payload, then the result payload, except after a nullish rejection, where the loading payload is the only one. |
| Submission.InvalidSubmitChangesNothing | src/components/BrandForm.jsx:35-38 | A rejected submission leaves the app's state, and so the display, as it was. |
| Submission.IdleShowsPrompt | src/App.jsx:7-10 | Before any search the app holds no brand, no facts, no error and is not loading. That state is consistent and the display shows the empty prompt (src/components/FactsDisplay.jsx:81-88). |
| Submission.SubmitKeepsConsistent | src/App.jsx:12-30 | Whatever the input and whatever the service does, a submission never leaves an error, brand or facts in the state while it is loading, provided none was there before. |
| Submission.SubmitFromIdle | src/App.jsx:7-30 | A first submission from the starting state leaves a consistent state. If the form rejects the input, the display still shows the empty prompt. |
| Submission.SpinnerWhileWaiting | src/App.jsx:13-23 | While the service runs, the app holds the cleared state and the display shows the spinner. After a nullish rejection no other payload follows. |
| Submission.SubmitFinalState | src/App.jsx:25-29 | After a valid submission that is not a nullish rejection, loading is off and the brand is the trimmed name and URL. A returned list leaves no error and the keyed facts. A throw leaves the message and no facts. A nullish rejection leaves the app in the cleared loading state for good. |
| Submission.SubmitView | src/components/FactsDisplay.jsx:57-126 | After a valid submission the display shows one of four things. A throw gives the error panel, with `Failed to generate facts` when the message is falsy. An empty list gives the empty prompt. Otherwise the list shows under the trimmed brand, one card per returned fact, sources verbatim. A nullish rejection leaves the spinner. |

## Left out

- `src/services/getBrandFacts.ts` is not part of this model. The service call is an
  input `ServiceOutcome`. It is a returned list of facts, a rejection whose `message` may
  be absent, or a rejection with `null` or `undefined`. The last makes `error.message`
  throw inside the `catch`, so no result payload is sent and the handler's own promise
  rejects. That rejection is left unhandled and is not modelled further. The service as
  written never rejects when the form calls it. It catches its own failures and returns
  an empty list (`src/services/getBrandFacts.ts:54-59`, `:101-111`). Its one call outside
  a `try`, the brand-name lookup at `:64-78`, runs only for an empty name, and the form
  always passes a non-blank one. So only `Returned` occurs in practice. `Threw`,
  `ThrewNullish`, the form's `catch` (`src/components/BrandForm.jsx:64-71`) and the error
  panel are reachable only because the model lets the service be any function. That is a
  superset of the real behaviour, so every property proved here still holds for it.
- URL parsing (`new URL`, section 4.4 of the WHATWG URL Standard): `validateUrl` is the
  parameter `validUrl: string -> bool`, applied to the raw input.
- `Date.now()`: the timestamp read while tagging the fact at index `i` is the parameter `clock(i)`.
- React rendering: markup, CSS classes, aria attributes, `rel="noopener noreferrer"` and
  the disabled state of the inputs. A view is the datatype `View`.
- `setState` batching and the `await` between the two payloads: the form handler is one
  ordered list of effects, and the app applies its payloads in that order.
- The form's unused `isInitiated` flag.
- The disabled submit button. `BrandForm.jsx:119` disables it while the form or the app is
  loading, so no submission starts then. After a nullish rejection the app stays loading,
  so none can start again. `BrandForm.HandleSubmit` and the `Submission` lemmas accept any
  prior app state, a superset of the states from which the source lets a submission start.
  The same prop also disables the inputs and relabels the button.
- Console output.
- Characters are Unicode scalar values, whereas JavaScript strings are UTF-16 code units.
  Lengths and the cleaned content therefore agree only for text without astral-plane characters.
- A `loading: null` payload. `App.jsx:13` would copy `null` into `isLoading`, whereas `Step`
  treats an absent field only. The form never sends `null`.
- `fact.content || ''`: the content of a fact is always a string here, so the fallback is
  never needed. Likewise the app's `facts` is always a list, never `null`.
- BrandForm.HandleSubmit: does not model `onSubmit` itself throwing inside the `try`,
  which would send a second, error payload after the first.
