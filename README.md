# lifecho chat pipeline — a Dafny model

lifecho is a journaling app. The user talks with an AI mentor in Japanese for a
fixed number of rounds, and the conversation is then turned into a diary entry.
This project models the core of one chat round and proves properties about it.

**Backend: the `/api/chat` handler** (`backend/main1.py`):

- **Phase.** Which phase a request is in: the opening question, an ordinary
  round, or the last round.
- **Recovery.** How the generative model's reply text becomes a response dict:
  - fence stripping;
  - the direct parse;
  - the brace-count scan for the first balanced `{...}` span;
  - the per-field salvage;
  - the error-reply check and the `setdefault` defaults.
- **Termination.** The last-round rewrite that forces `FINISHED` and a closing
  sentence.
- **Speech.** Where the speech-synthesis outcome is written into the answer.
- **Ledger.** The conversation ledger (`communication_raw`) and its
  suggestion normalisation.
- **Errors.** The two exception handlers that turn every failure into an
  `ERROR` answer.

**Backend helpers** (same file):

- `FinalGenerationRequest.to_history`;
- `clean_json_content`;
- scene-prompt label stripping and the two-prompt cap;
- the `detect_roles` endpoint;
- voice selection for chat replies and podcast lines.

**Frontend: the chat page** (`frontend/app/chat/page.tsx`):

- how a ledger is paired into displayed turns;
- the first-round handler and its failed-answer test;
- the spoken-reply handler;
- `nextStep`;
- `getRoleColor`;
- the suggestion-tip filter;
- podcast speaker classification.

**Data model.** JSON values are a small datatype `Json.Value`:

- `Str` for strings;
- `Null` for None, and JavaScript `undefined` on the page;
- `List` and `Dict`;
- `Other`, which stands for numbers and booleans and carries only their
  truthiness.

**Inputs rather than calls.** These appear as parameters, not as code that runs:

- `json.loads` is an abstract partial parse, `parse: string -> Result<Value, string>`;
- the text returned by the generative model is a `ModelReply`; a failed call
  carries the exception's type name and its `str(e)` text;
- the speech helper's outcome is a `TtsOutcome`.

**Form of the model.**

- Code that mutates state step by step is modelled as methods with loops:
  - the brace scan;
  - the truncation loop;
  - the ledger assembly;
  - `to_history`;
  - the prompt-cleaning loop;
  - the pairing loop;
  - the colour hash;
  - the handler as a whole.
- Each such method is proved equal to a specification function.
- The page's React state is a class, `ChatPage.Page`, whose handler methods are
  proved against state-transition functions.

**The code departs from what its own comments and prompts suggest in these ways:**

- The salvage accepts an empty quoted reply.
- The `error` field of an apology carries `str(e)`, which can hold up to 200
  characters of the model's text.
- The translation is never checked against the reply.
- The truncation branch tests each sentence against only four question markers,
  so a reply can still ask with いつ (`Termination.WideQuestionSurvives`).
- The pairing loop can show one more turn than the ledger has model entries
  (`ChatPage.SkippedSeedShowsOneModelTwice`).
- The page trims U+FEFF and the endpoint's `strip` does not, so "Error" preceded by a
  byte order mark is refused by the page but passes the endpoint
  (`ChatPage.MarkedErrorSlipsThrough`).

## Model

| member | source | states |
|---|---|---|
| Phase.CountUser | backend/main1.py:167 | the round count is at most the history length and is 0 for an empty history |
| Phase.Classify | backend/main1.py:167-172 | first round iff the history is empty; last round iff the history is non-empty and the user count reaches `turn`; middle otherwise, so the first-round test wins |
| Phase.CountUserConcat | backend/main1.py:167 | counting user messages is additive over concatenation |
| Phase.CountUserAllUsers | backend/main1.py:167 | a history of user messages only counts every message |
| Phase.RoundOfNewUserMessage | backend/main1.py:167-169 | history plus one new user message is the last round exactly when the earlier user messages reach `turn - 1` |
| Recovery.Take | backend/main1.py:448 | Python `s[:n]` has length min(n, \|s\|) and is a prefix |
| Recovery.DropLeadingFence | backend/main1.py:400 | the leading-fence substitution removes at least the three backquotes and leaves a suffix that does not start with whitespace |
| Recovery.DropTrailingFence | backend/main1.py:401 | the trailing-fence substitution leaves a prefix, and changes the text only when it ends with a fence after trailing whitespace |
| Recovery.FenceRoundTrip | backend/main1.py:397-401 | a body wrapped in a json-tagged fence comes out of the fence stripping unchanged |
| Recovery.StripFence | backend/main1.py:397-401 | definition only; `cleaned`: the stripped reply, with a leading fence and a trailing fence removed when it starts with three backquotes; `FenceRoundTrip` proves a fenced body comes back unchanged |
| Recovery.CloseFrom | backend/main1.py:414-421 | the first index at which the brace count from the opening `{` returns to zero; none before it; None iff no index closes |
| Recovery.FirstReturnToZero | backend/main1.py:414-421 | every shorter span from the opening `{` still has a positive count, so the span found is the first balanced one |
| Recovery.BalancedEnd | backend/main1.py:409-423 | definition only; the first index at or after the opening `{` where the brace count returns to zero, as `CloseFrom` from `start`; `FirstReturnToZero` and `ScanBalancedEnd` prove it is the loop's answer and the first balanced span |
| Recovery.OpenBefore | backend/main1.py:414-421 | before the span closes, the running count stays positive |
| Recovery.ScanBalancedEnd | backend/main1.py:412-421 | the scan loop's `end_idx` is the first closing index, or -1 when the braces never balance |
| Recovery.SkipSpace | backend/main1.py:430 | regex `\s*`: every skipped character is whitespace and the next one is not |
| Recovery.CloseQuote | backend/main1.py:430 | the closing quote of a quoted value, honouring backslash escapes, is a `"` at or after the start |
| Recovery.WordEnd | backend/main1.py:434 | regex `\w+` run: every character in it is a word character |
| Recovery.ValueStart | backend/main1.py:430 | where `"key"\s*:\s*"` matches, the value starts right after an opening quote |
| Recovery.SearchMatch | backend/main1.py:430-435 | `re.search` matches at the leftmost position at or after the start where the pattern matches (no earlier position matches), and finds nothing iff no position matches |
| Recovery.SearchField | backend/main1.py:430-435 | the search yields the capture of that leftmost match, and None iff no position matches |
| Recovery.Salvage | backend/main1.py:430-448 | the salvage yields a dict iff a quoted "reply" is found, and that dict is built around the found reply |
| Recovery.SalvagedFields | backend/main1.py:437-445 | the salvaged dict has exactly the six keys and its reply is the captured text |
| Recovery.SearchSkipsUnquoted | backend/main1.py:430 | a search cannot match where there is no quote character, so skipping quote-free text leaves the match where it was |
| Recovery.SalvagePlainReply | backend/main1.py:430-445 | a plainly quoted reply after quote-free text is salvaged with exactly that reply |
| Recovery.FromBrace | backend/main1.py:409-450 | the first return to depth 0 closes the span; if that span parses its value is the result; if it does not, the salvage decides, with its dict or the no-fields ValueError quoting `cleaned[:200]`; an unbalanced prefix is a ValueError quoting `cleaned[:200]` without any salvage |
| Recovery.Recover | backend/main1.py:403-450 | the direct parse wins iff it succeeds; text without `{` after a failed parse is an error; otherwise the cascade continues from the first `{` |
| Recovery.SalvageOutcome | backend/main1.py:437-448 | when the span does not parse: the salvaged dict iff the salvage finds a reply, else the no-fields ValueError quoting `cleaned[:200]`; an accepted result is exactly `Salvage`'s dict |
| Recovery.Decode | backend/main1.py:397-450 | definition only; the recovery cascade run on `cleaned`, giving the recovered value or the cascade's error; `ParsedRoundTrip` proves a text that parses directly to a normalised dict comes back unchanged |
| Recovery.WithDefaults | backend/main1.py:458-463 | absent text keys become "" and an absent suggestion None; every present key keeps its value; no other key is added |
| Recovery.Normalize | backend/main1.py:451-465 | a non-dict is refused; a reply that strips and lower-cases to "error" is refused; an accepted dict is the defaulted dict and is normalised |
| Recovery.ReplyText | backend/main1.py:454 | definition only; `res_json.get("reply") or ""`, the value the error check strips; `DefaultReplyChecked` proves the reply the defaults leave passes the same check |
| Recovery.IsErrorText | backend/main1.py:455 | definition only; the stripped, lower-cased text is "error" (this also covers the exact "Error" test); `NotErrorByLastChar`, `ClosedReplyNotError` and `PageErrorIsEndpointError` are proved about it |
| Recovery.Normalized | backend/main1.py:457-465 | definition only; the shape every accepted dict has: the four text keys and "suggestion", a reply that is a str or an empty list or dict, not "error", and a sliceable `user_ja`; `NormalizeKeepsNormalized`, `NormalizeIdempotent` and `EnforceKeepsNormalized` are proved about it |
| Recovery.Checked | backend/main1.py:457-465 | after the error check, an accepted dict is the defaulted dict and is normalised; a `len` or slice that fails is a TypeError |
| Recovery.NormalizeAcceptsStrings | backend/main1.py:451-465 | a dict whose text fields are strings and whose reply is no "error" text is accepted |
| Recovery.NotErrorByLastChar | backend/main1.py:454-456 | a reply whose last character is neither whitespace nor r/R is not an error reply |
| Recovery.NormalizeKeepsNormalized | backend/main1.py:451-463 | a normalised dict passes the checks and defaults unchanged |
| Recovery.DefaultsKeepComplete | backend/main1.py:458-463 | the defaults leave a dict that already has every text key and a suggestion unchanged |
| Recovery.NormalizeIdempotent | backend/main1.py:451-465 | applying the checks and defaults twice is the same as once |
| Termination.KeepLeadingStatements | backend/main1.py:516-521 | the truncation loop keeps each sentence, with "。" put back, up to the first narrow question line |
| Termination.HasEnding | backend/main1.py:497 | definition only; `has_ending`: ありがとう together with 日記 or 一緒; `ClosingReplyKeepsIff` and `EndingJaCloses` are proved with it |
| Termination.HasQuestion | backend/main1.py:503 | definition only; `has_question`: any of the ten question markers occurs; `ClosingReplyKeepsIff` and `WideQuestionSurvives` are proved with it |
| Termination.IsQuestionLine | backend/main1.py:518 | definition only; a sentence holding one of the four markers the loop tests; `KeptHasNoLineMarker` is proved with it |
| Termination.KeepUntilQuestion | backend/main1.py:515-521 | definition only; each sentence before the first question line with "。" put back; `KeepLeadingStatements` proves the loop computes it, and `KeptAll`, `KeptHasNoLineMarker` are proved about it |
| Termination.Truncated | backend/main1.py:515-531 | definition only; the stripped kept text, or the fallback when it is blank, then a space and the closing sentence; `TruncationChanges`, `TruncatedHasNoLineMarker`, `FallbackAsksNothing` and `WideQuestionSurvives` are proved about it |
| Termination.ClosingReply | backend/main1.py:507-542 | definition only; the reply is kept, truncated, extended by the closing sentence, or replaced by it when empty; `ClosingReplyKeepsIff`, `ClosingReplyEnds`, `ClosingReplySettles` and `ClosingReplyOfEmpty` are proved about it |
| Termination.Enforce | backend/main1.py:487-549 | a successful rewrite has status FINISHED; it fails, with a TypeError, iff the reply is a dict or the append branch meets a truthy non-str translation |
| Termination.ClosingTranslation | backend/main1.py:528-543 | the translation fails iff the append branch meets a truthy non-str translation, and then with a TypeError |
| Termination.ConcatError | backend/main1.py:540 | definition only; Python's TypeError text for `v + " "` on a list or on another non-str value |
| Termination.Closed | backend/main1.py:525-543 | the new reply and translation are written and every other key is kept |
| Termination.EnforceFrame | backend/main1.py:487-549 | the rewrite adds only "status" and changes no key but reply, translation and status |
| Termination.KeptHasNoLineMarker | backend/main1.py:516-521 | the kept text holds none of the four narrow question markers |
| Termination.KeptAll | backend/main1.py:516-521 | with no question line, every sentence is kept with "。" put back |
| Termination.FallbackAsksNothing | backend/main1.py:523-527 | when nothing is kept, the question branch answers with the fallback sentence and asks nothing |
| Termination.QuestionLineDropped | backend/main1.py:515-527 | a sentence asking with a narrow marker makes the question branch change the reply |
| Termination.TruncationChanges | backend/main1.py:512-531 | the question branch never leaves a questioning reply as it was |
| Termination.TruncatedHasNoLineMarker | backend/main1.py:512-531 | after the question branch, no narrow question marker remains in the reply |
| Termination.SingleSentenceKept | backend/main1.py:515-527 | a single sentence that is no question line is kept whole, followed by "。" and the closing sentence |
| Termination.WideQuestionSurvives | backend/main1.py:503-527 | a reply asking with いつ has a question and still has one after the question branch |
| Termination.ClosingReplyOfEmpty | backend/main1.py:540-542 | an empty reply becomes exactly the closing sentence |
| Termination.EnforceReply | backend/main1.py:490-545 | a successful rewrite leaves the closing reply of the original reply, with an empty-list reply read as "" |
| Termination.EnforceKeeps | backend/main1.py:506-509 | a reply that already closes and asks nothing gets only the FINISHED status |
| Termination.ClosingReplyKeepsIff | backend/main1.py:497-545 | a str reply is left as it was iff it has the thank-you ending and asks no question |
| Termination.ReplyKeptIff | backend/main1.py:497-545 | the reply survives the rewrite exactly when it already closes the conversation and asks nothing |
| Termination.ClosingReplyEnds | backend/main1.py:510-542 | every rewritten reply ends with the Japanese closing sentence |
| Termination.ClosedReplyNotError | backend/main1.py:491-545 | a reply ending with the closing sentence is never an error reply |
| Termination.EndingJaCloses | backend/main1.py:491-503 | the closing sentence itself has the ending phrases and asks no question |
| Termination.ClosingReplySettles | backend/main1.py:497-545 | a reply rewritten without a question is kept by a second rewrite |
| Termination.EnforceKeepsNormalized | backend/main1.py:487-549 | a successful rewrite keeps the dict normalised |
| Termination.EnforceFinishes | backend/main1.py:487-549 | after the rewrite the status is FINISHED and the reply either already closed and asked nothing or ends with the closing sentence |
| Termination.EnforceSettles | backend/main1.py:487-549 | outside the question branch, enforcing twice equals enforcing once |
| Termination.FinishedAgain | backend/main1.py:487-549 | a normalised FINISHED dict whose reply closes and asks nothing is a fixed point of the rewrite |
| Termination.EnforceTranslation | backend/main1.py:528-543 | whenever the reply is rewritten, the translation ends with the Chinese closing sentence |
| Termination.EnforceCloses | backend/main1.py:512-543 | a rewritten reply ends with the Japanese closing sentence and its translation with the Chinese one |
| Ledger.LedgerSuggestion | backend/main1.py:604-659 | a non-empty list gives its first item; a str or dict is kept; other types and the empty list give None; None becomes "" only after the first round |
| Ledger.Replay | backend/main1.py:637-643 | one entry per earlier message, holding only its role and content |
| Ledger.ReplayEntry | backend/main1.py:630-633 | definition only; an earlier message copied with only its role and content |
| Ledger.SeedEntry | backend/main1.py:594-599 | definition only; the seed-topic entry: role user, the topic as content and raw text, and the model's `user_ja` or else the topic |
| Ledger.IsAudioName | backend/main1.py:642 | definition only; a message ending in .m4a, .mp3 or .wav |
| Ledger.UserEntry | backend/main1.py:638-645 | definition only; the current user entry: the message, wrapped as an audio-file note when it names an audio file, with the model's `user_raw_text` and `user_ja` |
| Ledger.ModelEntry | backend/main1.py:604-667 | definition only; the model entry: the reply as both content and reply, the translation, and the suggestion mapped by `LedgerSuggestion` |
| Ledger.BuildLedger | backend/main1.py:586-668 | definition only; the first round gives the seed entry (for a non-empty topic) and the model entry; later rounds continue the client's non-empty ledger or replay the earlier messages, then add the user and model entries; `AssembleLedger` proves the appending code computes it, and `LedgerShape`, `RebuiltLedgerCountsRound` and `CurrentTurnCountsOne` are proved about it |
| Ledger.CountUserEntries | backend/main1.py:676 | the user-entry count is at most the ledger length |
| Ledger.CountLedgerUsers | backend/main1.py:676 | the round count fails with KeyError("role") iff some entry has no role, and otherwise is the number of user entries |
| Ledger.HasRoles | backend/main1.py:676 | definition only; every entry has a "role" key, which `m['role']` needs; `CountLedgerUsers`, `ReplayHasRoles` and `MissingRoleComesFromClient` are proved with it |
| Ledger.AssembleLedger | backend/main1.py:586-668 | the appending code builds exactly the ledger `BuildLedger` describes |
| Ledger.LedgerShape | backend/main1.py:586-668 | first round: 2 entries with a non-empty seed, else 1; later rounds: the client's ledger as a prefix plus 2, or \|history\| + 1 when replayed; it ends with the user entry for the last message and the model entry holding the reply |
| Ledger.ReplayHasRoles | backend/main1.py:637-643 | a replayed ledger always has roles and counts the history's user messages |
| Ledger.CountUserEntriesConcat | backend/main1.py:676 | counting user entries is additive over concatenation |
| Ledger.RebuiltLedgerCountsRound | backend/main1.py:637-676 | a ledger rebuilt from a history ending with the user's message counts exactly that history's user messages |
| Ledger.CurrentTurnCountsOne | backend/main1.py:646-666 | the two entries appended after the first round hold one user entry |
| Ledger.MissingRoleComesFromClient | backend/main1.py:630-668 | the ledger has roles iff it is a first-round, replayed, or role-complete client ledger |
| Chat.InnerError | backend/main1.py:466-479 | the inner apology: status ERROR, empty ledger, the exception text under "error", and the mentor's name and the exception type in the reply |
| Chat.OuterError | backend/main1.py:680-691 | the outer apology: status ERROR, empty ledger, the exception text under "error", and no "user_ja" |
| Chat.Respond | backend/main1.py:156-691 | definition only; the whole handler: a setup failure reaches the outer handler, a failed model call the inner one, and model text goes on to recovery; `HandleChat` proves the handler computes it, and `ResponseShape` is proved about it |
| Chat.AfterModel | backend/main1.py:397-482 | definition only; a recovery or check failure becomes the inner apology with its exception type and text; a normalised dict goes on to `Finish` |
| Chat.Finish | backend/main1.py:485-678 | definition only; the last-round rewrite when the user count reaches `turn`, its error going to the outer handler, then delivery; `FinishChat`, `FinishShape`, `FinishEarly` and `LastRoundFinishes` are proved about it |
| Chat.Deliver | backend/main1.py:554-678 | definition only; speech, then the ledger, then the role check of the round-count print for an unfinished conversation; `DeliverChat`, `DeliverShape`, `DeliverKeeps` and `DeliverFailsIff` are proved about it |
| Chat.Parsed | backend/main1.py:392-465 | an empty model text is a ValueError; any recovered dict is normalised |
| Chat.ParsedRoundTrip | backend/main1.py:397-465 | a text that parses directly to a normalised result gives back that same result: recovery and normalisation change nothing on their own output |
| Chat.WithSpeech | backend/main1.py:554-582 | a falsy reply adds nothing; a truthy reply always gets "reply_audio", which is non-null iff synthesis returned truthy audio; only a failure writes "tts_error": the helper's own error when it reports one, the exception text after the "TTS 调用异常: " prefix when it raises; other keys are kept |
| Chat.LedgerValue | backend/main1.py:671 | the ledger is stored as a list of its entries, in order |
| Chat.HandleChat | backend/main1.py:156-691 | the handler's step-by-step updates give exactly the answer `Respond` describes |
| Chat.FinishChat | backend/main1.py:487-678 | the steps after recovery give exactly the rewrite followed by delivery |
| Chat.DeliverChat | backend/main1.py:554-678 | speech, the ledger loop and the round count give exactly the delivered answer |
| Chat.DeliverShape | backend/main1.py:554-691 | every delivered answer is an apology with an empty ledger or ends with the model entry holding the reply |
| Chat.FinishShape | backend/main1.py:487-691 | the same shape holds after the last-round rewrite |
| Chat.ResponseShape | backend/main1.py:156-691 | every answer of the handler has a ledger key; an answer with an empty ledger has status ERROR and an "error" text, and any other ends with the model entry holding the reply |
| Chat.LastRoundFinishes | backend/main1.py:487-549 | in the last round an answered response is FINISHED and its reply either closed already and asks nothing, or ends with the closing sentence |
| Chat.DeliverKeeps | backend/main1.py:554-671 | delivery keeps every key of the dict except the speech keys and the ledger, and adds no other key |
| Chat.FinishEarly | backend/main1.py:487-551 | before the last round nothing is rewritten |
| Chat.EarlierRoundsKeepStatus | backend/main1.py:487-551 | before the last round the model's status and reply reach the client untouched |
| Chat.RoleFailureNeedsClientLedger | backend/main1.py:630-676 | before the last round a recovered dict fails iff the client's ledger has an entry without a role and the status is not FINISHED |
| Chat.DeliverFailsIff | backend/main1.py:673-676 | delivery fails exactly when the status is not FINISHED and the client's non-empty ledger lacks a role |
| Chat.FencedObjectParses | backend/main1.py:397-463 | a fenced JSON object with str text fields and a non-error reply is answered with that object, defaults filled in |
| Helpers.Taken | backend/main1.py:63-69 | the taken messages are never more than the items |
| Helpers.SummaryMessage | backend/main1.py:71-76 | definition only; the summary as a user message prefixed "[日记摘要] " |
| Helpers.ToHistory | backend/main1.py:56-78 | definition only; the taken items then the summary message when the summary is non-empty, or None when an item is rejected; `BuildHistory` proves the loop computes it, and `HistoryLength` and `SummaryIsLastUserMessage` are proved about it |
| Helpers.BuildHistory | backend/main1.py:56-78 | the conversion loop returns exactly `ToHistory` |
| Helpers.HistoryLength | backend/main1.py:63-76 | exactly the items with both "role" and "content" become messages, plus one iff the summary is non-empty |
| Helpers.TakenCount | backend/main1.py:63-69 | one message per item with both keys |
| Helpers.TakenConcat | backend/main1.py:63-69 | taking respects splitting the items, so ledger order is kept |
| Helpers.TakenOne | backend/main1.py:64-69 | an item with both keys gives one message with its role and content |
| Helpers.TakenNone | backend/main1.py:64 | an item without both keys gives nothing |
| Helpers.SummaryIsLastUserMessage | backend/main1.py:71-76 | a non-empty summary is the last message, a user message "[日记摘要] " + summary, and adds one to the round count |
| Helpers.UnfencedIsParsedWhole | backend/main1.py:81-86 | text without a backquote is parsed whole |
| Helpers.FenceBody | backend/main1.py:82-85 | definition only; after a json fence, the text up to the next json fence and then up to the next plain fence, stripped; else between the first two plain fences, stripped; else the whole text; `UnfencedIsParsedWhole`, `JsonFencedBody` and `BackquoteBeforeSecondJsonFence` are proved about it |
| Helpers.CleanJsonContent | backend/main1.py:81-86 | definition only; the JSON parse of `FenceBody` |
| Helpers.JsonFencedBody | backend/main1.py:82-83 | after a json fence, the body up to the next fence, stripped, is what is parsed, when no backquote follows that fence at once |
| Helpers.JsonPieceEndsAtFence | backend/main1.py:83 | when the body has no backquote and no backquote follows its closing fence, cutting at the next json fence and then at the next fence leaves exactly the body |
| Helpers.BackquoteBeforeSecondJsonFence | backend/main1.py:83 | a backquote right before a second json fence stays in the parsed text, because the json fence ends the first piece before the plain fence is looked for |
| Helpers.JsonPieceKeepsBackquote | backend/main1.py:83 | the piece before a json fence preceded by one backquote keeps that backquote, and holds no plain fence |
| Helpers.FirstOccurrence | backend/main1.py:82-85 | a backquote pattern is first found right after a prefix without backquotes |
| Helpers.CleanPrompt | backend/main1.py:1061-1065 | a cleaned prompt is never longer than the raw one |
| Helpers.CleanPrompts | backend/main1.py:1058-1066 | the loop cleans every prompt, in order, one output per input |
| Helpers.FirstTwo | backend/main1.py:1120 | `prompts[:2]` is the first min(2, n) prompts |
| Helpers.LabelRemoved | backend/main1.py:1062-1063 | a prompt labelled with a full-width colon loses exactly the label and the colon |
| Helpers.UnlabelledKept | backend/main1.py:1061-1066 | a prompt without either colon is drawn as it is |
| Helpers.BracketSpan | backend/main1.py:1429 | `\[.*?\]` matches from the first "[" to the first "]" after it, and there is no match iff no "]" follows any "[" |
| Helpers.FilterMapExact | backend/main1.py:1440-1441 | a line is kept iff it is a stripped line that passes the filter |
| Helpers.RoleLines | backend/main1.py:1440-1441 | definition only; the stripped lines that are neither blank nor comments, in order; `FilterMapExact` and `RoleLinesClean` are proved about it |
| Helpers.RoleLinesClean | backend/main1.py:1440-1441 | every fallback line is stripped, non-empty and not a comment |
| Helpers.FallbackRoles | backend/main1.py:1440-1445 | the fallback is at most ten lines, a prefix of the role lines, and all of them when fewer than ten |
| Helpers.RolesOf | backend/main1.py:1426-1453 | ERROR iff an error message is present, and then no roles; otherwise SUCCESS |
| Helpers.DetectRoles | backend/main1.py:1391-1453 | a blank text is SUCCESS with no roles; a failed model call is ERROR with no roles and its `str(e)` as the error; otherwise the answer is RolesOf the stripped model text |
| Helpers.FallbackAnswerBounded | backend/main1.py:1438-1446 | without a bracketed span the answer succeeds with at most ten stripped, non-comment lines |
| Helpers.BracketedListPassedThrough | backend/main1.py:1430-1436 | a bracketed list is returned whole; another JSON value gives no roles; a failed parse is an error |
| Helpers.ChatVoice | backend/main1.py:120 | the male voice iff the speaker is "model", else the female voice |
| Helpers.PodcastVoice | backend/main1.py:938-946 | the female voice iff the speaker is the user or guest, else the male voice |
| Helpers.IsGuestSpeaker | backend/main1.py:938-939 | definition only; the speaker contains 用户, ユーザー, 嘉宾 or 私, is "user" once lower-cased, or then contains "guest"; `PodcastVoice` and `MeIsVoicedAsUser` are proved with it |
| ChatPage.FirstModel | frontend/app/chat/page.tsx:991 | `find` returns a model entry of the ledger, and nothing iff there is none |
| ChatPage.PairIndices | frontend/app/chat/page.tsx:1005-1026 | every index at which the loop emits a turn is in range and pairs a model entry with a paired user entry before it |
| ChatPage.PairIndicesComplete | frontend/app/chat/page.tsx:1005-1026 | the emitting indices are increasing, and every index that pairs is among them |
| ChatPage.PairsInLedgerOrder | frontend/app/chat/page.tsx:1005-1026 | the k-th turn is built from the k-th pairing index and the entry before it |
| ChatPage.Pairs | frontend/app/chat/page.tsx:1005-1026 | definition only; the turns the loop emits over a range, in ledger order; `PairsInLedgerOrder` and `PairsBounded` are proved about it |
| ChatPage.SeedTurns | frontend/app/chat/page.tsx:989-1002 | the skipped seed topic adds at most one turn |
| ChatPage.ScanStart | frontend/app/chat/page.tsx:987-1002 | definition only; the loop starts at 1 when the seed topic is skipped, else at 0 |
| ChatPage.Pairing | frontend/app/chat/page.tsx:983-1026 | definition only; the seed turn then the pairs from the scan start; `PairLedger` proves the loop computes it, and `PairingBounded` and `AlternatingPairsEveryModel` are proved about it |
| ChatPage.PairSeed | frontend/app/chat/page.tsx:987-1002 | the seed step gives the seed turn and starts the scan at 1 iff the seed is skipped |
| ChatPage.PairLedger | frontend/app/chat/page.tsx:983-1026 | the pairing loop returns exactly the seed turn followed by the pairs from the scan start |
| ChatPage.PairsBounded | frontend/app/chat/page.tsx:1005-1026 | the loop emits at most one turn per model entry |
| ChatPage.PairingBounded | frontend/app/chat/page.tsx:987-1026 | the page shows at most one turn more than there are model entries, and no more than the model entries when the seed is not skipped |
| ChatPage.SkippedSeedShowsOneModelTwice | frontend/app/chat/page.tsx:989-1026 | for a skipped seed, a user entry and one model entry, two turns are shown for that one model entry |
| ChatPage.AlternatingPairsEveryModel | frontend/app/chat/page.tsx:1005-1026 | on alternating user/model ledgers every model entry gets exactly one turn, from itself and the user entry before it |
| ChatPage.EndpointSeedIsPaired | frontend/app/chat/page.tsx:989 | a seed entry written by the endpoint carries its transcription, so the page pairs it instead of skipping it |
| ChatPage.PageErrorIsEndpointError | frontend/app/chat/page.tsx:738-739 | without U+FEFF, a reply the page trims to "Error" is one the endpoint refuses as an error reply |
| ChatPage.MarkedErrorSlipsThrough | frontend/app/chat/page.tsx:738-739 | "Error" preceded by U+FEFF is taken for "Error" by the page but is not an error reply for the endpoint |
| ChatPage.FirstTurn | frontend/app/chat/page.tsx:758-847 | the first-round turn always has the topic as its user text |
| ChatPage.AfterFirstRound | frontend/app/chat/page.tsx:687-865 | whenever the first round changes the turns, it shows exactly one turn, for the topic, and starts the conversation |
| ChatPage.AfterNextStep | frontend/app/chat/page.tsx:1064-1071 | below round 5 the round increments; from 5 on the stage becomes the summary |
| ChatPage.MicOpen | frontend/app/chat/page.tsx:889 | definition only; the microphone action goes on only when there is a turn and the conversation has started; `Page.CanRecord`, `FirstRoundOpensMic` and `BlankStartKeepsMic` are proved with it |
| ChatPage.Page.CanRecord | frontend/app/chat/page.tsx:889 | definition only; the guard `MicOpen` on the page's current state |
| ChatPage.FirstRoundOpensMic | frontend/app/chat/page.tsx:687-891 | with a topic and a role, the first round leaves the microphone open iff the reply is present and the answer is not an error response, from any earlier state |
| ChatPage.BlankStartKeepsMic | frontend/app/chat/page.tsx:687-697 | a blank topic or role leaves whether the microphone opens unchanged |
| ChatPage.FirstRoundRefusal | frontend/app/chat/page.tsx:734-748 | with a topic and a role, the answer is refused iff the reply is missing or it is an error response; a refusal keeps the turns, does not start and sets an error |
| ChatPage.IsErrorResponse | frontend/app/chat/page.tsx:738-739 | definition only; status ERROR, or a string reply that trims to "Error"; `FirstRoundRefusal`, `PageErrorIsEndpointError` and `MarkedErrorSlipsThrough` are proved with it |
| ChatPage.FirstRoundOpensOneTurn | frontend/app/chat/page.tsx:750-865 | an accepted first round shows one turn for the topic, starts at round 0, and has the reply as history |
| ChatPage.MicErrorKeepsConversation | frontend/app/chat/page.tsx:951-958 | a mid-conversation ERROR keeps the turns, history, ledger, round and stage, and sets only the voice hint |
| ChatPage.MicReplyExtendsHistory | frontend/app/chat/page.tsx:965-972 | an accepted reply appends exactly a user item and the model's reply to the history |
| ChatPage.MicReplyAdvances | frontend/app/chat/page.tsx:1034-1047 | FINISHED moves to the summary at a later round; any other accepted reply takes one `nextStep` |
| ChatPage.StepsStayChatting | frontend/app/chat/page.tsx:1064-1071 | while rounds stay at most 5, each `nextStep` only increments the round |
| ChatPage.StepsReachSummary | frontend/app/chat/page.tsx:1064-1071 | from any round up to 5, 6 - round steps reach the summary at round 5 |
| ChatPage.Page.constructor | frontend/app/chat/page.tsx:462-471 | a fresh page has no turns, no history, an empty ledger, round 0, and has not started |
| ChatPage.Page.NextStep | frontend/app/chat/page.tsx:1064-1071 | the state after `nextStep` is `AfterNextStep` of the old state |
| ChatPage.Page.ApplyFirstRound | frontend/app/chat/page.tsx:687-865 | the state after the first-round handler is `AfterFirstRound` of the old state |
| ChatPage.Page.ApplyMicReply | frontend/app/chat/page.tsx:947-1047 | the state after the spoken-reply handler is `AfterMicReply` of the old state |
| ChatPage.AfterMicReply | frontend/app/chat/page.tsx:947-1047 | definition only; an ERROR answer sets only the voice hint, a missing reply only the error, and otherwise the reply is recorded and the conversation advances; `ApplyMicReply`, `MicErrorKeepsConversation`, `MicReplyExtendsHistory` and `MicReplyAdvances` are proved about it |
| ChatPage.Recorded | frontend/app/chat/page.tsx:965-1031 | definition only; the history gains the transcription (or the voice-input placeholder) and the reply, and a returned ledger replaces the ledger and the paired turns; `Page.Record` and `MicReplyExtendsHistory` are proved about it |
| ChatPage.Advanced | frontend/app/chat/page.tsx:1037-1047 | definition only; FINISHED moves to the summary at max(round + 1, turns shown before - 1), anything else takes one `nextStep`; `Page.Advance` and `MicReplyAdvances` are proved about it |
| ChatPage.Page.Record | frontend/app/chat/page.tsx:965-1031 | the history grows and a returned ledger replaces the ledger and the paired turns |
| ChatPage.Page.Advance | frontend/app/chat/page.tsx:1034-1047 | FINISHED moves to the summary at max(round + 1, turns shown before - 1); otherwise one `nextStep` |
| ChatPage.BlankSuggestionHidden | frontend/app/chat/page.tsx:1417 | a suggestion the endpoint normalises from None never shows a tip |
| ChatPage.ShowTip | frontend/app/chat/page.tsx:1417 | definition only; a truthy string naming neither "index out of range" nor "Error"; `BlankSuggestionHidden` and `TipHidesIndexErrors` are proved about it |
| ChatPage.TipHidesIndexErrors | frontend/app/chat/page.tsx:1417 | a suggestion holding "list index out of range" never shows a tip |
| ChatPage.DisplaySpeaker | frontend/app/chat/page.tsx:1751-1753 | "Me" for the user's own line, the mentor role for another line when a role is set, and failure iff lower-casing fails |
| ChatPage.SpeakerLower | frontend/app/chat/page.tsx:1751 | definition only; `(line.speaker \|\| '').toLowerCase()`, None where the value has no `toLowerCase` |
| ChatPage.IsMe | frontend/app/chat/page.tsx:1751-1752 | definition only; the lower-cased speaker is 用户 or "user" or contains ユーザー, None where lower-casing fails; `DisplaySpeaker` and `MeIsVoicedAsUser` are proved with it |
| ChatPage.MeIsVoicedAsUser | frontend/app/chat/page.tsx:1752 | a line the page shows as "Me" is voiced with the user's voice (backend/main1.py:938-946) |
| ChatPage.CodeUnits | frontend/app/chat/page.tsx:425 | `charCodeAt` reads one or two UTF-16 code units per character, each below 2^16 |
| ChatPage.Utf16 | frontend/app/chat/page.tsx:425 | the code units `charCodeAt` walks: at least one per character, each below 2^16 |
| ChatPage.ToInt32 | frontend/app/chat/page.tsx:425 | ToInt32 lies in [-2^31, 2^31) and is congruent to its input modulo 2^32 |
| ChatPage.HashStep | frontend/app/chat/page.tsx:425 | definition only; `code + ((hash << 5) - hash)`, with the shift on the 32-bit value and the sum left unwrapped as JavaScript numbers are |
| ChatPage.Hash | frontend/app/chat/page.tsx:425 | definition only; the hash after the loop over the code units; `HashBounded`, `HashIsExact` and `RoleColor` are proved about it |
| ChatPage.ColorIndex | frontend/app/chat/page.tsx:426 | the palette index is always within the 8 colours |
| ChatPage.RoleColor | frontend/app/chat/page.tsx:422-427 | the hash loop returns the palette colour selected by the hash of the name's code units, so it is deterministic and always a palette entry |
| ChatPage.HashBounded | frontend/app/chat/page.tsx:425 | the hash grows by less than 2^32 per code unit |
| ChatPage.HashIsExact | frontend/app/chat/page.tsx:425 | for names under 2^21 code units the hash after every prefix of the code units, and so every value the loop holds, stays within 2^53, where floating point is exact |

## Left out

- **Generative model and speech synthesis.** Calls to the generative model and
  the speech-synthesis client are foreign calls. The model text and the
  synthesis outcome are inputs. This covers:
  - the `response.text`/`candidates` fallback;
  - the image model;
  - podcast audio;
  - the TTS helper's own body.
- **Prompt templates and tone descriptions.** Their wording is content; only
  which phase chooses a template is modelled.
- **Routing, environment and credentials.** FastAPI routing, CORS, dotenv and
  credential paths are environment I/O.
- **JSON grammar and regex engine.** `json.loads` is an abstract parse
  parameter, and the regex engine is not modelled as such. Each pattern used is
  a scanner, with `\w` read as ASCII word characters.
- **Diagnostic prints.** `print`/`console.log` calls are not modelled. The
  expressions inside them that can raise (`len` of the reply, `user_ja[:30]`,
  `m['role']`) are modelled as failure paths.
- **Scene prompts that are not strings.** These are not modelled; the model
  takes the prompts as strings.
- **Page I/O, timers and flags.** Browser I/O (fetch, recording, playback,
  alerts, export) is left out. The 3-second timer that clears the voice hint
  is left out: the model leaves the hint as it was set. Two timers are
  modelled as if the delayed update happened at once:
  - the 500 ms `nextStep`;
  - the 2-second switch to the summary.

  The `isGenerating*` flags are left out.
- **Failed HTTP responses and network errors.** A non-OK response and a
  rejected fetch are not modelled; the handlers are modelled from the point
  where a JSON answer exists.
- **Ledger entries that are `null`.** JavaScript would throw on reading a
  property of a `null` entry; the model reads its fields as `undefined`.
- **Lower-casing.** Lower-casing is ASCII. This agrees with Unicode `lower()`
  for every comparison the code makes: equality with "error" and "user", and
  containment of "guest".
- **Floating point.** `formatTime`, progress percentages and JSX rendering are
  left out.
- ChatPage.RoleColor: the hash is an unbounded integer wrapped by ToInt32 at
  the shift. This is the page's double arithmetic only while the hash stays
  below 2^53, which `HashIsExact` guarantees after every code unit for names
  under 2^21 code units.
- Recovery.SalvagedFields: states only the key set and the reply. The other
  fields are defined by `Found` of each field search, and their escapes are
  kept as written.
- Recovery.Normalize: the log line's `user_ja[:30]` on a dict is modelled as
  Python 3.11 and earlier raise it, a TypeError "unhashable type: 'slice'".
  From Python 3.12 slices are hashable, the same line raises KeyError, and the
  apology would name that error instead.
- Termination.Enforce: the log line's `[:150]` slice of a dict reply is
  modelled the same way, as the TypeError of Python 3.11 and earlier; from
  Python 3.12 it is a KeyError.
