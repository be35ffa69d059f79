# FRIDAY assistant core, modelled in Dafny

FRIDAY is a console assistant. Before the session starts, face authentication
decides an access mode, `"OWNER"` or some other string such as `"GUEST"`.
After that, every typed line goes through the same steps:

1. it is stripped of surrounding whitespace;
2. a blank line is skipped;
3. a line holding an exit keyword ends the session;
4. any other line is routed on the intent label an ML classifier gives it.

Two intents reach the long-term memory, and only the owner can use it:

- `memory_store` scores the text by keywords, picks a category and appends a
  row to a SQLite table;
- `memory_recall` lists the most recent rows, numbered from 1.

Two further components are part of the model, although `main` does not use them:

- a working memory: a bounded log of conversation turns;
- a reply generator: it builds a system prompt keyed on the access mode and a
  user prompt, then joins the chunks a language model streams back.

The model has five modules:

- `Text` (`text.dfy`): the parts of Python's string behaviour the code relies
  on. This covers `lower`, `strip`, the `in` substring test, `any` over a
  keyword list, `"\n".join` and `str(n)`.
- `AccessMode` (`access_mode.dfy`): the two mode strings.
- `LongTermMemory` (`long_term_memory.dfy`): models `memory/friday_memory.py`.
  - The SQLite table is a `MemoryTable`: the rows in insertion order and the
    next AUTOINCREMENT id.
  - `FridayMemory` is a class holding those two fields.
  - Its `StoreMemory` and `RecallMemory` methods are each proved equal to a
    specification function: `StoreEffect`/`StoreReply` and `RecallText`.
  - Importance is kept in integer tenths.
  - `ORDER BY created_at DESC, id DESC` is an insertion sort, `SortRecent`.
    The proofs show it is the only ranked permutation of the rows.
- `ShortTermMemory` (`working_memory.dfy`): models `memory/working_memory.py`.
  - `WorkingMemory` is a class with a `history` sequence.
  - `Add` is proved against `AfterAdd`.
  - The FIFO trimming is then proved for single adds and for any run of adds.
- `BrainLogic` (`brain_logic.py` → `brain_logic.dfy`): the prompts as string
  templates and the streaming loop of `generate_response`. The language model
  is a function parameter from (system prompt, user prompt) to the chunks it
  streams back.
- `FridayCore` (`friday_core.dfy`): `is_exit_command` and the loop of `main`.
  - `Step` is one pass of the loop body and `Run` is the loop over a sequence
    of input lines.
  - `Run` is written for any line handler, so the session-wide lemmas are
    proved once and then applied to `main`'s own handler.
  - `HandleLine` and `RunSession` are the imperative loop body and loop,
    working on a `FridayMemory` object. Each is proved equal to the function
    version.
  - The classifier `predict_intent` is a parameter `intent: string -> string`.
  - The clock value behind `CURRENT_TIMESTAMP` is given with each line.

The loop of `friday_core.py` is a plain sequential loop over typed input, with
no threads, queues or mute flag, and `main` never constructs `WorkingMemory` or
`FridayBrain`. The working memory and the reply generator are therefore
modelled as the standalone components the code defines.

## Model

| member | source | states |
|---|---|---|
| Text.Lower | memory/friday_memory.py:55 | lowercasing keeps the length and folds each ASCII capital to its small letter |
| Text.LowerConcat | friday_core.py:26 | lowercasing a concatenation is the concatenation of the lowercased parts |
| Text.LowerIdentity | friday_core.py:22 | text without capitals, such as every keyword, is unchanged by lowercasing |
| Text.Contains | friday_core.py:26 | Python's `sub in s`: a recursive scan, tied to the positional definition by `ContainsIff` |
| Text.ContainsIff | friday_core.py:26 | the `in` test holds exactly when the keyword occurs at some position, in both directions |
| Text.ContainsAny | friday_core.py:26 | `any(k in text for k in keywords)` holds exactly when some listed keyword is a substring |
| Text.ContainsAroundSeparator | memory/friday_memory.py:57-58 | a keyword without the separator character occurs in `a + sep + b` exactly when it occurs in `a` or in `b` |
| Text.IsSpace | friday_core.py:47 | the ASCII characters `str.isspace()` accepts: space, tab to carriage return, and the separators 28 to 31 |
| Text.TrimStart | friday_core.py:47 | dropping leading whitespace leaves a suffix whose first character is not whitespace |
| Text.TrimEnd | friday_core.py:47 | dropping trailing whitespace leaves a prefix whose last character is not whitespace |
| Text.Strip | friday_core.py:47 | `strip()` as trimming the front and then the back; its meaning is given by `StripSpec`, `StripEmpty` and `StripIdempotent` |
| Text.StripSpec | friday_core.py:47 | `strip()` gives a contiguous block of the line with only whitespace cut off around it and none left at its ends |
| Text.StripEmpty | friday_core.py:47-49 | the stripped line is empty exactly when the line is all whitespace |
| Text.StripIdempotent | friday_core.py:47 | stripping twice is stripping once |
| Text.Join | memory/working_memory.py:20 | `sep.join(parts)`: "" for no parts, the part for one, separators only between parts; `JoinAppend` states how joins compose |
| Text.JoinAppend | memory/working_memory.py:20 | joining two non-empty runs puts exactly one separator between their joins |
| Text.NatToString | memory/friday_memory.py:140 | `str(idx)` is a non-empty string of decimal digits with no leading zero (it starts with '0' only for 0) |
| Text.NatToStringRoundTrip | memory/friday_memory.py:139-140 | reading the rendered number back gives the number |
| LongTermMemory.MatchCount | memory/friday_memory.py:57-59 | the keyword count is at most the list length and is zero exactly when no keyword matches |
| LongTermMemory.MatchCountIsDistinctMatches | memory/friday_memory.py:57-59 | with a duplicate-free list the count equals the number of distinct keywords found |
| LongTermMemory.Importance | memory/friday_memory.py:44-62 | importance lies between 0.5 and 1.0 and reaches the 0.6 threshold exactly when some keyword occurs in the lowercased text |
| LongTermMemory.ComputeImportance | memory/friday_memory.py:54-62 | the keyword loop with its running score and final cap returns `Importance(text)` |
| LongTermMemory.ImportanceKeywordsDistinct | memory/friday_memory.py:49-52 | the eight importance keywords are pairwise different |
| LongTermMemory.ImportanceCountsDistinctKeywords | memory/friday_memory.py:49-62 | importance is min(0.5 + 0.1·k, 1.0) for k distinct matched keywords, and exactly the cap, 10 tenths, from five matches on |
| LongTermMemory.ImportanceIgnoresRepetition | memory/friday_memory.py:57-59 | saying a text twice, separated by a space, does not change its importance |
| LongTermMemory.MemoryType.Name | memory/friday_memory.py:73-77 | the category text stored and printed: "task", "preference" or "fact" |
| LongTermMemory.InferMemoryType | memory/friday_memory.py:67-77 | "task" exactly when a task keyword occurs; "preference" exactly when no task keyword but a preference keyword occurs; "fact" exactly when neither occurs |
| LongTermMemory.DecideStore | memory/friday_memory.py:88-97 | every mode but OWNER is denied; an OWNER text is accepted exactly when a keyword occurs, with its inferred category and its importance |
| LongTermMemory.StoreReply | memory/friday_memory.py:88-110 | the three store replies: access denied, low priority, stored |
| LongTermMemory.GuestByDefault | memory/friday_memory.py:82-120 | with the default mode "GUEST" a store is denied and changes nothing, and a recall gives the privacy shield |
| LongTermMemory.StoreEffect | memory/friday_memory.py:88-108 | a denied or declined store leaves the table, next id included, unchanged; any store keeps the old rows as a prefix and adds exactly one row, and only when accepted |
| LongTermMemory.StoreAppendsRecord | memory/friday_memory.py:99-108 | an accepted store appends the record (next id, content, category, importance, clock value), whose id exceeds every existing id, and leaves the earlier rows untouched |
| LongTermMemory.Scored | memory/friday_memory.py:97-106 | a row as `store_memory` writes it: category and importance computed from its content, importance at or above 0.6 |
| LongTermMemory.WellFormed | memory/friday_memory.py:31-37 | the table invariant: AUTOINCREMENT ids from 1, ascending and below the next id, every row scored; kept by `StoreKeepsWellFormed` |
| LongTermMemory.StoreKeepsWellFormed | memory/friday_memory.py:31-37 | a store keeps ids ascending and below the next id, and keeps every row scored |
| LongTermMemory.InsertRanked | memory/friday_memory.py:128 | inserting a row adds exactly that row to the multiset |
| LongTermMemory.InsertRankedKeepsOrder | memory/friday_memory.py:128 | inserting into a ranked list keeps it ranked by clock value, then id, both descending |
| LongTermMemory.SortRecent | memory/friday_memory.py:126-128 | the ordered result is a permutation of the rows |
| LongTermMemory.SortRecentRanked | memory/friday_memory.py:128 | the ordered result is ranked by clock value, then id, both descending |
| LongTermMemory.RankedUnique | memory/friday_memory.py:128 | when ids identify rows there is only one ranked order of a set of rows |
| LongTermMemory.InsertionOrderIrrelevant | memory/friday_memory.py:126-128 | the order in which rows were inserted does not change the order recall lists them in |
| LongTermMemory.Reverse | memory/friday_memory.py:128 | reversal puts row i at position n-1-i |
| LongTermMemory.ReversePermutes | memory/friday_memory.py:128 | reversal is a permutation |
| LongTermMemory.ChronologicalRecall | memory/friday_memory.py:128 | under a clock that never goes back, recall orders rows newest-inserted first |
| LongTermMemory.SelectRecent | memory/friday_memory.py:124-133 | LIMIT keeps min(limit, rows) rows, ranked, all drawn from the table |
| LongTermMemory.SelectRecentIsTop | memory/friday_memory.py:128-129 | every row LIMIT leaves out ranks after every row it keeps |
| LongTermMemory.RecallLine | memory/friday_memory.py:140 | one listing line, `"{idx}. ({type}) {content}\n"` |
| LongTermMemory.Listing | memory/friday_memory.py:139-140 | the numbered lines for the selected rows, counting from 1; `ListingLineAt` and `ListRecords` state it |
| LongTermMemory.ListingPrefix | memory/friday_memory.py:139-140 | the listing of the first n rows is a prefix of the whole listing |
| LongTermMemory.ListingLineAt | memory/friday_memory.py:138-140 | line k+1 of the listing, right after lines 1..k, is "{k+1}. ({type}) {content}" for row k |
| LongTermMemory.RecallText | memory/friday_memory.py:115-142 | non-OWNER gets the privacy shield whatever the table holds; OWNER gets "blank slate" exactly when nothing is selected, and otherwise the header followed by the numbered listing of the selected rows |
| LongTermMemory.FridayMemory.constructor | memory/friday_memory.py:27-38 | opening the memory keeps the existing well-formed table |
| LongTermMemory.FridayMemory.StoreMemory | memory/friday_memory.py:82-110 | the reply is the one for the store decision, the new table is `StoreEffect` of the old one, and it stays well formed |
| LongTermMemory.FridayMemory.RecallMemory | memory/friday_memory.py:115-142 | returns `RecallText` of the rows and changes nothing |
| LongTermMemory.ListRecords | memory/friday_memory.py:138-140 | the enumerate loop builds exactly the numbered listing, counting from 1 |
| ShortTermMemory.SliceFrom | memory/working_memory.py:16 | Python's `s[start:]` for negative and non-negative starts, clamped at both ends |
| ShortTermMemory.AfterAdd | memory/working_memory.py:12-16 | `add` on the history: append, then keep the slice `[-(2·max_turns):]` when the log has grown past 2·max_turns; specified by the `Add*` lemmas |
| ShortTermMemory.AddKeepsNewest | memory/working_memory.py:12-16 | with max_turns ≥ 1 the new history is the newest min(old+1, 2·max_turns) entries of old plus new, in order; it is never longer than 2·max_turns and it ends with the new turn |
| ShortTermMemory.AddWithinCapacity | memory/working_memory.py:15 | while the log fits, the new turn is appended and nothing is dropped |
| ShortTermMemory.AddWithZeroKeepsAll | memory/working_memory.py:16 | with max_turns = 0 the slice `[-0:]` keeps everything |
| ShortTermMemory.AddWithNegativeDropsOldest | memory/working_memory.py:16 | with a negative max_turns each add drops the oldest -2·max_turns entries |
| ShortTermMemory.AfterAddAll | memory/working_memory.py:12-16 | a run of `add` calls, one turn after another; specified by `AddAllKeepsNewest` |
| ShortTermMemory.LastOfLast | memory/working_memory.py:16 | keeping the newest m and then the newest n of what follows keeps the newest n overall |
| ShortTermMemory.NewestThenMore | memory/working_memory.py:16 | trimming before more turns arrive does not change what a later trim keeps |
| ShortTermMemory.AddAllKeepsNewest | memory/working_memory.py:12-16 | after any run of adds the history is the newest 2·max_turns (or fewer) of all the turns, in order |
| ShortTermMemory.Render | memory/working_memory.py:20 | one turn as `"role: content"` |
| ShortTermMemory.RenderAll | memory/working_memory.py:20 | one rendered "role: content" line per turn, in history order |
| ShortTermMemory.ContextOf | memory/working_memory.py:20 | `"\n".join` of the rendered turns; `ContextSplits` and `WorkingMemory.Context` state it |
| ShortTermMemory.ContextSplits | memory/working_memory.py:18-20 | the context of a longer history is the earlier context, a newline, then the later turns' context |
| ShortTermMemory.WorkingMemory.constructor | memory/working_memory.py:8-10 | a new working memory has the given bound, 6 by default, and an empty history |
| ShortTermMemory.WorkingMemory.Add | memory/working_memory.py:12-16 | the new history is `AfterAdd` of the old one, and the length bound is kept |
| ShortTermMemory.WorkingMemory.Context | memory/working_memory.py:18-20 | "" for an empty history, the one rendered turn for a single turn, otherwise the earlier context, a newline and the last turn |
| BrainLogic.ConcatResponses | brain_logic.py:73-76 | the text of a stream: every chunk's response in stream order; specified by `ConcatResponsesAppend`, `ConcatResponsesBasics` and `GenerateResponse` |
| BrainLogic.ConcatResponsesAppend | brain_logic.py:71-76 | the text of two consecutive stretches of the stream is the two texts joined |
| BrainLogic.ConcatResponsesBasics | brain_logic.py:71-79 | an empty stream gives "" and a one-chunk stream gives that chunk's response |
| BrainLogic.GuestSystemPrompt | brain_logic.py:32-44 | the guest prompt carries the working context and the refusal rules |
| BrainLogic.OwnerSystemPrompt | brain_logic.py:19-31 | the owner prompt carries the owner's name, the working context and the memories |
| BrainLogic.UserPrompt | brain_logic.py:49-54 | the user prompt carries the intent label and the user message |
| BrainLogic.FridayBrain.SystemPrompt | brain_logic.py:19-44 | OWNER gets the owner template with its three slots; any other mode gets the guest template with the context and the rules |
| BrainLogic.FridayBrain.GenerateResponse | brain_logic.py:8-79 | the reply is the in-order concatenation of the response fields the model streams for the two prompts; memories and working context default to "" |
| BrainLogic.DefaultBrainNamesOwner | brain_logic.py:5-21 | a brain built with the default owner name has an OWNER prompt that names "Abhiram" |
| BrainLogic.GuestPromptIgnoresMemories | brain_logic.py:32-44 | for any non-OWNER mode the system prompt, and so everything the language model is given, is the same whatever the memories and the owner |
| FridayCore.IsExitCommand | friday_core.py:22-26 | a text is an exit command exactly when some exit keyword occurs in its lowercase form |
| FridayCore.ExitKeywordAnywhere | friday_core.py:22-26 | an exit keyword anywhere in a text, even inside a longer word, makes it an exit command |
| FridayCore.Dispatch | friday_core.py:64-91 | every intent gives a reply; only an OWNER store can change the table, and only by appending |
| FridayCore.Step | friday_core.py:47-91 | one pass of the loop body: strip, skip a blank line, end on an exit command, otherwise `Dispatch` on the classifier's label; specified by the `Step*` lemmas |
| FridayCore.StepBlankOrExit | friday_core.py:47-55 | a blank line is skipped, an exit line ends with the farewell, both leave the table alone, and nothing else ends the session |
| FridayCore.StepOnlyStoreWrites | friday_core.py:64-91 | a line changes the table only when the mode is OWNER and the intent is a store, and never alters existing rows |
| FridayCore.StepKeepsWellFormed | friday_core.py:69-74 | one line keeps the table well formed |
| FridayCore.DispatchKeepsWellFormed | friday_core.py:69-74 | routing keeps the table well formed |
| FridayCore.StepForwardsToMemory | friday_core.py:69-81 | store and recall pass the stripped line and the session's mode unchanged to the memory, and recall uses limit 5 |
| FridayCore.StepFixedReplies | friday_core.py:64-91 | chat, system-command and unknown intents give their fixed replies by mode and never touch the table |
| FridayCore.ExitAndBlankIgnoreIntent | friday_core.py:47-58 | blank and exit lines are settled before the classifier is consulted |
| FridayCore.Run | friday_core.py:46-91 | the `while True` loop over the input lines for any line handler: replies in order, stopping at the first ending step; specified by the `Run*` lemmas |
| FridayCore.Handler | friday_core.py:47-91 | `main`'s line handler: `Step` under the access mode and classifier fixed before the loop |
| FridayCore.Session | friday_core.py:46-91 | the session `main` runs: `Run` with `main`'s handler; specified by the `Session*` and `GuestSession*` lemmas and implemented by `RunSession` |
| FridayCore.RunAdvance | friday_core.py:46-91 | one more pass of the loop: the run from line i is this line's reply, if any, followed by the run from line i + 1, or the farewell alone when the line ends the loop |
| FridayCore.RunRepliesPerLine | friday_core.py:46-91 | each line gives at most one reply |
| FridayCore.RunKeepsTable | friday_core.py:46-91 | a loop whose handler never writes never writes |
| FridayCore.RunIgnoresTable | friday_core.py:46-91 | a loop whose handler's outcome does not depend on the table gives the same replies for any table |
| FridayCore.RunRepliesFrom | friday_core.py:46-91 | every reply of the loop is one its handler can give |
| FridayCore.RunAppendOnly | friday_core.py:46-91 | a loop whose handler only appends and keeps the table well formed does the same |
| FridayCore.RunEndsAtEndingLine | friday_core.py:46-55 | a line on which the handler always ends makes the loop end, by that line or an earlier one |
| FridayCore.RunStopsAtEnd | friday_core.py:53-55 | after the loop has ended, further lines are never read and the last reply is the farewell |
| FridayCore.SessionRepliesPerLine | friday_core.py:46-91 | a session prints at most one reply per line |
| FridayCore.GuestOutcome | friday_core.py:47-91 | whatever a guest types, any reply is one of six fixed messages |
| FridayCore.GuestReplyFor | friday_core.py:64-91 | each intent's guest reply is one of the fixed guest messages |
| FridayCore.DispatchGuest | friday_core.py:64-91 | for a guest, routing gives the fixed reply for the intent and leaves the table as it was |
| FridayCore.GuestStep | friday_core.py:47-91 | for a guest, one line neither reads nor writes the table |
| FridayCore.GuestHandler | friday_core.py:47-91 | the guest facts hold for every line the session handles |
| FridayCore.GuestSessionNeverWrites | friday_core.py:46-91 | a guest session never writes to the table |
| FridayCore.GuestSessionIgnoresTable | friday_core.py:46-91 | a guest session's replies and ending are the same whatever the table holds |
| FridayCore.GuestSessionRepliesFixed | friday_core.py:46-91 | every reply in a guest session is one of the six fixed guest messages |
| FridayCore.SessionAppendOnly | friday_core.py:46-91 | a whole session only appends rows and keeps the table well formed |
| FridayCore.SessionEndsAtExitLine | friday_core.py:53-55 | a line that strips to a non-empty exit command ends the session, whatever lines come before or after it |
| FridayCore.SessionStopsAtExit | friday_core.py:53-55 | once the session has ended, the farewell is the last reply and later input is never read |
| FridayCore.HandleLine | friday_core.py:47-91 | the imperative loop body has the outcome of `Step` and leaves the memory holding `Step`'s table |
| FridayCore.RunSession | friday_core.py:46-91 | the imperative loop prints the replies of `Session`, reports whether it ended on an exit, and leaves the memory holding `Session`'s table |

## Left out

- Face authentication (`auth/face_auth.py`) is left out because it is camera and neural-network I/O. Its verdict is the `accessMode` parameter.
- Speech input and voice output (`speech/stt_whisper.py`, `voice/friday_voice.py`) are left out because they are device I/O with foreign models.
- Intent prediction (`predict_intent`, `joblib.load`, `train_intent.py`, `test_intent.py`) is left out because it is pickled model inference. It is the oracle parameter `intent`.
- SQLite connection handling and `os.makedirs` (memory/friday_memory.py:15-22, 28-39) are left out because they are file I/O. The table is a value that the constructor receives.
- `CURRENT_TIMESTAMP` is left out because it reads the clock. Each store gets its clock value as a parameter. The clock is not assumed monotone except in `ChronologicalRecall`.
- LongTermMemory.FridayMemory.RecallMemory: `limit` is a `nat`. A negative SQLite `LIMIT`, which means "no limit", is not modelled.
- LongTermMemory.Importance: importance is exact tenths, `min(5 + k, 10)`. Python's float sums drift: five matches give 0.9999999999999999 rather than 1.0, and three or four give values just under 0.8 and 0.9. Only the stored `importance` value differs. The threshold decision, which needs one match, is the same.
- Console I/O is left out because it is printing. This covers the "FRIDAY: " prefix, the greeting and the streamed token echo in `generate_response`. Replies are returned values.
- End of input is not modelled. `input()` raising at end of file is replaced by the lines running out, which ends `RunSession` with `ended == false`.
- `str.lower()` and `str.strip()` are modelled on ASCII only, because Unicode case mapping and Unicode whitespace are out of scope.
- The `ollama.generate` call and its model and options are left out because they are a network call. The model is the `generate` parameter, from the two prompts to a chunk sequence; it is a function, so sampling, which can give different replies to the same prompts, is not modelled.
- The `__main__` demonstration blocks are left out because they are scripts, not logic.
- The `created_at` column that `recall_memory` fetches but never prints is left out. It appears only through the ordering.
