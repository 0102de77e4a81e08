# Todo CLI core, modelled in Dafny

This project models the logic of a small command-line todo application. It has three parts:

- **The `Task` value** (src/models/task.py): constructor validation, title stripping, the `[x]`/`[ ]` display line, and the `to_dict`/`from_dict` pair.
- **The in-memory `TaskService` store** (src/services/task_service.py): a map from id to task plus a `next_id` counter. Its operations are add, get, list, update, delete, complete and incomplete.
- **The quoted-argument tokenizer `parse_args`** (src/main.py), plus the pure argument mapping that `handle_add` and `handle_update` apply to its tokens.

Every operation is a pure function. The store operations that may change the store return a `Reply`: the store after the call, plus the task returned or the error raised. A Python exception becomes a `Failure` value.

Modules, one per file:

- `Results` (results.dfy): `Option` and `Result`.
- `Text` (text.dfy):
  - the whitespace set of Python's `str.isspace`;
  - `Strip`;
  - decimal rendering of integers.
- `TaskModel` (task.dfy): the `Task` record, its constructor, the display line, and the dictionary form.
- `TaskStore` (task_service.dfy):
  - the store and its invariant `Valid`;
  - the seven operations;
  - a command language `Command` with `Apply`/`Run`, for properties over any sequence of operations.
- `ArgParser` (parse_args.dfy):
  - the scanner as a fold `Scan` of the one-character `Step` over the input;
  - `Finish`, `Pad`, `ParseArgs`;
  - `ParseArgsLoop`, a method that mirrors the `while` loop and is proved equal to `ParseArgs`.
- `Commands` (commands.dfy): `handle_add` and `handle_update` without the printing. The id-parsing `int()` is a parameter.

The code (src/main.py:235-238) emits the accumulator at every unquoted space once one token exists, so `a  b` gives `["a", "", "b"]` (`ArgParser.ExampleDoubleSpace`).

## Model

| member | source | states |
|---|---|---|
| Text.Strip | src/models/task.py:30 | `str.strip()`: the result has no whitespace at either end, and it is empty exactly when the input is all whitespace |
| Text.StripIsInfix | src/models/task.py:30 | the stripped string is a contiguous slice of the input, and only whitespace lies before and after it |
| Text.StrippedIsFixpoint | src/models/task.py:30 | stripping a string that has no whitespace at either end returns it unchanged |
| Text.StripIdempotent | src/services/task_service.py:37 | stripping twice equals stripping once, so the constructor's second strip (src/models/task.py:30) of the title `add_task` already stripped changes nothing |
| Text.IntToString | src/models/task.py:39 | `str(id)` in the display line: non-empty, a minus sign exactly when the id is negative, then digits with no leading zero that read back as the id's magnitude |
| Text.NatToDecimal | src/models/task.py:39 | the id rendered in the display line is a non-empty string of digits with no leading zero |
| Text.DecimalRoundTrip | src/models/task.py:39 | reading the rendered digits back as a decimal number gives the id again |
| TaskModel.NewTask | src/models/task.py:23-32 | an empty title is rejected first, then a non-positive id; otherwise the task holds the stripped title, a missing description becomes "", and the given completion flag is kept |
| TaskModel.WhitespaceTitleAccepted | src/models/task.py:23-30 | the constructor accepts a whitespace-only title and stores it as "" |
| TaskModel.Display | src/models/task.py:38-39 | `str(task)`: the line is exactly as long as the mark, the id's digits, the title, the description and the nine characters of punctuation and spaces between them |
| TaskModel.DisplayOpening | src/models/task.py:38-39 | the display line opens with the status mark and a space |
| TaskModel.DisplayStatus | src/models/task.py:38-39 | the display line starts with `[x]` exactly when the task is completed and with `[ ]` exactly when it is not, followed by a space |
| TaskModel.DisplayFields | src/models/task.py:39 | the id as `str` renders it follows the mark (a minus sign exactly for a negative id; for any other id, digits that read back as the id), followed by ": ", the title, and then ` — ` and the description, which end the line |
| TaskModel.ToDict | src/models/task.py:54-59 | the dictionary has all four keys, holding the task's four fields |
| TaskModel.FromDict | src/models/task.py:72-77 | a missing "id" or "title" is a missing-key error; a missing description defaults to "", a missing completed flag to false; the rest goes through the constructor |
| TaskModel.DictRoundTrip | src/models/task.py:47-77 | for a task with a positive id and a non-empty stripped title, `from_dict(to_dict(t))` gives `t` back |
| TaskModel.ConstructedRoundTrip | src/models/task.py:23-77 | every task the constructor builds from a title that is not all whitespace survives the dictionary round trip |
| TaskModel.BlankTitleBreaksRoundTrip | src/models/task.py:23-30 | a task built from a whitespace-only title has an empty title, so `from_dict(to_dict(t))` is refused |
| TaskStore.Init | src/services/task_service.py:13-18 | the new store is empty, its counter is 1, and the invariant holds |
| TaskStore.AddTask | src/services/task_service.py:34-40 | a title that is empty or all whitespace is refused with the store unchanged; otherwise the task with the counter as id, the stripped title, the given description and completed false is stored at a key that was free; the counter goes up by one; the invariant is kept |
| TaskStore.GetTask | src/services/task_service.py:55-57 | the stored task when the id is a key, a not-found error otherwise |
| TaskStore.UpdateTask | src/services/task_service.py:83-94 | an absent id fails with the store unchanged. Otherwise a missing or blank title keeps the old one and any other title is stored stripped; a missing description keeps the old one and any given description, "" included, replaces it; the id, the completion flag, the counter and all other tasks are kept |
| TaskStore.DeleteTask | src/services/task_service.py:109-113 | an absent id fails; otherwise exactly that key is removed, the removed task is returned, the other tasks and the counter are kept |
| TaskStore.SetCompleted | src/services/task_service.py:128-133 | an absent id fails; otherwise only that task's completion flag changes, to the given value |
| TaskStore.CompleteTask | src/services/task_service.py:128-133 | an absent id fails; otherwise only that task's flag changes, to true, and the invariant is kept |
| TaskStore.IncompleteTask | src/services/task_service.py:148-153 | an absent id fails; otherwise only that task's flag changes, to false, and the invariant is kept |
| TaskStore.AscendingKeys | src/services/task_service.py:66 | the store's keys, each exactly once, in strictly ascending order |
| TaskStore.Insert | src/services/task_service.py:66 | inserting into a list sorted by id keeps it sorted and adds exactly the one task |
| TaskStore.SortById | src/services/task_service.py:66 | the result is sorted by id and is a permutation of the input |
| TaskStore.SortKeepsAscending | src/services/task_service.py:66 | sorting a list whose ids already ascend strictly returns it unchanged |
| TaskStore.ListAll | src/services/task_service.py:66 | `get_all_tasks` holds as many tasks as the store, each one a stored task, and every stored task appears; it is sorted by id; under the invariant the ids ascend strictly and each entry is the task at its own key; an empty store lists nothing |
| TaskStore.RunKeepsValid | src/services/task_service.py:17-18 | every sequence of operations keeps the store invariant |
| TaskStore.RetiredIdStaysAbsent | src/services/task_service.py:37-39 | an id below the counter that is not a key stays absent through any later operations; the counter never goes down |
| TaskStore.DeletedIdNeverReissued | src/services/task_service.py:112 | after an id is deleted, no later sequence of operations and no later add stores a task under it again |
| TaskStore.GetAfterDelete | src/services/task_service.py:55-56 | after an id is deleted, getting it fails with not-found |
| TaskStore.StoredTaskRoundTrip | src/models/task.py:47-77 | every task the store holds under its invariant survives `from_dict(to_dict(t))` unchanged |
| TaskStore.RefusedAddConsumesNoId | src/services/task_service.py:34-35 | a refused add leaves the store as it was, so the next add gets the id the refused one would have had |
| TaskStore.CompletionIdempotent | src/services/task_service.py:128-153 | completing twice equals completing once, and the same holds for marking incomplete |
| TaskStore.RunConcat | src/services/task_service.py:17-18 | running two sequences of operations one after the other equals running their concatenation |
| TaskStore.AddsIssueConsecutiveIds | src/services/task_service.py:37-39 | n adds of non-blank titles, each with its own description, store tasks at the n consecutive ids from the counter on, each holding its stripped title and its description as given, keep the tasks already there, and advance the counter by n |
| TaskStore.FreshStoreNumbersFromOne | src/services/task_service.py:13-18 | n adds of non-blank titles with any descriptions to a fresh store give exactly the keys 1..n, task i holding the i-th stripped title and the i-th description, and a counter of n+1 |
| ArgParser.Pad | src/main.py:249-250 | the tokens are kept as a prefix and only "" entries follow; a positive expected count gives length max(tokens, count); nothing is ever cut off; no count, or one not above the token count, changes nothing |
| ArgParser.ParseArgsLoop | src/main.py:225-252 | the character loop with its three variables computes `ParseArgs` |
| ArgParser.ScanIsClean | src/main.py:233-234 | no emitted token and no accumulator ever contains a quote character |
| ArgParser.NoQuoteInTokens | src/main.py:233-234 | no output token of `parse_args` contains `"` |
| ArgParser.ScanSpellsKept | src/main.py:230-242 | after any prefix, the in-quotes flag is the parity of the quotes read so far, and the emitted tokens plus the accumulator spell the prefix with its quotes and unquoted spaces removed |
| ArgParser.TokensSpellInput | src/main.py:230-246 | the tokens before padding, concatenated, are the input with every quote and every unquoted space removed |
| ArgParser.ScanAfterReset | src/main.py:236 | once the scanner is back in its start state, what follows is scanned as if from the start |
| ArgParser.SpacesScanToStart | src/main.py:236 | spaces alone leave the scanner in its start state |
| ArgParser.BlankInputHasNoTokens | src/main.py:236-246 | an empty or all-space input gives no tokens |
| ArgParser.LeadingSpacesSkipped | src/main.py:236 | leading unquoted spaces do not change the tokens |
| ArgParser.EmptyQuotedFirstTokenDropped | src/main.py:236-245 | a leading `""` does not change the tokens |
| ArgParser.QuoteFreeScan | src/main.py:230-242 | on quote-free input, the scanner state is that of splitting the input, without its leading spaces, at every space |
| ArgParser.TrimSpacesShape | src/main.py:236 | the scanner's view of leading spaces, `s.lstrip(' ')`: the result is a suffix of the input, only spaces precede it, and it does not start with a space |
| ArgParser.QuoteFreeTokens | src/main.py:230-246 | on quote-free input, the tokens are the input without leading spaces split at every single space, dropping a final empty part |
| ArgParser.OpenQuoteEmitsLastToken | src/main.py:245-246 | when the input ends inside a quote, the accumulator is emitted as the last token even when empty |
| ArgParser.ScanSnoc | src/main.py:230-242 | scanning one more character is one more loop step |
| ArgParser.ScanAccumulates | src/main.py:239-240 | quote-free text read inside quotes, or free of spaces, goes straight into the accumulator |
| ArgParser.ExampleDoubleSpace | src/main.py:235-238 | `a  b` gives `["a", "", "b"]` and `a  ` gives `["a", ""]` |
| ArgParser.ScanWordThenSpace | src/main.py:235-238 | a word followed by a space emits the word |
| ArgParser.ScanWordThenOpenQuote | src/main.py:233-240 | after a word, a space, a quote and quote-free text, the word is emitted and the text is accumulated inside quotes |
| ArgParser.WordThenQuoted | src/main.py:233-246 | a word then a quoted text gives the word and the text as tokens; with the quote left open, the text is a token even when empty |
| ArgParser.ExampleOpenQuote | src/main.py:245-246 | `a "x y` gives `["a", "x y"]` and `a "` gives `["a", ""]` |
| ArgParser.ExampleUnterminated | src/main.py:245-252 | `a "unterminated` with no expected count gives `["a", "unterminated"]` |
| ArgParser.ExampleEmptyQuotes | src/main.py:245-250 | `""` gives no tokens, and one "" after padding to one |
| ArgParser.ExampleQuotedTokens | src/main.py:233-246 | `title "multi word desc"` gives the two tokens, the quoted one keeping its spaces |
| ArgParser.ExampleQuotedDescription | src/main.py:249-252 | the same input padded to two is unchanged |
| Commands.AddArguments | src/main.py:87-93 | the add is refused before the service is called exactly when the first token, after padding, is empty; otherwise the title is the first token and the description is the second, or "" |
| Commands.HandleAdd | src/main.py:87-93 | with a positive counter, the command fails exactly when the first token is empty or all whitespace, and a failure changes nothing; a success stores the stripped first token with the second token, or "", as description under the counter; the invariant is kept |
| Commands.UpdateArguments | src/main.py:128-135 | the `len(args) < 2` branch is dead: the only failure is an id token that does not parse. The title is the second token and the description the third, each `None` when empty |
| Commands.HandleUpdate | src/main.py:128-142 | succeeds exactly when the id parses and is stored; an id that does not parse fails with the not-a-number error and a parsed id that is not stored fails with not-found for that id. On success, an empty or blank second token keeps the title and any other is stored stripped; an empty third token keeps the description and any other replaces it, so a description is never cleared; only that task changes, and the counter and the invariant are kept |
| Commands.AddToFreshStore | src/main.py:87-93 | on a fresh store, a stripped title token and a description token make task 1 with exactly those fields |
| Commands.ExampleAddQuoted | src/main.py:87-93 | `add title "multi word desc"` on a fresh store creates task 1 with that title and description |

## Left out

- The `main()` loop, `input`/`print`, `show_help`, and `KeyboardInterrupt`/`EOFError` handling (src/main.py:9-74): I/O and process lifecycle. The printed messages are modelled by the outcome values, not as text.
- `handle_list`, `handle_delete`, `handle_complete` and `handle_incomplete`: `handle_list` only calls `get_all_tasks` and prints; the other three parse one id token, padded to one, call the service, which is modelled, and print.
- Python's `int()` grammar for the id token (signs, surrounding whitespace, underscores): a parameter `parseInt` of `UpdateArguments` and `HandleUpdate`.
- `isinstance` checks and Python's `bool`-is-`int` quirk (src/models/task.py:23, 26): the model is typed, so a title is always a string and an id always an integer.
- `__repr__`: a debugging aid, not used by the application.
- Object identity: the service hands out the same `Task` object it stores, so a caller's later mutation would reach the store. Tasks here are values.
- Dictionary insertion order: `get_all_tasks` sorts the map's values with a stable sort. The model takes the values in ascending key order before sorting. The two differ only for duplicate ids under distinct keys, which the store invariant excludes.
- A dictionary given to `from_dict` is a record of four optional fields. Keys other than those four, and values of other types, are not modelled.
- Text.IsWhitespace: the fixed list of characters for which Python's `str.isspace` holds. It is not derived from the Unicode database.
- The `—` separator in the display line is the single character U+2014. No encoding is modelled.
- test_app.py: a demonstration script with no logic of its own.
