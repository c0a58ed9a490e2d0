# Ollama web search assistant, modelled in Dafny

A model of the search assistant in `main.py` (class `WebSearchAssistant` and the single-query branch
of `main`). A question goes through six stages:

1. a language model turns it into a search query;
2. the query is sent to a list of SearxNG instances, tried in order;
3. the model picks one result;
4. the picked page is read through a reader service;
5. the search is recorded in a history of at most 50 entries;
6. an answer is streamed.

Each call to the outside world is an input to the model, not an action it takes:

- what each model attempt returned;
- what each search instance answered;
- what the reader service returned;
- the streamed chunks;
- the timestamp.

The model then states what the assistant does with those answers.

| file | module | what it models |
|---|---|---|
| `options.dfy` | `Options` | `Option`, standing in for Python's `None` |
| `text.dfy` | `Text` | the `str` operations the assistant uses: `isspace`, `strip`, `startswith`, `split('\n')`, `split(':', 1)`, `lower` |
| `inference.dfy` | `Inference` | `model_response` (up to 3 attempts; after failed attempt k, counting from 0, it sleeps 2^k seconds unless it was the last one, so 1 and then 2 seconds with the default 3 attempts) and `streaming_model_response` |
| `search.dfy` | `Search` | `browse_web`: ordered fallback across instances, cut to `max_results` |
| `selection.dfy` | `Selection` | `select_best_result`: parsing the `Title:` / `URL:` reply, with the first result as fallback |
| `content.dfy` | `Content` | `retrieve_page_information`: adding a scheme to the URL, stripping the text, capping it at 10000 characters |
| `history.dfy` | `History` | `save_search_to_history`: append, then keep the last 50 |
| `pipeline.dfy` | `Pipeline` | the stage sequence of `interactive_search` and of single-query mode, and the interactive command loop |

The backoff sleeps are not slept. `Inference.Retry` and `Inference.ModelResponse` return them as a list of delays.

Behaviour of the code that is easy to misread, and that the model keeps:

- **Selection model failure.** When the model call in `select_best_result` gives up, the function returns `None` (`main.py:271-272`). The run then stops with "Could not select a result". The fallback to the first result applies only when a non-empty reply cannot be parsed.
- **Streaming failure.** A streaming failure is swallowed by `streaming_model_response`, which returns the empty string (`main.py:124-126`). The run counts as answered, with an empty answer, and the history entry stays recorded.
- **Retry count.** Both model calls use the default of 3 attempts (`main.py:247`, `main.py:269`). The configured `max_retries` is never read.
- **Recorded URL.** The history records the selected URL as the model gave it. Only the fetch uses the URL with `https://` added.

## Model

| member | source | states |
|---|---|---|
| `Text.IsSpace` | main.py:145 | the characters `strip()` and `isspace()` treat as whitespace: the ASCII tab, line feed, vertical tab, form feed, carriage return, the file, group, record and unit separators and space, and the Unicode spaces and line and paragraph separators Python counts |
| `Text.Strip` | main.py:145 | `strip()` leaves no whitespace at either end, never lengthens, and yields the empty string exactly when the input is all whitespace |
| `Text.StripTrims` | main.py:145 | what `strip()` returns is a stretch of the input with nothing but whitespace before and after it; together with the result having no whitespace at its ends, this is exactly the input with its leading and trailing whitespace removed |
| `Text.SpaceAround` | main.py:145 | the text between a whitespace prefix and a whitespace suffix is a stretch of the string with only whitespace around it |
| `Text.StripStripped` | main.py:275 | stripping is idempotent: a string with no whitespace at either end is its own strip |
| `Text.StripAfterSpaces` | main.py:276-277 | stripping a value written after a field name and a few spaces gives back exactly the value |
| `Text.StartsWith` | main.py:134 | `startswith(p)` holds exactly when `p` is no longer than the string and equal to its first `len(p)` characters |
| `Text.IndexOf` | main.py:276 | the position found holds the separator and no earlier position does |
| `Text.Split` | main.py:275 | `split('\n')` gives at least one piece; no piece holds a newline; joining the pieces with newlines restores the string |
| `Text.SplitJoin` | main.py:275 | splitting a newline-join of newline-free lines gives back exactly those lines |
| `Text.AfterFirst` | main.py:276-277 | `split(':', 1)[1]` is the text after the first colon: the string is a colon-free head, a colon, then the result |
| `Text.AfterFieldLabel` | main.py:276-277 | on a line starting with `Title:` or `URL:`, the text after the first colon is the text after the field name |
| `Text.LowerAscii` | main.py:324-332 | lower-casing keeps the length and maps each capital letter to its small letter, leaving every other character alone |
| `Inference.Pow2` | main.py:104 | the sleep `2 ** attempt` is at least one second |
| `Inference.Backoff` | main.py:103-104 | the sleeps after the first n failed attempts are n sleeps, the one after failed attempt k (from 0) lasting 2^k seconds |
| `Inference.Retry` | main.py:92-107 | a reply comes back iff one of the first `max_retries` attempts gets one; that attempt is the first that did, and every earlier attempt failed; the k-th sleep is 2^k seconds; there is one sleep per failed attempt except after the last allowed one |
| `Inference.ModelResponse` | main.py:94-107 | the retry loop returns the same reply and makes the same sleeps as the reference definition `Retry` |
| `Inference.Pow2Monotone` | main.py:104 | `2 ** attempt` grows with `attempt` |
| `Inference.BackoffNonDecreasing` | main.py:103-104 | each backoff sleep is at least as long as every earlier one |
| `Inference.FailTwiceThenReply` | main.py:94-104 | two failures and then a reply: the reply is returned after sleeping 1 and then 2 seconds |
| `Inference.ThreeFailures` | main.py:103-107 | three failures: no reply, two sleeps, and no sleep after the third attempt |
| `Inference.StreamingResponse` | main.py:109-126 | the streaming loop returns `StreamedAnswer`: the chunks concatenated in arrival order, as long as all of them together, or the empty string after a failure at any point |
| `Inference.StreamedAnswer` | main.py:109-126 | a failed stream gives the empty answer; a finished one an answer as long as all its chunks together |
| `Inference.ConcatLength` | main.py:118-120 | the concatenated chunks are as long as the chunks together |
| `Inference.ConcatAppend` | main.py:118-120 | the answer of a stream split in two is the first part's answer followed by the second's |
| `Search.SliceTo` | main.py:171 | Python's `[:n]` is a prefix: `n` elements, all when there are fewer, and for negative `n` all but the last `-n` |
| `Search.BrowseWeb` | main.py:155-178 | results come back iff some instance answered with a non-empty list; they are the first `max_results` of the first such instance's list; every earlier instance failed or answered with none; none come back only after every instance was tried |
| `Search.LaterInstancesUnused` | main.py:159-171 | instances after the first one that answers make no difference |
| `Search.FoundKeepsOrder` | main.py:169-171 | with a positive `max_results`, a successful search returns between 1 and `max_results` results, each the answering instance's result at the same position |
| `Search.ThirdInstanceAnswers` | main.py:159-175 | two failing instances and a third with two results: exactly those two results, after three instances |
| `Selection.FieldNameIsLabel` | main.py:276-277 | `Title:` and `URL:` each end in their only colon and start with a non-space |
| `Selection.FieldsExclusive` | main.py:276-277 | no line starts with both `Title:` and `URL:` |
| `Selection.ReplyLines` | main.py:275 | the reply's lines are all non-empty and stripped; which lines they are is `NonBlank` of the reply's newline pieces |
| `Selection.NonBlank` | main.py:275 | blank lines are dropped and the rest are stripped, never adding lines |
| `Selection.Kept` | main.py:275 | one raw line contributes at most one line, non-empty and stripped |
| `Selection.NonBlankOne` | main.py:275 | a single raw line gives its strip, or nothing when it is blank |
| `Selection.NonBlankCons` | main.py:275 | a raw line in front contributes what it contributes alone, followed by the rest's lines |
| `Selection.NonBlankAppend` | main.py:275 | the kept lines of two blocks are those of the first block followed by those of the second, so with `NonBlankOne` every non-blank line is kept, stripped and in order, and nothing else is |
| `Selection.FindPrefixed` | main.py:276-277 | `next(...)` takes the first line with the prefix; no earlier line has it; none is found only when no line has it |
| `Selection.FieldValue` | main.py:276-277 | a field has a value iff some line starts with its name, and the value is stripped |
| `Selection.FieldValueOfLine` | main.py:276-277 | the value comes from the first line with the field: the stripped text after the field name, even when empty |
| `Selection.ParseSelection` | main.py:275-280 | a parsed selection has a non-empty stripped title and URL |
| `Selection.ReplyLinesOfTwo` | main.py:275 | two stripped, newline-free, non-blank lines joined by a newline read back as exactly those two lines |
| `Selection.ReplyLinesOfOne` | main.py:275 | a stripped, newline-free, non-blank reply reads back as one line |
| `Selection.ParseFormatted` | main.py:264-280 | a reply in the requested `Title: …` / `URL: …` format parses back to the title and URL it was written from |
| `Selection.Fallback` | main.py:285-286 | the fallback is the first result's title (`Unknown` when missing) and URL (empty when missing) |
| `Selection.SelectBestResult` | main.py:269-287 | no reply or an empty reply selects nothing; a reply that parses selects what it names, whatever the results are; any other reply selects the fallback when there are results and nothing when there are none |
| `Selection.UnparsableReplyFallsBack` | main.py:284-286 | a reply with no `Title:` line selects the first result |
| `Content.HasScheme` | main.py:134 | a URL has a scheme when it starts with `http://` or with `https://` |
| `Content.NormalizeUrl` | main.py:134-135 | the URL handed to the reader service always starts with `http://` or `https://` |
| `Content.NormalizeKeepsUrl` | main.py:134-135 | a URL is changed exactly when it has no scheme, and then by putting `https://` in front of it |
| `Content.NormalizeIdempotent` | main.py:134-135 | adding the scheme twice is the same as adding it once |
| `Content.TruncateContent` | main.py:145-147 | stripped text of at most 10000 characters passes unchanged; longer text keeps its first 10000 characters followed by the truncation marker; the result is empty iff the page is blank |
| `Content.LongPageTruncated` | main.py:146-147 | a 15000-character page is cut to 10000 characters and the marker |
| `Content.PageContent` | main.py:128-153 | the content is missing exactly when the reader request failed |
| `Content.PageContentBounded` | main.py:145-149 | retrieved content is never longer than the cap plus the marker, and is empty iff the page was blank |
| `History.KeepLast` | main.py:192-193 | `[-50:]` has `min(len, 50)` entries and they are the log's last ones |
| `History.AppendEntry` | main.py:189-193 | after an append the history has `min(len + 1, 50)` entries and the new entry is last |
| `History.AppendKeepsLast` | main.py:189-193 | appending is keeping the last 50 of the old log followed by the new entry |
| `History.KeepLastAbsorbs` | main.py:192-193 | trimming between appends does not change what a later trim keeps |
| `History.KeepLastOfSuffix` | main.py:192-193 | dropping old entries that a trim drops anyway changes nothing |
| `History.AppendAll` | main.py:189-193 | appending no entries leaves the history alone; appending some leaves `min(len + n, 50)` entries with the last appended entry last |
| `History.AppendAllCons` | main.py:189 | appending a list of entries is appending its first entry, then the rest |
| `History.AppendAllKeepsLast` | main.py:189-193 | appending any non-empty list of entries one at a time keeps the last 50 of the old history followed by all of them |
| `History.HistoryWindow` | main.py:189-193 | after N recorded searches from an empty history, it holds the most recent min(N, 50) in recording order |
| `Pipeline.GenerateSearchQuery` | main.py:224-247 | the query is the reply of the first attempt within the default 3 that got one, and there is none exactly when all 3 attempts failed |
| `Pipeline.SelectionReply` | main.py:268-272 | the selection reply is the reply of the first attempt within the default 3 that got one, and there is none exactly when all 3 failed |
| `Pipeline.Truthy` | main.py:342-366 | the `if not x` tests of the run treat a missing value and an empty string or list alike, and go on only with a present, non-empty one |
| `Pipeline.InOrderExtend` | main.py:341-377 | a stage appended right after the stages before it keeps the pipeline order |
| `Pipeline.InOrderByPosition` | main.py:341-377 | stages listed in pipeline position are in order |
| `Pipeline.RunPipeline` | main.py:341-377 | the stages that ran are a prefix of the pipeline order, as many as the outcome says; the history changes only when the run is answered, and then by appending the recorded entry |
| `Pipeline.SelectAndRead` | main.py:355-358 | after a successful search at least three stages ran, in pipeline order and as many as the outcome says; the run ends at selection exactly when nothing was selected; the history changes only for an answered run, by its recorded entry |
| `Pipeline.ReadAndAnswer` | main.py:360-377 | a search is recorded iff the page content is non-empty; the entry holds the question, query, selection and timestamp; the answer is the streamed text |
| `Pipeline.RecordedEntry` | main.py:341-377 | an answered run asked for the selection with the search results, fetched the recorded URL with a scheme added, recorded the entry, and asked for the answer with the same question, query and title and with the retrieved page content, stripped and capped |
| `Pipeline.ReadAndAnswerRecords` | main.py:355-377 | the stages of an answered run agree with the entry they record, with the search results given to the selection and with the content given to the answer |
| `Pipeline.FailingStageEndsRun` | main.py:341-368 | each failure outcome names the first stage whose result was missing or empty: query generation, search, selection or page retrieval, and a run ends with that outcome exactly then |
| `Pipeline.RecordedIffStagesSucceed` | main.py:341-374 | a search is recorded exactly when query generation, search, selection and page retrieval all succeeded, and then with what those stages produced |
| `Pipeline.SelectionModelFailureStopsRun` | main.py:269-272 | when every selection attempt fails, the run stops without a selection and the history is unchanged, even though the search found results |
| `Pipeline.MaxRetriesUnused` | main.py:247-269 | the configured `max_retries` makes no difference to a run |
| `Pipeline.FranceSearch` | main.py:438-449 | in the example run, the query is generated, one instance answers, and the selection model replies at once |
| `Pipeline.FranceSelected` | main.py:284-286 | the example's selection reply names no field, so the first result is selected |
| `Pipeline.FranceReachesRead` | main.py:438-462 | the example run reaches page retrieval with the first result |
| `Pipeline.CapitalOfFrance` | main.py:438-474 | the example run with a non-blank page is answered with the streamed text and records exactly one entry |
| `Pipeline.Classify` | main.py:319-338 | a blank line is skipped; a quit word (any letter case) ends the session; `history` and `config` (any case) are commands; anything else is the stripped, non-empty question |
| `Pipeline.CommandWordsDistinct` | main.py:324-332 | `history`, `config` and the quit words are all different words |
| `Pipeline.Session` | main.py:312-383 | a session runs at most one search per line, and ends with the history the recorded searches produced when appended in order; the model's session also ends when the given lines run out |
| `Pipeline.SessionStep` | main.py:312-377 | a run followed by the rest of the session appends the run's entry, then the rest's |
| `Pipeline.RecordedCons` | main.py:370-374 | a run's recorded entry comes before those of the runs after it |
| `Pipeline.SessionHistoryWindow` | main.py:370-374 | over a whole session the history ends as the last 50 of the old entries followed by every search recorded |

## Left out

- **I/O.** Loading the history file (`load_history`), writing it after each append, and reading the configuration file are not modelled; history persistence failures only print a warning. The config file loading, the argument parser, the connectivity check at start-up and `setup.py` are left out too.
- **Printing and pacing.** `Colors`, the banner, `show_history`, `show_config` and all printing are presentation only. The `streaming_delay` sleeps are left out as well.
- **The calls themselves.** The HTTP requests, JSON decoding, the reader service URL, the timeouts and the model name are not modelled. Each call's outcome is an input instead.
- **Result shape.** A search result whose `results` value is not a list, or whose entries are not objects, is not modelled. Neither is a JSON `null` title or URL, which `.get` passes through. Neither is a `content` that is `null`, a number, a boolean or an object: building the selection prompt slices it (`main.py:252`), which raises before the model is asked. The run then ends in the generic handler with nothing recorded (`main.py:382-383`, or `main.py:476-477` in single-query mode). The model takes each field as a present string or missing.
- **Exceptions.** The generic `except Exception` handlers (`main.py:382-383`, `main.py:476-477`) and `KeyboardInterrupt` are not modelled. The modelled stages do not raise on the inputs the model allows. Raising needs a result shape the model leaves out (see above), an end of input (see `Pipeline.Session`), or a history file that is not a JSON list. `load_history` returns whatever JSON the file holds (`main.py:201-209`). When that is anything but a list (an object, `null`, a number, a string), the `append` at `main.py:189`, which is outside the `try` at `main.py:195`, raises once the page has been read. The generic handler catches it, nothing is recorded and no answer is given.
- **Prompts.** The text of the prompts (including the 200-character snippet cut in the selection prompt) is left out, because the model's reply is an input.
- **Repeated branch.** The second, unreachable `config` check in `interactive_search` (`main.py:336-338`) adds no behaviour.
- **Single-query mode with an empty query.** `--query ""` falls through to interactive mode, which is modelled as a session.
- **Query escaping.** The search query is placed into the instance URL without escaping. This is left out with the rest of HTTP.
- `Content.NormalizeUrl`: the contract states only that the result has a scheme. That the URL is changed exactly when it had none, and then by putting `https://` in front, is stated by `Content.NormalizeKeepsUrl`.
- `Content.PageContent`: the contract states only when content is missing. The bound and the blank-page case are stated by `Content.PageContentBounded`.
- `History.AppendEntry`: the contract states the length and the last entry. That the earlier entries are the last ones of the old log is stated by `History.AppendKeepsLast`.
- `Pipeline.Session`: the contract states the final history. Which turns start a run is given by `Pipeline.Classify`, not restated per turn.
- `Pipeline.Session`: the model's session ends when the given lines run out. The assistant has no such exit. At end of input `input()` (`main.py:319`) raises `EOFError`, which the generic handler (`main.py:382-383`) catches and prints, and the `while True` loop then prompts again and fails the same way without end. Only a quit word or `KeyboardInterrupt` leaves the loop.
- `Text.Strip`: the contract states the shape of the result. That the result is the input with only its end whitespace removed is stated by `Text.StripTrims`, kept apart so that the many proofs that use `strip()` stay small.
- `Inference.StreamingResponse`: the partial answer printed before a failure is presentation and is not part of the result.
- `Text.LowerAscii`: `str.lower` is modelled on ASCII letters only. The only other characters whose lower case holds an ASCII letter are the Kelvin sign (to `k`) and the dotted capital I (to `i` and a combining dot). Neither can make a line equal to `quit`, `exit`, `q`, `history` or `config`, so the same commands are recognised.
- `Selection.ParseSelection`: the contract states what a successful parse yields. When a reply parses is stated by `Selection.ParseFormatted` (a well-formed reply always does) and `Selection.UnparsableReplyFallsBack` (a reply with no `Title:` line never does).
