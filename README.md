# Jaundice rate of news articles — a Dafny model

The repository scores news articles for "jaundice": how many of an article's
words come from a dictionary of charged words. `text_tools.py` holds the
text layer: it cleans each token of an article, normalises it with a
lemmatiser, drops short words, gives up after three seconds, and computes
the share of charged words as a percentage. `main.py` runs one task per test
URL. As evidently intended (see "## Findings"), each task fetches the page,
sanitises it, splits and scores it, and appends a record to one shared list,
which main prints. The record holds the URL, a status (`OK` or
`FETCH_ERROR`), the word count and the score. As written, a task whose page
fetches and sanitises raises TypeError before any splitting. So no record
ever carries a count or a score, and main prints only when every task
records `FETCH_ERROR`. The model has both versions.

The model has three modules:

- `Wrappers` (`wrappers.dfy`) holds the `Option` type used for the record
  fields that may be `None`.
- `TextTools` (`text_tools.dfy`) models `_clean_word`, `text.split()`,
  `split_by_words` and `calculate_jaundice_rate`:
  - `_clean_word` is a chain of pure functions. The model proves it removes
    the three marks, and that it strips exactly the leading and trailing ASCII punctuation and nothing
    else. It also proves that the strip is the only such cut and that cleaning is
    idempotent.
  - `text.split()` is `Tokens`. The model proves it keeps every non-whitespace
    character in order, and that it undoes `' '.join` of tokens.
  - `split_by_words` is a method with the source's loop. It is proved against
    `KeepWords`, which is the normalised, filtered subsequence of the tokens
    in token order, and against `TimedOutWithin`, which holds when a clock
    check goes over the three-second budget.
  - `calculate_jaundice_rate` is `JaundiceRate`. The model proves it lies
    between 0 and 100 and equals the share of charged positions. It also
    proves it depends neither on the order of the article words nor on
    anything in the charged list but its set.
- `Pipeline` (`pipeline.dfy`) models the rest of `main.py`:
  - `ProcessingStatus` and its values;
  - the charged-word list read from the dictionary's lines;
  - the outcome of one `process_article` call;
  - the shared list as a class with an `Append` method;
  - the loop of `main`, proved against a function of the jobs, `BatchResult`.

  One record per URL, in URL order, when no task raises. The first escaping
  exception otherwise.

Some things are parameters in the model:

- The lemmatiser (`pymorphy2`) is a function `string -> string`.
- The monotonic clock is a function from the number of clock reads so far to seconds.
- The sanitiser is a function from HTML to an optional text. `None` stands
  for an `ArticleNotFound` exception.
- The HTTP response is a value: a client error or the page's HTML.

The model follows the code in two places where a reader might expect
a per-job status for every failure:

- In `main.py`, `ArticleNotFound` ends in `FETCH_ERROR`. There is no
  separate parsing-error status.
- As evidently intended (see "## Findings"), `process_article` does not
  catch a `TimeoutError` from `split_by_words`. So there is no timeout
  status: the exception escapes the task group and main ends without
  printing. As written, `split_by_words`' loop never runs, so no
  `TimeoutError` can arise from it; the TypeError escapes instead.

## Model

| member | source | states |
|---|---|---|
| TextTools.PunctuationIsStringPunctuation | text_tools.py:14 | the four ASCII ranges of IsPunctuation are exactly the characters of `string.punctuation` |
| TextTools.PunctuationRangesInLiteral | text_tools.py:14 | every character in the ranges occurs in the `string.punctuation` literal |
| TextTools.Without | text_tools.py:12 | one `replace(c, '')`: no `c` is left and the result is never longer |
| TextTools.RemoveMarks | text_tools.py:12 | no «, » or … is left and the word never grows |
| TextTools.RemoveMarksIsReplaceChain | text_tools.py:12 | the one-pass removal equals the three chained `replace` calls in their order |
| TextTools.RemoveMarksKeepsOthers | text_tools.py:12 | every character other than the three marks keeps its number of occurrences |
| TextTools.RemoveMarksAbsent | text_tools.py:12 | a word without marks is unchanged |
| TextTools.RemoveMarksAppend | text_tools.py:12 | removal distributes over concatenation |
| TextTools.WithoutCons | text_tools.py:12 | `replace` on a word with a first character decides that character alone |
| TextTools.TrimStart | text_tools.py:14 | the leading strip is a suffix of the word that does not start with punctuation |
| TextTools.TrimEnd | text_tools.py:14 | the trailing strip is a prefix of the word that does not end with punctuation |
| TextTools.StripPunctuation | text_tools.py:14 | `strip(string.punctuation)` leaves no punctuation at either end and never grows |
| TextTools.StripPunctuationIsStrip | text_tools.py:14 | the strip is a slice of the word with only punctuation cut away before and after it |
| TextTools.StripCharacterised | text_tools.py:14 | any slice with only punctuation outside it and none at its ends is the strip: the strip is unique |
| TextTools.StripOfPunctuationOnly | text_tools.py:14 | a word of punctuation alone strips to the empty string |
| TextTools.StripOfSlice | text_tools.py:14 | a non-empty slice with only punctuation outside and none at its ends is the strip |
| TextTools.TrimStartAt | text_tools.py:14 | the leading strip stops at the first non-punctuation character |
| TextTools.TrimEndAt | text_tools.py:14 | the trailing strip stops after the last non-punctuation character |
| TextTools.StripFixed | text_tools.py:14 | a word with no punctuation at its ends strips to itself |
| TextTools.CleanWord | text_tools.py:11-15 | the cleaned word has no marks and no punctuation at either end |
| TextTools.CleanWordIsStrip | text_tools.py:11-15 | after the marks go, cleaning cuts only punctuation and only at the ends, so inner hyphens stay |
| TextTools.CleanWordIdempotent | text_tools.py:11-15 | cleaning a cleaned word changes nothing |
| TextTools.CleanWordDropsTrailingPunctuation | text_tools.py:11-15 | a mark-free word that is a clean prefix followed by punctuation cleans to that prefix |
| TextTools.CleanWordKeepsInnerHyphen | text_tools.py:39-40 | the test's first token "Во-первых," cleans to "Во-первых" |
| TextTools.RunLength | text_tools.py:23 | the leading run has no whitespace and is ended by whitespace or the end of the text |
| TextTools.Tokens | text_tools.py:23 | every piece of `text.split()` is non-empty and free of whitespace |
| TextTools.NonSpace | text_tools.py:23 | the reference of what splitting keeps: no whitespace in it |
| TextTools.NonSpaceAppend | text_tools.py:23 | dropping whitespace distributes over concatenation |
| TextTools.NonSpaceOfToken | text_tools.py:23 | a whitespace-free string keeps all its characters |
| TextTools.TokensKeepAllText | text_tools.py:23 | the tokens, put together, are the text without its whitespace: nothing lost, nothing reordered |
| TextTools.RunLengthOfToken | text_tools.py:23 | the leading run of a token followed by whitespace is the whole token |
| TextTools.TokensOfTokenThen | text_tools.py:23 | a token followed by whitespace or the end is split off whole |
| TextTools.TokensOfSpaceThen | text_tools.py:23 | whitespace at the front starts no token and is skipped |
| TextTools.TokensOfJoin | text_tools.py:23 | splitting undoes `' '.join` of tokens |
| TextTools.NormalizerIgnoresRecleaning | text_tools.py:24-25 | the normal form (lemmatiser after `_clean_word`) of a cleaned token equals that of the raw token: cleaning again changes nothing |
| TextTools.KeepWords | text_tools.py:22-27 | no more words than tokens, and each kept word is longer than two characters or is "не" |
| TextTools.KeptIndices | text_tools.py:26 | strictly increasing token positions, holding position i exactly when token i's normal form passes the filter |
| TextTools.KeepWordsAtKeptIndices | text_tools.py:22-27 | word k is the normal form of the token at kept position k: the words are the filtered normal forms in token order, duplicates kept |
| TextTools.KeepWordsStep | text_tools.py:23-27 | one more token appends its normal form exactly when it passes the filter |
| TextTools.KeepWordsAppend | text_tools.py:23-27 | the filter works token by token: it distributes over concatenation of token lists |
| TextTools.TimedOutWithin | text_tools.py:28-29 | true exactly when one of the first n clock checks lies more than 3 seconds after the start |
| TextTools.SplitByWords | text_tools.py:18-30 | raises TimeoutError exactly when some check after a token exceeds the budget; otherwise yields the filtered normal forms of all tokens |
| TextTools.FoundCharged | text_tools.py:58 | the comprehension keeps only charged words and never more than the article has |
| TextTools.JaundiceRate | text_tools.py:52-62 | the score lies in [0, 100] and is 0.0 for an empty article |
| TextTools.FoundChargedCountsPositions | text_tools.py:58 | the number of charged words found is the number of positions holding a charged word |
| TextTools.JaundiceRateIsShareOfPositions | text_tools.py:60 | for a non-empty article the score is 100 times the share of charged positions |
| TextTools.FoundChargedAppend | text_tools.py:58 | the comprehension distributes over concatenation |
| TextTools.FoundChargedRemove | text_tools.py:58 | removing one article word removes at most that word from the found list |
| TextTools.PermutationRemove | text_tools.py:58 | removing the same word from two permutations of each other leaves permutations |
| TextTools.FoundChargedPermutation | text_tools.py:58 | the charged count is the same for any reordering of the article words |
| TextTools.JaundiceRatePermutation | text_tools.py:52-62 | the score does not depend on the order of the article words |
| TextTools.FoundChargedUsesSetOnly | text_tools.py:58 | charged lists with the same members find the same words (`set(charged_words)`) |
| TextTools.JaundiceRateUsesSetOnly | text_tools.py:58-60 | the score depends on the charged words only through their set |
| TextTools.JaundiceRateOneInThree | text_tools.py:67 | the test's one charged word among three scores strictly between 33 and 34 |
| Pipeline.ProcessingStatus.Value | main.py:23-25 | each member's value is the string "OK" or "FETCH_ERROR", and it is "OK" exactly for the member OK |
| Pipeline.StatusFromValue | main.py:23-25 | looking a value up yields a member only if that member has that value |
| Pipeline.StatusValueRoundTrip | main.py:23-25 | every member is found again from its value, so the two values differ |
| Pipeline.StatusValues | main.py:23-25 | a string names a member exactly when it is one of the two values |
| Pipeline.ChargedWords | main.py:58 | one charged word per dictionary line, none containing a line break |
| Pipeline.WithoutAbsent | main.py:58 | a line without a line break is left unchanged |
| Pipeline.WithoutLineBreakThenLine | main.py:58 | removing line breaks from a line followed by its break gives the same as the bare line |
| Pipeline.ChargedWordsOfLines | main.py:58 | lines that are words each followed by a line break give back exactly those words |
| Pipeline.ArticleText | main.py:36-43 | no text exactly when fetch raised ClientError or sanitize raised ArticleNotFound |
| Pipeline.FetchErrorRecord | main.py:42-50 | the except branch's record is well formed, carries the URL and has status FETCH_ERROR |
| Pipeline.OkRecord | main.py:37-50 | the try branch's record is well formed, carries the URL, has status OK and counts the words |
| Pipeline.ArticleOutcome | main.py:34-51 | a record carries the job's URL and is well formed; the only exception passed on is TimeoutError |
| Pipeline.ArticleOutcomeCases | main.py:35-44 | FETCH_ERROR exactly on a fetch or sanitize failure; an exception exactly when the split times out |
| Pipeline.ArticleOutcomeOk | main.py:37-41 | when the text was fetched and sanitised and the split finished in time, the record is OK with the number of split words and the jaundice rate of exactly those words |
| Pipeline.ArticleOutcomeAsWritten | main.py:39-40 | as written, a record is still well formed and carries the URL |
| Pipeline.AsWrittenNeverOk | main.py:39-44 | as written, every record appended has status FETCH_ERROR |
| Pipeline.AsWrittenRaisesOnEmptyArticle | main.py:39-40 | for an empty article the code as written raises TypeError where the intended code records OK, 0 words, score 0.0 |
| Pipeline.ProcessedArticles.constructor | main.py:55 | the shared list starts empty |
| Pipeline.ProcessedArticles.Append | main.py:51 | `append` adds the record at the end and changes nothing else |
| Pipeline.ProcessArticle | main.py:34-51 | appends exactly the record of ArticleOutcome, or raises its exception and leaves the list unchanged |
| Pipeline.Runner | main.py:62-65 | each task runs process_article on its URL; every record it appends carries that URL and is well formed |
| Pipeline.BatchResult | main.py:54-66 | a completed batch has exactly one record per job |
| Pipeline.BatchCompleted | main.py:59-66 | the batch completes exactly when no task raises, and record i is task i's record |
| Pipeline.BatchAborted | main.py:59-65 | an aborted batch stops on a task that raised that error, after tasks that all appended |
| Pipeline.BatchAbortedStays | main.py:59-65 | once a task has raised, later tasks change nothing |
| Pipeline.BatchRecordsFollowUrls | main.py:59-66 | a completed batch holds one well-formed record per URL, in URL order |
| Pipeline.BatchStep | main.py:61-65 | one more task appends its record or aborts the batch |
| Pipeline.ProcessBatch | main.py:54-66 | the loop over the URLs on one shared list ends with exactly BatchResult |
| Pipeline.MainRecordsFollowTestArticles | main.py:61-66 | a completed run of main prints six records whose URLs are TEST_ARTICLES in order |

## Left out

- TextTools.JaundiceRate: returns the exact percentage. It does not model Python floats or `round(score, 2)`. The bounds and the 33–34 test case hold for the rounded value too.
- TextTools.SplitByWords: it compares exact reals against 3 seconds rather than floats. The clock is a parameter, read once at the start and once after each token.
- TextTools.Normalizer: `morph.parse(word)[0].normal_form` is a parameter of type `string -> string`. The pymorphy2 dictionary is not part of this model.
- TextTools.Tokens: whitespace is Python's `str.isspace` set. It has no Unicode database lookups beyond that list.
- The tests of `split_by_words` at text_tools.py:39-43 are not proved. Their expected lists depend on the pymorphy2 dictionary. Only the cleaning of their first token is proved.
- The third test at text_tools.py:45-49 downloads a book over the network. It is left out, and so is the time it would take.
- `fetch` (aiohttp, `raise_for_status`) is abstracted: a job's response is either a client error or the HTML.
- `sanitize` from `adapters.inosmi_ru` is not part of this model. It is a parameter whose `None` result stands for `ArticleNotFound`.
- Reading `charged_dict/positive_words.txt` with aiofiles is left out. `ChargedWords` takes the file's lines.
- Pipeline.ProcessBatch: the task group runs the tasks concurrently; the model runs them one after another in URL order. In the source, records appear in completion order. When a task raises, its siblings are cancelled in no fixed order. The model aborts at the first raising task in URL order and drops the records gathered so far, since main then prints nothing.
- Exceptions other than ClientError, ArticleNotFound, TimeoutError and the TypeError of the finding below are not modelled.
- Creating the `MorphAnalyzer`, `asyncio.run`, the `aiohttp` session and `print` are left out. The printed list is the `Completed` outcome.
- server.py, the HTTP front end, is not part of this model.

## Findings

| source | as written | input that shows it | evidently intended | confidence | as-written member | corrected member |
|---|---|---|---|---|---|---|
| main.py:39-40 | `split_by_words` is an async context manager, but it is called without `async with`. `words` is then the context-manager object, and `len(words)` raises TypeError. The except clause at main.py:42 does not catch it, so the task group aborts and no article is ever recorded as OK. | any page that fetches and sanitises, e.g. one whose article text is empty | enter `split_by_words` with `async with ... as words`, then record OK with the word count and the score | high; not executed | Pipeline.ArticleOutcomeAsWritten (with Pipeline.AsWrittenNeverOk and Pipeline.AsWrittenRaisesOnEmptyArticle) | Pipeline.ArticleOutcome |
