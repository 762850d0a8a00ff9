# llmpackagequery in Dafny

This project models the core of `llmpackagequery`. The tool asks a language model about software packages, one package per input row, and writes one CSV line of attributes per package. The model has three parts.

- **Response parsing** (`query.py`). A free-text reply becomes one CSV line in five steps:
  - the first `{...}` object is extracted, with a `"\n}"` repair when none is found;
  - the object is cleaned up;
  - it is decoded as a Python literal;
  - keys are normalised, with alias completion when keys are missing;
  - each value is coerced and rendered as a quoted, comma-joined line in `attributes_list` order, the package name first.

  This part also covers the DeepSeek parser, which first looks for a fenced json block, the pass-through `NoResponseParser`, `get_empty_response`, and the class registry (`normalize`, `register`, `get_class`).
- **Request management** (`request.py`).
  - `do_request` retries a query up to three times, sleeping `2 ** attempt` seconds after a server error, and falls back to the last parse or the empty response.
  - `run` loops over the input rows under a query restriction.
  - `_log_progress` decides which rows are logged.
- **Result writing** (`writer.py`). `CSVResultsWriter` writes a header once. It re-reads each result line as CSV and appends the stripped fields, or skips the line. It flushes whenever its row counter sits on a multiple of ten.

## Modules

| file | module | models |
|---|---|---|
| wrappers.dfy | `Wrappers` | `Option` and `Result` |
| strings.dfy | `Strings` | the `str` methods used: ASCII `lower`/`upper`, `strip`, `replace`, `join` |
| registry.dfy | `Registry` | `normalize`, `register`, `get_class` |
| extraction.dfy | `Extraction` | the brace pattern `\{[^}]*\}` and the fenced-block pattern |
| cleanup.dfy | `Cleanup` | the rewrites between extraction and decoding |
| values.dfy | `Values` | decoded values, Python `str`/`repr`, value coercion, `__try_parse_bool_str` |
| csv.dfy | `Csv` | Python's CSV reader as a state machine (CPython `_csv.c`, section 2 of RFC 4180 quoting), and the `QUOTE_NONNUMERIC` row format |
| response_parser.dfy | `ResponseParser` | `json_to_csv`, `get_empty_response`, `ALIASES`, the parser classes |
| results_writer.dfy | `ResultsWriter` | `CSVResultsWriter` |
| request.dfy | `Request` | `do_request`, `run`, `_log_progress` |

Several things become parameters:
- The query handler is an oracle: for attempt `k` it raises a `ServerError`, raises some other exception, or replies with a text.
- `ast.literal_eval` is a function carried by the parser.
- Sleeps are recorded as a list of pause lengths.
- Flushes are recorded as a count.
- The success of the header write is a flag.

## Model

| member | source | states |
|---|---|---|
| Registry.NormalizeCanonical | llmpackagequery/query.py:36-38 | a normalised name contains only `[0-9A-Z_]`, has no `_` at either end and no `__`, and keeps every alphanumeric character of the input in order, upper-cased |
| Registry.CanonicalIsFixed | llmpackagequery/query.py:36-38 | `normalize` leaves every canonical name unchanged |
| Registry.NormalizeIdempotent | llmpackagequery/query.py:36-38 | `normalize(normalize(s)) == normalize(s)` |
| Registry.Register | llmpackagequery/query.py:40-43 | after `register`, the class is found under its own name, and the registry gains exactly the normalised name as a key |
| Registry.LookupByNormalizedName | llmpackagequery/query.py:40-47 | `get_class` of the normalised name also finds a registered class |
| Registry.RegisteredClassesFound | llmpackagequery/query.py:40-47 | after registering a list of classes whose names normalise to distinct keys, `get_class(cls.__name__)` returns each class |
| Registry.LaterEntriesKeep | llmpackagequery/query.py:40-47 | registering classes under other normalised names does not change what a name resolves to |
| Extraction.ObjectSpan | llmpackagequery/query.py:81-87 | the brace pattern matches iff some `{` precedes some `}`; the match runs from the first `{` to the first `}` after it |
| Extraction.ExtractObject | llmpackagequery/query.py:92-102 | extraction with the `"\n}"` repair fails, reaching the "No JSON object found" branch, iff the reply has no `{`; a found object starts with `{`, ends with `}` and has no other `}` |
| Extraction.LastCloser | llmpackagequery/query.py:21 | finds the last line-initial closing fence before a position, or shows there is none |
| Extraction.FenceSpan | llmpackagequery/query.py:21 | the leftmost opening fence whose body is whole lines and closes at the last line-initial closing fence; no earlier position matches |
| Extraction.FenceBody | llmpackagequery/query.py:186-189 | the fenced block is found iff the fence pattern matches somewhere; its body is empty or ends with a newline |
| Cleanup.QuoteBare | llmpackagequery/query.py:107-108 | the `True`/`False` rewrite leaves a text with no bare occurrence unchanged |
| Cleanup.QuoteBareSkips | llmpackagequery/query.py:107-108 | text before the first match is copied unchanged, whatever follows |
| Cleanup.QuoteBareOneMatch | llmpackagequery/query.py:107-108 | a single match becomes a space, the quoted word and a comma, consuming the character before the word: `"a":true,` turns into `"a" "True",`; the text around it is kept |
| Cleanup.StripComments | llmpackagequery/query.py:111-112 | after the comment strip no `//` remains, and a text without `//` is unchanged |
| Cleanup.DropBackslashes | llmpackagequery/query.py:117-119 | after the quote and backslash removal no `\` remains |
| Cleanup.Clean | llmpackagequery/query.py:104-119 | the cleaned object contains no backslash |
| Cleanup.CleanTextUnchanged | llmpackagequery/query.py:104-119 | a stripped object with no bare boolean, comment, ellipsis marker or backslash passes the cleanup unchanged |
| Values.TryParseBool | llmpackagequery/query.py:70-79 | a `bool` becomes its `str`; otherwise a value whose stripped, lower-cased text is in `{true, 1, yes, y, on}` becomes `'True'`, one in `{false, 0, no, n, off}` becomes `'False'`, and any other value is returned unchanged, neither stripped nor stringified |
| Values.TryParseBoolIdempotent | llmpackagequery/query.py:70-79 | classifying a classified value changes nothing |
| Values.PaddedWordIsTruthy | llmpackagequery/query.py:73-75 | an example of the classification: the padded, mixed-case `" Yes\n"` becomes `'True'` |
| Values.NumberAndBoolAreClassified | llmpackagequery/query.py:70-77 | examples of the classification: the integer `0` and the boolean `False` both become `'False'` |
| Values.ItemText | llmpackagequery/query.py:151-157 | a fixed list entry is `str(x)` with every `'` deleted, lower-cased, then with every `[` and every `]` deleted; all other characters are kept, in order, so none of `'`, `[`, `]` remains |
| Values.ListTextPlain | llmpackagequery/query.py:149-159 | a list renders as the Python list display `['a', 'b']` of its fixed entries |
| Values.ListIsNeverBoolean | llmpackagequery/query.py:149-164 | a list display is never classified as a boolean, so it is rendered as it is |
| Values.StrRenderedHasNoQuote | llmpackagequery/query.py:146-148 | a string value has every `"` replaced by `'` and is then classified: it renders as `True`, `False`, or the replaced text with every other character kept, so it contains no `"` |
| ResultsWriter.EmptyLineIsWrittenAsBlanks | llmpackagequery/query.py:63-65 | the empty response for a plain package name reads back as `len(attributes_list)` fields: the name, then empty fields; only an empty name with a single attribute gives a line that is skipped |
| Csv.PlainLineReadsBack | llmpackagequery/writer.py:50-52 | a line of one unquoted field without separator, quote, line break or leading blank, followed by `n` commas, reads as that field and `n` empty fields |
| ResponseParser.ErrorLineIsEmptyLine | llmpackagequery/query.py:90 | the error entry counts commas over the attribute set, so it equals the empty response iff the attribute names are distinct, and is never longer |
| ResponseParser.NormKey | llmpackagequery/query.py:132 | a normalised key has no upper-case letter and no space |
| ResponseParser.NormalizeKeys | llmpackagequery/query.py:132 | the keys are exactly the normalised item keys, all in normal form |
| ResponseParser.LastItemWins | llmpackagequery/query.py:132 | when two keys normalise alike, the later item's value is kept |
| ResponseParser.AliasesWellFormed | llmpackagequery/query.py:54-57 | no alias target is itself an alias, and no two aliases share a target |
| ResponseParser.ApplyAliases | llmpackagequery/query.py:136-138 | aliasing adds the targets of the aliases present and removes no key |
| ResponseParser.AliasesCopyValues | llmpackagequery/query.py:136-138 | each alias target receives the alias's value; every other key keeps its value |
| ResponseParser.Complete | llmpackagequery/query.py:134-143 | aliasing runs only when the attributes are not covered; the check fails iff even the aliased keys miss an attribute, identity column included |
| ResponseParser.Fields | llmpackagequery/query.py:166-172 | one field per entry of `attributes_list`, in order: the caller's package name wherever the identity column is named, including the first field, and the coerced, rendered value of that attribute elsewhere |
| ResponseParser.Decoded | llmpackagequery/query.py:89-143 | extraction fails iff the reply has no `{`; a decoded dictionary covers every attribute and has normal-form keys |
| ResponseParser.JsonToCsv | llmpackagequery/query.py:89-172 | every error returns the error entry; "no object" is reported iff the reply has no `{`; on success the line is the quoted, comma-joined `Fields` of the decoded dictionary |
| ResponseParser.JsonToCsvSucceeds | llmpackagequery/query.py:89-143 | a reply succeeds iff an object is found, the decoder accepts its cleaned text, and the decoded keys, after alias completion, cover every attribute |
| ResponseParser.DeepSeekBody | llmpackagequery/query.py:185-195 | no candidate is found iff there is no non-empty fenced block and no brace pair |
| ResponseParser.DeepSeekParse | llmpackagequery/query.py:182-202 | the empty-response error is set iff no candidate is found, and then the line is `name,,` whatever the schema |
| ResponseParser.DeepSeekPrefersFence | llmpackagequery/query.py:186-189 | a non-empty fenced block is parsed in preference to bare braces |
| ResponseParser.DeepSeekFallsBackToBraces | llmpackagequery/query.py:191-195 | without a usable fenced block the brace match is parsed, and "no object" cannot follow |
| ResponseParser.Parse | llmpackagequery/query.py:174-251 | `NoResponseParser` returns the reply verbatim with no error; every other parser's error line is the error entry or `name,,` |
| Csv.FormatRowReadsBack | llmpackagequery/writer.py:34-38 | a row written with `QUOTE_NONNUMERIC` and `\r\n` reads back as the same fields |
| Csv.QuoteJoinReadsBack | llmpackagequery/query.py:172 | a line of quoted values without `"`, joined by commas, reads back as exactly those values |
| ResultsWriter.Enter | llmpackagequery/writer.py:25-41 | entering writes the header row and nothing else, or, when that write raises, leaves the destination closed and empty |
| ResultsWriter.Close | llmpackagequery/writer.py:69-71 | closing closes the destination and keeps its contents and the counter |
| ResultsWriter.WriteResults | llmpackagequery/writer.py:46-66 | appends the stripped first record iff the line reads, and counts it; flushes iff the counter ends on a multiple of ten; raises iff the destination is closed and a row or flush was due |
| ResultsWriter.WriteResultsKeepsValid | llmpackagequery/writer.py:57-66 | the counter stays equal to the rows written, fewer than ten rows wait for a flush, and a writer whose header failed stays closed and empty |
| ResultsWriter.HeaderlessWriterRaises | llmpackagequery/writer.py:25-30 | after a failed header write every `write_results` raises |
| ResultsWriter.SkippedLineStillFlushes | llmpackagequery/writer.py:63-66 | a skipped line still flushes while the counter sits on a multiple of ten, zero included |
| ResultsWriter.SessionCounts | llmpackagequery/writer.py:46-66 | over many calls on an open writer nothing raises, the counter grows by the number of lines that read, and earlier output stays in front |
| ResultsWriter.QuoteJoinParses | llmpackagequery/writer.py:50-52 | re-reading a quoted, comma-joined line of plain values yields exactly those values |
| ResultsWriter.SuccessLineIsWrittenAsFields | llmpackagequery/writer.py:50-52 | a successful `json_to_csv` line with plain values is written as its `len(attributes_list)` fields, in order, the package name first |
| ResultsWriter.HeaderReadsFirst | llmpackagequery/writer.py:28 | once the header is written, the destination's first record reads back as the header row, whatever follows it |
| Request.Attempts | llmpackagequery/request.py:105-133 | the retry loop calls the handler between once and `RETRY_COUNT` times |
| Request.DoRequest | llmpackagequery/request.py:93-133 | the loop computes exactly the reference description of the retries, making one to three calls; each call starts with `last_error` cleared, as the handler does at `query.py:297-298`, so an error left by an earlier package cannot stop or prolong the loop |
| Request.FirstStopDecides | llmpackagequery/request.py:119-123 | the first attempt that raises something other than a server error, or parses with no error, ends the loop with that many calls |
| Request.NoStopFallsBack | llmpackagequery/request.py:127-133 | otherwise all three calls are made, and the answer is the parse of the most recent reply, even one that recorded an error, or the empty response when no reply came |
| Request.AllServerErrors | llmpackagequery/request.py:108-130 | three server errors give three calls, pauses of 2, 4 and 8 seconds, and the empty response |
| Request.PausesBounded | llmpackagequery/request.py:112-117 | from attempt `k` on, the pauses add up to at most `16 - 2 ** k` seconds, one pause per remaining attempt at most |
| Request.TotalPauseAtMost14 | llmpackagequery/request.py:112-117 | one package pauses at most 14 seconds |
| Request.LogProgress | llmpackagequery/request.py:81-91 | a row is logged iff forced or its index is a multiple of `log_iterations`; zero iterations raise even when forced |
| Request.ModZeroIsMultiple | llmpackagequery/request.py:87 | a zero remainder means the index is a multiple of the iterations |
| Request.DefaultLogsEveryTenth | llmpackagequery/request.py:21 | with the default of ten, rows 0, 10, 20, … are logged and the rows after them are not |
| Request.RowStep | llmpackagequery/request.py:64-79 | a pass over a row succeeds only on a row of four or more columns; it logs the row iff the restriction is reached or the index is a multiple; the writer gains at most one row |
| Request.Run | llmpackagequery/request.py:45-79 | an input without a header row raises before the writer exists; every other exit, normal or by an exception, leaves the destination closed |
| Request.RunClosesOnEveryExit | llmpackagequery/request.py:57-79 | whichever way the `with CSVResultsWriter(...)` block is left, `__exit__` (writer.py:43-44) closes the destination and the header and rows already written stay in it |
| Request.RowsProcessed | llmpackagequery/request.py:64-77 | from row `idx`, the loop processes up to the restriction, at least one row, and no further than the input |
| Request.RunProcessed | llmpackagequery/request.py:45-77 | with `N ≥ 1` data rows a successful run processes `min(N, max(1, query_restriction))` rows |
| Request.RowsLogged | llmpackagequery/request.py:74-79 | from row `idx`, the rows logged are the multiples among those processed, plus the last one when the restriction stopped the loop |
| Request.RunLogged | llmpackagequery/request.py:74-79 | over a whole run exactly those rows are logged |
| Request.RowsKeepWriter | llmpackagequery/request.py:64-72 | the writer stays valid, keeps its earlier output in front, and gains at most one row per processed row; when a row raises, the writer at that moment still has the earlier output in front |
| Request.RunWritesHeaderFirst | llmpackagequery/request.py:55-72 | a successful run leaves the attribute header first and at most one result row per package; with a failed header a run succeeds only when there are no data rows |
| Request.HeaderFailureRaisesOnFirstRow | llmpackagequery/request.py:64-72 | with a failed header, the first package that gets an answer makes `run` raise, leaving the destination closed and empty |

## Left out

- `ast.literal_eval` is not modelled. A parser carries a decoder from text to the decoded dictionary's items in order. Only `ValueError` and `SyntaxError` are caught at `query.py:126`, so the decoder yields `None` only for those. A reply such as `{[1]: 2}` makes `ast.literal_eval` raise `TypeError` (an unhashable key) at `query.py:125`, and that exception escapes `json_to_csv`. Replies that decode to something other than a dictionary with string keys make `query.py:132` raise. The model represents neither escaping exception.
- The concrete model backends (`OpenAIQueryHandler` and the rest), `execute`, and the client wiring are left out: they are network and SDK calls. A handler call is an outcome oracle.
- `TemplateBasedPromptGenerator` is left out (a file read and `str.format`). The per-row oracle stands for the question it would produce from columns 0, 2 and 3.
- Reading the input file is left out. `run` receives the input as a list of rows.
- `config.py` is left out: it holds constants and environment lookups only.
- File handles, `os.fsync`, `time`, `sleep` and logging are left out. A flush is a counted event and a sleep is a recorded pause. The timings that `_log_progress` prints are not modelled; only the decision to log is.
- Case mapping and whitespace are ASCII only. Python's `lower`, `upper` and `strip` also act on non-ASCII characters.
- The reader follows Python 3.11 and later, where a NUL character is an ordinary character.
- Python's general `re` engine is left out. Only the patterns at `query.py:17`, `19`, `21`, `107-108` and `112` are written as string functions.
- The sixteen concrete `@register` classes are not enumerated: eleven response parsers and five query handlers. `Registry.RegisteredClassesFound` covers any list of classes whose names normalise to distinct keys. `ResponseParser.Parse` covers the parsers' shared behaviour; the handlers are the backends left out above.
- Values.Repr: every non-ASCII character is treated as printable. Python's `repr` escapes the non-printable ones (`\xa0`, `\x85`, `\xad`, `\u2028`, ...), so a list entry holding one is rendered with that escape in the source but with the raw character here.
- Values.ListTextPlain: states the list display only for entries without a backslash or ASCII control character. It holds in the source only when the entries' non-ASCII characters are printable. No lemma states the escaped display of other entries.

Where the code and its documentation differ, the model follows the code:
- `normalize`'s docstring says it lower-cases, but the code upper-cases.
- A list value is rendered as a Python list display such as `['foo', 'bar']`, not as a bare list.
- The back-off after attempt `k` is `2 ** k` seconds: 2, 4 and 8. The last pause comes after the final attempt.
- The DeepSeek fallback line is `name,,` whatever the number of attributes.
