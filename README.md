# Claude Code GitHub Actions summary — a Dafny model

The tool reads the logs of Claude Code review runs on GitHub Actions and
builds a CSV report. This project models its core:

- the date filter applied to the listed workflow runs;
- reading the metrics of one run's log:
  - the labelled values (PR number, author, commits, changed files);
  - the model name;
  - the first and last timestamps;
  - the `"type": "result"` object, reassembled from a multi-line log by
    counting braces;
- merging each run with its metrics and sorting the records by start time;
- the two cell formatters;
- building the CSV rows.

Each module follows one source file:

| module | source |
|---|---|
| `GithubClient` | `src/github_client.py` |
| `LogParser` | `src/log_parser.py` |
| `MetricsExtractor` | `src/metrics_extractor.py` |
| `Processor` | `src/processor.py` |
| `Formatters` | `src/formatters.py` |
| `ReportGenerator` | `src/report_generator.py` |

Three helper modules support them:

- `Patterns` writes every fixed regular expression out as a scanner that makes the same greedy and backtracking choices as Python's `re`. `Search` is `re.search`; `FindAll` is `re.finditer`/`re.findall`.
- `Text` models the Python `str` operations used: `strip`, `split`, `join`, `find`, `count`, `replace`, `str(int)`, and `<=` on strings.
- `Json` holds the decoded JSON value, Python truthiness and `dict.get`.

The code that changes state step by step is written as methods with loops. Each method is proved equal to a specification function, and the properties are lemmas about those functions:

| method | source |
|---|---|
| `ExtractJsonFromMultilineLog` | the brace-counting loop |
| `ExtractMetricsFromLog` and its parts | the field-by-field fill of the result dictionary |
| `ProcessRuns` | the append loop and the sort |
| `GenerateCsvReport` | the row-writing loop |
| `FilterRuns` | the date filter |

The pure functions of the source (line payloads, string preparation, cleanup, formatters) are Dafny functions.

The lookback for the opening line of a result object (src/metrics_extractor.py:80-83) takes the *earliest* of the up to three lines before the candidate that holds `{`, not the nearest one: the loop runs forward from `max(0, i - 3)` and stops at the first hit. `LookbackTakesEarliest` pins this down.

The operations of the source are specification functions. Where a function only computes, the rows of `## Model` name the lemma or method that states what it means:

| function | source | stated by |
|---|---|---|
| `LogParser.ExtractJsonPart` | `src/log_parser.py:7-29` | `PayloadMatchIff`, `PayloadAfterTimestamp`, `NoStampNoMatch`, `PayloadWithoutMatch`, `PayloadWithoutTimestamp` |
| `LogParser.DropCommaBefore`, `RemoveTrailingCommas` | `src/log_parser.py:64-65` | `DropTrailingComma`, `CommaBeforeClose`, `DropCommaBeforeKeepsRest`, `DropCommaBeforeAbsent`, `DropCommaBeforePrefix`, `RepairKeepsRest`, `RepairExample` |
| `LogParser.Balance`, `AnyOpening` | `src/log_parser.py:97-102` | `BalanceAppend`, `BalanceOfJoined`, `AnyOpeningAppend`, `ClosingLineFirst` |
| `LogParser.Closed`, `Reassemble` | `src/log_parser.py:75-111` | `ExtractJsonFromMultilineLog`, `ClosingLineFirst`, `NeverClosesNone`, `NoOpeningBraceNoObject`, `ReadsNothingAfterClose` |
| `MetricsExtractor.WithLabels` | `src/metrics_extractor.py:46-74` | `ExtractLabels`, `DigitsOf`, `AuthorOf`, `ModelOf` and the round-trip lemmas |
| `MetricsExtractor.WithResult` | `src/metrics_extractor.py:89-94` | `ScanForResult`, `ResultFields` |
| `MetricsExtractor.WithTimestamps` | `src/metrics_extractor.py:96-102` | `ExtractTimestamps`, `TimestampSpan`, `TimestampsBothOrNeither` |
| `MetricsExtractor.MetricsOf` | `src/metrics_extractor.py:11-109` | `ExtractMetricsFromLog`, `FetchFailureGivesEmpty`, `RunIdKept`, `ResultFields`, `TimestampsBothOrNeither` |
| `GithubClient.Decide`, `Kept` | `src/github_client.py:51-69` | `FilterRuns`, `KeptIsSubsequence`, `KeptMembers`, `UndatedKept`, `UnparseableKept`, `DatedKeptIff`, `AnyRaisesAppend` |
| `Processor.PrNumberFor`, `RecordOf` | `src/processor.py:22-47` | `RecordRunId`, `RecordOfFields`, `LogNumberWins`, `TitleNumberRoundTrip`, `NoHashKeepsLogNumber`, `MergedAt` |
| `Formatters.SecondsText`, `FormatDuration` | `src/formatters.py:4-16` | `SecondsRoundTrip`, `SecondsCanonical`, `DurationNotAvailableIff`, `DurationRaisesIff`, `DurationOverflowBoundary`, `DurationExamples` |
| `Formatters.FormatTimestamp` | `src/formatters.py:19-30` | `TimestampPointwise`, `TimestampNotAvailableIff`, `CanonicalTimestamp` |
| `ReportGenerator.TextCell`, `CountCell`, `ModelCell`, `CostCell`, `LinkCell` | `src/report_generator.py:46-73` | `TextCellNotEmpty`, `CountCellRoundTrip`, `ModelAlias`, `ModelExamples`, `CostNotAvailableIff`, `CostOverflowBoundary`, `LinkMatchesNumber`, `FalsyCellsNotAvailable` |

## Model

| member | source | states |
|---|---|---|
| Json.GetOr | src/metrics_extractor.py:93 | `d.get(key, default)` returns the stored value when the key is present (a stored null included) and the default otherwise |
| Text.Strip | src/log_parser.py:41 | `str.strip()`: the result neither starts nor ends with whitespace, and the input is leading whitespace, the result, then trailing whitespace |
| Text.StripParts | src/log_parser.py:41 | the trimmed text neither starts nor ends with whitespace and sits between a leading and a trailing run of whitespace |
| Text.CountChar | src/log_parser.py:97-98 | `str.count` of one character is at most the length and is zero exactly when the character is absent |
| Text.FirstOccurrence | src/log_parser.py:43 | `str.find`: the index returned holds an occurrence and no earlier index does; `None` means there is no occurrence anywhere |
| Text.Split | src/metrics_extractor.py:44 | `str.split(sep)` gives at least one piece; joining the pieces with `sep` gives the input back; no piece contains `sep` |
| Text.SplitCount | src/log_parser.py:26-27 | splitting on a character gives one more piece than the character's count |
| Text.ReplaceAllJoinsPieces | src/report_generator.py:53-56 | `str.replace` equals joining the split pieces with the replacement; a text without the target is unchanged |
| Text.ReplaceCharPointwise | src/formatters.py:29 | replacing one character by another keeps the length and changes exactly the positions that held it |
| Text.DecimalString | src/report_generator.py:71 | `str(n)` for `n >= 0`: decimal digits that read back as `n`, with no leading zero |
| Text.IntToString | src/processor.py:23 | `str(n)` for any integer: the digits of `abs(n)`, with a minus sign when negative |
| Text.LexLeRefl | src/processor.py:50 | string `<=` is reflexive |
| Text.LexLeTotal | src/processor.py:50 | string `<=` is total |
| Text.LexLeTrans | src/processor.py:50 | string `<=` is transitive |
| Text.LexLeAntisym | src/processor.py:50 | string `<=` is antisymmetric |
| Patterns.TimestampEnd | src/metrics_extractor.py:97 | a timestamp match ends just past a `Z`, at least 22 characters after it starts |
| Patterns.CanonicalTimestampEnd | src/metrics_extractor.py:97 | a written `YYYY-MM-DDTHH:MM:SS.<digits>Z` timestamp matches exactly up to and including its `Z` |
| Patterns.TimestampAt | src/metrics_extractor.py:97 | the timestamp pattern's match starts at the position tried and ends after it within the text |
| Patterns.TimestampPayloadAt | src/log_parser.py:18-19 | the payload pattern's match starts at the position tried and ends after it within the text |
| Patterns.HashNumberAt | src/processor.py:34 | `#(\d+)` matches a span starting at the position tried and captures only digits |
| Patterns.LabelledDigits | src/metrics_extractor.py:47 | `tag\s*(\d+)` matches where it starts and its group is all digits |
| Patterns.LastNotNewline | src/metrics_extractor.py:53 | the last non-newline index of a range, with only newlines after it; `None` when the range holds only newlines |
| Patterns.AuthorAt | src/metrics_extractor.py:53 | `PR Author:\s*([^\n]+)` matches a non-empty span starting at the tag |
| Patterns.ChangedFilesAt | src/metrics_extractor.py:65 | `Changed Files:\s*(\d+)\s*files?` matches where it starts, with an all-digit group |
| Patterns.ChangedFilesShape | src/metrics_extractor.py:65 | `Changed Files:\s*(\d+)\s*files?` matches exactly when the labelled count matches and `file` follows the whitespace after its digits; the group is the count's digits |
| Patterns.ModelAt | src/metrics_extractor.py:71 | `"model"\s*:\s*"([^"]+)"` matches a non-empty span starting at the key |
| Patterns.MatchAt | src/metrics_extractor.py:47-72 | every pattern's match starts at the position tried and ends after it within the text; the `(\d+)` patterns capture only digits |
| Patterns.Search | src/metrics_extractor.py:48 | `re.search` returns the match at the leftmost position where the pattern matches, and `None` only when it matches nowhere |
| Patterns.FindAll | src/metrics_extractor.py:72 | `re.finditer` yields only real matches; it is empty exactly when `re.search` finds nothing; its first element is `re.search`'s, each next one is the search resumed at the previous end, and the search resumed after the last finds nothing |
| Patterns.FindAllOrdered | src/metrics_extractor.py:72 | the matches of `re.finditer` are ordered and do not overlap |
| Patterns.FindAllLast | src/metrics_extractor.py:72-74 | no match starts at or after the end of the last one |
| Patterns.FindAllStep | src/metrics_extractor.py:72 | `re.finditer` is its first match followed by `re.finditer` resumed at that match's end |
| Patterns.FindAllEnds | src/metrics_extractor.py:97-102 | no match lies before the first element or at or after the end of the last, and the first starts no later than the last |
| LogParser.PayloadMatchIff | src/log_parser.py:18-22 | the payload pattern matches at a position exactly when a timestamp starts there and whitespace follows its `Z` |
| LogParser.PayloadAfterTimestamp | src/log_parser.py:18-23 | with such a timestamp, the payload is the rest of the line after the whitespace run that follows it |
| LogParser.NoStampNoMatch | src/log_parser.py:18-23 | without a timestamp followed by whitespace the payload pattern matches nowhere in the line |
| LogParser.PayloadWithoutMatch | src/log_parser.py:25-29 | when the pattern does not match, a line with at least two tabs gives its text after the last tab, and any other line gives itself stripped |
| LogParser.PayloadWithoutTimestamp | src/log_parser.py:25-29 | otherwise a line with at least two tabs gives its text after the last tab, and any other line gives itself stripped |
| LogParser.JoinedLastField | src/log_parser.py:26-28 | the last of two or more fields joined by a separator is the suffix of the joined line that follows a separator |
| LogParser.LastFieldOrShape | src/log_parser.py:26-29 | `parts[-1]` when there are three parts or more: a suffix after the last separator, holding none; the stripped line otherwise |
| LogParser.FromFirstBrace | src/log_parser.py:42-45 | the result starts with `{` or holds none; it is a suffix of the input and the part cut off holds no `{`; a text without `{` is returned unchanged |
| LogParser.PrepareJsonString | src/log_parser.py:41-46 | the stripped concatenation of the parts is cut at its first `{`; the result starts with `{` or contains none, and is the whole stripped text when that holds no `{` |
| LogParser.DropCommaBeforeKeepsRest | src/log_parser.py:64 | one trailing-comma pass changes nothing but commas and whitespace |
| LogParser.DropTrailingComma | src/log_parser.py:64 | `DropCommaBefore`, one `re.sub(r",\s*}", "}")` pass: a comma followed by whitespace and the closing bracket is removed together with that whitespace, and the text before it is untouched |
| LogParser.CommaBeforeClose | src/log_parser.py:64 | the same pass on a text that starts with such a comma keeps the bracket and continues after it |
| LogParser.DropCommaBeforeToComma | src/log_parser.py:64 | a prefix without the closing bracket, followed by a comma, passes through the pass unchanged |
| LogParser.RepairKeepsRest | src/log_parser.py:64-65 | the two repair passes together remove only commas and whitespace |
| LogParser.DropCommaBeforeAbsent | src/log_parser.py:64 | a text without the closing bracket is left unchanged by the repair pass |
| LogParser.DropCommaBeforePrefix | src/log_parser.py:64 | a prefix that holds no closing bracket and does not end in a comma or whitespace passes through the repair unchanged |
| LogParser.RepairExample | src/log_parser.py:64-65 | the repair turns `{"a": 1, "b": 2,}` into `{"a": 1, "b": 2}` |
| LogParser.ParseJsonWithCleanup | src/log_parser.py:58-72 | the result is an object or nothing; a successful first decode is returned only when it is an object, and the repair is tried only when the first decode fails; when it fails and the repaired text decodes to an object, that object is returned |
| LogParser.NoRepairAfterDecode | src/log_parser.py:58-65 | when the first decode succeeds, the result depends on that decode alone (any decoder agreeing on the input gives the same), so no repair is attempted; a non-object gives `None` |
| LogParser.TrailingCommaExample | src/log_parser.py:62-69 | `{"a": 1, "b": 2,}` fails to decode, is repaired, and decodes to `{"a": 1, "b": 2}` |
| LogParser.Payloads | src/log_parser.py:92-94 | the payloads from `start` to `end` number `end - start` |
| LogParser.PayloadsAt | src/log_parser.py:94 | the payload at position `j` is the payload of line `start + j` |
| LogParser.AllPayloads | src/log_parser.py:92-94 | the payloads of the lines from `start` on number the lines left, and none past the end |
| LogParser.PayloadOfLine | src/log_parser.py:92-94 | the payload at position `i - start` is `ExtractJsonPart` of line `i` |
| LogParser.PayloadsPrefix | src/log_parser.py:92-104 | the payloads of a shorter range are a prefix of those of a longer one |
| LogParser.BalanceAppend | src/log_parser.py:97-99 | appending a payload changes the balance by its `{` count minus its `}` count |
| LogParser.AnyOpeningAppend | src/log_parser.py:101-102 | a `{` has been seen after a payload exactly when it was seen before or the payload holds one |
| LogParser.ClosingLine | src/log_parser.py:106-109 | the closing line, when there is one, is a valid payload index from the start |
| LogParser.ClosingLineFirst | src/log_parser.py:106-109 | the closing line is the first index where a `{` has been seen and the balance is 0; no earlier index closes |
| LogParser.ExtractJsonFromMultilineLog | src/log_parser.py:75-111 | the loop returns the decoded, cleaned-up join of the payloads up to the first closing line, or `None` when none closes |
| LogParser.NeverClosesNone | src/log_parser.py:92-111 | when no payload prefix closes the object, including when `start` is past the end, the result is `None` |
| LogParser.NoOpeningBraceNoObject | src/log_parser.py:92-111 | when no payload from `start` on holds `{`, the result is `None` |
| LogParser.PayloadsWithoutBrace | src/log_parser.py:92-102 | when no line from `start` on holds `{` in its payload, no payload does |
| LogParser.PayloadsAgree | src/log_parser.py:92-104 | the payloads depend only on the lines in their range |
| LogParser.PayloadAgreeAt | src/log_parser.py:92-94 | two logs that agree on one line give that line the same payload |
| LogParser.ClosingLineAgree | src/log_parser.py:106-107 | closing at `k` depends only on the payloads up to `k` |
| LogParser.ReadsNothingAfterClose | src/log_parser.py:92-109 | lines after the closing line are never read: a log that agrees up to it closes at the same line with the same result |
| LogParser.PayloadsPrefixAgree | src/log_parser.py:92-104 | logs that agree on their first lines agree on the payloads of those lines |
| LogParser.AllPayloadsAgree | src/log_parser.py:92-104 | the same for the payloads from `start` |
| LogParser.BalanceOfJoined | src/log_parser.py:97-99 | the running balance equals the `{` count minus the `}` count of the joined text |
| LogParser.JoinAppend | src/log_parser.py:104 | joining with one more part appends it |
| MetricsExtractor.Initial | src/metrics_extractor.py:21-34 | the fresh dictionary holds the run id and `None` in every other field |
| MetricsExtractor.DigitsOf | src/metrics_extractor.py:47-50 | a labelled count is `None` exactly when its pattern matches nowhere, else the value of the first match's digits |
| MetricsExtractor.AuthorOf | src/metrics_extractor.py:53-56 | the author is `None` exactly when the pattern matches nowhere, else the first match's group stripped |
| MetricsExtractor.ModelOf | src/metrics_extractor.py:71-74 | the model is `None` exactly when the pattern matches nowhere; otherwise it is the group of the last element of the `re.finditer` chain (each search resumed at the previous match's end, the last with no successor) |
| MetricsExtractor.TimestampSpan | src/metrics_extractor.py:97-102 | no timestamps exactly when the pattern matches nowhere; otherwise the first is the leftmost match, the last is the last non-overlapping one, and the first comes no later |
| MetricsExtractor.FirstBraceLine | src/metrics_extractor.py:80-83 | the earliest line of the window holding `{`, or the candidate line itself when none does |
| MetricsExtractor.LookbackStart | src/metrics_extractor.py:79-83 | the start line lies between three lines before the candidate (clamped at 0) and the candidate |
| MetricsExtractor.ResultAt | src/metrics_extractor.py:78-89 | a candidate line accepts only a non-empty object whose `type` is `"result"` |
| MetricsExtractor.ResultAtExactly | src/metrics_extractor.py:78-89 | both directions: a candidate line is accepted exactly when its reassembled object is a non-empty object whose `type` is `"result"`, and then the accepted fields are that object's |
| MetricsExtractor.ResultLine | src/metrics_extractor.py:77-94 | the accepted line, when there is one, is a line index whose candidate is accepted |
| MetricsExtractor.ResultLineBefore | src/metrics_extractor.py:77-94 | every line before the accepted one (every line when none is) is skipped |
| MetricsExtractor.ResultLineFirst | src/metrics_extractor.py:77-94 | the accepted line is the first accepted candidate: all earlier ones fail or do not match |
| MetricsExtractor.ExtractLabels | src/metrics_extractor.py:46-74 | the label and model fields are set as `WithLabels` says: each label from its first `re.search` match, the model from the last `re.finditer` match, each only when its pattern matched |
| MetricsExtractor.ExtractTimestamps | src/metrics_extractor.py:96-102 | the timestamp fields are set as `WithTimestamps` says |
| MetricsExtractor.FindStartLine | src/metrics_extractor.py:79-83 | the lookback loop returns `LookbackStart` |
| MetricsExtractor.ScanForResult | src/metrics_extractor.py:76-94 | the scan copies the result fields of the first accepted candidate, or changes nothing |
| MetricsExtractor.ExtractMetricsFromLog | src/metrics_extractor.py:11-109 | the method returns `MetricsOf` of the run id and the fetched log |
| MetricsExtractor.FetchFailureGivesEmpty | src/metrics_extractor.py:104-109 | when the fetch fails, every field except the run id is `None` |
| MetricsExtractor.RunIdKept | src/metrics_extractor.py:21-22 | `run_id` is the argument, whatever the log holds |
| MetricsExtractor.ResultFields | src/metrics_extractor.py:89-94 | the cost, duration, turns and error flag come from the first accepted result object (`is_error` defaulting to False), and stay `None` without one |
| MetricsExtractor.TimestampsBothOrNeither | src/metrics_extractor.py:97-102 | start and end time are both set or both `None`, and `None` exactly when the log has no timestamp |
| MetricsExtractor.PrNumberRoundTrip | src/metrics_extractor.py:47-50 | `PR NUMBER: <n>` in the log reads back as `n` |
| MetricsExtractor.LabelledDigitsWritten | src/metrics_extractor.py:47-62 | `<tag> <digits>` followed by a non-digit matches at its start with exactly those digits as the group |
| MetricsExtractor.TotalCommitsRoundTrip | src/metrics_extractor.py:59-62 | `Total Commits: <n>` in the log reads back as `n` |
| MetricsExtractor.ChangedFilesRoundTrip | src/metrics_extractor.py:65-68 | `Changed Files: <n> files` in the log reads back as `n` |
| MetricsExtractor.ChangedFilesNeedUnit | src/metrics_extractor.py:65-68 | a log without the letter `f` has no changed-files count |
| MetricsExtractor.ChangedFilesWithoutUnit | src/metrics_extractor.py:65-68 | `Changed Files: <n>` followed by text without an `f` is not read: the `files?` suffix is required |
| MetricsExtractor.AuthorRoundTrip | src/metrics_extractor.py:53-56 | `PR Author: <name>` on its own line reads back as the name |
| MetricsExtractor.StripUntrimmed | src/metrics_extractor.py:56 | a text that neither starts nor ends with whitespace is its own strip |
| MetricsExtractor.LookbackTakesEarliest | src/metrics_extractor.py:80-83 | with `{` on two of the three preceding lines, the lookback starts at the earlier one |
| MetricsExtractor.ModelAtLayout | src/metrics_extractor.py:71 | `"model":"<v>"` matches with group `v` |
| MetricsExtractor.ModelEntryAt | src/metrics_extractor.py:71 | a written `"model":"<v>"` entry is a match with group `v` |
| MetricsExtractor.LastModelWins | src/metrics_extractor.py:71-74 | given `"model":"a"` then `"model":"b"`, the model is `"b"` |
| MetricsExtractor.FirstModelEntry | src/metrics_extractor.py:72 | the first model match of that text is the `"a"` entry |
| MetricsExtractor.SecondModelEntry | src/metrics_extractor.py:72 | after it, the only match is the `"b"` entry |
| MetricsExtractor.OverlappingModelIgnored | src/metrics_extractor.py:71-74 | in `"model":"x"model":"y"` the closing quote of the first value is consumed, so the `y` entry is never matched and the model is `x` |
| MetricsExtractor.NoModelWithoutQuote | src/metrics_extractor.py:71 | with no `"` at any position from `from` that leaves room for the key, the model pattern matches nowhere from `from` on |
| MetricsExtractor.ModelNeedsQuote | src/metrics_extractor.py:71 | a model match needs a `"` where it starts |
| GithubClient.FilterRuns | src/github_client.py:53-69 | the loop raises exactly when some run has a naive date; otherwise it returns the kept runs |
| GithubClient.AnyRaisesAppend | src/github_client.py:53-69 | one more run makes the filter raise exactly when it already raised or `Decide` says that run raises |
| GithubClient.AnyRaisesPrefix | src/github_client.py:53-69 | a run that raises in a prefix makes the whole list raise |
| GithubClient.KeptIsSubsequence | src/github_client.py:53-69 | the filtered list is a subsequence of the input, in the same order |
| GithubClient.KeptMembers | src/github_client.py:53-69 | a run is kept exactly when it is in the input and its verdict is to keep it |
| GithubClient.UndatedKept | src/github_client.py:55-67 | a run with a missing or empty `createdAt` is always kept |
| GithubClient.UnparseableKept | src/github_client.py:63-65 | a run whose date does not parse is kept |
| GithubClient.DatedKeptIff | src/github_client.py:61-62 | a run with an aware date is kept exactly when the date is at or after the cutoff, so the cutoff is included |
| GithubClient.KeptNoLonger | src/github_client.py:53-69 | the filtered list is no longer than the input |
| Processor.Merged | src/processor.py:22-47 | one merged record per run |
| Processor.MergedAt | src/processor.py:22-47 | the `i`th record is built from the `i`th run and that run's metrics |
| Processor.SortByStartDesc | src/processor.py:50 | the sort keeps the number of records |
| Processor.InsertDescMembers | src/processor.py:50 | inserting a record adds exactly that record |
| Processor.InsertDescSorted | src/processor.py:50 | inserting into a sorted list keeps it sorted |
| Processor.InsertDescWithKey | src/processor.py:50 | a record inserted goes before the records with its key that were already there |
| Processor.SortIsSorted | src/processor.py:50 | the output is ordered by `start_time or ""`, non-increasing |
| Processor.SortIsPermutation | src/processor.py:50 | the output is a permutation of the merged records |
| Processor.SortIsStable | src/processor.py:50 | records with equal keys keep their input order |
| Processor.ProcessRuns | src/processor.py:10-52 | the method returns the merged records of the runs, each built from the metrics of its own log, sorted |
| Processor.RecordRunId | src/processor.py:23 | every record's `run_id` is the run's `databaseId` as text |
| Processor.RecordOfFields | src/processor.py:24-46 | missing title or branch becomes `"N/A"` and missing conclusion `"unknown"`; every metric but the PR number is carried over unchanged |
| Processor.LogNumberWins | src/processor.py:32-33 | a truthy PR number from the log is kept |
| Processor.TitleNumberRoundTrip | src/processor.py:33-36 | without one, the digits after the first `#` of the title give the PR number |
| Processor.NoHashKeepsLogNumber | src/processor.py:33-36 | with no `#` in the title, the falsy log value stays |
| Formatters.FracDigits | src/formatters.py:14-15 | the fraction digits are 1 to 3 decimal digits with no trailing zero except a lone `0` |
| Formatters.FracDigitsValue | src/formatters.py:14-15 | the fraction digits read back as the thousandths they came from |
| Formatters.UnsignedRoundTrip | src/formatters.py:14-15 | the unsigned seconds text reads back as the milliseconds |
| Formatters.UnsignedTextRoundTrip | src/formatters.py:14-15 | the unsigned seconds text of `a` thousandths reads back as `a` and does not start with `-` |
| Formatters.ReadSignedOf | src/formatters.py:15 | a leading `-` negates the value the rest of the text reads as |
| Formatters.SecondsRoundTrip | src/formatters.py:13-15 | the seconds text for `ms` reads back as exactly `ms`, sign included |
| Formatters.SecondsCanonical | src/formatters.py:15 | the seconds text has no leading zero in the whole part and no trailing zero after the point, as `str` of a float prints it |
| Formatters.DurationNotAvailableIff | src/formatters.py:13-16 | the duration is `"N/A"` exactly when it is falsy |
| Formatters.DurationRaisesIff | src/formatters.py:13-15 | the duration raises exactly for a truthy string, list or dict (`TypeError`) or an integer whose quotient by 1000 is 2^1024 - 2^970 or more in magnitude (`OverflowError`) |
| Formatters.DurationOverflowBoundary | src/formatters.py:14 | one millisecond below 1000 times the float overflow bound is formatted; the bound itself, of either sign, raises |
| Formatters.DurationExamples | src/formatters.py:13-16 | 1500 gives `"1.5"`; `None` and 0 give `"N/A"` |
| Formatters.TimestampPointwise | src/formatters.py:28-29 | a timestamp keeps its first 19 characters in place (all when shorter), with `T` made a space |
| Formatters.TimestampNotAvailableIff | src/formatters.py:28-30 | the result is `"N/A"` exactly for `None`, `""` or the text `"N/A"` |
| Formatters.CanonicalTimestamp | src/formatters.py:29 | `YYYY-MM-DDTHH:MM:SS...` becomes `YYYY-MM-DD HH:MM:SS` |
| ReportGenerator.Row | src/report_generator.py:46-91 | a row that does not raise has one cell per header column |
| ReportGenerator.Written | src/report_generator.py:45-92 | no more rows are written than there are records |
| ReportGenerator.GenerateCsvReport | src/report_generator.py:21-92 | the header, then the rows of the records in order; the loop fails exactly when some record's row raises |
| ReportGenerator.WrittenPrefix | src/report_generator.py:45-92 | the rows written are the rows of the first records, in order, stopping exactly at the first record whose row raises |
| ReportGenerator.WrittenAll | src/report_generator.py:45-92 | with no failing record there is one row per record |
| ReportGenerator.NoneFailsExtend | src/report_generator.py:45-92 | a record whose row does not raise extends a failure-free prefix |
| ReportGenerator.RowsAligned | src/report_generator.py:25-92 | the header and every data row have 14 cells |
| ReportGenerator.RowFailsIff | src/report_generator.py:58-61 | a row raises exactly when the cost, or a truthy duration, is a string, list or dict, or an integer whose conversion to a float overflows (the cost at 2^1024 - 2^970 in magnitude, the duration at 1000 times that) |
| ReportGenerator.CountCellRoundTrip | src/report_generator.py:46 | a count cell is `"N/A"` exactly for a missing or zero count, and otherwise reads back as the count |
| ReportGenerator.LinkMatchesNumber | src/report_generator.py:70-73 | the PR link is `"N/A"` exactly when the PR number cell is; otherwise it is `https://github.com/<repo>/pull/<n>` |
| ReportGenerator.TextCellNotEmpty | src/report_generator.py:47-49 | a text cell is never empty and reads `"N/A"` only for an empty or `"N/A"` text |
| ReportGenerator.FalsyCellsNotAvailable | src/report_generator.py:46-67 | every falsy or missing value is written as `"N/A"` in its own column |
| ReportGenerator.CostNotAvailableIff | src/report_generator.py:58-59 | the cost cell is `"N/A"` exactly when the cost is `None` (0.0 is formatted), and raises exactly for a string, list or dict, or an integer of magnitude 2^1024 - 2^970 or more, which `f"{cost:.4f}"` cannot convert to a float |
| ReportGenerator.CostOverflowBoundary | src/report_generator.py:59 | an integer cost one below 2^1024 - 2^970 is formatted; at that bound, of either sign, the cost cell raises `OverflowError` |
| ReportGenerator.ModelAlias | src/report_generator.py:51-56 | every occurrence of `claude-sonnet-4-5-20250929` becomes `sonnet-4.5`, and nothing else changes |
| ReportGenerator.ModelExamples | src/report_generator.py:51-56 | the identifier on its own becomes `sonnet-4.5`; a missing or empty model is `"N/A"` |

Proof helpers for the loops, each one unfolding of a definition, carry no row: `LogParser.ClosingLineSkip`, `ClosingLineNone`, `ScanStep`, `ReassembleAtClose` and `ClosedAt`, and `MetricsExtractor.ResultLineSkip`.

## Left out

- Running `gh` (src/metrics_extractor.py:38-43, src/github_client.py:31-46) is not modelled, and neither is `sys.exit` when the run list cannot be fetched. The run list is an input. A run's log is the parameter `fetch`, where `None` means the fetch failed.
- `main.py` (command line, file paths, JSON output) is not part of this model.
- `json.loads` is the parameter `decode`, where `None` means a `JSONDecodeError`. No JSON parser is modelled, and neither is a `RecursionError` on deeply nested input.
- `datetime.now` and `datetime.fromisoformat` are the cutoff, an integer, and the parameter `parse`. Time zones are not modelled beyond naive versus aware.
- Float rendering is passed in: `str`/`repr` of a float (`floatText`), `f"{x:.4f}"` (`fixed4`), and `str` of a JSON list or dict (`container`).
- SecondsText: equals Python's `str(ms / 1000)` when `abs(ms) < 10**15`. From there up to the overflow bound the float quotient is rounded or printed with an exponent, and the model keeps the exact decimal. At `abs(ms) >= 1000 * (2**1024 - 2**970)` the division raises `OverflowError`, which `FormatDuration` models as a raise.
- The CSV writer's quoting and escaping, the output file and its encoding are not modelled. The report is the sequence of rows written.
- loguru logging is not modelled.
- Patterns.MatchAt: `\d` is ASCII digits only. Python's `re` also matches other Unicode decimal digits, and `int()` reads them.
- Python's 4300-digit limit on `int()` of a string is not modelled. Over it, `int()` raises inside the extractor's `try`, and the fields after that point would stay `None`.
- A run's keys use `None` for both an absent key and a JSON null. With `run.get(key, default)`, a stored null gives `None`, not the default, and that case is not modelled. Neither is a non-string `createdAt`, which would be kept through the `AttributeError` branch.
- Comparing a naive date with the aware cutoff raises `TypeError`, which nothing catches. FilterRuns models this as the `None` result; what happens to the exception afterwards is not modelled.
- ProcessRuns: a missing `databaseId` would raise `KeyError`. Run ids are always present in the model.
