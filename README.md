# Threat-feed and activity-log ingestion, modelled in Dafny

This project models the two line-oriented ingestion pipelines of a small
security-monitoring tool and proves properties of the model.

- **Threat feed** (`threat_data_processor.py`):
  - Every line of a feed is stripped; blank lines are skipped.
  - A line is well-shaped only if it splits on commas into exactly six fields. Other lines are skipped with a diagnostic.
  - A well-shaped line becomes a `ThreatRecord`:
    - The four text fields are copied as split.
    - The `HH:MM:SS` duration is converted to `h*3600 + m*60 + s`.
    - The leaked-MB field goes through `int()`.
    - `is_investigated` is false.
  - A duration or MB field that `int()` rejects, or a duration that does not split into exactly three `:`-separated parts, aborts the whole batch.
  - Blacklist correlation:
    - The blacklist is read as its non-blank stripped lines, in order, duplicates kept.
    - Each entry issues one `UPDATE … SET is_investigated = TRUE WHERE attacker_ip = ip`.
    - The attacks table is modelled as an in-memory array of records. Each update is an in-place pass over it.
- **Activity log** (`activity_log_analyzer.py`):
  - Every line is stripped; blank lines are skipped.
  - A line with exactly four comma-separated parts becomes a `LogEntry` of the four stripped parts. Other lines give the empty result.
  - An entry is suspicious iff its result is exactly `FAILURE`.
  - The analysis collects the suspicious entries in file order, and the set of their IPs.
  - The saved report writes one `ip, timestamp, action, result` line per entry. The IP report writes each distinct IP once.

Modules:

- `Results` (`results.dfy`): `Option` and `Result`.
- `Text` (`text.dfy`): Python's `str.strip`, `str.split` and `str.join` for a one-character separator, with the whitespace set of `str.isspace`.
- `IntText` (`int_text.dfy`): Python's `int()` on base-10 text.
  - It accepts surrounding whitespace, one optional sign, and single underscores between digits.
  - A rendering function gives the round trip.
- `ThreatDataProcessor` (`threat_data_processor.dfy`): the threat-feed pipeline and the blacklist correlation.
- `ActivityLogAnalyzer` (`activity_log_analyzer.dfy`): the activity-log pipeline and its output.

Files are given to the model as sequences of lines: a line is what Python's
`for line in file` yields, terminator included or not (the model strips
either way; `Text.StripTrailing`). Outputs are returned values.

Both line loops (`ProcessThreatsFile`, `AnalyzeLogs`) are methods proved
against a specification function over the per-line results
(`Collect(Outcomes(lines))`, `Keep(EntriesOf(lines))`). Lemmas characterise
those functions.

How `int()` behaves shapes the model:

- `ThreatRecord.durationSec` and `dataLeakedMb` are `int`, not `nat`. `int()` accepts a sign, so `"-01:00:00"` converts to -3600 and is stored.
- A duration is any three `:`-separated parts that `int()` accepts, not only `HH:MM:SS`. For example `" 1 :2_0: +3"` converts to 3600 + 1200 + 3.
- `int()` skips less whitespace than `strip()`. The separator controls U+001C–U+001F count as whitespace for `strip()` but make `int()` fail (`IntText.IntSpace`).

## Model

| member | source | states |
|---|---|---|
| Text.Split | threat_data_processor.py:25 | `str.split` on one character: there is one more part than separators, no part holds the separator, and joining the parts gives the text back |
| Text.SplitJoin | threat_data_processor.py:55 | splitting a join of separator-free parts gives back exactly those parts, so a line's fields are recovered in order |
| Text.Strip | activity_log_analyzer.py:20 | `strip()` never lengthens the text; `StripIsTrimmed`, `StripKeepsOut` and `StripPadded` characterise it fully |
| Text.StripIsTrimmed | activity_log_analyzer.py:20 | `strip()` leaves no whitespace at either end and never lengthens the text |
| Text.StripKeepsOut | activity_log_analyzer.py:20 | `strip()` only removes characters: a comma-free text stays comma-free |
| Text.StripPadded | activity_log_analyzer.py:20 | `strip()` of whitespace + trimmed text + whitespace is exactly the trimmed text |
| Text.StripTrailing | activity_log_analyzer.py:54 | a trailing line terminator or other whitespace makes no difference to `strip()` |
| IntText.Render | threat_data_processor.py:66 | rendered integers are non-empty and made of digits, after at most one leading minus |
| IntText.ParseIntRender | threat_data_processor.py:66 | `int()` reads back every rendered integer, negative ones included |
| IntText.ParseIntZeroPadded | threat_data_processor.py:34 | `int()` accepts a leading zero, as in `"05"` |
| IntText.ParseInt | threat_data_processor.py:66 | a negative value comes only from text whose first character after `int()`'s whitespace is `-` |
| IntText.ParseIntPadded | threat_data_processor.py:34 | `int()` ignores surrounding whitespace, meaning the `str.isspace` characters other than U+001C–U+001F |
| IntText.ParseIntControlPrefix | threat_data_processor.py:34 | a leading U+001C–U+001F character is whitespace to `strip()` but makes `int()` fail |
| IntText.ParseIntRejects | threat_data_processor.py:66 | `int()` fails when the text, after its own whitespace is removed, holds a character other than a digit or underscore; a sign is allowed only first |
| IntText.ParseIntBlank | threat_data_processor.py:66 | `int()` fails on empty text and on text made only of its own whitespace |
| ThreatDataProcessor.ValidateThreatFormat | threat_data_processor.py:18-26 | a line is well-shaped iff its stripped text holds exactly five commas, so 5- and 7-field lines are rejected |
| ThreatDataProcessor.ParseDuration | threat_data_processor.py:28-35 | conversion succeeds only on text with exactly two colons |
| ThreatDataProcessor.DurationOfParts | threat_data_processor.py:34-35 | for any three colon-free parts the result is `h*3600 + m*60 + s` of what `int()` makes of them, and fails iff `int()` fails on one of them |
| ThreatDataProcessor.DurationOfRendered | threat_data_processor.py:34-35 | any three integers, minutes and seconds unbounded and signs allowed, convert to `h*3600 + m*60 + s` |
| ThreatDataProcessor.FormatDurationRoundTrip | threat_data_processor.py:34-35 | every non-negative seconds count written as zero-padded `HH:MM:SS` converts back to itself (this covers `01:30:00`→5400, `00:45:30`→2730, `00:00:59`→59) |
| ThreatDataProcessor.ParsePad2 | threat_data_processor.py:34 | a zero-padded two-or-more-digit component reads back as its value under `int()` |
| ThreatDataProcessor.ParseThreatLine | threat_data_processor.py:46-68 | one loop step: a line is blank iff its stripped text is empty; it is skipped as malformed iff it is non-blank and lacks exactly five commas; otherwise the outcome is `BuildRecord` of the six fields of its stripped text; a record built from it is not investigated and has comma-free text fields |
| ThreatDataProcessor.BuildRecord | threat_data_processor.py:55-68 | six fields give a record or a content error, never a skip; a record exactly when both the duration (field 5) and the leaked MB (field 6) convert; the record carries fields 1–4 unchanged, the converted duration and MB, and `is_investigated = false`; the error names the duration when it fails, since it is converted first, and otherwise the MB field |
| ThreatDataProcessor.ThreatLineRoundTrip | threat_data_processor.py:55-68 | a record written as a feed line is read back as exactly that record |
| ThreatDataProcessor.ProcessThreatsFile | threat_data_processor.py:37-70 | the loop returns exactly `Collect(Outcomes(lines))` |
| ThreatDataProcessor.Outcomes | threat_data_processor.py:46-68 | one outcome per line, each line handled on its own |
| ThreatDataProcessor.Collect | threat_data_processor.py:46-70 | a successful batch has at most one record per outcome; `CollectSucceeds`, `CollectFirstError`, `CollectMembers` and `CollectAppend` give the rest |
| ThreatDataProcessor.CollectSucceeds | threat_data_processor.py:58 | the batch succeeds iff no line has a content error |
| ThreatDataProcessor.CollectFirstError | threat_data_processor.py:66 | the batch fails with error e iff e is the first content error in file order; no partial list is returned |
| ThreatDataProcessor.CollectMembers | threat_data_processor.py:60-68 | on success, the records are exactly those parsed from some line |
| ThreatDataProcessor.CollectAppend | threat_data_processor.py:46-68 | lines are handled in file order: the records of a concatenated feed are those of the first part then those of the second, and an error in the first part ends the run |
| ThreatDataProcessor.OutcomesAppend | threat_data_processor.py:46-47 | each line is handled independently of its neighbours |
| ThreatDataProcessor.BlacklistOf | threat_data_processor.py:142-147 | the blacklist has at most one entry per line |
| ThreatDataProcessor.ReadBlacklist | threat_data_processor.py:142-147 | the reading loop returns `BlacklistOf(lines)` |
| ThreatDataProcessor.BlacklistMembers | threat_data_processor.py:144-147 | an IP is in the blacklist iff it is non-empty and is the stripped text of some line |
| ThreatDataProcessor.BlacklistAppend | threat_data_processor.py:144-147 | blacklist lines are read in order, with duplicates kept |
| ThreatDataProcessor.Mark | threat_data_processor.py:150-157 | one UPDATE on one row: the row ends investigated iff it already was or its IP equals the blacklisted IP; no other column changes |
| ThreatDataProcessor.MarkAll | threat_data_processor.py:150-157 | one UPDATE keeps the table's size |
| ThreatDataProcessor.MarkInvestigated | threat_data_processor.py:150-157 | the in-place pass leaves the table equal to `MarkAll` of the old table: matching rows flagged, all other rows unchanged |
| ThreatDataProcessor.UpdateInvestigatedStatus | threat_data_processor.py:136-159 | one update per blacklist entry, and the table ends as the fold of those updates over the old table |
| ThreatDataProcessor.ApplyUpdates | threat_data_processor.py:150-157 | the UPDATEs, issued in blacklist order, never add or remove rows |
| ThreatDataProcessor.ApplyUpdatesEffect | threat_data_processor.py:150-157 | after the updates a record is investigated iff it already was or its IP is in the blacklist; every other field, and every non-matching record, is unchanged |
| ThreatDataProcessor.ApplyUpdatesIdempotent | threat_data_processor.py:156-157 | applying the blacklist twice gives the same table as applying it once |
| ThreatDataProcessor.ApplyUpdatesBySet | threat_data_processor.py:156-157 | the result depends only on the set of blacklisted IPs, not on their order or repetitions |
| ThreatDataProcessor.UnmatchedIpIsNoOp | threat_data_processor.py:150-157 | a blacklisted IP that matches no record changes nothing |
| ActivityLogAnalyzer.ParseLogLine | activity_log_analyzer.py:14-29 | a line gives an entry iff it holds exactly three commas, i.e. splits into four parts; otherwise the empty result, never an error |
| ActivityLogAnalyzer.ParsedIsClean | activity_log_analyzer.py:20 | every parsed field is comma-free and has no surrounding whitespace |
| ActivityLogAnalyzer.ParsePaddedLine | activity_log_analyzer.py:20-29 | four clean fields, each surrounded by any whitespace, parse to ip, timestamp, action, result in that order |
| ActivityLogAnalyzer.IsSuspicious | activity_log_analyzer.py:31-42 | the definition is the whole rule: the result equals `FAILURE`, case-sensitively; its ensures is a convenience fact about that literal (comma-free, no surrounding whitespace) |
| ActivityLogAnalyzer.EntryOf | activity_log_analyzer.py:54-60 | a line yields an entry iff its stripped text is non-empty and holds exactly three commas |
| ActivityLogAnalyzer.Keep | activity_log_analyzer.py:62-64 | every collected entry is suspicious (result `FAILURE`), and there are no more entries than lines |
| ActivityLogAnalyzer.AnalyzeLogs | activity_log_analyzer.py:44-66 | the loop returns exactly `SuspiciousOf(lines)` and the set of their IPs |
| ActivityLogAnalyzer.SuspiciousMembers | activity_log_analyzer.py:53-64 | an entry is returned iff it is suspicious and is what some non-blank line parses to; blank, malformed and non-failure lines contribute nothing, so an empty log gives nothing |
| ActivityLogAnalyzer.SuspiciousAppend | activity_log_analyzer.py:53-63 | entries come out in file order: a concatenated log gives the entries of its first part followed by those of its second |
| ActivityLogAnalyzer.SuspiciousIps | activity_log_analyzer.py:62-64 | an IP is in the set iff some suspicious line carries it |
| ActivityLogAnalyzer.IpsOfBound | activity_log_analyzer.py:64 | there are never more distinct IPs than entries |
| ActivityLogAnalyzer.IpsOfSnoc | activity_log_analyzer.py:63-64 | collecting one more entry adds exactly its IP to the set |
| ActivityLogAnalyzer.FormatEntry | activity_log_analyzer.py:77 | a report line of comma-free fields splits on commas into the ip, then the timestamp, action and result each behind one space |
| ActivityLogAnalyzer.FormatRoundTrip | activity_log_analyzer.py:77 | an entry with clean fields written as `ip, timestamp, action, result` parses back to itself |
| ActivityLogAnalyzer.EntryOfFormat | activity_log_analyzer.py:54-58 | the analysis reads each written line back to its entry, also when the result field is empty and the written line ends in a space |
| ActivityLogAnalyzer.SuspiciousClean | activity_log_analyzer.py:20 | every entry the analysis returns has clean fields |
| ActivityLogAnalyzer.SaveSuspiciousActivity | activity_log_analyzer.py:68-79 | the report holds one formatted line per suspicious entry, in order |
| ActivityLogAnalyzer.ReanalyzeFormatted | activity_log_analyzer.py:73-77 | analysing the report lines of suspicious, clean entries gives back exactly those entries |
| ActivityLogAnalyzer.SavedActivityReanalyzes | activity_log_analyzer.py:73-77 | the saved report, analysed again, yields the same entries as the original log |
| ActivityLogAnalyzer.SaveSuspiciousIps | activity_log_analyzer.py:81-92 | the IP report lists every suspicious IP exactly once and nothing else |

## Left out

- File handling is not modelled: `open`, line splitting and the writing of output files. File contents are sequences of lines and outputs are returned values.
- The diagnostics printed by both pipelines are not modelled, including the "Invalid format" message and the saved/updated counts. Only their counts appear, as `|…|` of returned values.
- The SQL operations are not modelled: `create_attacks_table`, `insert_threats_to_db` and `get_top_attacker_ips`. They only hand query text to the database, and the ranking is done by the database. `UpdateInvestigatedStatus` models the UPDATE's effect on an in-memory table instead of the database call.
- `query_handler.py`, `threat_analyzer.py` and `main.py` are not part of this model. They are database plumbing, plotting and orchestration. `credentials_validator.py`, `db_adaptor.py` and `malware_analyzer.py` are not part of this model either.
- Set iteration order in `save_suspicious_ips` is left open: `SaveSuspiciousIps` picks any order.
- IntText.ParseInt: does not accept non-ASCII Unicode decimal digits, which Python's `int()` does, and does not model the 4300-digit limit on conversions.
- ThreatDataProcessor.Mark: matching is exact string equality; the database collation is not modelled. The database engine is not named in the code. Under a case-insensitive or trailing-space-insensitive collation, such as MySQL's default, the database would also flag rows that `Mark` leaves alone.
- Text.Strip: models only `strip()` with no argument, which is the only form the core uses.
- The unit tests' literal examples are covered by the general lemmas (for example `FormatDurationRoundTrip` for the three durations, `SuspiciousMembers` and `SuspiciousIps` for the sample logs) rather than restated one by one.
