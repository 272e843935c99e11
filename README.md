# Badge counter bot — verified model

The bot watches six certification groups (CBBH, CPTS, CDSA, CWEE, CAPE and
CJCA). For each group it reads two counters from the badge site: one for the
learning path and one for the exam. Once an hour it samples all of them and
compares the sample with the last row of its CSV history. When this is the
first sample, or when some counter moved, it appends the sample. For a moved
counter it also posts a change report to a chat channel. A separate command
reports, for every exam, when its counter last changed.

This project models the core of `bot.py` in Dafny:

- `Registry`: the group registry (`BADGES`). Ids come from an environment map and may be missing or empty. The module also derives the header row from the registry.
- `Decimal`: the integer text that `int()` reads and `str()` prints, with the round trip between them.
- `Fetcher`: sampling (`fetch_current_badge_numbers`). The scraper is a function parameter, and the loop keeps a log of the ids it requests.
- `Diff`: the diff engine (`compare_badge_numbers`), with `zip` truncation.
- `Formatter`: the change report (`generate_update_message`). A loop builds the report against a specification function. Lemmas prove its layout: which blocks appear, the order of the lines, the annotations, and the footer.
- `Query`: the last-batch query (`get_last_update_times`). It covers the early stop when a row is blank or too short. Lemmas characterise each entry as the start of the final run of equal exam texts.
- `History`: the history file (`get_last_badge_numbers` and `add_badge_numbers_to_csv`). The file is a class holding a sequence of rows, starting with the header. The module also holds the decision of `send_status_message`: a `Decide` function, and `Cycle` and `Tick` methods proved against it.

## Model

| member | source | states |
|---|---|---|
| Decimal.IntToString | bot.py:174 | `str(d)` starts with a minus sign exactly when `d` is negative |
| Decimal.NatToStringRoundTrip | bot.py:174 | the digits `str(n)` prints for a natural number read back as `n` |
| Decimal.IntToStringRoundTrip | bot.py:151 | whatever `str` prints is text `int()` accepts and reads back as the same number |
| Registry.ColumnNames | bot.py:50-64 | the header has one column more than twice the group count: `timestamp`, then `<NAME>-Path` and `<NAME>-Exam` for each group in order |
| Registry.RegistryMatchesHeader | bot.py:50-108 | for every environment, the registry has six groups with distinct names, and its derived columns are exactly the literal header written to a new file |
| Fetcher.FetchCurrent | bot.py:140-146 | the sample has width 2·groups+1; the timestamp comes first; group i's path value and exam value, as `fetch_badge_number` gives them, sit at columns 2i+1 and 2i+2; `calls` is the request log the model defines (the present ids, path before exam, group by group); a scraper that yields integer text gives a well-formed row |
| Fetcher.SampleIsWellFormed | bot.py:140-146 | a row built from a decimal scraper holds integer text in every counter column |
| Fetcher.FetchedTextIsDecimal | bot.py:126-136 | with a scraper that yields integer text, every counter `fetch_badge_number` gives is integer text |
| Fetcher.QueriesArePresentIds | bot.py:126-128 | every logged request is a non-empty id of some group; there are at most two per group |
| Fetcher.PresentIdsAreQueried | bot.py:143-145 | every present path or exam id is in the request log |
| Fetcher.RequestLogMatchesFetch | bot.py:126-136 | one counter depends on the scraper only at the ids the request log lists; an absent or empty id is not logged and gives "0" whatever the scraper |
| Fetcher.SampleUsesOnlyLoggedRequests | bot.py:140-146 | two scrapers that agree on a sample's logged requests give every group the same path and exam counters |
| Diff.ZipDiff | bot.py:151 | the difference list is as long as the shorter input; element k is `int(c[k]) - int(l[k])` |
| Diff.Compare | bot.py:150-151 | the result has one element fewer than the shorter row (none if a row is empty); element k is `int(current[k+1]) - int(last[k+1])` |
| Diff.SameCountsNoChange | bot.py:151 | two rows with the same counters show no change |
| Diff.DeltaRestoresCurrent | bot.py:151 | a last counter plus its difference gives the current counter |
| Diff.ShapeMismatchTruncates | bot.py:151 | a row of width 4 and a row of width 3 compare to [4, 5] on their common columns, without an error |
| Formatter.GenerateUpdateMessage | bot.py:165-180 | the loop, which builds each group's heading and lines in place, produces every group's block in registry order followed by the footer |
| Formatter.AnnotationShowsDelta | bot.py:174-176 | a line is annotated exactly when its difference is non-zero; the annotation is `**(+`, the difference as integer text that reads back as the difference, and `)**`; a negative difference shows as `**(+-` |
| Formatter.BlockOnlyForTrackedGroups | bot.py:171 | a group produces output exactly when its path id or its exam id is present |
| Formatter.BlockLayout | bot.py:171-177 | within a block: the heading comes first; the EXAM line follows it when the exam id is present; the PATH line follows after that when the path id is present; the block's length leaves room for nothing else, so an absent id has no line |
| Formatter.TrackedBlock | bot.py:171-177 | a group with both ids shows its heading, its EXAM line, its PATH line and a blank line |
| Formatter.ConcatPrefix | bot.py:166-177 | appending one block extends the message, and every partial message is a prefix of the whole |
| Formatter.GroupBlockAt | bot.py:167-177 | group i's block is built from differences 2i and 2i+1 and row columns 2i+1 and 2i+2, and it appears in the message right after the blocks of the groups before it |
| Formatter.MessageEndsWithTimestamp | bot.py:179 | the message always ends with `*Last update: <timestamp> UTC*`, using the sample's timestamp |
| Formatter.ExamIncreaseExample | bot.py:172-177 | an exam counter moving 10→12 with the path counter at 5 reads `:a: **A** \nEXAM: 12 **(+2)**\nPATH: 5 \n\n` |
| Query.FirstShort | bot.py:190-192 | the first group with an exam id whose exam column the row lacks; every earlier group's column exists |
| Query.GetLastUpdateTimes | bot.py:183-197 | the method's dictionary is the reference scan: rows in order until a blank or short row raises, whose earlier groups are still recorded |
| Query.RowsAfterFailureIgnored | bot.py:185-196 | once a row raises, later rows do not affect the result |
| Query.CompleteScan | bot.py:186-194 | when every row has its exam columns, the scan completes with the row-by-row dictionary |
| Query.BlankLastLineIgnored | bot.py:188-189 | a blank last line leaves the result as it was before that line |
| Query.LastChangeIsFinalRunStart | bot.py:191-194 | an exam column's entry is the last row's exam text with the timestamp of the first row of the final run of that text |
| Query.ScanRowEffect | bot.py:189-194 | scanning one row updates exactly the entries of groups that have an exam id, each as the change rule says; other keys are untouched |
| Query.UpdateTimesPerGroup | bot.py:186-194 | a non-empty history has an entry for exactly the groups with an exam id, and each entry is that column's last change |
| Query.LastUpdateTimesAreFinalRunStarts | bot.py:186-194 | group i has an entry exactly when its exam id is present; the entry is (timestamp where the final run of equal exam texts starts, last exam text) |
| Query.ChangeAtThirdSample | bot.py:193-194 | exam texts 10, 10 and 15 at t1, t2 and t3 report (t3, "15") |
| Query.UnchangedKeepsFirstTime | bot.py:193-194 | exam texts 10 and 10 at t1 and t2 report (t1, "10") |
| Query.HeaderHasExamColumns | bot.py:50-64 | the header row reaches every exam column |
| Query.HeaderOnlyHistory | bot.py:186-194 | on a header-only history each exam group reports ("timestamp", "<NAME>-Exam") |
| History.Zeros | bot.py:119-122 | the fallback row has the requested width and is all "0" |
| History.LastBadgeNumbers | bot.py:112-122 | the result is the fields of the file's last line, `[""]` when that line is blank, or zeros of width 2·groups+1 when the file cannot be read or is empty |
| History.DecisionRule | bot.py:221-243 | the sample is appended exactly when the history holds only the header or some difference is non-zero; a message is sent exactly when the sample was appended after an earlier sample and the channel is present; the message is the change report |
| History.FirstSampleIsStoredSilently | bot.py:224-226 | with a header-only history the sample is appended and no message is sent, whatever its values |
| History.RepeatedSampleIsNoOp | bot.py:228-243 | a sample with the same counters as the last stored sample is neither stored nor reported |
| History.BlankLastLineStopsRecording | bot.py:221-243 | when the file ends in a blank line, the last row reads as `[""]`, which shares no counter column with any sample, so no sample is ever stored or reported |
| History.HistoryStore.constructor | bot.py:49-67 | a new history file holds only the header row |
| History.HistoryStore.Append | bot.py:155-161 | the row is added at the end; the earlier rows are unchanged |
| History.HistoryStore.LastIsDecidable | bot.py:222-233 | the store's last row can always be compared with a well-formed sample |
| History.HistoryStore.Cycle | bot.py:221-243 | the new history is the old one plus the sample when the decision appends, otherwise it is unchanged; the message is the decision's; the store stays well-formed |
| History.HistoryStore.Tick | bot.py:221-243 | one hourly run: the sample taken at the given time with the given scraper, the scraper calls made, and the cycle's effect on the history and the message |
| History.HistoryStore.LastUpdateTimes | bot.py:183-197 | on the store's rows the query has an entry exactly for the groups with an exam id; each entry is the start of the final run of the last exam text |

## Left out

- HTTP and HTML parsing in `fetch_badge_number` are left out: `requests` and BeautifulSoup cannot be modelled. The scraper is a function parameter that returns text, or None for a `RequestException`.
- The uncaught `AttributeError` when the page lacks the counter span is not modelled. The code does not catch it.
- The Discord client, the `last_batch` reply text, `on_ready`, the hourly scheduler and `wait_until_ready` are left out. They are framework plumbing. `Tick` takes the channel's presence as a boolean.
- Start-up is left out: the directory and log creation, environment reading of the token and channel, and logging. Ids come from an environment map given as a parameter.
- The scraper is a pure function of the id, so two requests for the same id in one sample return the same text. The source makes a separate HTTP request for each, and the page may change between them.
- The clock is a parameter: `Tick` receives the formatted timestamp.
- CSV quoting is not modelled. The store holds fields, so a field containing a comma, quote or newline is not captured. Neither is the whitespace that `strip()` removes from the ends of the last line.
- History.HistoryStore.Append: a write error, which the source logs and swallows, is not modelled; the append always succeeds.
- History.LastBadgeNumbers: the source's fallback is a list of integer zeros; the model uses the text "0". Both compare unequal to "timestamp", and both read as 0.
- History.Decide: defined only where the source does not raise. An `int()` that fails on non-numeric text, and an indexing error in `generate_update_message` on a short row, are excluded by its precondition. `HistoryStore.Cycle` and `Tick` always meet it, because their samples are well-formed rows.
- Decimal.ParseInt: accepts an optional minus sign followed by digits. The `+` sign, surrounding whitespace and underscores, which `int()` also accepts, are not modelled.
- Diff.Compare: the code silently truncates rows of different widths with `zip`, and the model follows the code. A design that reports the mismatch as an error is not what the code does.
- Query.GetLastUpdateTimes: takes the rows as a parameter. A history file that cannot be opened, for which the source returns an empty dictionary, is not modelled.
