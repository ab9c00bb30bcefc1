# OCLC work-id scripts, modelled in Dafny

This project models the three scripts that link a library's bibliographic
records (identified by local *bibids*) to OCLC *work ids*:

- **mx_grep_oclc.py** reads MARC records. For each record that has a 001
  field and at least one `$a` subfield of the form `(OCoLC)<digits>` in its
  first 035 field, it prints the bibid (the value of field 001), a tab, and
  those OCLC numbers. Other records print nothing. It also counts records
  seen, records matched and subfields matched.
  Module `GrepOclc`: class `Grepper`.
- **mx_get_oclc_workids.py** reads those `bibid oclcnum...` lines into an
  index from OCLC number to bibid. It then streams OCLC's three-column
  concordance (`oclcnum1 oclcnum2 workid`). For each line it looks up
  column 1, and column 2 only if column 1 is not indexed. On a hit it adds
  the bibid to the workid's list. Finally it writes the lists sorted by
  workid string. Module `GetOclcWorkids`: class `BibidOclcnums` and method
  `JoinConcordance`.
- **mx_analyze_workids.py** reads `workid bibid` pair lines into a table
  from each workid to its bibids, and a reverse table from each bibid to
  its distinct workids. It warns when a bibid meets a second workid,
  writes the table sorted by numeric workid, and summarises it as a
  histogram of list sizes. Module `AnalyzeWorkids`: class `Workids`.

Shared modules:

- `Text` models Python 2's `str.split()`, `" ".join`, the comment-or-blank
  test, `int()` on a token, `"%d"` and byte-wise string order.
- `Sorting` models `sorted(...)` over dictionary keys.
- `Totals` sums over map values in any order.

The scripts' files are modelled as sequences of lines, without the line
terminator. What the scripts write is returned as a sequence of lines.

Each class keeps the script's dictionaries as `map` fields and its counters
as `nat` fields. Its methods loop the way the script does. Each method is
proved against a specification function that folds the input one line or
one record at a time, for example `ReadLines`, `JoinLines` or
`EmittedLines`. The properties the scripts promise are lemmas about those
functions.

The printed lines feed the index reader of mx_get_oclc_workids.py only
when each bibid is a single whitespace-free word that does not start with
`#` (`GrepOclc.EmittedLineIndexed`). The grep script prints any 001 value.
For a value with a space inside, such as `ab 12` with number 456, the
printed line is `ab 12<tab>456`, and the reader then maps `12` to `ab`,
while 456 is not indexed (`GrepOclc.SpacedBibidMisindexed`).

Where the comments and the code disagree, the model follows the code:

- The docstring of `bibid_oclcnums.read` says the first entry wins for a
  duplicated OCLC number. The assignment at mx_get_oclc_workids.py:43
  overwrites, so the last entry wins (`GetOclcWorkids.LastWins`).
- The log message at mx_analyze_workids.py:49 says a line with more than
  two tokens is ignored. The code goes on and records its first two
  tokens (`AnalyzeWorkids.ExtraTokensDropped`).
- The docstring at mx_analyze_workids.py:34-35 says all values become
  integers. Only the workid is converted; bibids stay strings.
- The comment at mx_get_oclc_workids.py:102 speaks of matches in the first
  or second column. Column 2 is consulted only when column 1 is not
  indexed (`GetOclcWorkids.Col1Wins`).

## Model

| member | source | states |
|---|---|---|
| Text.IsIgnored | mx_analyze_workids.py:41 | the comment-or-blank test (also mx_get_oclc_workids.py:31): after leading whitespace the line is empty or starts with `#`; `IgnoredByTokens` restates it in terms of `split()` |
| Text.Split | mx_analyze_workids.py:45 | every piece `split()` returns is a non-empty run without whitespace |
| Text.WordOfToken | mx_analyze_workids.py:45 | the first word of a token followed by nothing or whitespace is that token |
| Text.SplitTokenThen | mx_analyze_workids.py:45 | a token followed by nothing or whitespace splits into that token and the words of the rest |
| Text.Join | mx_analyze_workids.py:88 | `" ".join(ts)` (also mx_get_oclc_workids.py:67 and mx_grep_oclc.py:40): the pieces in order with one space between neighbours; `SplitJoin` is its inverse |
| Text.SplitJoin | mx_analyze_workids.py:88 | `split()` undoes `" ".join` of whitespace-free tokens |
| Text.IgnoredByTokens | mx_analyze_workids.py:41 | a line is a comment or blank exactly when it has no token or its first token starts with `#` |
| Text.ParseInt | mx_analyze_workids.py:54 | `int(d[0])` on a token: an optional `+` or `-` followed by one or more decimal digits gives their value; anything else raises, modelled as `None`; `IntToDecimalRoundTrip` pairs it with `"%d"` |
| Text.IntToDecimal | mx_analyze_workids.py:88 | `"%d" % workid`: a `-` for negative numbers, then the decimal digits without leading zeros; `IntToDecimalRoundTrip` shows `int()` reads it back |
| Text.IntToDecimalRoundTrip | mx_analyze_workids.py:54 | `int("%d" % x) == x`; the formatted number is one token and does not start with `#` |
| Text.LexLess | mx_get_oclc_workids.py:65 | Python 2 `a < b` on byte strings: the first differing character decides, and a proper prefix comes first |
| Text.LexLessTransitive | mx_get_oclc_workids.py:65 | byte-wise string order is transitive |
| Text.LexLessConnected | mx_get_oclc_workids.py:65 | any two different strings are ordered one way or the other |
| Text.LexLessIrreflexive | mx_get_oclc_workids.py:65 | no string comes before itself |
| Sorting.Insert | mx_analyze_workids.py:86 | inserting a new element into an ascending sequence keeps it ascending and adds exactly that element |
| Sorting.SortSet | mx_analyze_workids.py:86 | `sorted(keys)`: strictly ascending, holding each key once and nothing else |
| Sorting.SortInts | mx_analyze_workids.py:86 | `sorted(keys, key=int)` on integer workids: strictly increasing, each key once and nothing else |
| Sorting.SortStrings | mx_get_oclc_workids.py:65 | `sorted(works)` on workid strings: byte-wise ascending, each key once and nothing else |
| Sorting.StringOrderIsStrictTotal | mx_get_oclc_workids.py:65 | Python 2 string comparison is a strict total order |
| Totals.SumOverRemove | mx_get_oclc_workids.py:47-54 | a sum over map values may take out any key first |
| Totals.TotalUpdate | mx_get_oclc_workids.py:47-54 | replacing one value changes the total by the difference |
| AnalyzeWorkids.ParsePairLine | mx_analyze_workids.py:41-58 | what `read` makes of a line: a comment or blank line is skipped; fewer than two tokens, or a first token `int()` refuses, is a bad line; otherwise the pair (`int(d[0])`, `d[1]`), whatever follows |
| AnalyzeWorkids.Record | mx_analyze_workids.py:59-71 | one accepted pair: the bibid is appended to the workid's list; the workid is appended to the bibid's list, with a warning carrying the new list, only when the bibid is known and the workid is new for it; a new bibid starts a one-element list without a warning |
| AnalyzeWorkids.ReadLine | mx_analyze_workids.py:40-71 | one iteration of the loop of `read`: `Record` for a pair line, no change otherwise |
| AnalyzeWorkids.ReadLines | mx_analyze_workids.py:39-71 | the loop of `read`: the lines applied in file order; `ReadLinesForward`, `ReadLinesReverse` and `ConflictsPerBibid` say what it builds |
| AnalyzeWorkids.Workids.constructor | mx_analyze_workids.py:22-29 | starts with empty tables and the two format strings, then reads the file when one is given |
| AnalyzeWorkids.Workids.Read | mx_analyze_workids.py:31-73 | the tables become the old tables with every line folded in by `ReadLines`; the invariant is kept; the line counter equals the number of lines, comments and bad lines included |
| AnalyzeWorkids.ReadLineEffect | mx_analyze_workids.py:40-71 | comment, blank and rejected lines change nothing; an accepted pair appends its bibid to its workid's list and no other workid changes; a warning is logged exactly when the bibid is known without this workid, and it lists all of the bibid's workids |
| AnalyzeWorkids.ExtraTokensDropped | mx_analyze_workids.py:46-55 | a line with two or more tokens whose first is an integer is recorded as its first two tokens |
| AnalyzeWorkids.RecordWellFormed | mx_analyze_workids.py:59-71 | recording a pair keeps every list non-empty and every reverse list free of duplicates |
| AnalyzeWorkids.RecordMirrored | mx_analyze_workids.py:59-71 | recording a pair keeps "`b` in `workids[w]` if and only if `w` in `bibids[b]`" |
| AnalyzeWorkids.RecordCounted | mx_analyze_workids.py:64-69 | recording a pair keeps one warning per workid of a bibid beyond its first |
| AnalyzeWorkids.RecordPreserves | mx_analyze_workids.py:59-71 | recording a pair keeps the whole invariant |
| AnalyzeWorkids.ReadLinePreserves | mx_analyze_workids.py:41-71 | reading any line keeps the invariant |
| AnalyzeWorkids.ReadLinesPreserves | mx_analyze_workids.py:39-71 | reading any file keeps the invariant |
| AnalyzeWorkids.ReadLinesForward | mx_analyze_workids.py:59-62 | each workid's list is its old list followed by the bibids of the accepted lines about it, in input order, duplicates kept |
| AnalyzeWorkids.ReadLinesReverse | mx_analyze_workids.py:64-71 | each bibid's reverse list is its old list extended by its new workids, each once, in first-seen order |
| AnalyzeWorkids.ReadLineReverse | mx_analyze_workids.py:64-71 | one line extends a bibid's reverse list by its workid exactly when the line is about that bibid and the workid is new for it |
| AnalyzeWorkids.EmptyInvariant | mx_analyze_workids.py:23-24 | the empty tables satisfy the invariant |
| AnalyzeWorkids.ConflictsPerBibid | mx_analyze_workids.py:64-69 | reading a file from scratch logs, for each bibid, one warning per distinct workid beyond its first |
| AnalyzeWorkids.ConflictedPairsKept | mx_analyze_workids.py:59-69 | every pair of a conflicted bibid stays in the forward table |
| AnalyzeWorkids.AppendNewHolds | mx_analyze_workids.py:67-68 | a workid met for a bibid is in its reverse list |
| AnalyzeWorkids.WorksLine | mx_analyze_workids.py:88 | the output line for one workid: `"%d"` of the workid, a space, and its bibids joined by spaces |
| AnalyzeWorkids.Header | mx_analyze_workids.py:82-84 | the three header lines, the second and third naming the workid and bibid format strings |
| AnalyzeWorkids.WorksLineRoundTrip | mx_analyze_workids.py:88 | a written line splits back into the formatted workid and its bibids, the workid parses back, and the line is not a comment |
| AnalyzeWorkids.WorksLineLeading | mx_analyze_workids.py:88 | a written line's first token parses to its workid and the other tokens are its bibids |
| AnalyzeWorkids.HeaderIgnored | mx_analyze_workids.py:82-84 | the three header lines read back as comments |
| AnalyzeWorkids.BodyListsTable | mx_analyze_workids.py:85-88 | `ListsTable`: lines written for the sorted keys give one non-comment line per workid, in strictly ascending order, each exactly the text `"%d %s"` writes for that workid and its bibids |
| AnalyzeWorkids.Workids.WriteWorksData | mx_analyze_workids.py:75-90 | three comment header lines, then the `ListsTable` body: one non-comment line per workid in ascending numeric order, each exactly `WorksLine` of that workid and its stored list (decimal workid, single spaces), so it splits back into them |
| AnalyzeWorkids.TallyBump | mx_analyze_workids.py:99-102 | visiting a workid whose size was seen keeps "`counts[n]` is the number of visited workids of size `n`" |
| AnalyzeWorkids.TallyNew | mx_analyze_workids.py:99-107 | visiting a workid of a new size starts its count at 1 with that workid as example |
| AnalyzeWorkids.TallyEmpty | mx_analyze_workids.py:97-98 | empty counts describe no visited workid |
| AnalyzeWorkids.WithSizeAdd | mx_analyze_workids.py:100-104 | one more workid adds one to the count of its own size only |
| AnalyzeWorkids.Workids.Tally | mx_analyze_workids.py:97-107 | after visiting every workid, `counts[n]` is the number of workids with `n` bibids, and each example is such a workid with its first three bibids at most |
| AnalyzeWorkids.TallyRows | mx_analyze_workids.py:108-112 | rows for the sorted sizes of a complete tally form the `Histogram` of the table |
| AnalyzeWorkids.ListRows | mx_analyze_workids.py:110-112 | the second loop of `stats`: one row per size, in the order given, with that size's count and example |
| AnalyzeWorkids.SumCountsCovered | mx_analyze_workids.py:110-111 | rows for distinct sizes add up to the number of workids whose size has a row |
| AnalyzeWorkids.SumCountsAll | mx_analyze_workids.py:97-111 | rows that cover every workid add up to the number of workids |
| AnalyzeWorkids.Workids.Stats | mx_analyze_workids.py:92-112 | `Histogram`: one row per list size in ascending order; each size is at least 1; its count is the number of workids of that size; the example has that size and at most 3 bibids; the counts add up to the number of workids |
| GetOclcWorkids.BibidOclcnums.constructor | mx_get_oclc_workids.py:15-19 | starts empty, then reads the index file when one is given |
| GetOclcWorkids.BibidOclcnums.Read | mx_get_oclc_workids.py:21-45 | the index becomes the old index with every line folded in by `ReadLines`; `works` is untouched; the line counter equals the number of lines |
| GetOclcWorkids.ParseIndexLine | mx_get_oclc_workids.py:31-42 | what `read` makes of a line: comment or blank, fewer than two tokens, or the entry (token 0, token 1), further tokens dropped |
| GetOclcWorkids.ReadLine | mx_get_oclc_workids.py:31-43 | one iteration of the loop of `read`: an entry line sets `bibids[oclcnum] = bibid`, overwriting; other lines change nothing |
| GetOclcWorkids.ReadLines | mx_get_oclc_workids.py:29-43 | the loop of `read`: the lines applied in file order; `LastWins` says what it builds |
| GetOclcWorkids.ReadLineAt | mx_get_oclc_workids.py:41-43 | one line sets the entry for an OCLC number to its bibid when it is an entry line for that number, and otherwise leaves that entry as it was |
| GetOclcWorkids.LastWins | mx_get_oclc_workids.py:25-43 | a number is indexed exactly when it was before or an entry line names it; the last such line's bibid wins; numbers no line names keep their bibid |
| GetOclcWorkids.OnlyFirstOclcnum | mx_get_oclc_workids.py:35-43 | a line `bibid oclcnum rest...` maps that one number, and no other, to the bibid |
| GetOclcWorkids.ReadLinesTokens | mx_get_oclc_workids.py:35-43 | indexed numbers and bibids are whitespace-free tokens |
| GetOclcWorkids.AddedWork | mx_get_oclc_workids.py:47-54 | the bibid is appended to the end of the workid's list, or starts a one-element list; no other key changes |
| GetOclcWorkids.AddWorkCount | mx_get_oclc_workids.py:47-54 | `add_work` adds exactly one entry to the total across all lists |
| GetOclcWorkids.BibidOclcnums.AddWork | mx_get_oclc_workids.py:47-54 | `works` becomes `AddedWork` of the old works; the index is untouched |
| GetOclcWorkids.Lookup | mx_get_oclc_workids.py:113-118 | column 1 hits exactly when it is indexed; column 2 only when column 1 is not and column 2 is; otherwise a miss |
| GetOclcWorkids.JoinLine | mx_get_oclc_workids.py:108-118 | one iteration of the concordance loop: after a failure nothing changes; otherwise `n` grows by 1, a line that does not split into exactly three tokens ends the run, and a line that does adds the bibid found by `Lookup` to its workid and counts the column that matched |
| GetOclcWorkids.JoinLines | mx_get_oclc_workids.py:108-118 | the concordance loop: the lines applied in file order; `JoinCounts` and `AbortsAtFirstMalformed` say what it builds |
| GetOclcWorkids.JoinLineOnTokens | mx_get_oclc_workids.py:112-118 | a line `o1 o2 w` adds the bibid of `o1` and counts a column-1 match, or failing that the bibid of `o2` and a column-2 match, or changes nothing but the line counter |
| GetOclcWorkids.Col1Wins | mx_get_oclc_workids.py:113-115 | when column 1 is indexed the outcome does not depend on column 2 |
| GetOclcWorkids.JoinLinesBalanced | mx_get_oclc_workids.py:105-118 | every entry added is counted by exactly one match counter, and there are no more matches than lines |
| GetOclcWorkids.JoinCounts | mx_get_oclc_workids.py:104-120 | after the loop, total entries equal old entries plus `num1_matches + num2_matches`, and that sum is at most `n` |
| GetOclcWorkids.JoinLinesStopped | mx_get_oclc_workids.py:112 | nothing is read after a line fails to unpack |
| GetOclcWorkids.AbortsAtFirstMalformed | mx_get_oclc_workids.py:108-112 | the run fails exactly when some line does not split into three tokens, at the first such line, with all earlier lines joined; otherwise `n` counts every line |
| GetOclcWorkids.JoinLinesTokens | mx_get_oclc_workids.py:112-118 | joining keeps workids and bibids whitespace-free and lists non-empty |
| GetOclcWorkids.JoinLineTokens | mx_get_oclc_workids.py:112-118 | one concordance line keeps workids and bibids whitespace-free and lists non-empty |
| GetOclcWorkids.JoinLinesAppend | mx_get_oclc_workids.py:108-119 | reading two stretches of the concordance one after the other is reading them together |
| GetOclcWorkids.JoinConcordance | mx_get_oclc_workids.py:104-120 | `works`, `n`, the two counters and the failure flag are those `JoinLines` gives from the old works; the index is untouched |
| GetOclcWorkids.HeaderIgnored | mx_get_oclc_workids.py:63 | the header line reads back as a comment |
| GetOclcWorkids.WorksLine | mx_get_oclc_workids.py:67 | the output line for one workid: the workid string, a space, and its bibids joined by spaces |
| GetOclcWorkids.WorksLineRoundTrip | mx_get_oclc_workids.py:67 | a written line splits back into its workid and its bibids |
| GetOclcWorkids.BodyListsWorks | mx_get_oclc_workids.py:64-67 | lines written for the sorted keys list every workid once, in byte-wise order, each exactly the text `"%s %s"` writes for that workid and its bibids |
| GetOclcWorkids.BibidOclcnums.WriteWorksData | mx_get_oclc_workids.py:56-69 | the `#workid bibids` header, then one line per workid in byte-wise order of the workid strings, each exactly `WorksLine` of that workid and its bibids in insertion order (single spaces), so it splits back into them |
| GrepOclc.OclcNumber | mx_grep_oclc.py:35-37 | the regex match and its group: the digits after `(OCoLC)` when the rest of the subfield is one or more digits, otherwise no match |
| GrepOclc.OclcNumberExact | mx_grep_oclc.py:35-37 | a subfield matches exactly when it is `(OCoLC)` followed by one or more digits and nothing else, and the match is those digits |
| GrepOclc.Extract | mx_grep_oclc.py:32-38 | at most one number per subfield, each a digit string |
| GrepOclc.ExtractAppend | mx_grep_oclc.py:33-37 | extraction goes subfield by subfield and keeps their order |
| GrepOclc.ExtractExact | mx_grep_oclc.py:33-37 | the numbers extracted are exactly the matches of the subfields |
| GrepOclc.FieldsMatched | mx_grep_oclc.py:33-38 | how much `fields_matched` grows on one record: the number of matching subfields when it has a 001 and an 035, otherwise 0 |
| GrepOclc.GrepRecord | mx_grep_oclc.py:23-43 | a record is printed exactly when at least one subfield matched, as bibid, tab and the numbers joined by spaces; it is bad exactly when it has no 001 |
| GrepOclc.EmittedLineIndexed | mx_grep_oclc.py:40 | a printed line whose bibid is a token not starting with `#` is an entry line for the index reader, which maps the first number to the bibid |
| GrepOclc.SpacedBibidMisindexed | mx_grep_oclc.py:28-40 | a 001 value `a b` with a space inside is printed unchanged, and the index reader maps `b` to `a` instead of the extracted number to the bibid |
| GrepOclc.SplitTwoWords | mx_grep_oclc.py:40 | `a b` followed by nothing or whitespace splits into `a`, `b` and the words of the rest |
| GrepOclc.EmittedLines | mx_grep_oclc.py:33-41 | the lines printed for a file of records, in order: one per record that `GrepRecord` emits |
| GrepOclc.EmittedBounded | mx_grep_oclc.py:38-41 | over any run, no more records are printed than were seen, or than subfields matched |
| GrepOclc.Grepper.constructor | mx_grep_oclc.py:18-21 | all three counters start at 0 |
| GrepOclc.Grepper.Grep | mx_grep_oclc.py:23-43 | `records_seen` grows by 1 on every record, bad ones included; `fields_matched` grows by the number of matching subfields; `records_matched` grows by 1 exactly when a line is printed; `records_matched` stays at most both other counters |
| GrepOclc.Grepper.GrepAll | mx_grep_oclc.py:70 | over a file, the printed lines are `EmittedLines` of its records and the counters grow by the number of records, lines and matching subfields |

## Left out

- mx_count.py is not part of this model. It only adds up a record count
  from a pymarc callback.
- Command-line handling is not modelled: option parsing, argument-count
  checks and usage text (mx_analyze_workids.py:115-145,
  mx_get_oclc_workids.py:71-91, mx_grep_oclc.py:45-73).
- The top-level sequence of mx_get_oclc_workids.py (lines 89-91 and 122-123)
  is not a separate member. It is the `BibidOclcnums` constructor, then
  `JoinConcordance`, then `WriteWorksData` when the join did not fail. The
  "Have %d mappings" print is not modelled.
- The top-level sequence of mx_analyze_workids.py (lines 136-143) is not a
  separate member either. It is the `Workids` constructor, the assignment
  of the `--bibid-fmt` option to `bibid_fmt`, then `WriteWorksData` and
  `Stats`.
- Files, gzip and printing are not modelled. Input files are sequences of
  lines and output is a sequence of lines.
- GrepOclc.GrepRecord: a printed line cannot fail here. In Python 2 the
  `print` at mx_grep_oclc.py:40 raises UnicodeEncodeError for a non-ASCII
  001 value when stdout is a pipe; the record is then logged as bad and
  prints nothing, `fields_matched` has already grown (line 38) and
  `records_matched` does not (line 41). The model prints the line and
  counts the record.
- pymarc is not modelled. A record is reduced to the value of its 001
  field, if any, and the `$a` subfields of its first 035 field, if any. Any
  035 field present counts as true. The only exception modelled is a
  missing 001; other pymarc errors are not.
- Logging is left out except the conflict warnings of
  mx_analyze_workids.py:69 (`Tables.conflicts`) and the histogram rows of
  `stats`, which are returned. Progress messages, line-count messages and
  the "Bad record" warning text are not modelled. A bad record is the
  outcome `BadRecord`.
- The URI format strings are used only as text in the header lines and in
  the histogram examples, so the model does not apply them. An example
  holds the workid and its first three bibids at most.
- GrepOclc.OclcNumber: Python's regex `$` also matches just before a final
  newline, so a `$a` value such as `(OCoLC)123` followed by a newline is
  matched by the script, with group `123`, and not by the model. The model
  reads `$` as the end of the subfield.
- Python's `int()` also accepts surrounding whitespace. `int()` is applied
  only to tokens from `split()`, which have none, so `Text.ParseInt` is an
  optional sign followed by decimal digits.
- AnalyzeWorkids.Workids.Tally: Python visits dictionary keys in an order
  the program does not fix. The example for a size is the first workid of
  that size met. The model picks keys in any order, so it promises only
  that the example is some workid of that size.
- AnalyzeWorkids.Workids.Stats: states the example property as above, for
  the same reason.
