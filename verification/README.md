# Email extractor — a Dafny model

This project models the core of a small email-list builder. The builder
collects email addresses from three sources:

- the attendee lists of a calendar (an `.ics` file), optionally restricted
  to events that start in a date window;
- free-form text files that hold name/email pairs;
- a text file with one address per line.

It merges the addresses into one set. Every source uses the same regular
expression, and it is modelled in two ways:

- a declarative predicate, `EmailPattern.IsMatchSplit`;
- the search order of a backtracking regex engine, `EmailPattern.Search`.

The search is proved sound, complete, and the match that greedy
backtracking prefers. `re.findall` is a left-to-right scanner,
`Scanner.FindFrom`. It is proved equal to an independent description of a
leftmost, non-overlapping scan, `Scanner.IsScan`, in both directions.

The calendar loader, the extract/clean/explode stages, the two text
extractors and the final merge are pure functions over sequences. `Result`
carries the loader's error cases. Timestamps are integers: seconds since
the epoch, in UTC.

Files:

- `wrappers.dfy`: `Option` and `Result`.
- `text.dfy`: Python's `strip`, `split`, `join` and universal-newline reading, restricted to ASCII.
- `pattern.dfy`: the email pattern.
- `scanner.dfy`: `re.findall`.
- `calendar.dfy`: building events from parsed calendar components, and the date filter.
- `extraction.dfy`: the extractors, clean/explode, and the merge.
- `examples.dfy`: worked instances.

## Model

| member | source | states |
|---|---|---|
| `Text.TrimLeft` | email_extractor.py:130 | The result is a suffix of the input. Only whitespace was removed, and the result does not start with whitespace. |
| `Text.TrimRight` | email_extractor.py:130 | The result is a prefix of the input. Only whitespace was removed, and the result does not end with whitespace. |
| `Text.Strip` | email_extractor.py:130 | `str.strip()` gives text with no whitespace at either end, and is never longer than the input. |
| `Text.StripIsInfix` | email_extractor.py:171 | The stripped text sits inside the input with only whitespace around it. |
| `Text.StripSubset` | email_extractor.py:130 | Stripping introduces no character. |
| `Text.StripSurrounded` | email_extractor.py:130 | Edge-clean text between two runs of whitespace strips to exactly that text, so strip has a unique answer. |
| `Text.StripIdempotent` | email_extractor.py:171 | Stripping twice is the same as stripping once. |
| `Text.StripUnseparated` | email_extractor.py:130 | Text with no whitespace or comma is left unchanged by strip. |
| `Text.JoinEmpty` | email_extractor.py:106 | Joining non-empty strings gives `""` exactly when there are none. |
| `Text.Join` | email_extractor.py:75 | `sep.join(parts)` starts with the first part. |
| `Text.Split` | email_extractor.py:127 | `str.split(",")` gives one piece more than there are separators. No piece holds the separator, and joining the pieces with it restores the input. |
| `Text.SplitJoin` | email_extractor.py:127 | Splitting the join of separator-free pieces gives the pieces back. |
| `Text.UniversalNewlines` | email_extractor.py:169-170 | Reading in text mode leaves no carriage return and never lengthens the text. |
| `Text.UniversalNewlinesIdentity` | email_extractor.py:169-170 | Text with no carriage return reads back unchanged. |
| `Text.CrLfRead` | email_extractor.py:169-170 | A `\r\n` pair reads as one line feed, with the text before it unchanged. |
| `Text.LoneCrRead` | email_extractor.py:169-170 | A `\r` not followed by `\n` reads as one line feed, with the text before it unchanged. |
| `Text.Lines` | email_extractor.py:169-170 | Splitting the text as read at line feeds gives at least one piece. No piece holds a line break of either kind, and the pieces joined with line feeds are the text as read. |
| `Text.LinesJoin` | email_extractor.py:169-170 | Lines free of line breaks, written with a line feed between them, read back as exactly those lines. |
| `EmailPattern.BoundaryAt` | email_extractor.py:103 | Defines `\b` over ASCII: exactly one of the two neighbours of a position is a word character, with the outside of the text counting as a non-word character. |
| `EmailPattern.IsMatchSplit` | email_extractor.py:103 | Defines a match of the pattern at `s[i..j]`: a boundary at `i`, a local-part run up to the `@`, a non-empty domain-part run up to the last literal `.`, two or more top-level-domain characters, and a boundary at `j`. |
| `EmailPattern.IsMatch` | email_extractor.py:103 | Defines an occurrence of the pattern at `s[i..j]`: a match with some placement of the `@` and the last `.`. |
| `EmailPattern.RunEnd` | email_extractor.py:103 | A greedy `+` stops where the class stops. `s[k..m]` lies in the class exactly when `m` is at most the run's end. |
| `EmailPattern.LastBoundary` | email_extractor.py:103 | Returns the last word boundary at or before a position, or proves there is none in the range. |
| `EmailPattern.TldEnd` | email_extractor.py:103 | After a `.`, finds the largest end that gives two or more top-level characters followed by a boundary, or proves there is none. |
| `EmailPattern.DotSearch` | email_extractor.py:103 | Finds the right-most usable `.` in the domain run, with its largest end, or proves none exists. This is the order in which backtracking gives characters back. |
| `EmailPattern.Search` | email_extractor.py:103 | The match found at `i` is a real match (sound). No match exists when none is found (complete). Among all splits, it has the right-most dot and then the longest end. |
| `EmailPattern.MatchAt` | email_extractor.py:103 | Returns a match end exactly when some match of the pattern starts at `i`. The end returned is the greedy one `re.match` reports, which is the longest match starting at `i`. |
| `EmailPattern.MatchHasShape` | email_extractor.py:103 | A matched substring, taken on its own, has the address shape: local part, `@`, domain, `.`, top-level part. |
| `EmailPattern.ShapeFacts` | email_extractor.py:103 | An address-shaped string has exactly one `@` and no whitespace or comma. Strip leaves it unchanged. It has at least six characters and ends in a top-level character. |
| `Scanner.FindFrom` | email_extractor.py:106 | `re.findall` spans are matches the matcher reports at their start. They are ordered and do not overlap. |
| `Scanner.FindFromIsScan` | email_extractor.py:106 | The scan is leftmost: no match starts at a position the scan skips, and none starts after the last span. |
| `Scanner.ScanUnique` | email_extractor.py:106 | Any sequence of spans that fits the leftmost, non-overlapping description is exactly what the scanner returns. |
| `Scanner.FindAll` | email_extractor.py:103-106 | Every span of the email scan is a match of the pattern at that position. |
| `Scanner.NoAtNoMatch` | email_extractor.py:103-106 | Text without `@` yields no address. |
| `Scanner.Matches` | email_extractor.py:106 | `re.findall` gives the texts of the spans, one per span, in order. Each matches the pattern at its place in the text, has the address shape with no whitespace or comma, and has at least six characters. |
| `Scanner.SpanFacts` | email_extractor.py:106 | One matched span has the address shape and occurs in the text. |
| `Calendar.DisplayName` | email_extractor.py:55-58 | An address shows as the value of its `CN` parameter and fails without one. Plain text shows as itself. |
| `Calendar.DisplayNames` | email_extractor.py:54-58 | All attendees convert exactly when each has a display name. Then each address shows as its `CN` and each plain attendee as its text, one string each, in order. Otherwise the error is that of the first attendee without one. |
| `Calendar.DisplayNamesAppend` | email_extractor.py:54-58 | Normalising two attendee lists in turn is normalising their concatenation: names stay in order, and the first list's error wins. |
| `Calendar.BuildEvent` | email_extractor.py:53-76 | A component becomes an event exactly when every attendee has a display name and there is a start. Fields are carried over and attendees joined with `", "`. An attendee error is reported before a missing start, and otherwise the error is the missing start. |
| `Calendar.BuildEvents` | email_extractor.py:51-77 | All components convert, one event each, in order, exactly when every component is well formed. Otherwise the error is the one the first malformed component raises. |
| `Calendar.BuildEventsAppend` | email_extractor.py:51-77 | Converting two lists of components in turn is converting their concatenation: events stay in order, and the first failing component decides the error. |
| `Calendar.KeepInRange` | email_extractor.py:84-88 | The filtered list is no longer than the input, and every event in it starts in `[lo, hi)`. |
| `Calendar.KeepInRangeCounts` | email_extractor.py:84-88 | Each in-range event is kept as often as it occurs. Each out-of-range event is dropped. The range is `lo <= start < hi`. |
| `Calendar.KeepInRangeAppend` | email_extractor.py:84-88 | The date filter keeps event order: it distributes over concatenation. |
| `Calendar.FilterByDate` | email_extractor.py:83-88 | With both bounds given, the result holds exactly the events whose start is in `[lo, hi)`. With a bound missing, every event is kept. |
| `Calendar.LoadEvents` | email_extractor.py:48-90 | Loading succeeds exactly when every component is well formed, and an empty calendar gives no events. Without a window, the result is all the built events, in order. With one, an event is in the result exactly when it was built and starts in `[lo, hi)`. A failed load reports the first malformed component's error. |
| `Calendar.LoadEventsAppend` | email_extractor.py:48-90 | Loading two calendars in turn and concatenating the results is loading their concatenation. |
| `Calendar.LoadEventsAsWritten` | email_extractor.py:79-80 | As the code is written, an empty calendar fails with a missing `Start` column. Otherwise it agrees with `LoadEvents`. |
| `Calendar.EmptyCalendarDiscrepancy` | email_extractor.py:79-80 | On an empty calendar, the code as written fails where the corrected load returns no events. |
| `Extraction.ExtractEmailAddresses` | email_extractor.py:105-107 | Gives one row per event with the event unchanged. The address field is empty exactly when the attendee text holds no match. |
| `Extraction.ExplodeRow` | email_extractor.py:127-130 | Exploding a row gives one row per comma plus one, each keeping the row's event. |
| `Extraction.ExplodeFacts` | email_extractor.py:127-130 | Every exploded address holds no comma and no surrounding whitespace. |
| `Extraction.CleanRow` | email_extractor.py:124-130 | A row contributes nothing exactly when its Emails field is empty. Otherwise it contributes its exploded rows, each carrying the row's event. |
| `Extraction.CleanAndExplode` | email_extractor.py:112-132 | Every row of the result holds a comma-free, stripped address. A table whose address fields are all empty gives no rows. |
| `Extraction.CleanFacts` | email_extractor.py:123-130 | After clean/explode, every row's address is comma-free and stripped. |
| `Extraction.CleanAppend` | email_extractor.py:123-130 | Clean/explode handles rows independently and keeps their order. |
| `Extraction.CleanSingle` | email_extractor.py:124 | A row is dropped exactly when its address field is empty. Otherwise every row it produces keeps its event. |
| `Extraction.JoinPadded` | email_extractor.py:106 | Joining with `", "` is joining with `","` after padding every piece but the first with a space. |
| `Extraction.ExplodeRoundTrip` | email_extractor.py:106-130 | Splitting a `", "`-joined list of addresses on `","` and stripping gives back exactly those addresses, one row each. |
| `Extraction.CalendarRows` | email_extractor.py:105-130 | Extract then clean/explode gives one row per matched address, in order, with its event. Events without a match give no row. |
| `Extraction.CalendarEmails` | email_extractor_cli.py:69-72 | The calendar's contribution to the run is exactly the free-text extractor's output over the loaded events' Attendees texts, in order. |
| `Extraction.CalendarAddresses` | email_extractor_cli.py:69-72 | The calendar's addresses are exactly what the free-text extractor finds in the events' attendee texts, in order. |
| `Extraction.ExtractFromTextFacts` | email_extractor.py:146-153 | Every extracted string has the address shape and no whitespace or comma, and occurs in one of the texts. |
| `Extraction.ExtractFromText` | email_extractor.py:135-153 | Every match of every text is in the result. |
| `Extraction.ExtractFromTextAppend` | email_extractor.py:148-151 | Extraction over several texts concatenates the per-text results in order. |
| `Extraction.ExtractFromOneText` | email_extractor.py:151 | For one text, the result is exactly the `findall` matches of that text. |
| `Extraction.StripAll` | email_extractor.py:170-171 | Each stripped line is the text of its line between leading and trailing whitespace, with no whitespace at either end. The count and order of lines are kept. |
| `Extraction.AcceptLines` | email_extractor.py:170-173 | Every kept line is one of the input lines and is accepted. There are no more kept lines than lines. |
| `Extraction.AcceptLinesFacts` | email_extractor.py:170-173 | A stripped line is kept exactly when the pattern matches at its start. |
| `Extraction.AcceptLinesAppend` | email_extractor.py:170-173 | Line filtering keeps line order: it distributes over concatenation. |
| `Extraction.ExtractFromNewlineText` | email_extractor.py:156-175 | Every returned line is accepted and has no whitespace at either end. There are no more of them than lines in the text. |
| `Extraction.ExtractFromNewlineTextFacts` | email_extractor.py:169-175 | Every kept line is accepted, stripped and one line long. Every line whose stripped form is accepted is kept. |
| `Extraction.LineAccepted` | email_extractor.py:172 | A line is accepted exactly when some match of the pattern starts at its first character. |
| `Extraction.AcceptedStartsWithWordChar` | email_extractor.py:166-172 | An accepted line starts with a letter, digit or `_`, because of the leading `\b`. |
| `Extraction.TrailingTextKept` | email_extractor.py:172-173 | Text after an accepted address does not stop the line being accepted, provided it does not continue the final word. The whole line is kept. |
| `Extraction.Merge` | email_extractor_cli.py:84-86 | The merged set holds exactly the strings that occur in any of the three lists. |
| `Extraction.MergeDeduplicates` | email_extractor_cli.py:84-86 | Merging ignores duplicates and the order of the lists. |
| `Extraction.CollectEmails` | email_extractor_cli.py:66-86 | The whole run with the corrected load succeeds exactly when every calendar component is well formed. A string is collected exactly when the free-text extractor finds it in a loaded event's attendee text or a name/email text, or the newline extractor returns it for a given newline file. Every collected string is non-empty, holds an `@` and has no surrounding whitespace. |
| `Extraction.NewlineEmails` | email_extractor_cli.py:78-82 | The newline file contributes nothing when no file is given, and otherwise exactly what the newline extractor returns for it: accepted, stripped lines. |
| `Extraction.CollectEmailsAsWritten` | email_extractor_cli.py:66-86 | The whole run as written succeeds exactly when the calendar has at least one component and all are well formed. An empty calendar stops it with the missing `Start` column. Otherwise it gives what the corrected run gives. |
| `Examples.AddressLineWithTrailingWords` | email_extractor.py:171-173 | The line `a@b.com extra` is accepted and kept whole. |
| `Examples.NonWordStartRejected` | email_extractor.py:166-172 | `re.match` rejects a stripped line that starts with `.` or `+` before the address, because of the leading `\b`. It would also reject a line starting with a space, but the extractor strips lines first, so that case does not reach the match (`Examples.PaddedLineKept`). |
| `Examples.PaddedLineKept` | email_extractor.py:170-172 | An address line with leading whitespace is kept, because it is stripped before the match. |
| `Examples.WordCharAfterRejected` | email_extractor.py:166-172 | The line `a@b.com_x` is dropped: `_` is a word character, so no `\b` follows the top-level domain. |
| `Examples.MatchStartingWithDot` | email_extractor.py:103-106 | In `a@b.com.x@y.org`, both `a@b.com` and `.x@y.org` are matches in place. |
| `Examples.FoundStartingWithDot` | email_extractor.py:103-106 | `re.findall` on `a@b.com.x@y.org` reports exactly the spans 0..7 and 7..15, the second being `.x@y.org`. |
| `Examples.FirstSpan` | email_extractor.py:103 | In `a@b.com.x@y.org`, the match at 0 ends at 7: the dot at 7 cannot be the last dot, because `@` is not a top-level character. |
| `Examples.SecondSpan` | email_extractor.py:103 | In `a@b.com.x@y.org`, the match at 7 ends at 15. |
| `Examples.DateWindow` | email_extractor.py:84-88 | For the window 2023-08-01 to 2024-01-01, an event at the lower bound is kept and one at the upper bound is dropped. |
| `Examples.NoAtRejected` | email_extractor.py:172 | A line without `@` is never accepted. |
| `Examples.NewlineList` | email_extractor.py:169-175 | For an address line, a line without `@`, a whitespace-padded address line and a final line break, the result is exactly the two addresses, stripped. |

## Left out

- File I/O. Each file's contents are passed in as strings, and the output file is not written. The `.ics` parser is replaced by the `Calendar.Component` datatype, which holds what the parser delivers. When an event has a single ATTENDEE, the parser returns that one value rather than a list. That shape is not modelled: attendees are always a sequence.
- Timezone conversion and pandas datetime handling. Start times are integers in UTC seconds; date-only values and local-time stripping are not modelled.
- Unicode. `\b` and `str.strip()` are modelled over ASCII only.
- The command-line layer. Option parsing and date-string parsing are not modelled. A missing `--start-date` or `--end-date` appears as `None`.
- `Series.unique()` on the calendar list. The merge into a set absorbs it.
- Lines. Splitting on line feeds gives one extra empty piece after a final line break, and one empty piece for an empty text. File iteration gives neither: it yields nothing for an empty file. An empty piece is never accepted, so the extracted lines are the same. The free-text extractor does not apply universal newlines: `\r` is not part of any pattern class, so the matches are the same.
- Event fields other than the start and the attendees are carried through but never inspected.
- Scanner.Matches: states that each found address matches in place and has the address shape, not that it matches the pattern standing alone, because a found address can start with `.` or end with `|` (see "Behaviour worth knowing"). Extraction.ExtractFromTextFacts is stated the same way for the same reason.
- Text.UniversalNewlines: its contract states only that no carriage return is left and the text does not grow. The translation itself is stated by `Text.CrLfRead`, `Text.LoneCrRead` and `Text.UniversalNewlinesIdentity`, which together fix it on every text.
- Text.Join: its contract states only that the join starts with the first part. What the join is, is fixed by `Text.Split` and `Text.SplitJoin`, which invert it on separator-free parts.
- Text.Strip: its contract states only edge-cleanness and length. The fact that the result is an infix with only whitespace around it is stated by `Text.StripIsInfix`, which is a separate lemma to keep proofs cheap.

## Findings

| source | as written | input that shows it | evidently intended | confidence | as-written member | corrected member |
|---|---|---|---|---|---|---|
| email_extractor.py:79-80 | `pd.DataFrame(events)` is built from an empty list when the calendar has no VEVENT. The table then has no `Start` column, and `df["Start"]` raises. | a calendar with no events | an empty event table, so that an empty calendar gives no addresses | not executed | `Calendar.LoadEventsAsWritten` (see `Calendar.EmptyCalendarDiscrepancy`; the whole run as written is `Extraction.CollectEmailsAsWritten`) | `Calendar.LoadEvents` |

## Behaviour worth knowing

- The newline extractor uses `re.match`, which anchors only at the start. A line is kept whole when an address starts it, provided what follows does not start with a word character: see `Extraction.TrailingTextKept` and `Examples.AddressLineWithTrailingWords`. When it does, as in `a@b.com_x`, there is no `\b` after the address and the line is dropped (`Examples.WordCharAfterRejected`). The line need not match in full.
- A found address need not match the pattern when taken on its own. A match can start with `.`, `%`, `+` or `-` right after a word: `re.findall` reports `.x@y.org` in `a@b.com.x@y.org` (`Examples.FoundStartingWithDot`). It can also end in `|`, which the top-level class admits literally. What holds of every found address is the in-context match (`Scanner.Matches`) and the address shape (`EmailPattern.MatchHasShape`).
- The date window compares the full start timestamp with the bounds, not the calendar date of the start.
