# Merge.py month report and string-join merge, in Dafny

Merge.py is a small tkinter script. It merges several text exports into one
target file. Before merging, it shows which calendar months the target
already holds. This project models the two pieces of text processing at its
heart, as Merge.py writes them:

- **Month classification** (`extract_months_from_file`). A line is a record
  when it starts with the four characters `"15"`, quotes included. In a
  record, the leftmost quoted run of exactly eight digits is read as
  `YYYYMMDD`. The line is appended to a dictionary under the key `MM-YYYY`.
  The function returns the distinct keys, sorted.
- **String-join concatenation** (the accumulator loop of `merge_txt_files`).
  The target's text loses its trailing whitespace. Each selected source loses
  whitespace at both ends and is appended in selection order. A single line
  feed goes in front of a source exactly when the text built so far is
  non-empty.

Modules:

- `Wrappers` holds `Option`.
- `Text` models `str.rstrip()`, `str.lstrip()` and `str.strip()`. It proves
  what each one keeps and cuts, and proves that each result is the only one
  with those properties.
- `Order` models Python's `<` on `str` and a strictly sorted list. It also
  models `sorted()` of a set of keys as the method `SortKeys`, proved
  against those definitions.
- `Months` models the record test, the token scan and the key. The loop
  (`CollectMonths`, one pass of it in `FileRecord`) is proved against two
  specification functions: `KeySet`, the keys of the dated records, and
  `LinesWithKey`, the lines filed under one key. `ExtractMonths` adds the
  sort.
- `Concat` holds the loop (`JoinContents`), proved equal to the
  specification function `Merged`. It also gives an independent description,
  `Layout(Pieces(...))`, and proves the two equal. The promises about the
  result are proved from these: prefix, ordering, when a separator appears,
  and length.

The model follows the code where a design reading of the program would
differ:

- Merge.py sorts the `MM-YYYY` keys as plain strings, so the month digits
  decide first and the year only breaks ties: `01-2025` comes before
  `12-2023`. A chronological order is not what Merge.py does, and the model
  keeps the string order (`Months.MonthMajor`, `Months.MonthMajorExample`).
- Merge.py does not check that the eight digits form a calendar date:
  `20241399` is filed under `13-2024` (`Months.NoCalendarCheckExample`).
- Merge.py has no date-range filter, no duplicate-record detector and no
  line-list append mode. The model has none either.
- The comment at Merge.py line 87 says no extra lines are added. Yet a source
  that is all whitespace still receives its line feed when text precedes it,
  so it leaves an empty line behind (`Concat.BlankSourceLeavesLineFeed`). The
  model keeps this behaviour.

## Model

| member | source | states |
|---|---|---|
| Text.RStripSpec | Merge.py:85 | rstrip keeps a prefix of the text that is empty or ends in a non-whitespace character, and everything it removes is whitespace |
| Text.LStripSpec | Merge.py:89 | lstrip keeps a suffix of the text that is empty or starts with a non-whitespace character, and everything it removes is whitespace |
| Text.StripSpec | Merge.py:89 | strip keeps one contiguous slice of the text with whitespace on both sides of it; the slice neither starts nor ends with whitespace, and it is empty exactly when the whole text is whitespace |
| Text.RStripUnique | Merge.py:85 | any prefix that ends in a non-whitespace character (or is empty) and is followed only by whitespace is the rstrip result |
| Text.LStripUnique | Merge.py:89 | any suffix that starts with a non-whitespace character (or is empty) and follows only whitespace is the lstrip result |
| Text.StripUnique | Merge.py:89 | stripping whitespace + a trimmed core + whitespace gives back exactly the core |
| Text.RStripIdempotent | Merge.py:85 | rstrip applied twice equals rstrip applied once |
| Order.BelowIrreflexive | Merge.py:33 | no string sorts before itself |
| Order.BelowTransitive | Merge.py:33 | the string order is transitive |
| Order.BelowTotal | Merge.py:33 | any two distinct strings are ordered one way or the other |
| Order.BelowCommonPrefix | Merge.py:33 | strings sharing a prefix compare as their remainders do |
| Order.BelowExtend | Merge.py:33 | when the first n characters already decide the order, the rest of the string does not change it |
| Order.Insert | Merge.py:33 | inserting into a strictly sorted list keeps it strictly sorted, adds exactly the new element, and grows it by one unless the element was already there |
| Order.SortKeys | Merge.py:33 | sorted() of the key set returns every key exactly once, in strictly ascending string order, and nothing else |
| Order.SortedUnique | Merge.py:33 | two strictly sorted lists with the same elements are equal, so the sorted order is fully determined by the key set |
| Months.FindToken | Merge.py:24 | the regex search returns a position where a quote, eight digits and a quote start, with no such position before it; it returns None only when no position holds one |
| Months.Date | Merge.py:22-26 | a date exists exactly for a line that starts with `"15"` and contains a token; the date is the eight digits of the leftmost token |
| Months.KeyOf | Merge.py:22-29 | a key exists exactly for a record with a token; the key is two digits, `-`, four digits: the token's characters 5-6, then characters 1-4 |
| Months.KeyOfFound | Merge.py:24-29 | the key sliced from the token found in a record is the line's key |
| Months.LinesWithKey | Merge.py:16-29 | the lines filed under a key are exactly the input lines whose key it is, and there are no more of them than input lines |
| Months.KeySetBound | Merge.py:29-33 | there are no more distinct keys than dated lines |
| Months.FileLine | Merge.py:21-29 | filing the next line under its key keeps every key's list equal to the lines seen so far with that key |
| Months.FileRecord | Merge.py:22-29 | one pass of the loop appends a dated record to its key's list and leaves the map alone for any other line |
| Months.CollectMonths | Merge.py:16-29 | after the loop, the dictionary's keys are exactly the keys of the dated records, and each key holds those records in input order |
| Months.ExtractMonths | Merge.py:15-33 | the result is strictly ascending (so it has no duplicates) and contains exactly the keys of the dated records; each is a well-formed MM-YYYY key; its length is the number of distinct keys and at most the number of dated lines; empty input gives an empty result |
| Months.MonthsOrderIndependent | Merge.py:33 | reordering the input lines does not change the month list |
| Months.MonthMajor | Merge.py:33 | a smaller month sorts first whatever the years, and within one month the year decides |
| Months.MonthMajorExample | Merge.py:33 | `01-2025` sorts before `12-2023` |
| Months.FirstFieldDate | Merge.py:22-29 | a record whose second field is a quoted eight-digit token gets that token as its date and the token's MM-YYYY as its key, whatever follows the token |
| Months.NoCalendarCheckExample | Merge.py:24-29 | the token `20241399` gives the key `13-2024` |
| Months.LeftmostTokenExample | Merge.py:24 | in a record with two date tokens, the first one decides the key |
| Months.NotARecordExample | Merge.py:22 | a line starting with `"16"` gets no key, even when it carries a date |
| Concat.JoinContents | Merge.py:85-92 | the accumulator loop builds `Merged(target, sources)`: the layout of the trimmed target and the stripped sources |
| Concat.MergedIsLayout | Merge.py:85-92 | the loop's result places the non-empty pieces in order, with a line feed in front of each piece after the first non-empty one and nothing else added |
| Concat.LayoutSnoc | Merge.py:90-92 | appending one piece adds a line feed exactly when the text so far is non-empty, then the piece |
| Concat.TargetFirst | Merge.py:85-92 | when the trimmed target is non-empty, the result is the trimmed target followed by a line feed and the stripped source for each source, in selection order |
| Concat.TargetIsPrefix | Merge.py:85-92 | the trimmed target is always a prefix of the result |
| Concat.SeparatorWhen | Merge.py:90-91 | the text built so far is non-empty exactly when the trimmed target or one of the stripped sources seen so far is non-empty, so this is when a line feed goes in |
| Concat.MergedLength | Merge.py:88-92 | the result's length is the trimmed target's length, plus the stripped sources' lengths, plus one for each line feed added |
| Concat.SeparatorPerSource | Merge.py:90-91 | after a non-empty trimmed target, every source gets exactly one line feed |
| Concat.OneSource | Merge.py:88-92 | after a non-empty trimmed target, one source gives target, line feed, stripped source |
| Concat.JoinExample | Merge.py:85-92 | target `"a\n"` with source `"  b  \n"` gives `"a\nb"` |
| Concat.BlankSourceLeavesLineFeed | Merge.py:89-92 | an all-whitespace source after a non-empty trimmed target adds a lone line feed |

## Left out

- File reading and the UTF-8 to ISO-8859-1 fallback (`read_file_with_fallback`, Merge.py:7-13) are I/O. The model takes decoded text as input: a sequence of lines for the month report, and one string per file for the join. Python's newline translation while reading is part of that I/O.
- The write of the merged text back to the target (Merge.py:95-96) is I/O. So are the broad exception handlers (Merge.py:30-31, 100-101). When a read fails, `extract_months_from_file` returns the months collected so far, usually none. The model has no failing read.
- All tkinter presentation is left out: `show_month_popup` (Merge.py:35-53), the file dialogs and early returns (Merge.py:57-81), and the message boxes (Merge.py:31, 64, 74, 80, 98, 101).
- Months.IsDigit: the regex's `\d` also accepts non-ASCII Unicode digits. The model accepts only `0`-`9`.
- Text.IsSpace: Python's `strip()` also removes the other Unicode whitespace characters and the ASCII separators `\x1c`-`\x1f`. The model removes only space, tab, line feed, carriage return, vertical tab and form feed.
- Months.FindToken: the regular-expression engine is not modelled. The search for `"(\d{8})"` is a scan for the leftmost position where a quote, eight digits and a quote start.
- Order.SortKeys: Python's sort algorithm is not modelled, only its result for distinct keys. It stands for `sorted()` over the dictionary's keys.
- Chronological ordering, calendar-date validation, date-range filtering and duplicate-record detection are not modelled, because Merge.py does none of them.
