# GDX file-list generator, modelled in Dafny

The script `Programs/createGDXfileList.py` writes the list of GDX file names
that vSPD reads for a date range. For each calendar day from a start date to
an end date it forms the token `FP_` + `str(year)` + `str(month).zfill(2)` +
`str(day).zfill(2)`. It writes the header `"/ \n"`, then the tokens separated
by CR LF, then the footer `" \n/"`.

This project models that transformation as pure functions and proves its
properties:

- `Calendar` holds the proleptic Gregorian calendar. It defines `Date`,
  validity, leap years, the successor `Next`, the chronological order that
  Python's `datetime` uses, and `Ordinal`, the day count from 0001-01-01 as
  Python's `date.toordinal` gives it. `Ordinal` is the reference that the
  order and the successor are proved against.
- `Decimal` holds `Show` (Python's `str` on a natural number), `ZFill`
  (`str.zfill` on an unsigned string), `Pad2` (`str(n).zfill(2)`) and
  `Parse`, which reads digits back.
- `FileToken` holds `Token` and its inverse `Decode`.
- `DateRange` holds `Range(s, e)`, the inclusive daily range that
  `pd.date_range(start, end)` produces. It is built from `Next`.
- `FileList` holds `Content(s, e)`, the full file text. It also holds
  `ParseContent` and `DecodeContent`, which read such a text back, and the
  round-trip lemmas that connect writer and reader.

Dates are `Date(year, month, day)` values. The operations ask for dates that
exist (`Valid`: year 1 or later, month 1 to 12, day within the month). Every
date Python's `datetime` can build satisfies `Valid`. `Valid` also accepts
years above 9999, which Python cannot form.

The script's function takes `start` and `end` but builds its range from the
module-level dates `st` (2013-01-01) and `et` (2013-10-31). `Content` takes
the two dates as explicit arguments. `AsWritten` models the function as
written; see "Findings".

Two points of the code decide the exact text:

- Separator after the last token. Line 17 hands the tokens to
  `tofile(..., sep="\r\n")`. numpy documents `sep` as the separator between
  items, so `Content` joins the tokens, and `JoinEndsWithLastItem` proves that
  the text before the footer ends with the last token itself.
  `TerminatedContent` is the reading with a separator after the last token.
  `FileList.TerminatedVersusJoined` proves that the two readings differ by
  exactly one CR LF before the footer when the range has at least one day, and
  agree when it is empty. The concrete scenarios below are stated for the
  joined reading.
- Year width. Line 16 writes `str(year)`, which has no fixed width. The model
  writes `Show(year)`. The 11-character layout `FP_YYYYMMDD` is proved for
  years 1000 to 9999, and decoding and injectivity are proved for every year
  from 1.

## Model

| member | source | states |
|---|---|---|
| Calendar.DaysInMonth | Programs/createGDXfileList.py:16 | every month has 28 to 31 days; February has 29 exactly in a leap year |
| Calendar.Next | Programs/createGDXfileList.py:16 | the daily step of the range: the day after an existing day exists and is later than it |
| Calendar.DaysBeforeNextYear | Programs/createGDXfileList.py:16 | the closed-form count of days before a year grows by 366 after a leap year and by 365 otherwise |
| Calendar.DaysBeforeMonthTable | Programs/createGDXfileList.py:16 | the days before month m are the common-year count plus one for 29 February from March on in a leap year |
| Calendar.MonthsFillYear | Programs/createGDXfileList.py:16 | the twelve month lengths add up to the length of the year |
| Calendar.OrdinalOrder | Programs/createGDXfileList.py:16 | chronological (year, month, day) order agrees with day-count order, in both directions, for strict order, non-strict order and equality |
| Calendar.OrdinalInjective | Programs/createGDXfileList.py:16 | two existing days with the same day count are the same day |
| Calendar.NextOrdinal | Programs/createGDXfileList.py:16 | the successor is exactly one day later, so the daily step skips and repeats nothing, across month and year ends and 29 February |
| Calendar.NextIsImmediateSuccessor | Programs/createGDXfileList.py:16 | the successor is after the day, and a date is after the day exactly when it is not before the successor |
| Decimal.Show | Programs/createGDXfileList.py:16 | `str(n)` is a non-empty run of decimal digits that starts with '0' only for n = 0 |
| Decimal.ParseShow | Programs/createGDXfileList.py:16 | reading back the digits `str(n)` writes gives n |
| Decimal.ShowParse | Programs/createGDXfileList.py:16 | every digit string without a leading zero is `str` of its value |
| Decimal.ShowInjective | Programs/createGDXfileList.py:16 | distinct numbers have distinct `str` renderings |
| Decimal.ShowFourDigits | Programs/createGDXfileList.py:16 | years 1000 to 9999 render as exactly four digits |
| Decimal.ZFillPads | Programs/createGDXfileList.py:16 | `zfill` keeps the string as its suffix, adds only '0' in front, and leaves a string already at the width unchanged |
| Decimal.ZFill | Programs/createGDXfileList.py:16 | `zfill(width)` never shortens: the result is as long as the string or as the width, whichever is longer |
| Decimal.Pad2 | Programs/createGDXfileList.py:16 | `str(n).zfill(2)` is all digits, at least two of them, and exactly two for n below 100 |
| Decimal.Pad2TwoDigits | Programs/createGDXfileList.py:16 | for 1 to 99, `str(n).zfill(2)` is exactly two digits: '0' + `str(n)` below 10, `str(n)` unchanged from 10 on; it reads back as n |
| Decimal.Pad2Parse | Programs/createGDXfileList.py:16 | every two-digit field with value 1 to 99 is what `zfill(2)` writes for that value |
| FileToken.TokenLayout | Programs/createGDXfileList.py:16 | a token is `FP_`, then the decimal year, then exactly two month digits and two day digits, with only digits after the prefix |
| FileToken.Token | Programs/createGDXfileList.py:16 | a token starts with `FP_` and, for month and day below 100, is seven characters longer than `str(year)` |
| FileToken.DecodeToken | Programs/createGDXfileList.py:16 | decoding the token of any existing day gives that day back |
| FileToken.DecodeCanonical | Programs/createGDXfileList.py:16 | any string that decodes to a day is exactly that day's token |
| FileToken.DecodeIff | Programs/createGDXfileList.py:16 | a string decodes to d if and only if d exists and the string is d's token |
| FileToken.TokenInjective | Programs/createGDXfileList.py:16 | distinct days never produce the same token, for every year from 1 |
| FileToken.TokenFixedWidth | Programs/createGDXfileList.py:16 | with a four-digit year the token is 11 characters, `FP_` then 8 digits, and characters 3-6, 7-8 and 9-10 read back as year, month and day |
| DateRange.Range | Programs/createGDXfileList.py:16 | the range has (end - start in days) + 1 entries, or none when start is after end; entry i is an existing day exactly i days after start |
| DateRange.RangeEmpty | Programs/createGDXfileList.py:16 | the range is empty if and only if the end is before the start |
| DateRange.RangeEndpoints | Programs/createGDXfileList.py:16 | a range with start not after end begins with start and ends with end |
| DateRange.RangeConsecutive | Programs/createGDXfileList.py:16 | each entry after the first is the calendar successor of the one before, so there are no gaps |
| DateRange.RangeAscending | Programs/createGDXfileList.py:16 | entries are strictly ascending, so none repeats |
| DateRange.RangeMembers | Programs/createGDXfileList.py:16 | an existing day is in the range if and only if it lies between start and end inclusive |
| FileList.TokenOneLine | Programs/createGDXfileList.py:16 | no token contains a carriage return or a line feed |
| FileList.SplitJoin | Programs/createGDXfileList.py:17 | splitting at CR LF recovers the items joined with CR LF, when no item holds a line break |
| FileList.JoinCrlfOnly | Programs/createGDXfileList.py:17 | in items joined by CR LF every line feed follows a carriage return and every carriage return precedes a line feed, so there is no bare "\n" |
| FileList.JoinEndsWithLastItem | Programs/createGDXfileList.py:17 | a join of one or more items ends with the last item itself, so no separator follows it |
| FileList.TerminateIsJoinPlusSeparator | Programs/createGDXfileList.py:17 | writing a separator after every item gives the join followed by one more separator |
| FileList.DecodeAllTokens | Programs/createGDXfileList.py:16 | decoding the token list of existing days gives the days back in order |
| FileList.TokensOfRange | Programs/createGDXfileList.py:16 | the token list has one non-empty, single-line entry per day of the range |
| FileList.ContentShape | Programs/createGDXfileList.py:15-18 | whatever the range, the text starts with "/ \n", ends with " \n/", and between them uses only CR LF line breaks |
| FileList.Content | Programs/createGDXfileList.py:15-18 | the text starts with "/ \n", ends with " \n/", and is only those two marker lines exactly when the end is before the start |
| FileList.ParseContentTokens | Programs/createGDXfileList.py:15-18 | the lines between header and footer are exactly the tokens of the range, in order |
| FileList.ContentRoundTrip | Programs/createGDXfileList.py:15-18 | decoding the written text gives exactly the days from start to end, ascending |
| FileList.ContentEmptyRange | Programs/createGDXfileList.py:15-18 | when start is after end the text is only "/ \n \n/" |
| FileList.TerminatedVersusJoined | Programs/createGDXfileList.py:17 | the reading with a separator after the last token differs from the joined text by one CR LF before the footer when the range has a day, and equals it when the range is empty |
| FileList.SourceRange | Programs/createGDXfileList.py:10-11 | the script's own dates give 304 tokens, from FP_20130101 to FP_20131031 |
| FileList.AsWritten | Programs/createGDXfileList.py:13-16 | whatever `start` and `end` are, the written text decodes to the days from 2013-01-01 to 2013-10-31 |
| FileList.AsWrittenIgnoresArguments | Programs/createGDXfileList.py:13-16 | the function as written does not produce the file for the dates it is given |
| FileList.ThreeDays | Programs/createGDXfileList.py:15-18 | 2013-01-01 to 2013-01-03 gives "/ \n" FP_20130101 CR LF FP_20130102 CR LF FP_20130103 " \n/" |
| FileList.OneDay | Programs/createGDXfileList.py:15-18 | a one-day range 2013-10-31 gives "/ \nFP_20131031 \n/" with no separator |
| FileList.InvertedRange | Programs/createGDXfileList.py:15-18 | 2013-05-05 to 2013-05-01 gives "/ \n \n/" |

## Left out

- Opening, writing and closing the output file (lines 14 and 19) are I/O. The model computes the text that is written.
- The internals of `pd.date_range` are foreign code. `Range` replaces them with a self-written Gregorian successor. pandas also rejects dates outside its nanosecond timestamp range (roughly years 1677 to 2262); that error path is not modelled, and the model accepts every year from 1.
- The time of day of `st` and `et` (midnight) is dropped. The model works on calendar days.
- What `tofile` writes after the last item is not visible in this source. `Content` joins the tokens; the other reading is `TerminatedContent`, and no claim is made about which one the library produces.
- Newline translation by the operating system in text mode (line 14 opens with `"w"`) is platform behaviour, not program logic.
- The top-level call with a hard-coded output file name (line 21) is script plumbing.
- The `_F`, `_I`, `_P` and `x` file-name suffixes mentioned in the comments (lines 3-4) are never implemented in the code.
- Decimal.ZFill: handles unsigned strings only; Python's sign-aware `zfill` is not modelled, because the script only pads `str` of a positive month or day.
- Writing the file twice with the same arguments gives the same bytes. This needs no lemma, because `Content` is a pure function of its two arguments.

## Findings

| source | as written | input that shows it | evidently intended | confidence | as-written member | corrected member |
|---|---|---|---|---|---|---|
| Programs/createGDXfileList.py:16 | the range is `pd.date_range(start=st, end=et)`, built from the module-level dates; the parameters `start` and `end` of line 13 are never used | `createGDXfilelist(datetime(2014,1,1), datetime(2014,1,1), f)` writes the 304 tokens of 2013 instead of the single token FP_20140101 | `pd.date_range(start=start, end=end)` | high that the parameters are ignored; no visible effect at the script's only call (line 21), which passes `st` and `et`; not executed | FileList.AsWrittenIgnoresArguments | FileList.ContentRoundTrip |
