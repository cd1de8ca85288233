# split_vcd: a verified model of the VCD splitter

`scripts/ibex/split_vcd.py` splits a Value Change Dump (VCD) waveform file,
the format of section 18 of IEEE 1364-2005, into two files at a given time in
picoseconds. It works line by line on the file as `readlines()` returns it
(each line keeps its terminator):

1. **Header detection.** The header runs up to and including the first line
   that contains `$end` at or after the first line that contains
   `$dumpvars`. If no line closes it, the header is empty.
2. **Data split.** The remaining lines are walked in order. A line that
   starts with `#` and whose remainder, stripped, is accepted by Python's
   `int()` sets the current time, which starts at 0. A line goes to the
   first output while the current time is at most the split time, and to the
   second output otherwise. A timestamp line is routed by its own new value.
3. Both output files get the whole header, followed by their data lines.

The model has three modules:

- `Wrappers` (`wrappers.dfy`) holds the `Option` type. `None` stands for a
  Python call that raises.
- `PyText` (`pytext.dfy`) models the Python string operations the script
  uses:
  - `pat in s` is `Contains`;
  - `startswith` is `StartsWith`;
  - `strip()` is `Strip`;
  - `int()` in base 10 is `ParseInt`, and `str()` is `ShowInt`, with
    `ParseInt(ShowInt(n)) == Some(n)` (`ParseInt` also accepts other
    spellings of the same number, such as `007` or `+7`).
- `SplitVcd` (`split_vcd.dfy`) models the script itself:
  - the header scan is the method `FindHeaderEnd`, proved against the
    specification function `HeaderEnd`;
  - the partition loop is the method `PartitionData`, proved against
    `FirstPart` and `SecondPart`;
  - `Split` runs both and returns the two output files as sequences of lines.

The routing functions (`TimeAfter`, `FirstPart`, `SecondPart`, `Routes`) take
the line-to-timestamp reader as a parameter `stamp`, and the lemmas about
routing hold for every reader. The script's reader is `Timestamp`, and the
methods and the whole-file lemmas use it.

## Model

| member | source | states |
|---|---|---|
| `PyText.Contains` | scripts/ibex/split_vcd.py:25-27 | `pat in s` is true exactly when `pat` occurs at some index of `s` |
| `PyText.StripLeftDropsLeadingSpace` | scripts/ibex/split_vcd.py:44 | the left half of `strip()` removes a prefix made only of whitespace, and what remains does not start with whitespace |
| `PyText.StripRightDropsTrailingSpace` | scripts/ibex/split_vcd.py:44 | the right half of `strip()` removes a suffix made only of whitespace, and what remains does not end with whitespace |
| `PyText.StripKeepsCore` | scripts/ibex/split_vcd.py:44 | `strip()` returns a slice of its input with only whitespace on either side, and the slice has no whitespace at either end |
| `PyText.StripTrimmed` | scripts/ibex/split_vcd.py:44 | a string with no whitespace at either end is unchanged by `strip()` |
| `PyText.StripTrailingSpace` | scripts/ibex/split_vcd.py:44 | a trailing whitespace character, such as the line's `\n`, does not affect the result of `rstrip()`, the right half of `strip()` |
| `PyText.ParseDigitsAcceptsWellFormed` | scripts/ibex/split_vcd.py:44 | the digit scanner succeeds exactly on Python's decimal digit grammar: digits, with single underscores only between digits |
| `PyText.ParseIntAcceptsLiterals` | scripts/ibex/split_vcd.py:43-46 | `int()` succeeds exactly on an optional `+`/`-` followed by well-formed digits; on anything else it raises, which is `None` here (CPython's limit on the number of digits is not modelled, see Left out) |
| `PyText.ParseShowNat` | scripts/ibex/split_vcd.py:44 | parsing the decimal rendering of a natural number gives that number back |
| `PyText.ParseShowInt` | scripts/ibex/split_vcd.py:44 | `int(str(n)) == n` for every integer, negative ones included, apart from CPython's limit on the number of digits (see Left out) |
| `SplitVcd.HeaderEnd` | scripts/ibex/split_vcd.py:22-29 | the header length is at most the number of lines; when positive, its last line contains `$end` with `$dumpvars` on it or on an earlier line; no earlier line does both; it is 0 only when no line closes the header |
| `SplitVcd.FindHeaderEnd` | scripts/ibex/split_vcd.py:21-29 | the scan loop, with its `in_dumpvars` flag and its `break`, returns exactly `HeaderEnd(lines)` |
| `SplitVcd.DumpvarsAndEndOnOneLine` | scripts/ibex/split_vcd.py:25-28 | a line holding both `$dumpvars` and `$end` closes the header itself, when no earlier line has closed it |
| `SplitVcd.EndBeforeDumpvarsIgnored` | scripts/ibex/split_vcd.py:23-29 | an `$end` line with no `$dumpvars` on it or before it never ends the header |
| `SplitVcd.NoDumpvarsNoHeader` | scripts/ibex/split_vcd.py:22-31 | without any `$dumpvars` line the header is empty and every line is data |
| `SplitVcd.TimestampLine` | scripts/ibex/split_vcd.py:42-44 | a line `#<n>` followed by a newline sets the time `n`, for every integer `n` within CPython's limit on the number of digits (see Left out) |
| `SplitVcd.TimestampAcceptsLiterals` | scripts/ibex/split_vcd.py:42-46 | a line sets a time exactly when it starts with `#` and its stripped remainder is an integer literal `int()` accepts |
| `SplitVcd.BareHashIsNoTimestamp` | scripts/ibex/split_vcd.py:42-46 | a bare `#`, with or without a newline, sets no time |
| `SplitVcd.UnparsedLineKeepsTime` | scripts/ibex/split_vcd.py:42-46 | a line that sets no time leaves the current time unchanged |
| `SplitVcd.TimeAfterIsLastTimestamp` | scripts/ibex/split_vcd.py:40-46 | the current time after some lines is the value of the last of them that sets a time |
| `SplitVcd.TimeAfterWithoutTimestamps` | scripts/ibex/split_vcd.py:37 | before any line sets a time, the current time is the initial 0 |
| `SplitVcd.RouteOfLine` | scripts/ibex/split_vcd.py:48-54 | line `i` is routed to the first output exactly when the current time just after consuming it is at most the split time |
| `SplitVcd.RoutedByLastTimestamp` | scripts/ibex/split_vcd.py:42-49 | a line goes to the first output exactly when the last timestamp at or before it is at most the split time, and a timestamp line is routed by its own value |
| `SplitVcd.RoutedByInitialTime` | scripts/ibex/split_vcd.py:37-49 | a line before the first timestamp goes to the first output exactly when the split time is at least 0 |
| `SplitVcd.PartitionData` | scripts/ibex/split_vcd.py:34-54 | the partition loop builds `data1` and `data2` equal to `FirstPart` and `SecondPart` of the data; `split_occurred` only records whether `data2` is non-empty and changes neither list |
| `SplitVcd.PartitionSizes` | scripts/ibex/split_vcd.py:40-54 | `data1` has one line per line routed to it, and the two lists together have as many lines as the data |
| `SplitVcd.InterleaveRecoversData` | scripts/ibex/split_vcd.py:40-54 | merging `data1` and `data2` back along the routing gives the data: every line lands in exactly one list, and each list keeps the data's order |
| `SplitVcd.PartitionPreservesLines` | scripts/ibex/split_vcd.py:40-54 | the two lists together hold every data line as often as the data does |
| `SplitVcd.TimeAfterSource` | scripts/ibex/split_vcd.py:37-46 | the current time is 0 or the value of one of the timestamps consumed |
| `SplitVcd.TimeAfterMonotone` | scripts/ibex/split_vcd.py:37-46 | when timestamps never go down and none is negative, the current time never goes down |
| `SplitVcd.MonotoneSplitIsCut` | scripts/ibex/split_vcd.py:40-54 | when timestamps never go down and none is negative, `data1 + data2 == data`: the first output is a prefix of the data and the second output is the rest |
| `SplitVcd.Split` | scripts/ibex/split_vcd.py:21-64 | output 1 is `lines[:header_end]` followed by `data1`, and output 2 is the same header followed by `data2` |
| `SplitVcd.SplitAccountsForEveryLine` | scripts/ibex/split_vcd.py:31-64 | both outputs start with the identical header, the files hold the header twice and each data line once, and their data parts together are the data as a multiset |
| `SplitVcd.SplitOfMonotoneFileReassembles` | scripts/ibex/split_vcd.py:31-54 | for a file whose timestamps after the header never go down and none is negative, the header, then output 1's data, then output 2's data, is the input again |

## Notes on the source

- Line 9's docstring says output 2 holds data "from split_time onward". In
  the code, lines at exactly the split time go only to output 1. Output 2
  starts at the first line whose current time exceeds the split time. For a
  split time of at least 0 that line is the first timestamp greater than the
  split time. For a negative split time (argparse accepts one) the initial
  time 0 already exceeds it, so output 2 starts at the first data line,
  timestamp or not. The model follows the code.
- The comment at line 52 says one more timestamp line is added to `data1`.
  No code does this: `split_occurred` is set and never read. The model keeps
  the flag and proves that the two lists do not depend on it.
- A line that starts with `#` but does not parse, for example `#` alone or
  `#1__0`, leaves the current time as it was. The `except` at line 45
  swallows the error.
- The substring test is literal, so `$enddefinitions` also contains `$end`.
  This only matters once a `$dumpvars` has been seen, which the model
  reproduces as written.
- `MonotoneSplitIsCut` needs timestamps that are at least 0 as well as
  non-decreasing. The current time starts at 0, so one negative first
  timestamp (`#-5`, which `int()` accepts) would make time go down. VCD
  simulation times are non-negative.

## Left out

- File reading and writing (`open`, `readlines`, `writelines`) and the
  summary printed at lines 66-68 are I/O. The input is the sequence of lines
  `readlines()` would return, and the outputs are returned as sequences of
  lines.
- The command-line wrapper `main` (lines 70-84) is argument parsing through
  `argparse`. The split time arrives as an `int` parameter.
- `PyText.ParseInt` covers only ASCII digits, while Python's `int()` also
  accepts other Unicode decimal digits. `PyText.IsSpace` covers only the
  ASCII whitespace of `str.isspace()`, not non-ASCII spaces such as U+00A0
  or U+2028. VCD files are ASCII.
- `PyText.ParseInt`: does not model CPython's integer string conversion
  limit (`sys.int_info.default_max_str_digits`, 4300 digits from Python
  3.11 and in the security releases of 3.7-3.10). Above it `int()` raises,
  the bare `except` at line 45 swallows the error and the time stays as it
  was, while `ParseInt` returns the value. The same limit applies to
  `PyText.ShowInt` (`str()`) and so to `PyText.ParseShowInt` and
  `SplitVcd.TimestampLine`. No VCD timestamp comes near 4300 digits.
- `PyText.ParseInt`: its value is pinned by the round trip with `ShowInt`
  on canonical literals. No separate lemma gives the value of a literal with
  underscores or leading zeros.
- The RV32E execution core and its decoder, ALU, multiply/divide unit and
  formal properties are not part of this model; this model covers only the
  VCD splitter script.
