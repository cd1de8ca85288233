/**
 * The line-partitioning logic of the Value Change Dump (VCD) splitter:
 * find where the header ends (one past the `$end` that closes the
 * `$dumpvars` section, IEEE 1364-2005 section 18.2), then send every later
 * line to the first output while the current simulation time is at most the
 * split time and to the second output after that. A file is the sequence of
 * its lines as Python's `readlines()` gives them (line terminators kept);
 * the reads, writes and messages around the algorithm are not modelled.
 */
module SplitVcd {
  import opened Wrappers
  import opened PyText

  const DumpvarsKeyword: string := "$dumpvars"
  const EndKeyword: string := "$end"

  // ---------------------------------------------------------------------------
  // Header detection
  // ---------------------------------------------------------------------------

  /** Some line among the first `n` lines contains `$dumpvars`. */
  ghost predicate DumpvarsSeen(lines: seq<string>, n: int)
  {
    exists k :: 0 <= k < n && k < |lines| && Contains(lines[k], DumpvarsKeyword)
  }

  /** Line `j` closes the header: it contains `$end`, and it or an earlier
      line contains `$dumpvars`. */
  ghost predicate EndsHeader(lines: seq<string>, j: int)
  {
    0 <= j < |lines| && Contains(lines[j], EndKeyword) && DumpvarsSeen(lines, j + 1)
  }

  /** Whether a line closes the header depends only on the lines up to it. */
  lemma EndsHeaderOfPrefix(lines: seq<string>, n: nat, j: int)
    requires j < n <= |lines|
    ensures EndsHeader(lines[..n], j) <==> EndsHeader(lines, j)
  {
  }

  /** The length of the header: one past the first line that closes it, or 0
      when no line does. */
  ghost function HeaderEnd(lines: seq<string>): (r: nat)
    ensures r <= |lines|
    ensures r > 0 ==> EndsHeader(lines, r - 1)
    ensures forall j :: EndsHeader(lines, j) ==> 0 < r && r - 1 <= j
    decreases |lines|
  {
    if lines == [] then
      0
    else
      var n := |lines| - 1;
      var h := HeaderEnd(lines[..n]);
      assert forall j :: 0 <= j < n ==> (EndsHeader(lines[..n], j) <==> EndsHeader(lines, j)) by {
        forall j | 0 <= j < n {
          EndsHeaderOfPrefix(lines, n, j);
        }
      }
      if h > 0 then h
      else if EndsHeader(lines, n) then n + 1
      else 0
  }

  /** The header scan: walks the lines, remembers whether `$dumpvars` has been
      seen, and stops at the first `$end` after it. */
  method FindHeaderEnd(lines: seq<string>) returns (headerEnd: nat)
    ensures headerEnd == HeaderEnd(lines)
  {
    headerEnd := 0;
    var inDumpvars := false;
    var i := 0;
    while i < |lines|
      invariant 0 <= i <= |lines|
      invariant inDumpvars <==> DumpvarsSeen(lines, i)
      invariant forall j :: 0 <= j < i ==> !EndsHeader(lines, j)
      invariant headerEnd == 0
    {
      var line := lines[i];
      if Contains(line, DumpvarsKeyword) {
        inDumpvars := true;
      }
      assert inDumpvars <==> DumpvarsSeen(lines, i + 1);
      if inDumpvars && Contains(line, EndKeyword) {
        headerEnd := i + 1;
        assert EndsHeader(lines, i);
        break;
      }
      i := i + 1;
    }
  }

  /** A single line holding both `$dumpvars` and `$end` closes the header
      itself, when no earlier line did. */
  lemma DumpvarsAndEndOnOneLine(lines: seq<string>, j: nat)
    requires j < |lines|
    requires Contains(lines[j], DumpvarsKeyword) && Contains(lines[j], EndKeyword)
    requires forall i :: 0 <= i < j ==> !EndsHeader(lines, i)
    ensures HeaderEnd(lines) == j + 1
  {
    assert EndsHeader(lines, j);
  }

  /** An `$end` with no `$dumpvars` on or before its line never closes the header. */
  lemma EndBeforeDumpvarsIgnored(lines: seq<string>, j: nat)
    requires j < |lines| && Contains(lines[j], EndKeyword)
    requires forall k :: 0 <= k <= j ==> !Contains(lines[k], DumpvarsKeyword)
    ensures HeaderEnd(lines) != j + 1
  {
  }

  /** Without a `$dumpvars` followed by an `$end`, the header is empty and
      every line is data. */
  lemma NoDumpvarsNoHeader(lines: seq<string>)
    requires forall k :: 0 <= k < |lines| ==> !Contains(lines[k], DumpvarsKeyword)
    ensures HeaderEnd(lines) == 0
  {
  }

  // ---------------------------------------------------------------------------
  // Timestamps and the data split
  // ---------------------------------------------------------------------------

  /** The time a line sets: `#` followed by what Python's `int()` accepts
      after `strip()`; None for any other line, including a bare `#` and a
      `#` followed by text `int()` rejects. */
  function Timestamp(line: string): Option<int>
  {
    if StartsWith(line, "#") then ParseInt(Strip(line[1..])) else None
  }

  /** A well-formed VCD timestamp line sets the time it names. */
  lemma TimestampLine(t: int)
    ensures Timestamp("#" + ShowInt(t) + "\n") == Some(t)
  {
    var digits := ShowInt(t);
    var line := "#" + digits + "\n";
    assert line[1..] == digits + "\n";
    assert digits[0] == '-' || IsDigit(digits[0]);
    assert StripLeft(digits + "\n") == digits + "\n";
    StripTrailingSpace(digits, '\n');
    StripTrimmed(digits);
    ParseShowInt(t);
  }

  /** A line sets a time exactly when it starts with `#` and the rest,
      stripped, is an integer literal Python's `int()` accepts. */
  lemma TimestampAcceptsLiterals(line: string)
    ensures Timestamp(line).Some? <==> StartsWith(line, "#") && IsIntLiteral(Strip(line[1..]))
  {
    if StartsWith(line, "#") {
      ParseIntAcceptsLiterals(Strip(line[1..]));
    }
  }

  /** A bare `#` is not a timestamp. */
  lemma BareHashIsNoTimestamp()
    ensures Timestamp("#").None? && Timestamp("#\n").None?
  {
  }

  // The routing is stated for any reader `stamp` of the time a line sets;
  // the script's reader is Timestamp. Keeping the reader a parameter keeps the
  // parser out of the proofs about routing, which hold whatever it accepts.

  /** The current time once the lines have been consumed: initially 0, and
      replaced by every timestamp that the reader accepts. */
  function TimeAfter(stamp: string -> Option<int>, lines: seq<string>): int
  {
    if lines == [] then 0
    else
      match stamp(lines[|lines| - 1])
      case Some(t) => t
      case None => TimeAfter(stamp, lines[..|lines| - 1])
  }

  /** The line at index `i` goes to the first output. */
  function InFirst(stamp: string -> Option<int>, data: seq<string>, splitTimePs: int, i: nat): bool
    requires i < |data|
  {
    TimeAfter(stamp, data[..i + 1]) <= splitTimePs
  }

  /** The lines sent to the first output (`data1`), in order. */
  function FirstPart(stamp: string -> Option<int>, data: seq<string>, splitTimePs: int): seq<string>
  {
    if data == [] then []
    else
      var n := |data| - 1;
      FirstPart(stamp, data[..n], splitTimePs)
        + (if TimeAfter(stamp, data) <= splitTimePs then [data[n]] else [])
  }

  /** The lines sent to the second output (`data2`), in order. */
  function SecondPart(stamp: string -> Option<int>, data: seq<string>, splitTimePs: int): seq<string>
  {
    if data == [] then []
    else
      var n := |data| - 1;
      SecondPart(stamp, data[..n], splitTimePs)
        + (if TimeAfter(stamp, data) <= splitTimePs then [] else [data[n]])
  }

  /** The partition loop. `split_occurred` is set once the first line goes to
      the second output and is never read afterwards. */
  method PartitionData(data: seq<string>, splitTimePs: int) returns (data1: seq<string>, data2: seq<string>)
    ensures data1 == FirstPart(Timestamp, data, splitTimePs)
    ensures data2 == SecondPart(Timestamp, data, splitTimePs)
  {
    data1, data2 := [], [];
    var currentTime := 0;
    var splitOccurred := false;
    for i := 0 to |data|
      invariant currentTime == TimeAfter(Timestamp, data[..i])
      invariant data1 == FirstPart(Timestamp, data[..i], splitTimePs)
      invariant data2 == SecondPart(Timestamp, data[..i], splitTimePs)
      invariant splitOccurred <==> data2 != []
    {
      var line := data[i];
      assert data[..i + 1][..i] == data[..i];
      if StartsWith(line, "#") {
        var parsed := ParseInt(Strip(line[1..]));
        if parsed.Some? {
          currentTime := parsed.value;
        }
      }
      if currentTime <= splitTimePs {
        data1 := data1 + [line];
      } else {
        if !splitOccurred {
          splitOccurred := true;
        }
        data2 := data2 + [line];
      }
    }
    assert data[..|data|] == data;
  }

  // ---------------------------------------------------------------------------
  // Properties of the data split
  // ---------------------------------------------------------------------------

  /** The current time is the value of the last timestamp that parses. */
  lemma {:induction false} TimeAfterIsLastTimestamp(stamp: string -> Option<int>, lines: seq<string>, k: nat)
    requires k < |lines| && stamp(lines[k]).Some?
    requires forall m :: k < m < |lines| ==> stamp(lines[m]).None?
    ensures TimeAfter(stamp, lines) == stamp(lines[k]).value
    decreases |lines|
  {
    var n := |lines| - 1;
    if k < n {
      assert forall m :: k < m < n ==> lines[..n][m] == lines[m];
      TimeAfterIsLastTimestamp(stamp, lines[..n], k);
    }
  }

  /** Before any timestamp parses, the current time is 0. */
  lemma {:induction false} TimeAfterWithoutTimestamps(stamp: string -> Option<int>, lines: seq<string>)
    requires forall m :: 0 <= m < |lines| ==> stamp(lines[m]).None?
    ensures TimeAfter(stamp, lines) == 0
    decreases |lines|
  {
    if lines != [] {
      var n := |lines| - 1;
      assert forall m :: 0 <= m < n ==> lines[..n][m] == lines[m];
      TimeAfterWithoutTimestamps(stamp, lines[..n]);
    }
  }

  /** A line that sets no time (no leading `#`, a bare `#`, or a number
      `int()` rejects) leaves the current time as it was. */
  lemma UnparsedLineKeepsTime(stamp: string -> Option<int>, lines: seq<string>, line: string)
    requires stamp(line).None?
    ensures TimeAfter(stamp, lines + [line]) == TimeAfter(stamp, lines)
  {
  }

  /** Interleaves `a` and `b`, taking the next element of `a` where `mask`
      says true and the next element of `b` where it says false. The empty
      results for a missing element are never reached for the routing and
      outputs of the split: PartitionSizes shows both outputs have exactly the
      lengths the routing needs. */
  function Interleave<T>(mask: seq<bool>, a: seq<T>, b: seq<T>): seq<T>
    decreases |mask|
  {
    if mask == [] then []
    else if mask[|mask| - 1] then
      if a == [] then [] else Interleave(mask[..|mask| - 1], a[..|a| - 1], b) + [a[|a| - 1]]
    else
      if b == [] then [] else Interleave(mask[..|mask| - 1], a, b[..|b| - 1]) + [b[|b| - 1]]
  }

  /** Which output each data line goes to, in order: true for the first. */
  function Routes(stamp: string -> Option<int>, data: seq<string>, splitTimePs: int): (r: seq<bool>)
    ensures |r| == |data|
  {
    if data == [] then []
    else Routes(stamp, data[..|data| - 1], splitTimePs) + [TimeAfter(stamp, data) <= splitTimePs]
  }

  function CountTrue(mask: seq<bool>): nat
  {
    if mask == [] then 0 else CountTrue(mask[..|mask| - 1]) + (if mask[|mask| - 1] then 1 else 0)
  }

  /** A line is routed by the current time just after it is consumed: the
      last timestamp at or before it, or 0. A timestamp line is routed by
      its own value. */
  lemma {:induction false} RouteOfLine(stamp: string -> Option<int>, data: seq<string>, splitTimePs: int, i: nat)
    requires i < |data|
    ensures Routes(stamp, data, splitTimePs)[i] == InFirst(stamp, data, splitTimePs, i)
    decreases |data|
  {
    var n := |data| - 1;
    if i < n {
      RouteOfLine(stamp, data[..n], splitTimePs, i);
      assert data[..n][..i + 1] == data[..i + 1];
    } else {
      assert data[..i + 1] == data;
    }
  }

  /** A line is routed by the last timestamp at or before it. */
  lemma RoutedByLastTimestamp(stamp: string -> Option<int>, data: seq<string>, splitTimePs: int, i: nat, k: nat)
    requires k <= i < |data| && stamp(data[k]).Some?
    requires forall m :: k < m <= i ==> stamp(data[m]).None?
    ensures Routes(stamp, data, splitTimePs)[i] == (stamp(data[k]).value <= splitTimePs)
  {
    RouteOfLine(stamp, data, splitTimePs, i);
    var prefix := data[..i + 1];
    assert forall m :: k <= m <= i ==> prefix[m] == data[m];
    TimeAfterIsLastTimestamp(stamp, prefix, k);
  }

  /** A line before the first timestamp is routed by the initial time 0. */
  lemma RoutedByInitialTime(stamp: string -> Option<int>, data: seq<string>, splitTimePs: int, i: nat)
    requires i < |data|
    requires forall m :: 0 <= m <= i ==> stamp(data[m]).None?
    ensures Routes(stamp, data, splitTimePs)[i] == (0 <= splitTimePs)
  {
    RouteOfLine(stamp, data, splitTimePs, i);
    var prefix := data[..i + 1];
    assert forall m :: 0 <= m <= i ==> prefix[m] == data[m];
    TimeAfterWithoutTimestamps(stamp, prefix);
  }

  /** Every data line goes to exactly one output: the first output holds one
      line per line routed to it, the second the rest. */
  lemma {:induction false} PartitionSizes(stamp: string -> Option<int>, data: seq<string>, splitTimePs: int)
    ensures |FirstPart(stamp, data, splitTimePs)| == CountTrue(Routes(stamp, data, splitTimePs))
    ensures |FirstPart(stamp, data, splitTimePs)| + |SecondPart(stamp, data, splitTimePs)| == |data|
    decreases |data|
  {
    if data != [] {
      var n := |data| - 1;
      var mask := Routes(stamp, data, splitTimePs);
      assert mask[..n] == Routes(stamp, data[..n], splitTimePs);
      PartitionSizes(stamp, data[..n], splitTimePs);
    }
  }

  lemma InterleaveSnoc<T>(mask: seq<bool>, a: seq<T>, b: seq<T>, routed: bool, x: T)
    ensures routed ==> Interleave(mask + [routed], a + [x], b) == Interleave(mask, a, b) + [x]
    ensures !routed ==> Interleave(mask + [routed], a, b + [x]) == Interleave(mask, a, b) + [x]
  {
  }

  /** Merging the two outputs back along the routing gives the data back:
      each output keeps the lines routed to it in their original order. */
  lemma {:induction false} InterleaveRecoversData(stamp: string -> Option<int>, data: seq<string>, splitTimePs: int)
    ensures Interleave(Routes(stamp, data, splitTimePs), FirstPart(stamp, data, splitTimePs), SecondPart(stamp, data, splitTimePs)) == data
    decreases |data|
  {
    if data != [] {
      var n := |data| - 1;
      var init, last := data[..n], data[n];
      var routed := TimeAfter(stamp, data) <= splitTimePs;
      var mask, first, second := Routes(stamp, init, splitTimePs), FirstPart(stamp, init, splitTimePs), SecondPart(stamp, init, splitTimePs);
      InterleaveRecoversData(stamp, init, splitTimePs);
      InterleaveSnoc(mask, first, second, routed, last);
      assert init + [last] == data;
      assert Routes(stamp, data, splitTimePs) == mask + [routed];
      if routed {
        assert Interleave(mask + [routed], first + [last], second) == data;
        assert FirstPart(stamp, data, splitTimePs) == first + [last];
        assert SecondPart(stamp, data, splitTimePs) == second;
      } else {
        assert Interleave(mask + [routed], first, second + [last]) == data;
        assert FirstPart(stamp, data, splitTimePs) == first;
        assert SecondPart(stamp, data, splitTimePs) == second + [last];
      }
    }
  }

  /** The two outputs together hold the data lines, each as often as in the data. */
  lemma {:induction false} PartitionPreservesLines(stamp: string -> Option<int>, data: seq<string>, splitTimePs: int)
    ensures multiset(FirstPart(stamp, data, splitTimePs)) + multiset(SecondPart(stamp, data, splitTimePs)) == multiset(data)
    decreases |data|
  {
    if data != [] {
      var n := |data| - 1;
      PartitionPreservesLines(stamp, data[..n], splitTimePs);
      assert data[..n] + [data[n]] == data;
    }
  }

  /** Timestamps as a VCD writer emits them: none below the initial time 0,
      and none below an earlier one. */
  ghost predicate MonotoneTimestamps(stamp: string -> Option<int>, data: seq<string>)
  {
    && (forall i :: 0 <= i < |data| && stamp(data[i]).Some? ==> 0 <= stamp(data[i]).value)
    && (forall i, j :: 0 <= i < j < |data| && stamp(data[i]).Some? && stamp(data[j]).Some? ==>
          stamp(data[i]).value <= stamp(data[j]).value)
  }

  /** The current time is 0 or the value of one of the timestamps consumed. */
  lemma {:induction false} TimeAfterSource(stamp: string -> Option<int>, lines: seq<string>)
    ensures TimeAfter(stamp, lines) == 0 || exists k :: 0 <= k < |lines| && stamp(lines[k]) == Some(TimeAfter(stamp, lines))
    decreases |lines|
  {
    if lines != [] {
      var n := |lines| - 1;
      if stamp(lines[n]).None? {
        TimeAfterSource(stamp, lines[..n]);
        if TimeAfter(stamp, lines) != 0 {
          var k :| 0 <= k < n && stamp(lines[..n][k]) == Some(TimeAfter(stamp, lines[..n]));
          assert lines[..n][k] == lines[k];
        }
      }
    }
  }

  /** Under monotone timestamps the current time never goes down. */
  lemma {:induction false} TimeAfterMonotone(stamp: string -> Option<int>, data: seq<string>, i: nat, j: nat)
    requires MonotoneTimestamps(stamp, data)
    requires i <= j <= |data|
    ensures TimeAfter(stamp, data[..i]) <= TimeAfter(stamp, data[..j])
    decreases j - i
  {
    if i < j {
      TimeAfterMonotone(stamp, data, i, j - 1);
      var p := data[..j];
      assert p[..j - 1] == data[..j - 1];
      if stamp(data[j - 1]).Some? {
        TimeAfterSource(stamp, data[..j - 1]);
        if TimeAfter(stamp, data[..j - 1]) != 0 {
          var k :| 0 <= k < j - 1 && stamp(data[..j - 1][k]) == Some(TimeAfter(stamp, data[..j - 1]));
          assert data[..j - 1][k] == data[k];
        }
      }
    }
  }

  /** When every line is routed to the first output, it is the whole data
      and the second output is empty. */
  lemma {:induction false} AllRoutedFirst(stamp: string -> Option<int>, data: seq<string>, splitTimePs: int)
    requires forall i :: 0 <= i < |data| ==> InFirst(stamp, data, splitTimePs, i)
    ensures FirstPart(stamp, data, splitTimePs) == data
    ensures SecondPart(stamp, data, splitTimePs) == []
    decreases |data|
  {
    if data != [] {
      var n := |data| - 1;
      forall i | 0 <= i < n
        ensures InFirst(stamp, data[..n], splitTimePs, i)
      {
        assert data[..n][..i + 1] == data[..i + 1];
        assert InFirst(stamp, data, splitTimePs, i);
      }
      AllRoutedFirst(stamp, data[..n], splitTimePs);
      assert data[..n + 1] == data;
      assert InFirst(stamp, data, splitTimePs, n);
      assert data[..n] + [data[n]] == data;
    }
  }

  /** Timestamps of a prefix are monotone when those of the whole are. */
  lemma MonotoneOfPrefix(stamp: string -> Option<int>, data: seq<string>, n: nat)
    requires MonotoneTimestamps(stamp, data) && n <= |data|
    ensures MonotoneTimestamps(stamp, data[..n])
  {
  }

  /** Under monotone timestamps, once the last line is routed to the first
      output, so is every line. */
  lemma EveryLineRoutedFirst(stamp: string -> Option<int>, data: seq<string>, splitTimePs: int)
    requires MonotoneTimestamps(stamp, data)
    requires TimeAfter(stamp, data) <= splitTimePs
    ensures forall i :: 0 <= i < |data| ==> InFirst(stamp, data, splitTimePs, i)
  {
    var n := |data|;
    assert data[..n] == data;
    forall i | 0 <= i < n
      ensures InFirst(stamp, data, splitTimePs, i)
    {
      TimeAfterMonotone(stamp, data, i + 1, n);
    }
  }

  /** With monotone timestamps the split is a cut: the first output is a
      prefix of the data and the second output is the rest. */
  lemma {:induction false} MonotoneSplitIsCut(stamp: string -> Option<int>, data: seq<string>, splitTimePs: int)
    requires MonotoneTimestamps(stamp, data)
    ensures FirstPart(stamp, data, splitTimePs) + SecondPart(stamp, data, splitTimePs) == data
    decreases |data|
  {
    if data != [] {
      if TimeAfter(stamp, data) <= splitTimePs {
        EveryLineRoutedFirst(stamp, data, splitTimePs);
        AllRoutedFirst(stamp, data, splitTimePs);
      } else {
        var n := |data| - 1;
        var init := data[..n];
        MonotoneOfPrefix(stamp, data, n);
        MonotoneSplitIsCut(stamp, init, splitTimePs);
        assert SecondPart(stamp, data, splitTimePs) == SecondPart(stamp, init, splitTimePs) + [data[n]];
        assert init + [data[n]] == data;
      }
    }
  }

  /** The whole split: the header goes to both outputs, the data after it is
      partitioned by time. Each output is returned as its sequence of lines. */
  method Split(lines: seq<string>, splitTimePs: int) returns (output1: seq<string>, output2: seq<string>)
    ensures var h := HeaderEnd(lines);
      && output1 == lines[..h] + FirstPart(Timestamp, lines[h..], splitTimePs)
      && output2 == lines[..h] + SecondPart(Timestamp, lines[h..], splitTimePs)
  {
    var headerEnd := FindHeaderEnd(lines);
    var header := lines[..headerEnd];
    var data := lines[headerEnd..];
    var data1, data2 := PartitionData(data, splitTimePs);
    output1 := header + data1;
    output2 := header + data2;
  }

  /** Both outputs start with the whole header, and between them every line
      after the header appears exactly once: the two files hold the header
      twice and each data line once. */
  lemma SplitAccountsForEveryLine(lines: seq<string>, splitTimePs: int)
    ensures var h := HeaderEnd(lines);
      var output1 := lines[..h] + FirstPart(Timestamp, lines[h..], splitTimePs);
      var output2 := lines[..h] + SecondPart(Timestamp, lines[h..], splitTimePs);
      && output1[..h] == lines[..h] && output2[..h] == lines[..h]
      && |output1| + |output2| == |lines| + h
      && multiset(output1[h..]) + multiset(output2[h..]) == multiset(lines[h..])
  {
    var h := HeaderEnd(lines);
    PartitionSizes(Timestamp, lines[h..], splitTimePs);
    PartitionPreservesLines(Timestamp, lines[h..], splitTimePs);
    var output1 := lines[..h] + FirstPart(Timestamp, lines[h..], splitTimePs);
    var output2 := lines[..h] + SecondPart(Timestamp, lines[h..], splitTimePs);
    assert output1[h..] == FirstPart(Timestamp, lines[h..], splitTimePs);
    assert output2[h..] == SecondPart(Timestamp, lines[h..], splitTimePs);
  }

  /** For a file whose timestamps after the header never go down and none is
      negative, the first output followed by
      the data part of the second output is the input file again. */
  lemma SplitOfMonotoneFileReassembles(lines: seq<string>, splitTimePs: int)
    requires MonotoneTimestamps(Timestamp, lines[HeaderEnd(lines)..])
    ensures var h := HeaderEnd(lines);
      lines[..h] + FirstPart(Timestamp, lines[h..], splitTimePs) + SecondPart(Timestamp, lines[h..], splitTimePs) == lines
  {
    var h := HeaderEnd(lines);
    MonotoneSplitIsCut(Timestamp, lines[h..], splitTimePs);
    assert lines[..h] + lines[h..] == lines;
  }
}
