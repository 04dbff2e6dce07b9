# swim-rs: the SWIM node core and its two benchmark analysers, in Dafny

This project models four parts of swim-rs, a small implementation of the SWIM failure-detection protocol over UDP:

- **The node** (`src/protocol/node.rs`, with the `Message` enum of `messages.rs`). It keeps:
  - a membership table of peers that are `Active`, `Suspect` or `Dead`;
  - a list of pending probes;
  - a queue of outgoing messages;
  - latency metrics.

  It answers `Ping` with `Ack`. It turns a `PingReq` into a `Ping` of the target. An `Ack` completes a probe and records its round-trip time. On each tick:
  - an expired direct probe is escalated to indirect probes through up to three other active members;
  - an expired indirect probe makes its target suspect;
  - a suspect that stays silent for three seconds becomes dead;
  - one random active member is pinged.

  `Node` and `Membership` are Dafny classes whose methods update the fields in place. Each method's postcondition gives the new state through functions of the old state (`Ensured`, `MarkedActive`, `Unanswered`, `AfterProbeTimeouts`, `SuspectAll`, `AfterSuspectTimeouts`, ...). Lemmas in `NodeState` state what those functions do.
- **The latency metrics** (`src/protocol/metrics.rs`). This is a class holding a bounded buffer of the most recent RTT samples and three counters. Its statistics (min, max, floor mean, p50, p95, p99, jitter) are computed from a sorted copy of the buffer. A ghost history of every RTT ever recorded lets the postconditions say that the buffer always holds the most recent `max_samples` of them.
- **The RTT log analyser** (`bench/visualize_latency.py`). It covers:
  - `parse_duration`;
  - the two regular expressions that pick `Received ACK ... (RTT: ...)` samples out of log lines, written as deterministic scanners;
  - the `parse_log_file` loop;
  - the numbers and the ASCII histogram of `print_statistics`;
  - the CDF series and the rolling-jitter loop of the plot.
- **The strace analyser** (`bench/analyze_trace.py`). It covers:
  - `parse_strace_line`, with its anchored pattern written as a scanner;
  - collecting events, where an uncaught `float()` error on a matched `1.2.3` aborts the whole run;
  - grouping by system call, and the summary table in sorted name order;
  - the epoll_wait wait classes and histogram;
  - the sendto/recvfrom summaries.

The modules are:

| module | file | role |
|---|---|---|
| `Wrappers` | wrappers.dfy | `Option` |
| `Text` | text.dfy | character classes, `str.strip`, Python `float()` on decimal text, maximal runs |
| `RealStats` | real_stats.dfy | sums, sorting, max, mean, median, population variance |
| `Histogram` | histogram.dfy | fixed-boundary bucket counting and `'█' * int(40 * count / max_count)` bars |
| `Duration` | duration.dfy | `parse_duration` |
| `VisualizeLatency` | visualize_latency.dfy | the RTT log patterns, `parse_log_file`, `print_statistics`, CDF, rolling jitter |
| `AnalyzeTrace` | analyze_trace.dfy | `parse_strace_line` |
| `TraceReport` | trace_report.dfy | `analyze_trace` |
| `Metrics` | metrics.dfy | `LatencyMetrics` |
| `Messages` | messages.dfy | `Message`, `SocketAddr` |
| `NodeState` | node_state.dfy | membership, probe and timeout transitions as functions |
| `Node` | node.dfy | the `Membership` and `Node` classes |

Where the Python or Rust code and its comments or documentation disagree, the model follows the code:
- `analyze_trace` crashes on `1.2.3`.
- The simple pattern is not retried after a timestamped match fails to parse.
- An escalated probe keeps its restarted timer.

## Model

| member | source | states |
|---|---|---|
| Duration.UnitOf | bench/visualize_latency.py:43-53 | the unit chosen is one whose suffix the text ends with, and it is the bare unit exactly when the text does not end in `s` |
| Duration.UnitOfLastTwo | bench/visualize_latency.py:43-51 | the unit depends only on the last two characters (`µs`, `us`, `ns`, `ms`, then `s`) |
| Duration.ParseDuration | bench/visualize_latency.py:40-54 | a text whose stripped form does not end in `s` is read exactly as `float()` reads it (the final `else`); the scale of each suffix is stated by `VisualizeLatency.ParseDurationFactors` |
| VisualizeLatency.ParseDurationFactors | bench/visualize_latency.py:40-54 | for a number `v` that `float()` accepts: `ns` gives `v / 1000`, `ms` gives `v * 1000`, `s` gives `v * 1 000 000`, `us` and `µs` give `v`, and no suffix gives `v` |
| VisualizeLatency.ParseDurationUnit | bench/visualize_latency.py:42-52 | a number followed by `µs`/`us`/`ns`/`ms` parses to the number's value converted to microseconds, and a bad number before one of these two-letter suffixes gives no value; before a bare `s` the number must parse (`5m` + `s` reads as `5ms`), and it is then scaled by 1 000 000 |
| VisualizeLatency.ParseDurationBare | bench/visualize_latency.py:53-54 | text that parses as a float on its own is taken as microseconds unchanged |
| VisualizeLatency.ParseDurationSuffix | bench/visualize_latency.py:42-54 | for every unit, `parse_duration(t + suffix)` is `float(t)` scaled by that unit, when `float(t)` succeeds or the suffix has two letters |
| VisualizeLatency.ParseDurationSuffixText | bench/visualize_latency.py:42-52 | surrounding whitespace is stripped before the suffix is examined |
| VisualizeLatency.UnitOfSuffixed | bench/visualize_latency.py:43-52 | a parsed number followed by a unit's suffix is recognised as that unit, including `5 s` against the two-letter suffixes |
| Text.ParseFloat | bench/visualize_latency.py:44-54 | a successful `float()` parse means the stripped text ends in a digit or a point |
| Text.ParseFloatIgnoresLeadingSpace | bench/visualize_latency.py:42 | leading whitespace does not change `float()` |
| Text.ParseFloatStripped | bench/visualize_latency.py:42 | stripping before `float()` changes nothing |
| Text.StripIdempotent | bench/visualize_latency.py:42 | `strip` applied twice equals `strip` applied once |
| Text.LStrip | bench/visualize_latency.py:42 | the result is a suffix of the input; what was dropped is whitespace; the result does not start with whitespace |
| Text.RStrip | bench/visualize_latency.py:42 | the result is a prefix of the input; what was dropped is whitespace; the result does not end with whitespace |
| Text.ParseFloatDigits | bench/analyze_trace.py:36 | a run of digits parses to its decimal value |
| Text.ParseFloatNatText | bench/visualize_latency.py:44-46 | the decimal text of a natural number parses back to that number |
| Text.NatTextValue | src/protocol/node.rs:221 | the decimal text the log prints for a sequence number reads back as that number |
| Text.DigitDotTextNonNegative | bench/analyze_trace.py:36-39 | text drawn from `[\d.]` never parses to a negative number |
| Text.RunEnd | bench/analyze_trace.py:30 | a maximal run of a character class ends within the text |
| Text.RunEndSpec | bench/analyze_trace.py:30 | every character of the run is in the class, and the character that stops it is not |
| Text.StrLtTotal | bench/analyze_trace.py:79 | the string order `sorted` uses relates any two distinct names |
| Text.StrLtTrans | bench/analyze_trace.py:79 | that order is transitive |
| Text.StrLtIrreflexive | bench/analyze_trace.py:79 | no name precedes itself |
| VisualizeLatency.TailMatch | bench/visualize_latency.py:65 | a match of `from\s+([\d.:]+)\s+\(RTT:\s*([^\)]+)\)` starts with `from` and captures a nonempty address and duration |
| VisualizeLatency.RttMatch | bench/visualize_latency.py:65 | a match of `\(RTT:\s*([^\)]+)\)` captures nonempty text |
| VisualizeLatency.TimestampAt | bench/visualize_latency.py:64 | a timestamp match covers at least the 19 characters of date and time |
| VisualizeLatency.TailMatchAck | bench/visualize_latency.py:62-65 | on `from <addr> (RTT: <rtt>)`, the address and duration groups capture exactly `<addr>` and `<rtt>` |
| VisualizeLatency.AckAtMessage | bench/visualize_latency.py:65 | on the node's `Received ACK seq=N from A (RTT: D)` message, the ACK part of the pattern captures `A` and `D` |
| VisualizeLatency.StampedLineMatch | bench/visualize_latency.py:63-66 | on a `timestamp  LEVEL target: Received ACK ...` line, `rtt_pattern` captures the whole timestamp, the address and the duration text |
| VisualizeLatency.StampedAtParts | bench/visualize_latency.py:63-66 | the same match, stated for a line given by the positions of its parts |
| VisualizeLatency.HeaderStamped | bench/visualize_latency.py:64 | after `timestamp\s+\w+\s+` the timestamped pattern reduces to the lazy search for the ACK |
| VisualizeLatency.TimestampOf | bench/visualize_latency.py:64 | `\d{4}-\d{2}-\d{2}T\d{2}:\d{2}:\d{2}(?:\.\d+)?Z?` followed by a blank matches the whole date, fraction and `Z` |
| VisualizeLatency.MessageAfterHeader | bench/visualize_latency.py:64-65 | text before `Received ACK` without an `R` or a newline is passed over by `.*?` |
| VisualizeLatency.StampedAtRuns | bench/visualize_latency.py:64-65 | the timestamped match is the timestamp, then the ACK found after the level |
| VisualizeLatency.AckHeadShape | src/protocol/node.rs:221-223 | the `Received ACK seq=N ` head holds no character at which a later part of the pattern could start |
| VisualizeLatency.TailMatchNone | bench/visualize_latency.py:65 | the tail cannot match where the text does not start with `f` |
| VisualizeLatency.TailFromSkip | bench/visualize_latency.py:65 | `.*?` passes over text holding no `f` and no newline without changing the result |
| VisualizeLatency.AckFromSkip | bench/visualize_latency.py:64-65 | the lazy scan for `Received ACK` passes over text holding no `R` and no newline |
| VisualizeLatency.SimpleSearchSkip | bench/visualize_latency.py:70 | `search` with the simple pattern passes over text holding no `R` |
| VisualizeLatency.DropZ | bench/visualize_latency.py:83-84 | the result is the timestamp, or the timestamp without its final `Z` |
| VisualizeLatency.DropZStamp | bench/visualize_latency.py:83-84 | a trailing `Z` is removed and nothing else is |
| VisualizeLatency.LineSamples | bench/visualize_latency.py:78-116 | a line contributes at most one sample |
| VisualizeLatency.LogSamples | bench/visualize_latency.py:73-118 | a file yields no more samples than it has lines |
| VisualizeLatency.LineSample | bench/visualize_latency.py:78-116 | a sample with a timestamp has one `datetime.fromisoformat` accepts; a sample without one comes only from a line the timestamped pattern does not match (the simple pattern is only the fallback) |
| VisualizeLatency.StampedSample | bench/visualize_latency.py:79-100 | a timestamped match yields a sample exactly when its timestamp (a trailing `Z` removed) and its duration both parse; the sample carries that timestamp and the captured target |
| VisualizeLatency.SimpleSample | bench/visualize_latency.py:103-116 | a simple match yields a sample exactly when its duration parses; the sample has no log timestamp and carries the captured target |
| VisualizeLatency.StampedSearch | bench/visualize_latency.py:63-66 | `rtt_pattern.search` as a scan over start positions; it has no contract of its own, and `StampedSearchSimple` and `NoProbeLineNoSample` state what it finds |
| VisualizeLatency.SimpleSearch | bench/visualize_latency.py:69-71 | `simple_pattern.search` as a scan over start positions; it has no contract of its own, and `SimpleSearchSkip` and `StampedSearchSimple` state what it finds |
| VisualizeLatency.ParseLogFile | bench/visualize_latency.py:57-118 | the loop collects exactly the samples of the lines, in line order |
| VisualizeLatency.LogSamplesAppend | bench/visualize_latency.py:75-116 | the samples of two consecutive stretches of lines are concatenated |
| VisualizeLatency.LogSamplesSkip | bench/visualize_latency.py:99-100 | a line that yields no sample does not change the list |
| VisualizeLatency.StampedLineSample | bench/visualize_latency.py:78-98 | a timestamped ACK line gives one sample: the timestamp without `Z`, the duration in microseconds and the address; if `fromisoformat` rejects the timestamp, it gives none |
| VisualizeLatency.SimpleLineSample | bench/visualize_latency.py:101-114 | a line `pre + msg + post` gives one sample through the simple pattern, with no timestamp, the address and the duration in microseconds, when `msg` is the node's ACK message with an RTT whose number (digits and points) `float()` accepts and whose address is `[\d.:]+` text, `pre` holds no `R` and no `-`, and `post` holds no `-` |
| VisualizeLatency.NoDashNoStamp | bench/visualize_latency.py:64 | a line without `-` never matches the timestamped pattern |
| VisualizeLatency.NoRttNoSample | bench/visualize_latency.py:73-116 | a line in which `(RTT:` occurs nowhere yields no sample, from either pattern |
| VisualizeLatency.NoProbeLineNoSample | src/protocol/node.rs:223 | the node's `(no matching probe)` ACK message yields no sample |
| VisualizeLatency.StampedSearchSimple | bench/visualize_latency.py:63-71 | whenever the timestamped pattern matches, the simple pattern matches too |
| VisualizeLatency.StampedFailureNotRetried | bench/visualize_latency.py:78-104 | a timestamped match that fails to parse yields no sample, although the simple pattern would match |
| VisualizeLatency.PercentileIndices | bench/visualize_latency.py:132-134 | `n // 2 <= int(n * 0.95) <= min(int(n * 0.99), n - 1) < n` |
| VisualizeLatency.Statistics | bench/visualize_latency.py:123-139 | there are no statistics exactly when there are no samples; otherwise the count is the number of samples |
| VisualizeLatency.StatisticsOrdered | bench/visualize_latency.py:127-139 | min and max are samples and bound every sample; `min <= p50 <= p95 <= p99 <= max`; the mean lies between min and max; the variance is non-negative |
| VisualizeLatency.PercentilesAreSamples | bench/visualize_latency.py:132-134 | p50, p95 and p99 are samples |
| VisualizeLatency.RttBucketsIncreasing | bench/visualize_latency.py:157 | the RTT bucket boundaries increase from 0 |
| VisualizeLatency.PrintStatistics | bench/visualize_latency.py:121-175 | nothing is reported for no samples; otherwise the statistics, the bucket counts and the bar lengths of the histogram |
| VisualizeLatency.RttHistogramCounts | bench/visualize_latency.py:157-166 | eight counts; each counts the samples in its bucket; together they count every non-negative sample whose value `float()` reads as finite |
| VisualizeLatency.CdfSeries | bench/visualize_latency.py:221-222 | the x and y series have one point per sample |
| VisualizeLatency.CdfSorted | bench/visualize_latency.py:221 | the x series is the samples sorted |
| VisualizeLatency.CdfLevels | bench/visualize_latency.py:222 | the y series strictly increases within (0, 1] and ends at 1 |
| VisualizeLatency.CdfLevelRange | bench/visualize_latency.py:222 | `i / n` for `i` in `1..n` lies in (0, 1] and is 1 at the end |
| VisualizeLatency.RollingJitter | bench/visualize_latency.py:236-245 | no points for 20 samples or fewer; otherwise one point per sample after the 20th, each the variance of the 20 samples before it, and non-negative |
| RealStats.SortReals | bench/visualize_latency.py:128 | `sorted` returns a sorted permutation of its input |
| RealStats.Insert | bench/visualize_latency.py:128 | inserting into a sorted list keeps it sorted and adds exactly that element |
| RealStats.SortedEnds | bench/visualize_latency.py:135-136 | the first and last of the sorted samples are samples, and they bound every sample |
| RealStats.SortedElements | bench/visualize_latency.py:132-134 | every position of the sorted list holds a sample |
| RealStats.MaxReal | bench/analyze_trace.py:87 | `max` is an element that no element exceeds |
| RealStats.MaxRealSorted | bench/analyze_trace.py:87 | `max` is the last of the sorted list |
| RealStats.MeanBounds | bench/visualize_latency.py:131 | the mean lies between any lower and upper bound of the samples |
| RealStats.SumBounds | bench/visualize_latency.py:131 | the sum lies between `n * lo` and `n * hi` |
| RealStats.Mean | bench/visualize_latency.py:131 | `sum(rtts) / n` and `statistics.mean`; it has no contract of its own, and `MeanBounds` bounds it by the samples |
| RealStats.PopVarianceNonNegative | bench/visualize_latency.py:139 | the population variance is non-negative |
| RealStats.PopVarianceConstant | bench/visualize_latency.py:139 | equal samples have zero variance |
| RealStats.PopVariance | bench/visualize_latency.py:139 | the mean squared deviation from the mean; it has no contract of its own, and `PopVarianceNonNegative` and `PopVarianceConstant` state its properties |
| RealStats.MedianBounds | bench/analyze_trace.py:85 | `statistics.median` lies between the two middle elements of the sorted list, and so between min and max |
| RealStats.Median | bench/analyze_trace.py:85 | `statistics.median`; it has no contract of its own, and `MedianBounds` places it between the middle values |
| RealStats.CountIf | bench/analyze_trace.py:104-107 | a `sum(1 for d in ... if ...)` count is at most the number of values |
| RealStats.CountIfAppend | bench/analyze_trace.py:104-107 | counts over concatenated lists add |
| Histogram.BucketOf | bench/visualize_latency.py:162-166 | the bucket chosen is the first whose `low <= v < next low` holds; there is none when no bucket holds `v` |
| Histogram.BucketUnique | bench/visualize_latency.py:163-166 | with increasing boundaries a value lies in at most one bucket |
| Histogram.BucketOfSome | bench/analyze_trace.py:155-163 | with increasing boundaries, a value is counted exactly when it is at least the first boundary |
| Histogram.HistogramSpec | bench/visualize_latency.py:160-166 | one count per bucket |
| Histogram.FillHistogram | bench/analyze_trace.py:157-163 | the nested loop computes exactly the bucket counts |
| Histogram.HistogramCountsBucket | bench/visualize_latency.py:162-166 | each count is the number of values in its bucket |
| Histogram.HistogramTotal | bench/analyze_trace.py:159-163 | the counts sum to the number of values at or above the first boundary |
| Histogram.CountAtLeastAll | bench/analyze_trace.py:159-163 | when every value is at least the first boundary, every value is counted |
| Histogram.MaxCount | bench/visualize_latency.py:168 | `max(counts)` is a count that no count exceeds |
| Histogram.MaxCountPositive | bench/analyze_trace.py:165-169 | when anything was counted, the largest count is positive |
| Histogram.BarLengthBounds | bench/visualize_latency.py:172 | a bar is at most 40 characters; the largest count gets exactly 40; with a zero largest count every bar is empty |
| Histogram.Bars | bench/analyze_trace.py:168-170 | one bar per count |
| Histogram.BarsBounds | bench/analyze_trace.py:168-170 | every bar is at most 40 characters; a 40-character bar exists when the largest count is positive; otherwise every bar is empty |
| AnalyzeTrace.StraceLineFields | bench/analyze_trace.py:27-31 | on `<pad><stamp> <name>(<args>) = <result><tail>` the pattern captures exactly the stamp, the name and the result, and the duration group from the tail |
| AnalyzeTrace.StraceLineHead | bench/analyze_trace.py:30 | `^\s*([\d.]+)\s+(\w+)\(` matches exactly the indentation, the stamp, the name and the parenthesis |
| AnalyzeTrace.StraceLineCall | bench/analyze_trace.py:30 | `[^)]*\)\s*=\s*([^\s<]+)` after the parenthesis captures exactly the result |
| AnalyzeTrace.HeadMatch | bench/analyze_trace.py:30 | the same head match, stated for a line given by the positions of its parts |
| AnalyzeTrace.CallMatchAt | bench/analyze_trace.py:30 | the same call match, stated by positions |
| AnalyzeTrace.DurationGroup | bench/analyze_trace.py:30 | an optional `\s+<([\d.]+)>` group, when present, is nonempty |
| AnalyzeTrace.DurationGroupOf | bench/analyze_trace.py:30 | ` <dur>` after the result is captured as the duration |
| AnalyzeTrace.TailDuration | bench/analyze_trace.py:27-30 | a `-T` tail ` <dur>...` gives the duration text `dur` |
| AnalyzeTrace.NoDurationGroup | bench/analyze_trace.py:28-30 | without `<` after the result, there is no duration group |
| AnalyzeTrace.DurationDigits | bench/analyze_trace.py:30 | a captured duration is made of digits and points, so a parsed one is non-negative |
| AnalyzeTrace.StraceLineTimed | bench/analyze_trace.py:25-46 | a timed line parses to the event (stamp, name, duration, result); if either number fails `float()`, the function raises |
| AnalyzeTrace.StraceLineUntimed | bench/analyze_trace.py:25-46 | a line without a duration parses to an event of duration 0.0; if the stamp fails `float()`, the function raises |
| AnalyzeTrace.TwoPointsRejected | bench/analyze_trace.py:30-36 | `[\d.]+` text with two points is captured but rejected by `float()` |
| AnalyzeTrace.OneTwoThreeRejected | bench/analyze_trace.py:36 | `float("1.2.3")` fails |
| AnalyzeTrace.DigitDotPlain | bench/analyze_trace.py:36 | `[\d.]+` text is read as a plain decimal |
| AnalyzeTrace.NoStampNoMatch | bench/analyze_trace.py:30-34 | a line whose first non-blank character is neither a digit nor a point gives `None` |
| AnalyzeTrace.NoParenNoMatch | bench/analyze_trace.py:30-34 | a line without `)` gives `None` |
| AnalyzeTrace.TraceMatchFacts | bench/analyze_trace.py:30 | a matched line contains `)`, and a parsed duration group is non-negative |
| AnalyzeTrace.ParsedDurationNonNegative | bench/analyze_trace.py:39 | every parsed event has a non-negative duration |
| AnalyzeTrace.TraceMatch | bench/analyze_trace.py:30-31 | when the anchored pattern matches, the stamp, the call name and the result groups are all nonempty (each is a `+` run) |
| AnalyzeTrace.CallMatch | bench/analyze_trace.py:30 | past the `(`, a match keeps the stamp and name found so far and captures a nonempty result |
| AnalyzeTrace.EventOf | bench/analyze_trace.py:36-46 | a matched line never reads as unmatched; it raises exactly when `float()` rejects the stamp or a present duration; otherwise the event carries the captured name and result |
| AnalyzeTrace.ParseStraceLine | bench/analyze_trace.py:25-46 | the line gives `None` exactly when the pattern does not match it |
| TraceReport.LineParses | bench/analyze_trace.py:54-55 | one parse outcome per line |
| TraceReport.EventsOf | bench/analyze_trace.py:54-57 | the events collected are no more than the lines |
| TraceReport.EventsOfRaised | bench/analyze_trace.py:36-39 | a single line whose number fails `float()` aborts the collection |
| TraceReport.EventsOfNone | bench/analyze_trace.py:54-57 | collection aborts only because of such a line |
| TraceReport.EventsOfEmpty | bench/analyze_trace.py:56-61 | no events are collected exactly when no line matches |
| TraceReport.EventsOfAppend | bench/analyze_trace.py:54-57 | the events of two stretches of lines are concatenated, and an abort in either aborts both |
| TraceReport.TraceEventsAppend | bench/analyze_trace.py:53-57 | the same for the lines of a file |
| TraceReport.EventsOfParsed | bench/analyze_trace.py:56-57 | every collected event is the parse of some line |
| TraceReport.TraceEventsNonNegative | bench/analyze_trace.py:39 | every collected event has a non-negative duration |
| TraceReport.TraceEvents | bench/analyze_trace.py:51-57 | a trace yields at most one event per line |
| TraceReport.CollectEvents | bench/analyze_trace.py:51-57 | the loop collects exactly the events of the lines, or aborts exactly when a line raises |
| TraceReport.Calls | bench/analyze_trace.py:64-66 | the calls of one name are among the events and all have that name |
| TraceReport.CallsMembers | bench/analyze_trace.py:64-66 | an event is among the calls of a name exactly when it is an event with that name |
| TraceReport.GroupSpec | bench/analyze_trace.py:64-66 | every group is nonempty |
| TraceReport.GroupsAreCalls | bench/analyze_trace.py:64-66 | the keys are the names that occur, each once; each group is the calls of its name in order |
| TraceReport.GroupKeys | bench/analyze_trace.py:64-66 | the keys are exactly the names in first-occurrence order |
| TraceReport.EventGrouped | bench/analyze_trace.py:65-66 | every event lies in the group of its name |
| TraceReport.GroupOfName | bench/analyze_trace.py:64-66 | a name has a group exactly when some event has it, and the group is its calls |
| TraceReport.GroupBySyscall | bench/analyze_trace.py:64-66 | the loop builds exactly that grouping and the order in which names first occur |
| TraceReport.GroupSizesTotal | bench/analyze_trace.py:71 | the group sizes of all names add up to the number of events |
| TraceReport.SortNames | bench/analyze_trace.py:79 | `sorted(keys)` is strictly increasing and holds exactly the keys |
| TraceReport.InsertName | bench/analyze_trace.py:79 | inserting a name into a strictly sorted list keeps it sorted and adds only that name |
| TraceReport.StrictlySortedDistinct | bench/analyze_trace.py:79 | a strictly sorted list has no repeated name |
| TraceReport.Micros | bench/analyze_trace.py:81 | one microsecond value per call |
| TraceReport.P99RankBounds | bench/analyze_trace.py:86 | `int(n * 0.99)` lies between `n // 2` and `n - 1` |
| TraceReport.RowOf | bench/analyze_trace.py:80-89 | a table row carries the name and the number of calls |
| TraceReport.RowBounds | bench/analyze_trace.py:83-89 | mean, p50 and p99 lie between the least duration and max; p99 and max are durations; max bounds all of them; a single call gives its own duration four times |
| TraceReport.RowsByStep | bench/analyze_trace.py:79-89 | each name adds its row, in order |
| TraceReport.ReportRows | bench/analyze_trace.py:79-89 | the loop produces exactly the rows of the sorted names |
| TraceReport.RowsOfGroups | bench/analyze_trace.py:79-89 | one row per name, in order, whose counts add up to the group sizes |
| TraceReport.ReportedNames | bench/analyze_trace.py:79 | the table lists exactly the system calls that occur |
| TraceReport.TableRows | bench/analyze_trace.py:76-89 | the rows are in strictly increasing name order, one per system call, each the row of its group, and their counts add up to the total |
| TraceReport.Millis | bench/analyze_trace.py:96 | one millisecond value per call |
| TraceReport.ClassifyWaits | bench/analyze_trace.py:104-109 | the total is the number of waits |
| TraceReport.WaitClassesPartition | bench/analyze_trace.py:104-109 | the four wait classes count every wait exactly once |
| TraceReport.PercentagesSum | bench/analyze_trace.py:111-114 | the four printed percentages add up to 100 |
| TraceReport.PercentWhole | bench/analyze_trace.py:111-114 | a class holding every wait is 100 % |
| TraceReport.PercentAdd | bench/analyze_trace.py:111-114 | percentages of the same total add |
| TraceReport.EpollLowsIncreasing | bench/analyze_trace.py:155 | the epoll bucket boundaries increase |
| TraceReport.EpollBucket | bench/analyze_trace.py:155-163 | a non-negative wait that `float()` reads as finite falls in bucket 0-1, 1-10, 10-100, 100-500, 500-1000 or >1000 ms, by its value |
| TraceReport.ClassesMatchBuckets | bench/analyze_trace.py:104-107 | immediate = bucket 0; short = buckets 1 and 2; medium = buckets 3 and 4; long = bucket 5, for durations `float()` reads as finite |
| TraceReport.EpollOf | bench/analyze_trace.py:151-171 | six counts and six bars |
| TraceReport.EpollFacts | bench/analyze_trace.py:151-171 | for epoll_wait calls whose durations `float()` reads as finite, the histogram counts every call, its bars are at most 40 long with one full bar, and the classes count every call |
| TraceReport.EpollSection | bench/analyze_trace.py:151-171 | the nested loops produce exactly that section |
| TraceReport.IoOf | bench/analyze_trace.py:129-143 | the summary counts the calls |
| TraceReport.IoBounds | bench/analyze_trace.py:129-143 | the mean lies between the least duration and the max; the max is a duration bounding all; both agree with the table row |
| TraceReport.IoIn | bench/analyze_trace.py:123-143 | a sendto/recvfrom summary is printed exactly when that call occurs |
| TraceReport.AnalyzeTraceLines | bench/analyze_trace.py:49-173 | the run ends as the analysis of the lines prescribes |
| TraceReport.ReportEvents | bench/analyze_trace.py:63-173 | the report of a nonempty event list is computed exactly |
| TraceReport.ReportOf | bench/analyze_trace.py:63-173 | a nonempty event list gives a report whose total is the number of events, unless the epoll_wait histogram divides by zero |
| TraceReport.AnalysisOf | bench/analyze_trace.py:49-173 | the analysis raises exactly when reading the events raises, and prints "No syscalls found" exactly when no line gave an event |
| TraceReport.AnalysisRaises | bench/analyze_trace.py:36-39 | the run aborts exactly when some line's number fails `float()` |
| TraceReport.AnalysisEmpty | bench/analyze_trace.py:59-61 | "No syscalls found" is printed exactly when no line matches |
| TraceReport.NoDivisionByZero | bench/analyze_trace.py:165-169 | for durations `float()` reads as finite, the histogram's division by `max_count` never fails |
| TraceReport.ReportContents | bench/analyze_trace.py:49-173 | for durations `float()` reads as finite, the report gives the total, the sorted table, an epoll section exactly when epoll_wait occurs, and sendto/recvfrom summaries exactly when those occur |
| Metrics.Recent | src/protocol/metrics.rs:32-38 | the most recent `n` entries of a history, or all of them when there are fewer |
| Metrics.PushedRecent | src/protocol/metrics.rs:32-38 | dropping the oldest sample when full, then appending, keeps the buffer equal to the most recent `max_samples` RTTs |
| Metrics.LatencyMetrics.constructor | src/protocol/metrics.rs:21-30 | an empty buffer of the given capacity and zero counters |
| Metrics.LatencyMetrics.RecordRtt | src/protocol/metrics.rs:32-38 | the sample is pushed, evicting the oldest at capacity; acks go up by one; the other counters are unchanged |
| Metrics.LatencyMetrics.RecordPingSent | src/protocol/metrics.rs:40-42 | pings sent go up by one; nothing else changes |
| Metrics.LatencyMetrics.RecordTimeout | src/protocol/metrics.rs:44-46 | timeouts go up by one; nothing else changes |
| Metrics.LatencyMetrics.SampleCount | src/protocol/metrics.rs:52-54 | the count is the number of acks, capped at the capacity |
| Metrics.LatencyMetrics.Stats | src/protocol/metrics.rs:57-98 | `None` exactly when there are no samples; otherwise the sample count is the buffer length |
| Metrics.LatencyMetrics.RawSamples | src/protocol/metrics.rs:101-103 | the export is the most recent `max_samples` RTTs in arrival order |
| Metrics.SortNats | src/protocol/metrics.rs:62-63 | the sorted copy is a sorted permutation of the samples |
| Metrics.InsertNat | src/protocol/metrics.rs:63 | inserting into a sorted list keeps it sorted and adds exactly that element |
| Metrics.StatsOf | src/protocol/metrics.rs:57-98 | `None` exactly for no samples; otherwise the count of samples |
| Metrics.PercentileIndices | src/protocol/metrics.rs:71-73 | `count / 2 <= (count * 0.95) as usize <= p99_idx < count` |
| Metrics.StatsOrder | src/protocol/metrics.rs:69-74 | min and max are samples and bound every sample; p50, p95 and p99 are samples; `min <= p50 <= p95 <= p99 <= max` |
| Metrics.SortedPositions | src/protocol/metrics.rs:69-74 | the same, stated for the sorted copy and its indices |
| Metrics.StatsMean | src/protocol/metrics.rs:65-67 | the mean is the floor of sum over count, and lies between min and max |
| Metrics.SortedMeanBounds | src/protocol/metrics.rs:65-70 | the floor mean of the sorted copy lies between its first and last element |
| Metrics.FloorAverageBounds | src/protocol/metrics.rs:67 | the floor mean of values between `lo` and `hi` stays between them |
| Metrics.SumNatPermutation | src/protocol/metrics.rs:62-65 | sorting does not change the sum |
| Metrics.JitterFacts | src/protocol/metrics.rs:76-86 | the jitter variance is non-negative, and zero for equal samples |
| Metrics.JitterVarianceFacts | src/protocol/metrics.rs:78-85 | the variance about any mean is non-negative, and zero when every sample equals it |
| Node.Membership.constructor | src/protocol/node.rs:43-48 | sequence 0 and no members |
| Node.Membership.NextSeq | src/protocol/node.rs:50-54 | returns the current sequence number and advances it with 32-bit wrap-around; members unchanged |
| NodeState.SeqAfterStep | src/protocol/node.rs:50-54 | `k` calls to `next_seq` advance the sequence by `k` modulo 2^32 |
| NodeState.SeqsDistinct | src/protocol/node.rs:50-54 | fewer than 2^32 consecutive sequence numbers are pairwise distinct |
| Node.Node.constructor | src/protocol/node.rs:84-100 | no members, no probes, an empty queue, sequence 0, and metrics keeping 1000 samples with zero counters |
| Node.Node.QueueSend | src/protocol/node.rs:179-181 | the message is appended to the send queue |
| Node.Node.SendPing | src/protocol/node.rs:112-134 | a fresh sequence number is taken; the probe is recorded as sent now and not escalated; a `Ping` from the local address is queued to the target; pings sent go up by one |
| Node.ChooseMultiple | src/protocol/node.rs:151-160 | `count` distinct members of the pool are picked |
| Node.Node.SendIndirectProbes | src/protocol/node.rs:137-176 | `min(3, others)` distinct active members other than the target are picked, and a `PingReq` for the target is queued to each; no probe changes |
| Node.Node.QueuePingReqs | src/protocol/node.rs:162-174 | one `PingReq {seq, local, target}` is queued per intermediary, in order |
| NodeState.PingReqs | src/protocol/node.rs:162-174 | one request per intermediary |
| NodeState.FanoutBound | src/protocol/node.rs:152 | escalating `k` targets queues at most `3k` requests |
| Node.AllIndirectAppend | src/protocol/node.rs:162-174 | the requests for one more escalated target are addressed to other active members |
| Node.Node.EnsureMember | src/protocol/node.rs:264-276 | the membership becomes `Ensured(old, local, addr, now)` and the node still never lists itself |
| NodeState.EnsuredEffect | src/protocol/node.rs:264-276 | an unknown non-local peer is added as Active, incarnation 0, changed now; no existing entry changes |
| Node.Node.MarkActive | src/protocol/node.rs:279-289 | the membership becomes `MarkedActive(old, local, addr, now)` |
| NodeState.MarkedActiveEffect | src/protocol/node.rs:279-289 | a non-active member becomes Active with its change time now; an active member is untouched; an unknown non-local peer is added Active; no other entry changes |
| Node.Node.MarkSuspect | src/protocol/node.rs:292-300 | the membership becomes `MarkedSuspect(old, addr, now)` |
| NodeState.MarkedSuspectEffect | src/protocol/node.rs:292-300 | only an Active member becomes Suspect, changed now; nothing is added; nothing else changes |
| Node.Node.MarkDead | src/protocol/node.rs:303-311 | the membership becomes `MarkedDead(old, addr, now)` |
| NodeState.MarkedDeadEffect | src/protocol/node.rs:303-311 | a member not yet Dead becomes Dead, changed now; nothing is added; nothing else changes |
| NodeState.LocalNeverMember | src/protocol/node.rs:264-311 | none of the four transitions makes the local address a member |
| NodeState.CountsPartition | src/protocol/node.rs:343-349 | the active, suspect and dead counts add up to the number of members |
| NodeState.CountByState | src/protocol/node.rs:343-349 | a state's count never exceeds the number of members |
| Node.Node.HandleMessage | src/protocol/node.rs:199-261 | Ping: the sender is ensured and an `Ack` with the same sequence number is queued to it. PingReq: the requester is ensured and a `Ping` with its sequence number is queued to the target. Ack: the RTT since the first matching probe is recorded (nothing is recorded without one), every matching probe is removed, and the sender is marked active |
| NodeState.FirstAnswered | src/protocol/node.rs:218 | the first probe with that sequence number and target, or none exactly when no probe matches |
| NodeState.Unanswered | src/protocol/node.rs:227 | `retain` keeps no more probes than before |
| NodeState.UnansweredMembers | src/protocol/node.rs:227 | a probe is kept exactly when it was pending and is not answered by the Ack |
| NodeState.UnansweredAll | src/protocol/node.rs:227 | an Ack that answers nothing leaves the probes unchanged |
| Node.Node.ClassifyExpired | src/protocol/node.rs:352-364 | the expired direct probes and the expired indirect probes, in probe order; a target is escalated exactly when one of its direct probes expired |
| NodeState.NeedIndirect | src/protocol/node.rs:356-364 | at most one entry per probe |
| NodeState.TimedOut | src/protocol/node.rs:356-364 | at most one entry per probe |
| NodeState.NeedIndirectTargets | src/protocol/node.rs:356-364 | a target needs indirect probes exactly when it has an expired probe not yet escalated |
| Node.Node.EscalateProbes | src/protocol/node.rs:372-377 | every probe to the target is marked indirect with its timer restarted; other probes unchanged |
| NodeState.EscalateTargets | src/protocol/node.rs:372-377 | escalation keeps the number of probes |
| NodeState.EscalateMore | src/protocol/node.rs:367-378 | escalating target after target equals escalating the set of targets |
| Node.Node.EscalateAll | src/protocol/node.rs:367-378 | every probe of an escalated target is escalated; the queue grows by exactly `IndirectBatch(sels, work)`: for each work item in order, one `PingReq` for its target and sequence number per intermediary in `sels[k]`, where `sels[k]` is a valid pick for that item (`FanoutFor` many, distinct, active, not the target) |
| Node.IndirectBatchLength | src/protocol/node.rs:151-160 | with valid picks the requests queued for a work list number `Fanout`, the sum of `min(others, INDIRECT_PROBE_COUNT)` over its items |
| Node.IndirectBatchRequests | src/protocol/node.rs:162-176 | with valid picks every queued request is a `PingReq` from the node about an item of the work list, sent to an active member other than that item's target |
| NodeState.WorkStep | src/protocol/node.rs:367-378 | each target adds itself and its fan-out |
| Node.Node.SuspectTimedOut | src/protocol/node.rs:381-385 | every timed-out target is marked suspect, and timeouts go up by the number of such entries |
| NodeState.SuspectAllEffect | src/protocol/node.rs:381-385 | exactly the Active members among the targets become Suspect, changed now |
| NodeState.Retained | src/protocol/node.rs:388-389 | `retain` keeps no more probes than before |
| NodeState.RetainedMembers | src/protocol/node.rs:388-389 | a probe is kept exactly when it has not expired or was not yet escalated |
| Node.Node.CheckProbeTimeouts | src/protocol/node.rs:351-392 | probes become `AfterProbeTimeouts(old, now)`; the targets of expired escalated probes become suspect and are counted as timeouts; the queue grows by exactly `IndirectBatch(sels, NeedIndirect(old probes))`, with a valid pick of intermediaries for each newly expired target |
| NodeState.EscalatedKept | src/protocol/node.rs:367-389 | every probe of a target escalated in this round is kept, escalated with a restarted timer |
| NodeState.OtherProbesFate | src/protocol/node.rs:356-389 | a probe of another target is kept unchanged if unexpired, and dropped if expired, in which case it had been escalated |
| NodeState.AfterProbeTimeoutsOrigin | src/protocol/node.rs:351-392 | every surviving probe is an old probe or its escalation, and an unrestarted survivor is unexpired or unescalated |
| NodeState.AfterProbeTimeouts | src/protocol/node.rs:351-392 | the probe list never grows across the timeout check |
| Node.Node.ExpiredSuspectList | src/protocol/node.rs:395-404 | the list holds each suspect silent for more than 3 s, once |
| Node.Node.CheckSuspectTimeouts | src/protocol/node.rs:394-409 | the membership becomes `AfterSuspectTimeouts(old, now)` |
| NodeState.SuspectTimeoutsEffect | src/protocol/node.rs:394-409 | suspects silent for more than 3 s become Dead, changed now; every other member is unchanged; the dead count grows by their number |
| NodeState.AfterSuspectTimeouts | src/protocol/node.rs:394-409 | the suspect timeout check keeps exactly the same addresses in the table |
| Node.Node.ProbeRandomMember | src/protocol/node.rs:411-434 | no choice exactly when no member is active; otherwise an active member is chosen; if it already has a pending probe, nothing changes; otherwise it is pinged as by `send_ping` |

## Left out

- Sockets, `mio` polling, `event_loop`, `flush_send_queue`, the socket bind and address resolution in `Node::new`, and `join` (a `send_ping` to a parsed address): all of this is I/O.
- `tick` is left out: it is logging plus calls to the three modelled steps `check_probe_timeouts`, `check_suspect_timeouts` and `probe_random_member`. `count_by_state` is modelled as `NodeState.CountByState`.
- Logging (`info!`/`warn!`), `print`, the `Display` of `LatencyStats`, percent and width formatting, and `matplotlib` output are left out.
- File opening, `argv` handling and `Path.exists` are left out: the analysers take the lines of a file as a list.
- `Message::to_bytes` / `from_bytes` (postcard serialisation) and their error paths are left out. A queued message holds the `Message` value rather than its bytes. `messages.rs` is modelled only as the `Message` datatype.
- Randomness: `rand::rng()` is left out. `send_indirect_probes` picks any `count` distinct others (`Node.ChooseMultiple`), and `probe_random_member` picks any active member.
- Clock: `Instant::now()` becomes a `now` parameter in nanoseconds. Every clock reading within one operation is taken as the same instant. `check_probe_timeouts` reads the clock again when it restarts a timer (line 375). That later reading is at least `now`, and `duration_since` saturates, so the escalated probes are kept either way.
- `Metrics.LatencyMetrics.uptime` and `start_time` are left out: they only read the clock.
- Metrics.StatsOf: jitter is kept as the variance in nanoseconds squared. `sqrt`, the `f64` rounding and the `u64` conversion of `Duration::from_nanos` are left out.
- Metrics.StatsOf: the mean is the exact floor of the total over the count. The `u32` cast of `count` and the internal split of `Duration` division into seconds and nanoseconds are left out. The `f64` index `(count as f64 * 0.95) as usize` is taken as the exact `95 * count / 100`.
- Metrics.LatencyMetrics.RecordRtt: the `u64` counters are unbounded; overflow after 2^64 events is left out.
- VisualizeLatency.Statistics: jitter is reported as the population variance; its square root is left out. `int(n * 0.95)` and `int(n * 0.99)` are taken exactly, so floating-point rounding of the product is not modelled.
- VisualizeLatency.RollingJitter: each point is the variance of its window; the plotted square root is left out.
- TraceReport.RowOf: `int(len * 0.99)` is taken exactly.
- Durations, means and percentages are exact reals; binary floating-point rounding is left out.
- `float()` is modelled on unsigned and signed decimal text with an optional exponent. `inf`, `nan`, underscores and non-ASCII digits are left out; the captured texts of both analysers never contain them except through `(RTT: ...)`, where such a token is parsed as no number.
- Values that `float()` reads as infinite are not modelled: every model real is finite. A `[\d.]+` capture with more than 308 integer digits, or an RTT text such as `1e400µs`, overflows to `inf` in Python. Such a value is counted as long at bench/analyze_trace.py:107 but falls in no bucket at :161, and no RTT bucket at bench/visualize_latency.py:162-166 holds it. A trace in which every epoll_wait duration overflows therefore makes bench/analyze_trace.py:169 divide by zero.
- TraceReport.NoDivisionByZero: holds only for durations `float()` reads as finite; the all-overflowing epoll_wait trace above divides by zero.
- TraceReport.ReportContents: the epoll section exists exactly when epoll_wait occurs only for finite durations, for the same reason.
- TraceReport.EpollFacts: the histogram counts every call and has one full bar only for finite durations.
- TraceReport.EpollBucket: a wait that overflows to `inf` falls in no bucket.
- TraceReport.ClassesMatchBuckets: an `inf` wait is long but not in bucket 5.
- VisualizeLatency.RttHistogramCounts: an RTT that overflows to `inf` is in no bucket.
- `\d` and `\w` are restricted to ASCII digits, letters and underscore, so Unicode digits and letters are left out. `\s` is taken as the characters `str.isspace` accepts.
- `datetime.fromisoformat` becomes the parameter `isoOk`, which says which timestamp texts it accepts. The parsed `datetime` is kept as its text, and the `datetime.now()` of timestamp-free samples as `None`.
- `plot_latency` is left out except for the CDF series and the rolling-jitter series. The time series and the 50-bin histogram only draw the samples.
- `main` of both scripts is left out: argument parsing and the loop over files.
