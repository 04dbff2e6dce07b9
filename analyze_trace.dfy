/**
 * The syscall-trace analyser (bench/analyze_trace.py): lines of `strace -T -r` output
 * read into events, events grouped by call name, a per-call summary table, the
 * `epoll_wait` wait classes and histogram, and the `sendto`/`recvfrom` figures.
 *
 * The anchored pattern `^\s*([\d.]+)\s+(\w+)\([^)]*\)\s*=\s*([^\s<]+)(?:\s+<([\d.]+)>)?`
 * is written out as a scanner. Every greedy run in it is followed by a class disjoint
 * from it, so each run is taken whole and nothing is ever given back; the optional
 * duration group is tried right after the result token and otherwise left out.
 */
module AnalyzeTrace {
  import opened Wrappers
  import opened Text
  import opened RealStats
  import opened Histogram

  /** One traced call: relative timestamp and duration in seconds, name and result text. */
  datatype SyscallEvent = SyscallEvent(timestamp: real, syscall: string, duration: real, result: string)

  /**
   * What `parse_strace_line` does with a line: no match (`None`), an event, or the
   * `ValueError` that `float()` raises on a captured number such as `1.2.3`, which the
   * function does not catch.
   */
  datatype LineParse = NoMatch | Parsed(event: SyscallEvent) | FloatError

  /** The four groups the pattern captures; the duration group may be absent. */
  datatype TraceFields = TraceFields(stamp: string, name: string, result: string, duration: Option<string>)

  /** `[^\s<]`, the characters of a result token. */
  predicate IsResultChar(c: char) { !IsSpace(c) && c != '<' }

  /** `[^)]`. */
  predicate NotRightParen(c: char) { c != ')' }

  /** The anchored pattern up to the call name: `^\s*([\d.]+)\s+(\w+)` followed by `(`. */
  function TraceMatch(s: string): (r: Option<TraceFields>)
    ensures r.Some? ==> r.value.stamp != [] && r.value.name != [] && r.value.result != []
  {
    var a := RunEnd(s, 0, IsSpace);
    var b := RunEnd(s, a, IsDigitOrDot);
    var c := RunEnd(s, b, IsSpace);
    var d := RunEnd(s, c, IsWordChar);
    if a == b || b == c || c == d || d == |s| || s[d] != '(' then None
    else CallMatch(s, s[a..b], s[c..d], d + 1)
  }

  /**
   * The rest of the pattern from just after `(`: `[^)]*\)\s*=\s*([^\s<]+)` and the
   * optional duration. The run of `[^)]` ends at the end of the text or at a `)`.
   */
  function CallMatch(s: string, stamp: string, name: string, p: nat): (r: Option<TraceFields>)
    requires p <= |s|
    ensures r.Some? ==> r.value.stamp == stamp && r.value.name == name && r.value.result != []
  {
    var e := RunEnd(s, p, NotRightParen);
    if e == |s| then None
    else
      var f := RunEnd(s, e + 1, IsSpace);
      if f == |s| || s[f] != '=' then None
      else
        var g := RunEnd(s, f + 1, IsSpace);
        var h := RunEnd(s, g, IsResultChar);
        if g == h then None
        else Some(TraceFields(stamp, name, s[g..h], DurationGroup(s, h)))
  }

  /** `(?:\s+<([\d.]+)>)?` tried at `h`: the duration text when the whole group matches there. */
  function DurationGroup(s: string, h: nat): (r: Option<string>)
    requires h <= |s|
    ensures r.Some? ==> r.value != []
  {
    var i := RunEnd(s, h, IsSpace);
    if i == h || i == |s| || s[i] != '<' then None
    else
      var j := RunEnd(s, i + 1, IsDigitOrDot);
      if j == i + 1 || j == |s| || s[j] != '>' then None
      else Some(s[i + 1..j])
  }

  /** The event built from the captured groups; a missing duration is `0.0`. */
  function EventOf(f: TraceFields): (r: LineParse)
    ensures r != NoMatch
    ensures r == FloatError <==> ParseFloat(f.stamp).None? || (f.duration.Some? && ParseFloat(f.duration.value).None?)
    ensures r.Parsed? ==> r.event.syscall == f.name && r.event.result == f.result
  {
    match ParseFloat(f.stamp)
    case None => FloatError
    case Some(t) =>
      match f.duration
      case None => Parsed(SyscallEvent(t, f.name, 0.0, f.result))
      case Some(dtext) =>
        match ParseFloat(dtext)
        case None => FloatError
        case Some(v) => Parsed(SyscallEvent(t, f.name, v, f.result))
  }

  /** `parse_strace_line`. */
  function ParseStraceLine(line: string): (r: LineParse)
    ensures r == NoMatch <==> TraceMatch(line).None?
  {
    match TraceMatch(line)
    case None => NoMatch
    case Some(f) => EventOf(f)
  }

  // ---------------------------------------------------------------------------
  // Lines of a trace, read back

  /** `[\d.]+` taken as a whole. */
  predicate DigitDotText(t: string) { t != [] && forall k :: 0 <= k < |t| ==> IsDigitOrDot(t[k]) }

  /** `[^\s<]+` taken as a whole. */
  predicate ResultText(r: string) { r != [] && forall k :: 0 <= k < |r| ==> IsResultChar(r[k]) }

  /** Leading whitespace, `\s*`. */
  predicate Spaces(p: string) { forall k :: 0 <= k < |p| ==> IsSpace(p[k]) }

  /**
   * A line as `strace -T -r` writes it: indentation, the relative timestamp, the call
   * with its arguments, ` = `, the result, and a tail that may hold `<duration>`.
   */
  function StraceLine(pad: string, stamp: string, name: string, args: string, result: string, tail: string): string {
    pad + stamp + " " + name + "(" + args + ") = " + result + tail
  }

  /** The parts of a trace line lie next to each other in it. */
  lemma StraceLineParts(pad: string, stamp: string, name: string, args: string, result: string, tail: string)
    ensures var s := StraceLine(pad, stamp, name, args, result, tail);
      && StartsAt(s, 0, pad) && StartsAt(s, |pad|, stamp) && StartsAt(s, |pad| + |stamp|, " ")
      && StartsAt(s, |pad| + |stamp| + 1, name) && StartsAt(s, |pad| + |stamp| + 1 + |name|, "(")
    ensures var s := StraceLine(pad, stamp, name, args, result, tail);
      var p5 := |pad| + |stamp| + 1 + |name| + 1;
      && StartsAt(s, p5, args) && StartsAt(s, p5 + |args|, ") = ") && StartsAt(s, p5 + |args| + 4, result)
      && StartsAt(s, p5 + |args| + 4 + |result|, tail) && |s| == p5 + |args| + 4 + |result| + |tail|
  {
    var s := StraceLine(pad, stamp, name, args, result, tail);
    var head := pad + stamp + " " + name + "(";
    assert StartsAt(s, 0, s);
    StartsAtSplit(s, 0, head + args + ") = " + result, tail);
    StartsAtSplit(s, 0, head + args + ") = ", result);
    StartsAtSplit(s, 0, head + args, ") = ");
    StartsAtSplit(s, 0, head, args);
    StartsAtSplit5(s, 0, pad, stamp, " ", name, "(");
  }

  /** Over the head of a trace line the runs of `^\s*([\d.]+)` are the indentation and the timestamp. */
  lemma StampRuns(s: string, pad: string, stamp: string, p1: nat, p2: nat)
    requires p1 == |pad| && p2 == p1 + |stamp|
    requires Spaces(pad) && DigitDotText(stamp)
    requires StartsAt(s, 0, pad) && StartsAt(s, p1, stamp) && StartsAt(s, p2, " ")
    ensures RunEnd(s, 0, IsSpace) == p1 && RunEnd(s, p1, IsDigitOrDot) == p2 && s[p1..p2] == stamp
  {
    StartsAtChar(s, p1, stamp, 0);
    StartsAtChar(s, p2, " ", 0);
    RunOver(s, 0, pad, IsSpace);
    RunOver(s, p1, stamp, IsDigitOrDot);
  }

  /** Then the runs of `\s+(\w+)` are one blank and the call name, followed by `(`. */
  lemma NameRuns(s: string, name: string, p2: nat, p3: nat, p4: nat)
    requires p3 == p2 + 1 && p4 == p3 + |name|
    requires WordText(name)
    requires StartsAt(s, p2, " ") && StartsAt(s, p3, name) && StartsAt(s, p4, "(")
    ensures RunEnd(s, p2, IsSpace) == p3 && RunEnd(s, p3, IsWordChar) == p4
    ensures p4 < |s| && s[p4] == '(' && s[p3..p4] == name
  {
    StartsAtChar(s, p2, " ", 0);
    StartsAtChar(s, p3, name, 0);
    StartsAtChar(s, p4, "(", 0);
    RunEndIs(s, p2, p3, IsSpace);
    RunOver(s, p3, name, IsWordChar);
  }

  /** `TraceMatch` read off the ends of the head runs. */
  lemma TraceMatchHead(s: string, p1: nat, p2: nat, p3: nat, p4: nat, p5: nat, stamp: string, name: string)
    requires p1 < p2 < p3 < p4 < |s| && s[p4] == '(' && p5 == p4 + 1
    requires RunEnd(s, 0, IsSpace) == p1 && RunEnd(s, p1, IsDigitOrDot) == p2
    requires RunEnd(s, p2, IsSpace) == p3 && RunEnd(s, p3, IsWordChar) == p4
    requires s[p1..p2] == stamp && s[p3..p4] == name
    ensures TraceMatch(s) == CallMatch(s, stamp, name, p5)
  {
    assert TraceMatch(s) == CallMatch(s, s[p1..p2], s[p3..p4], p5);
  }

  /** Over `args) = result` the runs of `[^)]*\)\s*=\s*([^\s<]+)` are the arguments, one blank each side of `=`, and the result. */
  lemma CallRuns(s: string, args: string, result: string, p5: nat, p6: nat, p7: nat, h: nat)
    requires p6 == p5 + |args| && p7 == p6 + 4 && h == p7 + |result|
    requires ')' !in args && ResultText(result)
    requires StartsAt(s, p5, args) && StartsAt(s, p6, ") = ") && StartsAt(s, p7, result)
    requires h == |s| || !IsResultChar(s[h])
    ensures RunEnd(s, p5, NotRightParen) == p6 && p6 < |s|
    ensures RunEnd(s, p6 + 1, IsSpace) == p6 + 2 && s[p6 + 2] == '='
    ensures RunEnd(s, p6 + 3, IsSpace) == p7 && RunEnd(s, p7, IsResultChar) == h && s[p7..h] == result
  {
    forall k | 0 <= k < |args|
      ensures NotRightParen(args[k])
    {
      assert args[k] in args;
    }
    StartsAtChar(s, p6, ") = ", 0);
    StartsAtChar(s, p6, ") = ", 1);
    StartsAtChar(s, p6, ") = ", 2);
    StartsAtChar(s, p6, ") = ", 3);
    StartsAtChar(s, p7, result, 0);
    RunOver(s, p5, args, NotRightParen);
    RunEndIs(s, p6 + 1, p6 + 2, IsSpace);
    RunEndIs(s, p6 + 3, p7, IsSpace);
    RunOver(s, p7, result, IsResultChar);
  }

  /** `CallMatch` read off the ends of the call runs. */
  lemma CallMatchRuns(s: string, stamp: string, name: string, p5: nat, p6: nat, p7: nat, h: nat)
    requires p5 <= p6 && p7 == p6 + 4 && p7 < h <= |s|
    requires RunEnd(s, p5, NotRightParen) == p6 && RunEnd(s, p6 + 1, IsSpace) == p6 + 2 && s[p6 + 2] == '='
    requires RunEnd(s, p6 + 3, IsSpace) == p7 && RunEnd(s, p7, IsResultChar) == h
    ensures CallMatch(s, stamp, name, p5) == Some(TraceFields(stamp, name, s[p7..h], DurationGroup(s, h)))
  {
  }

  /** `<duration>` after a blank is captured by the optional group. */
  lemma DurationGroupOf(s: string, h: nat, dur: string)
    requires DigitDotText(dur) && StartsAt(s, h, " <") && StartsAt(s, h + 2, dur) && StartsAt(s, h + 2 + |dur|, ">")
    ensures DurationGroup(s, h) == Some(dur)
  {
    StartsAtChar(s, h, " <", 0);
    StartsAtChar(s, h, " <", 1);
    StartsAtChar(s, h + 2 + |dur|, ">", 0);
    RunEndIs(s, h, h + 1, IsSpace);
    RunOver(s, h + 2, dur, IsDigitOrDot);
  }

  /** Without a `<` after the result there is no duration group. */
  lemma NoDurationGroup(s: string, h: nat)
    requires h <= |s| && '<' !in s[h..]
    ensures DurationGroup(s, h) == None
  {
    var i := RunEnd(s, h, IsSpace);
    if i < |s| {
      assert s[i] == s[h..][i - h] && s[h..][i - h] in s[h..];
    }
  }

  /** Over a head `pad stamp name(`, the arguments starting at `p5`, the pattern reaches them with the timestamp and the name captured. */
  lemma HeadMatch(s: string, pad: string, stamp: string, name: string, p1: nat, p2: nat, p3: nat, p4: nat, p5: nat)
    requires p1 == |pad| && p2 == p1 + |stamp| && p3 == p2 + 1 && p4 == p3 + |name| && p5 == p4 + 1
    requires Spaces(pad) && DigitDotText(stamp) && WordText(name)
    requires StartsAt(s, 0, pad) && StartsAt(s, p1, stamp) && StartsAt(s, p2, " ")
    requires StartsAt(s, p3, name) && StartsAt(s, p4, "(")
    ensures p5 <= |s|
    ensures TraceMatch(s) == CallMatch(s, stamp, name, p5)
  {
    StampRuns(s, pad, stamp, p1, p2);
    NameRuns(s, name, p2, p3, p4);
    TraceMatchHead(s, p1, p2, p3, p4, p5, stamp, name);
  }

  /** Where the result token of a trace line with these parts ends. */
  function ResultEnd(pad: string, stamp: string, name: string, args: string, result: string): nat {
    |pad| + |stamp| + 1 + |name| + 1 + |args| + 4 + |result|
  }

  /** Over `args) = result`, from `p5` to `h`, the rest of the pattern captures the result, and tries the duration group right after it. */
  lemma CallMatchAt(s: string, stamp: string, name: string, args: string, result: string, p5: nat, p6: nat, p7: nat, h: nat)
    requires p6 == p5 + |args| && p7 == p6 + 4 && h == p7 + |result|
    requires ')' !in args && ResultText(result)
    requires StartsAt(s, p5, args) && StartsAt(s, p6, ") = ") && StartsAt(s, p7, result)
    requires h == |s| || !IsResultChar(s[h])
    ensures h <= |s|
    ensures CallMatch(s, stamp, name, p5) == Some(TraceFields(stamp, name, result, DurationGroup(s, h)))
  {
    CallRuns(s, args, result, p5, p6, p7, h);
    CallMatchRuns(s, stamp, name, p5, p6, p7, h);
  }

  /** Where the arguments of a trace line with these parts start, just after `(`. */
  function ArgsStart(pad: string, stamp: string, name: string): nat {
    |pad| + |stamp| + 1 + |name| + 1
  }

  /** Over a trace line the pattern reaches the arguments with the timestamp and the name captured. */
  lemma StraceLineHead(pad: string, stamp: string, name: string, args: string, result: string, tail: string)
    requires Spaces(pad) && DigitDotText(stamp) && WordText(name)
    ensures var s := StraceLine(pad, stamp, name, args, result, tail);
      && ArgsStart(pad, stamp, name) <= |s|
      && TraceMatch(s) == CallMatch(s, stamp, name, ArgsStart(pad, stamp, name))
  {
    var s := StraceLine(pad, stamp, name, args, result, tail);
    StraceLineParts(pad, stamp, name, args, result, tail);
    HeadMatch(s, pad, stamp, name, |pad|, |pad| + |stamp|, |pad| + |stamp| + 1, |pad| + |stamp| + 1 + |name|,
      ArgsStart(pad, stamp, name));
  }

  /** Over the call of a trace line the rest of the pattern captures the result, and tries the duration group where the tail starts. */
  lemma StraceLineCall(pad: string, stamp: string, name: string, args: string, result: string, tail: string)
    requires ')' !in args && ResultText(result)
    requires tail == [] || !IsResultChar(tail[0])
    ensures var s := StraceLine(pad, stamp, name, args, result, tail);
      var h := ResultEnd(pad, stamp, name, args, result);
      && ArgsStart(pad, stamp, name) <= h <= |s|
      && CallMatch(s, stamp, name, ArgsStart(pad, stamp, name)) == Some(TraceFields(stamp, name, result, DurationGroup(s, h)))
      && StartsAt(s, h, tail) && |s| == h + |tail|
  {
    var s := StraceLine(pad, stamp, name, args, result, tail);
    var h := ResultEnd(pad, stamp, name, args, result);
    var p5 := ArgsStart(pad, stamp, name);
    StraceLineParts(pad, stamp, name, args, result, tail);
    if tail != [] {
      StartsAtChar(s, h, tail, 0);
    }
    CallMatchAt(s, stamp, name, args, result, p5, p5 + |args|, p5 + |args| + 4, h);
  }

  /** The four groups of a trace line with the given parts, whatever its tail, which starts where the result ends. */
  lemma StraceLineFields(pad: string, stamp: string, name: string, args: string, result: string, tail: string)
    requires Spaces(pad) && DigitDotText(stamp) && WordText(name) && ')' !in args && ResultText(result)
    requires tail == [] || !IsResultChar(tail[0])
    ensures var s := StraceLine(pad, stamp, name, args, result, tail);
      var h := ResultEnd(pad, stamp, name, args, result);
      && TraceMatch(s) == Some(TraceFields(stamp, name, result, DurationGroup(s, h)))
      && StartsAt(s, h, tail) && |s| == h + |tail|
  {
    StraceLineHead(pad, stamp, name, args, result, tail);
    StraceLineCall(pad, stamp, name, args, result, tail);
  }

  /** A tail ` <duration>…` gives the duration group. */
  lemma TailDuration(s: string, h: nat, dur: string, rest: string)
    requires DigitDotText(dur) && StartsAt(s, h, " <" + dur + ">" + rest)
    ensures DurationGroup(s, h) == Some(dur)
  {
    StartsAtSplit(s, h, " <" + dur + ">", rest);
    StartsAtSplit(s, h, " <" + dur, ">");
    StartsAtSplit(s, h, " <", dur);
    DurationGroupOf(s, h, dur);
  }

  /**
   * A traced call with its duration is read back as its timestamp, name, result and
   * duration; when `float()` rejects the timestamp or the duration text, the line raises.
   */
  lemma StraceLineTimed(pad: string, stamp: string, name: string, args: string, result: string, dur: string, rest: string)
    requires Spaces(pad) && DigitDotText(stamp) && WordText(name) && ')' !in args && ResultText(result)
    requires DigitDotText(dur)
    ensures ParseStraceLine(StraceLine(pad, stamp, name, args, result, " <" + dur + ">" + rest))
      == match (ParseFloat(stamp), ParseFloat(dur))
         case (Some(t), Some(v)) => Parsed(SyscallEvent(t, name, v, result))
         case _ => FloatError
  {
    var tail := " <" + dur + ">" + rest;
    var s := StraceLine(pad, stamp, name, args, result, tail);
    StraceLineFields(pad, stamp, name, args, result, tail);
    TailDuration(s, ResultEnd(pad, stamp, name, args, result), dur, rest);
  }

  /** A traced call without `<duration>` is read back with duration `0.0`. */
  lemma StraceLineUntimed(pad: string, stamp: string, name: string, args: string, result: string, rest: string)
    requires Spaces(pad) && DigitDotText(stamp) && WordText(name) && ')' !in args && ResultText(result)
    requires '<' !in rest && (rest == [] || IsSpace(rest[0]))
    ensures ParseStraceLine(StraceLine(pad, stamp, name, args, result, rest))
      == match ParseFloat(stamp)
         case Some(t) => Parsed(SyscallEvent(t, name, 0.0, result))
         case None => FloatError
  {
    var s := StraceLine(pad, stamp, name, args, result, rest);
    var h := ResultEnd(pad, stamp, name, args, result);
    StraceLineFields(pad, stamp, name, args, result, rest);
    assert s[h..] == rest;
    NoDurationGroup(s, h);
  }

  /** Digits with two points, such as `1.2.3`, are accepted by `[\d.]+` but rejected by `float()`. */
  lemma TwoPointsRejected(t: string, i: nat, j: nat)
    requires DigitDotText(t) && i < j < |t| && t[i] == '.' && t[j] == '.'
    ensures ParseFloat(t) == None
  {
    DigitDotPlain(t);
    DecimalTwoPoints(t, i, j);
  }

  /** `float()` reads text of digits and points as a bare decimal mantissa. */
  lemma DigitDotPlain(t: string)
    requires DigitDotText(t)
    ensures ParseFloat(t) == DecimalValue(t)
  {
    assert LStrip(t) == t;
    assert RStrip(t) == t;
    assert Strip(t) == t;
    assert FindFirst(t, IsExponentMark) == |t|;
    assert UnsignedValue(t) == DecimalValue(t);
  }

  /** A mantissa with a second point is not a number. */
  lemma DecimalTwoPoints(m: string, i: nat, j: nat)
    requires i < j < |m| && m[i] == '.' && m[j] == '.'
    ensures DecimalValue(m) == None
  {
    var d := FindFirst(m, IsPoint);
    assert d <= i;
    assert m[d + 1..][j - d - 1] == '.';
  }

  /** The example `1.2.3`. */
  lemma OneTwoThreeRejected()
    ensures ParseFloat("1.2.3") == None
  {
    TwoPointsRejected("1.2.3", 1, 3);
  }

  /** A line whose first non-blank character is neither a digit nor a point does not match. */
  lemma NoStampNoMatch(line: string)
    requires var l := LStrip(line); l == [] || !IsDigitOrDot(l[0])
    ensures ParseStraceLine(line) == NoMatch
  {
    var a := |line| - |LStrip(line)|;
    if a < |line| {
      assert line[a] == LStrip(line)[0];
    }
    RunEndIs(line, 0, a, IsSpace);
  }

  /** Whatever `CallMatch` accepts holds a `)`, and its duration text, if any, reads as no negative number. */
  lemma CallMatchFacts(s: string, stamp: string, name: string, p: nat)
    requires p <= |s| && CallMatch(s, stamp, name, p).Some?
    ensures ')' in s
    ensures var dur := CallMatch(s, stamp, name, p).value.duration;
      dur.Some? && ParseFloat(dur.value).Some? ==> ParseFloat(dur.value).value >= 0.0
  {
    var e := RunEnd(s, p, NotRightParen);
    RunEndSpec(s, p, NotRightParen);
    assert s[e] in s;
    var f := RunEnd(s, e + 1, IsSpace);
    var g := RunEnd(s, f + 1, IsSpace);
    var h := RunEnd(s, g, IsResultChar);
    var dur := CallMatch(s, stamp, name, p).value.duration;
    assert dur == DurationGroup(s, h);
    if dur.Some? {
      DurationDigits(s, h);
    }
  }

  /** Whatever the pattern accepts holds a `)`, and its duration text, if any, reads as no negative number. */
  lemma TraceMatchFacts(s: string)
    requires TraceMatch(s).Some?
    ensures ')' in s
    ensures var dur := TraceMatch(s).value.duration;
      dur.Some? && ParseFloat(dur.value).Some? ==> ParseFloat(dur.value).value >= 0.0
  {
    var a := RunEnd(s, 0, IsSpace);
    var b := RunEnd(s, a, IsDigitOrDot);
    var c := RunEnd(s, b, IsSpace);
    var d := RunEnd(s, c, IsWordChar);
    CallMatchFacts(s, s[a..b], s[c..d], d + 1);
  }

  /** A line without `)`, such as an `<unfinished ...>` call, does not match. */
  lemma NoParenNoMatch(line: string)
    requires ')' !in line
    ensures ParseStraceLine(line) == NoMatch
  {
    if TraceMatch(line).Some? {
      TraceMatchFacts(line);
    }
  }

  /** Every event read from a trace has a duration that is not negative, since `[\d.]+` has no sign. */
  lemma ParsedDurationNonNegative(line: string)
    requires ParseStraceLine(line).Parsed?
    ensures ParseStraceLine(line).event.duration >= 0.0
  {
    TraceMatchFacts(line);
  }

  /** The captured duration text is made of digits and points. */
  lemma DurationDigits(s: string, h: nat)
    requires h <= |s| && DurationGroup(s, h).Some?
    ensures forall k :: 0 <= k < |DurationGroup(s, h).value| ==> IsDigitOrDot(DurationGroup(s, h).value[k])
    ensures ParseFloat(DurationGroup(s, h).value).Some? ==> ParseFloat(DurationGroup(s, h).value).value >= 0.0
  {
    var i := RunEnd(s, h, IsSpace);
    RunEndSpec(s, i + 1, IsDigitOrDot);
    DigitDotTextNonNegative(DurationGroup(s, h).value);
  }
}
