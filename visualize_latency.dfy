/**
 * The RTT log analyser (bench/visualize_latency.py): duration tokens normalised to
 * microseconds, the two-pattern search that picks ACK samples out of log lines, the
 * numbers `print_statistics` reports, and the CDF and rolling-jitter series of the plot.
 *
 * The two regular expressions are written out as scanners. Each greedy run in them is
 * followed by a class disjoint from it, so the longest run is the only one that can
 * succeed; the one exception, `\s*([^\)]+)\)`, is resolved in `RttMatch`. A lazy
 * `.*?` becomes a scan that tries positions left to right and cannot pass a newline.
 */
module VisualizeLatency {
  import opened Wrappers
  import opened Text
  import opened RealStats
  import opened Histogram
  import opened Duration

  // ---------------------------------------------------------------------------
  // parse_duration

  /** A text whose last character differs from a suffix's last does not end with it. */
  lemma NotEndsWithLast(s: string, w: string)
    requires w != [] && (s == [] || s[|s| - 1] != w[|w| - 1])
    ensures !EndsWith(s, w)
  {
    if |w| <= |s| {
      assert s[|s| - |w|..][|w| - 1] == s[|s| - 1];
    }
  }

  /** Stripping a text that ends with a two-letter suffix keeps the suffix and drops the text's leading whitespace only. */
  lemma StripWithSuffix(t: string, w: string)
    requires w != [] && !IsSpace(w[0]) && !IsSpace(w[|w| - 1])
    ensures Strip(t + w) == LStrip(t) + w
    ensures var s := LStrip(t) + w; s[..|s| - |w|] == LStrip(t)
    ensures ParseFloat(LStrip(t)) == ParseFloat(t)
  {
    StripSuffixed(t, w);
    var s := LStrip(t) + w;
    assert s[..|s| - |w|] == LStrip(t);
    assert s[|s| - |w|..] == w;
    ParseFloatIgnoresLeadingSpace(t);
  }

  /** A bare `s` after whitespace, a digit or a point is read as the seconds suffix. */
  lemma UnitOfSeconds(l: string)
    requires l != [] && (IsSpace(l[|l| - 1]) || IsDigit(l[|l| - 1]) || l[|l| - 1] == '.')
    ensures UnitOf(l + Suffix(Second)) == Second
  {
    var s := l + Suffix(Second);
    var c := l[|l| - 1];
    assert s[|s| - 2] == c && s[|s| - 1] == 's';
    UnitOfLastTwo(s);
    SecondsPair(c);
  }

  /** No blank, digit or point is one of the letters that open a two-letter suffix. */
  lemma SecondsPair(c: char)
    requires IsSpace(c) || IsDigit(c) || c == '.'
    ensures UnitOfPair(c, 's') == Second
  {
  }

  /** A two-letter suffix is read as itself, whatever precedes it. */
  lemma UnitOfTwoLetters(l: string, u: Unit)
    requires u != Second && u != Bare
    ensures UnitOf(l + Suffix(u)) == u
  {
    var w := Suffix(u);
    var s := l + w;
    SuffixPair(u);
    assert s[|s| - 2] == w[0] && s[|s| - 1] == w[1];
    UnitOfLastTwo(s);
  }

  /** A two-letter suffix is read back from its two letters. */
  lemma SuffixPair(u: Unit)
    requires u != Second && u != Bare
    ensures |Suffix(u)| == 2 && UnitOfPair(Suffix(u)[0], Suffix(u)[1]) == u
  {
  }

  /** After stripping, a number followed by a unit suffix ends in that suffix and no earlier-tested one. */
  lemma UnitOfSuffixed(t: string, u: Unit)
    requires u != Bare
    requires u == Second ==> ParseFloat(t).Some?
    ensures UnitOf(LStrip(t) + Suffix(u)) == u
  {
    if u == Second {
      UnitOfSecondSuffix(t);
    } else {
      UnitOfTwoLetters(LStrip(t), u);
    }
  }

  /** A number followed by `s` ends in no two-letter suffix, so it reads as seconds. */
  lemma UnitOfSecondSuffix(t: string)
    requires ParseFloat(t).Some?
    ensures UnitOf(LStrip(t) + Suffix(Second)) == Second
  {
    ParsedLastChar(t);
    UnitOfSeconds(LStrip(t));
  }

  /** A text whose stripped form ends in a digit or a point ends, once its leading blanks are gone, in one of those or a trailing blank. */
  lemma ParsedLastChar(t: string)
    requires var st := Strip(t); st != [] && (IsDigit(st[|st| - 1]) || st[|st| - 1] == '.')
    ensures var l := LStrip(t); l != [] && (IsSpace(l[|l| - 1]) || IsDigit(l[|l| - 1]) || l[|l| - 1] == '.')
  {
    LStripLast(t);
  }

  /**
   * A number followed by a unit suffix reads as that number in the unit, in microseconds.
   * For the two-letter suffixes this holds of every text (a text `float()` rejects stays
   * rejected); for bare `s` and no suffix the number must parse, since otherwise a text
   * such as `5m` + `s` reads as milliseconds.
   */
  lemma ParseDurationSuffix(t: string, u: Unit)
    requires u == Second || u == Bare ==> ParseFloat(t).Some?
    ensures ParseDuration(t + Suffix(u)) == Scale(ParseFloat(t), u)
  {
    if u == Bare {
      assert t + Suffix(u) == t;
      ParseDurationBare(t);
    } else {
      ParseDurationUnit(t, u);
    }
  }

  /**
   * The scale of each suffix, stated outright: a number `v` followed by `ns` is `v / 1000`
   * microseconds, by `ms` `v * 1000`, by `s` `v * 1 000 000`, by `us` or `µs` `v`, and
   * with no suffix it is `v`.
   */
  lemma ParseDurationFactors(t: string, v: real)
    requires ParseFloat(t) == Some(v)
    ensures ParseDuration(t + "ns") == Some(v / 1000.0)
    ensures ParseDuration(t + "ms") == Some(v * 1000.0)
    ensures ParseDuration(t + "s") == Some(v * 1000000.0)
    ensures ParseDuration(t + "us") == Some(v)
    ensures ParseDuration(t + "\U{B5}s") == Some(v)
    ensures ParseDuration(t) == Some(v)
  {
    ParseDurationSuffix(t, Nano);
    ParseDurationSuffix(t, Milli);
    ParseDurationSuffix(t, Second);
    ParseDurationSuffix(t, Micro);
    ParseDurationSuffix(t, MicroSign);
    ParseDurationBare(t);
  }

  /** A number without a suffix is read as microseconds. */
  lemma ParseDurationBare(t: string)
    requires ParseFloat(t).Some?
    ensures ParseDuration(t) == ParseFloat(t)
  {
    var s := Strip(t);
    assert IsDigit(s[|s| - 1]) || s[|s| - 1] == '.';
    NotEndsWithLast(s, "s");
    assert s[..|s| - |Suffix(Bare)|] == s;
    ParseDurationParts(t, s, Bare, s);
    ParseFloatStripped(t);
  }

  /** A number followed by one of the five suffixes is read in that unit. */
  lemma ParseDurationUnit(t: string, u: Unit)
    requires u != Bare
    requires u == Second ==> ParseFloat(t).Some?
    ensures ParseDuration(t + Suffix(u)) == Scale(ParseFloat(t), u)
  {
    UnitOfSuffixed(t, u);
    SuffixShape(u);
    ParseDurationSuffixText(t, Suffix(u), u);
  }

  /** A number followed by a suffix text `w` that, after stripping, reads as unit `u`. */
  lemma ParseDurationSuffixText(t: string, w: string, u: Unit)
    requires w != [] && !IsSpace(w[0]) && !IsSpace(w[|w| - 1])
    requires UnitOf(LStrip(t) + w) == u && |Suffix(u)| == |w|
    ensures ParseDuration(t + w) == Scale(ParseFloat(t), u)
  {
    var s := LStrip(t) + w;
    StripWithSuffix(t, w);
    assert s[..|s| - |Suffix(u)|] == LStrip(t);
    ParseDurationParts(t + w, s, u, LStrip(t));
  }

  // ---------------------------------------------------------------------------
  // The two line patterns

  /** `[\d.:]`, the characters of a captured address. */
  predicate IsAddrChar(c: char) { IsDigit(c) || c == '.' || c == ':' }

  /** `[^\)]`. */
  predicate NotCloseParen(c: char) { c != ')' }

  /** The address and duration text the patterns capture. */
  datatype AckFields = AckFields(target: string, rtt: string)

  /** `from\s+([\d.:]+)\s+\(RTT:\s*([^\)]+)\)` matched at `q`. */
  function TailMatch(s: string, q: nat): (r: Option<AckFields>)
    requires q <= |s|
    ensures r.Some? ==> StartsAt(s, q, "from") && r.value.target != [] && r.value.rtt != []
  {
    if StartsAt(s, q, "from") then AddrMatch(s, q + 4) else None
  }

  /** `\s+([\d.:]+)\s+` followed by the duration group, from `a`. */
  function AddrMatch(s: string, a: nat): (r: Option<AckFields>)
    requires a <= |s|
    ensures r.Some? ==> r.value.target != [] && r.value.rtt != []
  {
    var b := RunEnd(s, a, IsSpace);
    var c := RunEnd(s, b, IsAddrChar);
    var d := RunEnd(s, c, IsSpace);
    if b == a || c == b || d == c then None
    else
      match RttMatch(s, d)
      case None => None
      case Some(rtt) => Some(AckFields(s[b..c], rtt))
  }

  /**
   * `\(RTT:\s*([^\)]+)\)` matched at `d`, giving the duration group. Whitespace is also
   * in `[^\)]`, so when nothing but whitespace precedes the `)`, backtracking hands the
   * last whitespace character to the group.
   */
  function RttMatch(s: string, d: nat): (r: Option<string>)
    requires d <= |s|
    ensures r.Some? ==> r.value != []
  {
    if !StartsAt(s, d, "(RTT:") then None
    else
      var e := d + 5;
      var w := RunEnd(s, e, IsSpace);
      var t := RunEnd(s, w, NotCloseParen);
      if w < t < |s| then Some(s[w..t])
      else if e < w == t < |s| then Some(s[w - 1..w])
      else None
  }

  /** The lazy `.*?` in front of `from`: the first position from `q` on, on the same line, where the tail matches. */
  function TailFrom(s: string, q: nat): (r: Option<AckFields>)
    requires q <= |s|
    decreases |s| - q
  {
    match TailMatch(s, q)
    case Some(f) => Some(f)
    case None => if q < |s| && s[q] != '\n' then TailFrom(s, q + 1) else None
  }

  /** `Received ACK.*?from…` matched at `p`. */
  function AckAt(s: string, p: nat): Option<AckFields>
    requires p <= |s|
  {
    if StartsAt(s, p, "Received ACK") then TailFrom(s, p + 12) else None
  }

  /** The lazy `.*?` of the timestamped pattern: the first position from `p` on, on the same line, where `AckAt` matches. */
  function AckFrom(s: string, p: nat): Option<AckFields>
    requires p <= |s|
    decreases |s| - p
  {
    match AckAt(s, p)
    case Some(f) => Some(f)
    case None => if p < |s| && s[p] != '\n' then AckFrom(s, p + 1) else None
  }

  /** `simple_pattern.search(line)` from position `p`: every start is tried, newlines included. */
  function SimpleSearch(s: string, p: nat): Option<AckFields>
    requires p <= |s|
    decreases |s| - p
  {
    match AckAt(s, p)
    case Some(f) => Some(f)
    case None => if p < |s| then SimpleSearch(s, p + 1) else None
  }

  /** `\d{4}-\d{2}-\d{2}T\d{2}:\d{2}:\d{2}`. */
  predicate DateTimeShape(w: string)
    requires |w| == 19
  {
    && (forall k :: k in {0, 1, 2, 3, 5, 6, 8, 9, 11, 12, 14, 15, 17, 18} ==> IsDigit(w[k]))
    && w[4] == '-' && w[7] == '-' && w[10] == 'T' && w[13] == ':' && w[16] == ':'
  }

  /** End of the timestamp group `(\d{4}-…:\d{2}(?:\.\d+)?Z?)` matched at `i`. */
  function TimestampAt(s: string, i: nat): (r: Option<nat>)
    requires i <= |s|
    ensures r.Some? ==> i + 19 <= r.value <= |s|
  {
    if i + 19 > |s| || !DateTimeShape(s[i..i + 19]) then None
    else
      var k := i + 19;
      var f := if k + 1 < |s| && s[k] == '.' && IsDigit(s[k + 1]) then RunEnd(s, k + 1, IsDigit) else k;
      Some(if f < |s| && s[f] == 'Z' then f + 1 else f)
  }

  /** What the timestamped pattern captures. */
  datatype StampedFields = StampedFields(timestamp: string, target: string, rtt: string)

  /** `rtt_pattern` matched at `i`: timestamp, `\s+\w+\s+`, then the lazy scan for the ACK. */
  function StampedAt(s: string, i: nat): Option<StampedFields>
    requires i <= |s|
  {
    match TimestampAt(s, i)
    case None => None
    case Some(z) =>
      var a := RunEnd(s, z, IsSpace);
      var b := RunEnd(s, a, IsWordChar);
      var c := RunEnd(s, b, IsSpace);
      if a == z || b == a || c == b then None
      else
        match AckFrom(s, c)
        case None => None
        case Some(f) => Some(StampedFields(s[i..z], f.target, f.rtt))
  }

  /** `rtt_pattern.search(line)` from position `i`. */
  function StampedSearch(s: string, i: nat): Option<StampedFields>
    requires i <= |s|
    decreases |s| - i
  {
    match StampedAt(s, i)
    case Some(m) => Some(m)
    case None => if i < |s| then StampedSearch(s, i + 1) else None
  }

  /** A captured address: a nonempty run of `[\d.:]`, as `127.0.0.1:9001`. */
  predicate AddrText(a: string) {
    a != [] && forall k :: 0 <= k < |a| ==> IsAddrChar(a[k])
  }

  /** A duration text the `([^\)]+)` group takes whole: nonempty, no `)`, and not starting with whitespace. */
  predicate RttText(r: string) {
    r != [] && !IsSpace(r[0]) && forall k :: 0 <= k < |r| ==> NotCloseParen(r[k])
  }

  /** The tail `from <addr> (RTT: <rtt>)` is matched at `q` with exactly its address and duration captured. */
  lemma TailMatchAck(s: string, q: nat, from: string, rtt: string)
    requires StartsAt(s, q, "from " + from + " (RTT: " + rtt + ")")
    requires AddrText(from) && RttText(rtt)
    ensures TailMatch(s, q) == Some(AckFields(from, rtt))
  {
    var c := q + 5 + |from|;
    StartsAtSplit5(s, q, "from ", from, " (RTT: ", rtt, ")");
    FromSpace(s, q);
    RttTail(s, c, rtt);
    AddrRuns(s, q, from);
    TailMatchRuns(s, q, c);
  }

  /** ` (RTT: <rtt>)` at `c` is matched from its parenthesis with exactly the duration captured. */
  lemma RttTail(s: string, c: nat, rtt: string)
    requires StartsAt(s, c, " (RTT: ") && StartsAt(s, c + 7, rtt) && StartsAt(s, c + 7 + |rtt|, ")") && RttText(rtt)
    ensures c + 1 < |s| && s[c] == ' ' && s[c + 1] == '(' && RttMatch(s, c + 1) == Some(rtt)
  {
    var t := c + 7 + |rtt|;
    OpenRtt(s, c);
    StartsAtChar(s, t, ")", 0);
    RttRuns(s, c + 1, rtt);
    RttMatchRuns(s, c + 1, t);
  }

  lemma FromSpace(s: string, q: nat)
    requires StartsAt(s, q, "from ")
    ensures StartsAt(s, q, "from") && s[q + 4] == ' '
  {
    assert "from " == "from" + " ";
    StartsAtSplit(s, q, "from", " ");
    StartsAtChar(s, q, "from ", 4);
  }

  lemma OpenRtt(s: string, c: nat)
    requires StartsAt(s, c, " (RTT: ")
    ensures s[c] == ' ' && s[c + 1] == '(' && StartsAt(s, c + 1, "(RTT:") && s[c + 6] == ' '
  {
    assert " (RTT: " == " " + "(RTT:" + " ";
    StartsAtSplit(s, c, " " + "(RTT:", " ");
    StartsAtSplit(s, c, " ", "(RTT:");
    StartsAtChar(s, c, " (RTT: ", 0);
    StartsAtChar(s, c, " (RTT: ", 1);
    StartsAtChar(s, c, " (RTT: ", 6);
  }

  /** Over ` <addr> (` the runs of `\s+([\d.:]+)\s+` are one space, the address, and one space. */
  lemma AddrRuns(s: string, q: nat, from: string)
    requires q + 6 + |from| < |s| && s[q + 4] == ' ' && StartsAt(s, q + 5, from) && AddrText(from)
    requires s[q + 5 + |from|] == ' ' && s[q + 6 + |from|] == '('
    ensures var b, c := q + 5, q + 5 + |from|;
      && RunEnd(s, q + 4, IsSpace) == b && RunEnd(s, b, IsAddrChar) == c && RunEnd(s, c, IsSpace) == c + 1
      && s[b..c] == from
  {
    var b, c := q + 5, q + 5 + |from|;
    assert !IsSpace(s[b]) by {
      StartsAtChar(s, b, from, 0);
    }
    RunEndIs(s, q + 4, b, IsSpace);
    RunOver(s, b, from, IsAddrChar);
    RunEndIs(s, c, c + 1, IsSpace);
  }

  /** Over ` <rtt>)` the runs of `\s*([^\)]+)` are one space and the duration. */
  lemma RttRuns(s: string, d: nat, rtt: string)
    requires d + 6 + |rtt| < |s| && s[d + 5] == ' ' && StartsAt(s, d + 6, rtt) && RttText(rtt)
    requires s[d + 6 + |rtt|] == ')'
    ensures var w, t := d + 6, d + 6 + |rtt|;
      && RunEnd(s, d + 5, IsSpace) == w && RunEnd(s, w, NotCloseParen) == t && s[w..t] == rtt
  {
    assert !IsSpace(s[d + 6]) by {
      StartsAtChar(s, d + 6, rtt, 0);
    }
    RunEndIs(s, d + 5, d + 6, IsSpace);
    RunOver(s, d + 6, rtt, NotCloseParen);
  }

  /** `TailMatch` read off the ends of the address runs. */
  lemma TailMatchRuns(s: string, q: nat, c: nat)
    requires StartsAt(s, q, "from") && q + 5 < c < |s|
    requires RunEnd(s, q + 4, IsSpace) == q + 5 && RunEnd(s, q + 5, IsAddrChar) == c && RunEnd(s, c, IsSpace) == c + 1
    ensures TailMatch(s, q) == match RttMatch(s, c + 1)
      case None => None
      case Some(rtt) => Some(AckFields(s[q + 5..c], rtt))
  {
  }

  /** `RttMatch` read off the ends of the duration runs. */
  lemma RttMatchRuns(s: string, d: nat, t: nat)
    requires StartsAt(s, d, "(RTT:") && d + 6 < t < |s|
    requires RunEnd(s, d + 5, IsSpace) == d + 6 && RunEnd(s, d + 6, NotCloseParen) == t
    ensures RttMatch(s, d) == Some(s[d + 6..t])
  {
  }

  /** No tail starts at a character other than `f`. */
  lemma TailMatchNone(s: string, q: nat)
    requires q < |s| && s[q] != 'f'
    ensures TailMatch(s, q) == None
  {
    if StartsAt(s, q, "from") {
      StartsAtChar(s, q, "from", 0);
    }
  }

  /** The lazy scan for the tail passes over characters that are neither `f` nor a newline. */
  lemma {:induction false} TailFromSkip(s: string, q: nat, r: nat)
    requires q <= r <= |s|
    requires forall k :: q <= k < r ==> s[k] != 'f' && s[k] != '\n'
    ensures TailFrom(s, q) == TailFrom(s, r)
    decreases r - q
  {
    if q < r {
      TailMatchNone(s, q);
      TailFromSkip(s, q + 1, r);
    }
  }

  /** No ACK starts at a character other than `R`. */
  lemma AckAtNone(s: string, p: nat)
    requires p < |s| && s[p] != 'R'
    ensures AckAt(s, p) == None
  {
    if StartsAt(s, p, "Received ACK") {
      StartsAtChar(s, p, "Received ACK", 0);
    }
  }

  /** The lazy scan for the ACK passes over characters that are neither `R` nor a newline. */
  lemma {:induction false} AckFromSkip(s: string, p: nat, r: nat)
    requires p <= r <= |s|
    requires forall k :: p <= k < r ==> s[k] != 'R' && s[k] != '\n'
    ensures AckFrom(s, p) == AckFrom(s, r)
    decreases r - p
  {
    if p < r {
      AckAtNone(s, p);
      AckFromSkip(s, p + 1, r);
    }
  }

  /** The search with the simple pattern passes over every character other than `R`. */
  lemma {:induction false} SimpleSearchSkip(s: string, p: nat, r: nat)
    requires p <= r <= |s|
    requires forall k :: p <= k < r ==> s[k] != 'R'
    ensures SimpleSearch(s, p) == SimpleSearch(s, r)
    decreases r - p
  {
    if p < r {
      AckAtNone(s, p);
      SimpleSearchSkip(s, p + 1, r);
    }
  }

  // ---------------------------------------------------------------------------
  // The ACK lines the node writes (src/protocol/node.rs)

  /** `Received ACK seq=<seqNo> `, the start both ACK log messages share. */
  function AckHead(seqNo: nat): string {
    "Received ACK seq=" + NatText(seqNo) + " "
  }

  /** The message logged for an ACK that answers a pending probe; `rtt` is the `{:?}` text of the round-trip time. */
  function AckRttMessage(seqNo: nat, from: string, rtt: string): string {
    AckHead(seqNo) + "from " + from + " (RTT: " + rtt + ")"
  }

  /** The message logged for an ACK that answers no pending probe. */
  function AckNoProbeMessage(seqNo: nat, from: string): string {
    AckHead(seqNo) + "from " + from + " (no matching probe)"
  }

  /** The pieces of the head: `Received ACK`, ` seq=`, the number and a blank. */
  lemma AckHeadParts(s: string, p: nat, seqNo: nat)
    requires StartsAt(s, p, AckHead(seqNo))
    ensures var n := NatText(seqNo);
      && |AckHead(seqNo)| == 18 + |n|
      && StartsAt(s, p, "Received ACK") && StartsAt(s, p + 12, " seq=")
      && StartsAt(s, p + 17, n) && StartsAt(s, p + 17 + |n|, " ")
  {
    var n := NatText(seqNo);
    assert AckHead(seqNo) == "Received ACK" + " seq=" + n + " ";
    StartsAtSplit(s, p, "Received ACK" + " seq=" + n, " ");
    StartsAtSplit(s, p, "Received ACK" + " seq=", n);
    StartsAtSplit(s, p, "Received ACK", " seq=");
  }

  /** Inside an occurrence of `w`, none of whose characters is `f`, `R`, `(` or a newline, there is none either. */
  lemma OccurrenceAvoids(s: string, i: nat, w: string, k: nat)
    requires StartsAt(s, i, w) && i <= k < i + |w|
    requires forall j :: 0 <= j < |w| ==> w[j] != 'f' && w[j] != 'R' && w[j] != '(' && w[j] != '\n'
    ensures s[k] != 'f' && s[k] != 'R' && s[k] != '(' && s[k] != '\n'
  {
    StartsAtChar(s, i, w, k - i);
  }

  /** After `Received ACK`, the rest of the head holds no `f`, `R`, `(` or newline. */
  lemma AckHeadShape(s: string, p: nat, seqNo: nat)
    requires StartsAt(s, p, AckHead(seqNo))
    ensures StartsAt(s, p, "Received ACK") && s[p] == 'R'
    ensures forall k :: p + 12 <= k < p + |AckHead(seqNo)| ==> s[k] != 'f' && s[k] != 'R' && s[k] != '(' && s[k] != '\n'
  {
    var n := NatText(seqNo);
    AckHeadParts(s, p, seqNo);
    StartsAtChar(s, p, "Received ACK", 0);
    forall k | p + 12 <= k < p + |AckHead(seqNo)|
      ensures s[k] != 'f' && s[k] != 'R' && s[k] != '(' && s[k] != '\n'
    {
      if k < p + 17 {
        OccurrenceAvoids(s, p + 12, " seq=", k);
      } else if k < p + 17 + |n| {
        OccurrenceAvoids(s, p + 17, n, k);
      } else {
        OccurrenceAvoids(s, p + 17 + |n|, " ", k);
      }
    }
  }

  /** The logged message is its head followed by the tail the pattern's `from…` part matches. */
  lemma AckMessageParts(s: string, p: nat, seqNo: nat, from: string, rtt: string)
    requires StartsAt(s, p, AckRttMessage(seqNo, from, rtt))
    ensures StartsAt(s, p, AckHead(seqNo))
    ensures StartsAt(s, p + |AckHead(seqNo)|, "from " + from + " (RTT: " + rtt + ")")
  {
    var h := AckHead(seqNo);
    StartsAtSplit5(s, p, h + "from ", from, " (RTT: ", rtt, ")");
    StartsAtSplit(s, p, h, "from ");
    StartsAtJoin5(s, p + |h|, "from ", from, " (RTT: ", rtt, ")");
  }

  /** The pattern's `Received ACK.*?from…` reads the address and the RTT text back out of the logged message. */
  lemma AckAtMessage(s: string, p: nat, seqNo: nat, from: string, rtt: string)
    requires StartsAt(s, p, AckRttMessage(seqNo, from, rtt))
    requires AddrText(from) && RttText(rtt)
    ensures AckAt(s, p) == Some(AckFields(from, rtt))
  {
    var q := p + |AckHead(seqNo)|;
    AckMessageParts(s, p, seqNo, from, rtt);
    AckHeadShape(s, p, seqNo);
    assert TailMatch(s, q) == Some(AckFields(from, rtt)) by {
      TailMatchAck(s, q, from, rtt);
    }
    TailFromSkip(s, p + 12, q);
  }

  // ---------------------------------------------------------------------------
  // A timestamped log line

  /** A timestamp `YYYY-MM-DDTHH:MM:SS` in `dt`, then an optional fraction `.ddd…`, then an optional `Z`. */
  predicate StampText(dt: string, frac: string, z: string) {
    && |dt| == 19 && DateTimeShape(dt)
    && (frac == [] || (|frac| >= 2 && frac[0] == '.' && AllDigits(frac[1..])))
    && (z == "" || z == "Z")
  }

  /** The blanks between the fields of a log line. */
  predicate Blanks(g: string) { g != [] && forall k :: 0 <= k < |g| ==> g[k] == ' ' }

  /** A text on one line that holds no `R`, so no ACK can start in it. */
  predicate NoAckStart(t: string) { 'R' !in t && '\n' !in t }

  /** A timestamp followed by a blank is matched whole by the timestamp group. */
  lemma TimestampOf(s: string, i: nat, dt: string, frac: string, z: string)
    requires StampText(dt, frac, z) && StartsAt(s, i, dt + frac + z)
    requires i + |dt + frac + z| < |s| && s[i + |dt + frac + z|] == ' '
    ensures TimestampAt(s, i) == Some(i + |dt + frac + z|)
  {
    StartsAtSplit(s, i, dt + frac, z);
    StartsAtSplit(s, i, dt, frac);
    TimestampParts(s, dt, frac, z, i, i + |dt|, i + |dt + frac|, i + |dt + frac + z|);
  }

  /** The timestamp group over a date and time from `i`, a fraction from `k`, an optional `Z` from `e`, and a blank at `t`. */
  lemma TimestampParts(s: string, dt: string, frac: string, z: string, i: nat, k: nat, e: nat, t: nat)
    requires StampText(dt, frac, z)
    requires k == i + |dt| && e == k + |frac| && t == e + |z|
    requires StartsAt(s, i, dt) && StartsAt(s, k, frac) && StartsAt(s, e, z)
    requires t < |s| && s[t] == ' '
    ensures TimestampAt(s, i) == Some(t)
  {
    if z == "Z" {
      StartsAtChar(s, e, z, 0);
    }
    assert s[e] == 'Z' || s[e] == ' ';
    if frac != [] {
      FractionRun(s, k, e, frac);
    }
  }

  /** A fraction `.ddd` from `k` is the point and the longest run of digits after it, which ends at `e`. */
  lemma FractionRun(s: string, k: nat, e: nat, frac: string)
    requires |frac| >= 2 && frac[0] == '.' && AllDigits(frac[1..])
    requires StartsAt(s, k, frac) && e == k + |frac| && e < |s| && !IsDigit(s[e])
    ensures k + 1 < |s| && s[k] == '.' && IsDigit(s[k + 1]) && RunEnd(s, k + 1, IsDigit) == e
  {
    assert frac == frac[..1] + frac[1..];
    StartsAtSplit(s, k, frac[..1], frac[1..]);
    StartsAtChar(s, k, frac, 0);
    StartsAtChar(s, k + 1, frac[1..], 0);
    RunOver(s, k + 1, frac[1..], IsDigit);
  }

  /** `StampedAt` read off the ends of the timestamp and of the runs after it. */
  lemma StampedAtRuns(s: string, z: nat, a: nat, b: nat, c: nat)
    requires TimestampAt(s, 0) == Some(z)
    requires RunEnd(s, z, IsSpace) == a && RunEnd(s, a, IsWordChar) == b && RunEnd(s, b, IsSpace) == c
    requires z < a < b < c
    ensures StampedAt(s, 0) == match AckFrom(s, c)
      case None => None
      case Some(f) => Some(StampedFields(s[..z], f.target, f.rtt))
  {
  }

  /** Over `<gap><level><gap2>` the runs of `\s+\w+\s+` are the two gaps and the level. */
  lemma HeaderRuns(s: string, gap: string, level: string, gap2: string, z: nat, a: nat, b: nat)
    requires a == z + |gap| && b == a + |level|
    requires StartsAt(s, z, gap) && StartsAt(s, a, level) && StartsAt(s, b, gap2)
    requires Blanks(gap) && WordText(level) && Blanks(gap2)
    ensures RunEnd(s, z, IsSpace) == a && RunEnd(s, a, IsWordChar) == b
    ensures b + |gap2| <= RunEnd(s, b, IsSpace)
  {
    StartsAtChar(s, a, level, 0);
    StartsAtChar(s, b, gap2, 0);
    RunOver(s, z, gap, IsSpace);
    RunOver(s, a, level, IsWordChar);
    forall k | b <= k < b + |gap2|
      ensures IsSpace(s[k])
    {
      StartsAtChar(s, b, gap2, k - b);
    }
    RunEndAtLeast(s, b, b + |gap2|, IsSpace);
  }

  /**
   * After the level, the lazy scan skips the second gap and whatever the log line puts
   * before the message (the target `node: `), and reads the ACK message.
   */
  lemma MessageAfterHeader(s: string, b: nat, g: nat, m: nat, gap2: string, mid: string, seqNo: nat, from: string, rtt: string)
    requires g == b + |gap2| && m == g + |mid|
    requires StartsAt(s, b, gap2) && StartsAt(s, g, mid) && StartsAt(s, m, AckRttMessage(seqNo, from, rtt))
    requires Blanks(gap2) && NoAckStart(mid) && AddrText(from) && RttText(rtt)
    requires g <= RunEnd(s, b, IsSpace)
    ensures AckFrom(s, RunEnd(s, b, IsSpace)) == Some(AckFields(from, rtt))
  {
    var c := RunEnd(s, b, IsSpace);
    AckMessageParts(s, m, seqNo, from, rtt);
    AckHeadShape(s, m, seqNo);
    RunEndSpec(s, b, IsSpace);
    assert c <= m;
    forall k | c <= k < m
      ensures s[k] != 'R' && s[k] != '\n'
    {
      StartsAtChar(s, g, mid, k - g);
      assert mid[k - g] in mid;
    }
    AckFromSkip(s, c, m);
    AckAtMessage(s, m, seqNo, from, rtt);
  }

  /** The parts of a timestamped line lie next to each other in it. */
  lemma StampedLineParts(ts: string, gap: string, level: string, gap2: string, mid: string, msg: string, post: string,
                         z0: nat, a: nat, b: nat, g: nat, m: nat)
    requires z0 == |ts| && a == z0 + |gap| && b == a + |level| && g == b + |gap2| && m == g + |mid|
    ensures var s := ts + gap + level + gap2 + mid + msg + post;
      && StartsAt(s, 0, ts) && StartsAt(s, z0, gap) && StartsAt(s, a, level)
      && StartsAt(s, b, gap2) && StartsAt(s, g, mid) && StartsAt(s, m, msg)
  {
    var s := ts + gap + level + gap2 + mid + msg + post;
    StartsAtPrefix(ts + gap + level + gap2 + mid + msg, post);
    StartsAtSplit(s, 0, ts + gap + level + gap2 + mid, msg);
    StartsAtSplit5(s, 0, ts, gap, level, gap2, mid);
  }

  /** The timestamped pattern at the start of a text laid out as timestamp, gap, level, gap, anything, ACK message. */
  lemma StampedAtParts(s: string, dt: string, frac: string, z: string, gap: string, level: string, gap2: string,
                       mid: string, seqNo: nat, from: string, rtt: string, z0: nat, a: nat, b: nat, g: nat, m: nat)
    requires z0 == |dt + frac + z| && a == z0 + |gap| && b == a + |level| && g == b + |gap2| && m == g + |mid|
    requires StampText(dt, frac, z) && Blanks(gap) && WordText(level) && Blanks(gap2) && NoAckStart(mid)
    requires AddrText(from) && RttText(rtt)
    requires StartsAt(s, 0, dt + frac + z) && StartsAt(s, z0, gap) && StartsAt(s, a, level)
    requires StartsAt(s, b, gap2) && StartsAt(s, g, mid) && StartsAt(s, m, AckRttMessage(seqNo, from, rtt))
    ensures StampedSearch(s, 0) == Some(StampedFields(dt + frac + z, from, rtt))
  {
    HeaderStamped(s, dt, frac, z, gap, level, gap2, z0, a, b);
    MessageAfterHeader(s, b, g, m, gap2, mid, seqNo, from, rtt);
  }

  /** A timestamp, blanks, a level and blanks at the start of a line: what follows is searched for the ack from past the blanks. */
  lemma HeaderStamped(s: string, dt: string, frac: string, z: string, gap: string, level: string, gap2: string,
                       z0: nat, a: nat, b: nat)
    requires z0 == |dt + frac + z| && a == z0 + |gap| && b == a + |level|
    requires StampText(dt, frac, z) && Blanks(gap) && WordText(level) && Blanks(gap2)
    requires StartsAt(s, 0, dt + frac + z) && StartsAt(s, z0, gap) && StartsAt(s, a, level) && StartsAt(s, b, gap2)
    ensures b + |gap2| <= RunEnd(s, b, IsSpace)
    ensures StampedAt(s, 0) == match AckFrom(s, RunEnd(s, b, IsSpace))
      case None => None
      case Some(f) => Some(StampedFields(dt + frac + z, f.target, f.rtt))
  {
    StartsAtChar(s, z0, gap, 0);
    TimestampOf(s, 0, dt, frac, z);
    HeaderRuns(s, gap, level, gap2, z0, a, b);
    StampedAtRuns(s, z0, a, b, RunEnd(s, b, IsSpace));
    assert s[..z0] == dt + frac + z;
  }

  /**
   * A line the node's log subscriber writes for a matched ACK: timestamp, level, target and
   * message. The timestamped pattern captures the whole timestamp, the address and the
   * RTT text, whatever follows the message.
   */
  lemma StampedLineMatch(dt: string, frac: string, z: string, gap: string, level: string, gap2: string,
                         mid: string, seqNo: nat, from: string, rtt: string, post: string)
    requires StampText(dt, frac, z) && Blanks(gap) && WordText(level) && Blanks(gap2) && NoAckStart(mid)
    requires AddrText(from) && RttText(rtt)
    ensures var line := dt + frac + z + gap + level + gap2 + mid + AckRttMessage(seqNo, from, rtt) + post;
      StampedSearch(line, 0) == Some(StampedFields(dt + frac + z, from, rtt))
  {
    var line := dt + frac + z + gap + level + gap2 + mid + AckRttMessage(seqNo, from, rtt) + post;
    var z0 := |dt + frac + z|;
    var a := z0 + |gap|;
    var b := a + |level|;
    var g := b + |gap2|;
    var m := g + |mid|;
    StampedLineParts(dt + frac + z, gap, level, gap2, mid, AckRttMessage(seqNo, from, rtt), post, z0, a, b, g, m);
    StampedAtParts(line, dt, frac, z, gap, level, gap2, mid, seqNo, from, rtt, z0, a, b, g, m);
  }

  // ---------------------------------------------------------------------------
  // parse_log_file

  /**
   * One `RTTSample`. The timestamp is the captured text with a trailing `Z` removed;
   * `None` stands for the `datetime.now()` the timestamp-free pattern uses.
   */
  datatype RttSample = RttSample(timestamp: Option<string>, rttUs: real, target: string)

  function DropZ(ts: string): (r: string)
    ensures r == ts || r + "Z" == ts
  {
    if EndsWith(ts, "Z") then ts[..|ts| - 1] else ts
  }

  /**
   * The sample one line contributes. `isoOk` says whether `datetime.fromisoformat`
   * accepts a timestamp text. A timestamped match whose timestamp or duration does not
   * parse is skipped; only a line the timestamped pattern does not match at all is
   * tried with the simple pattern.
   */
  function LineSample(line: string, isoOk: string -> bool): (r: Option<RttSample>)
    ensures r.Some? && r.value.timestamp.Some? ==> isoOk(r.value.timestamp.value)
    ensures r.Some? && r.value.timestamp.None? ==> StampedSearch(line, 0).None?
  {
    match StampedSearch(line, 0)
    case Some(m) => StampedSample(m, isoOk)
    case None =>
      match SimpleSearch(line, 0)
      case None => None
      case Some(f) => SimpleSample(f)
  }

  /** The timestamped match's sample, unless its timestamp or its duration fails to parse. */
  function StampedSample(m: StampedFields, isoOk: string -> bool): (r: Option<RttSample>)
    ensures r.Some? <==> isoOk(DropZ(m.timestamp)) && ParseDuration(m.rtt).Some?
    ensures r.Some? ==> r.value.timestamp == Some(DropZ(m.timestamp)) && r.value.target == m.target
  {
    var ts := DropZ(m.timestamp);
    if !isoOk(ts) then None
    else
      match ParseDuration(m.rtt)
      case None => None
      case Some(v) => Some(RttSample(Some(ts), v, m.target))
  }

  /** The simple match's sample, unless its duration fails to parse. */
  function SimpleSample(f: AckFields): (r: Option<RttSample>)
    ensures r.Some? <==> ParseDuration(f.rtt).Some?
    ensures r.Some? ==> r.value.timestamp.None? && r.value.target == f.target
  {
    match ParseDuration(f.rtt)
    case None => None
    case Some(v) => Some(RttSample(None, v, f.target))
  }

  /** The samples of a file, in line order. */
  function LogSamples(lines: seq<string>, isoOk: string -> bool): (samples: seq<RttSample>)
    ensures |samples| <= |lines|
  {
    if lines == [] then []
    else
      LogSamples(lines[..|lines| - 1], isoOk) + LineSamples(lines[|lines| - 1], isoOk)
  }

  /** The sample a line contributes, as a list of at most one. */
  function LineSamples(line: string, isoOk: string -> bool): (r: seq<RttSample>)
    ensures |r| <= 1
  {
    match LineSample(line, isoOk)
    case Some(x) => [x]
    case None => []
  }

  /** `parse_log_file` over the lines of a file: one pass, appending each line's sample. */
  method ParseLogFile(lines: seq<string>, isoOk: string -> bool) returns (samples: seq<RttSample>)
    ensures samples == LogSamples(lines, isoOk)
  {
    samples := [];
    var n := 0;
    while n < |lines|
      invariant 0 <= n <= |lines|
      invariant samples == LogSamples(lines[..n], isoOk)
    {
      var found := LineSamples(lines[n], isoOk);
      LogSamplesStep(lines, n, isoOk);
      samples := samples + found;
      n := n + 1;
    }
    assert lines[..|lines|] == lines;
  }

  /** Samples keep file order: the samples of two consecutive stretches of lines are those of each, concatenated. */
  lemma {:induction false} LogSamplesAppend(a: seq<string>, b: seq<string>, isoOk: string -> bool)
    ensures LogSamples(a + b, isoOk) == LogSamples(a, isoOk) + LogSamples(b, isoOk)
  {
    if b == [] {
      assert a + b == a;
    } else {
      var init := b[..|b| - 1];
      LogSamplesAppendLast(a, b, isoOk);
      LogSamplesLast(b, isoOk);
      LogSamplesAppend(a, init, isoOk);
      SeqAppendAssoc(LogSamples(a, isoOk), LogSamples(init, isoOk), LineSamples(b[|b| - 1], isoOk));
    }
  }

  /** The last line of `a + b` is the last line of `b`. */
  lemma LogSamplesAppendLast(a: seq<string>, b: seq<string>, isoOk: string -> bool)
    requires b != []
    ensures LogSamples(a + b, isoOk) == LogSamples(a + b[..|b| - 1], isoOk) + LineSamples(b[|b| - 1], isoOk)
  {
    var ab := a + b;
    assert ab[..|ab| - 1] == a + b[..|b| - 1];
    assert ab[|ab| - 1] == b[|b| - 1];
    LogSamplesLast(ab, isoOk);
  }

  lemma SeqAppendAssoc<T>(x: seq<T>, y: seq<T>, z: seq<T>)
    ensures (x + y) + z == x + (y + z)
  {
  }

  /** The samples of the first `n + 1` lines: those of the first `n`, then line `n`'s. */
  lemma LogSamplesStep(lines: seq<string>, n: nat, isoOk: string -> bool)
    requires n < |lines|
    ensures LogSamples(lines[..n + 1], isoOk) == LogSamples(lines[..n], isoOk) + LineSamples(lines[n], isoOk)
  {
    assert lines[..n + 1][..n] == lines[..n];
    LogSamplesLast(lines[..n + 1], isoOk);
  }

  /** The samples of a nonempty stretch of lines: those before its last line, then the last line's. */
  lemma LogSamplesLast(lines: seq<string>, isoOk: string -> bool)
    requires lines != []
    ensures LogSamples(lines, isoOk) == LogSamples(lines[..|lines| - 1], isoOk) + LineSamples(lines[|lines| - 1], isoOk)
  {
  }

  /** A line neither pattern can match contributes nothing: appending it leaves the samples as they were. */
  lemma LogSamplesSkip(lines: seq<string>, line: string, isoOk: string -> bool)
    requires LineSample(line, isoOk).None?
    ensures LogSamples(lines + [line], isoOk) == LogSamples(lines, isoOk)
  {
    assert (lines + [line])[..|lines|] == lines;
  }

  // ---------------------------------------------------------------------------
  // Which lines give samples

  /** A `Z` at the end of the timestamp is dropped before `fromisoformat`; nothing else is. */
  lemma DropZStamp(dt: string, frac: string, z: string)
    requires StampText(dt, frac, z)
    ensures DropZ(dt + frac + z) == dt + frac
  {
    var ts := dt + frac + z;
    if z == "" {
      assert ts == dt + frac;
      if frac == [] {
        NotEndsWithLast(ts, "Z");
      } else {
        assert ts[|ts| - 1] == frac[|frac| - 1] && frac[|frac| - 1] in frac[1..];
        NotEndsWithLast(ts, "Z");
      }
    } else {
      assert ts[..|ts| - 1] == dt + frac;
    }
  }

  /** A duration as the node prints it, digits and points followed by a unit suffix, is taken whole by `([^\)]+)`. */
  lemma DurationTokenText(num: string, u: Unit)
    requires num != [] && forall k :: 0 <= k < |num| ==> IsDigitOrDot(num[k])
    ensures RttText(num + Suffix(u)) && '-' !in num + Suffix(u)
  {
    var r := num + Suffix(u);
    forall k | 0 <= k < |r|
      ensures NotCloseParen(r[k]) && r[k] != '-'
    {
      if k >= |num| {
        assert r[k] == Suffix(u)[k - |num|];
      }
    }
  }

  /**
   * A timestamped ACK line yields one sample: the timestamp without its `Z`, the RTT in
   * microseconds and the address, unless `fromisoformat` rejects the timestamp, in which
   * case the line yields nothing.
   */
  lemma StampedLineSample(dt: string, frac: string, z: string, gap: string, level: string, gap2: string,
                          mid: string, seqNo: nat, from: string, num: string, u: Unit, post: string,
                          v: real, isoOk: string -> bool)
    requires StampText(dt, frac, z) && Blanks(gap) && WordText(level) && Blanks(gap2) && NoAckStart(mid)
    requires AddrText(from) && num != [] && (forall k :: 0 <= k < |num| ==> IsDigitOrDot(num[k]))
    requires ParseFloat(num) == Some(v)
    ensures var line := dt + frac + z + gap + level + gap2 + mid + AckRttMessage(seqNo, from, num + Suffix(u)) + post;
      LineSample(line, isoOk) == if isoOk(dt + frac) then Some(RttSample(Some(dt + frac), ToMicros(v, u), from)) else None
  {
    DurationTokenText(num, u);
    StampedLineMatch(dt, frac, z, gap, level, gap2, mid, seqNo, from, num + Suffix(u), post);
    DropZStamp(dt, frac, z);
    ParseDurationSuffix(num, u);
  }

  /** A timestamp needs a `-`: the timestamped pattern finds nothing in a text without one. */
  lemma {:induction false} NoDashNoStamp(s: string, i: nat)
    requires i <= |s| && '-' !in s
    ensures StampedSearch(s, i) == None
    decreases |s| - i
  {
    if i + 19 <= |s| {
      assert s[i..i + 19][4] == s[i + 4] && s[i + 4] in s;
    }
    if i < |s| {
      NoDashNoStamp(s, i + 1);
    }
  }

  /** The ACK message holds no `-` when its address and RTT text hold none. */
  lemma AckMessageNoDash(seqNo: nat, from: string, rtt: string)
    requires AddrText(from) && '-' !in rtt
    ensures '-' !in AckRttMessage(seqNo, from, rtt)
  {
    var n := NatText(seqNo);
    assert forall k :: 0 <= k < |n| ==> n[k] != '-';
    assert forall k :: 0 <= k < |from| ==> from[k] != '-';
  }

  /**
   * A line without a timestamp (no `-` in it) that holds the ACK message, with nothing that
   * could start an earlier match (no `R`) in front of it, is read by the
   * simple pattern; its sample carries no timestamp (the script uses the current time).
   */
  lemma SimpleLineSample(pre: string, seqNo: nat, from: string, num: string, u: Unit, post: string,
                         v: real, isoOk: string -> bool)
    requires 'R' !in pre && '-' !in pre && '-' !in post
    requires AddrText(from) && num != [] && (forall k :: 0 <= k < |num| ==> IsDigitOrDot(num[k]))
    requires ParseFloat(num) == Some(v)
    ensures LineSample(pre + AckRttMessage(seqNo, from, num + Suffix(u)) + post, isoOk)
      == Some(RttSample(None, ToMicros(v, u), from))
  {
    var rtt := num + Suffix(u);
    var msg := AckRttMessage(seqNo, from, rtt);
    var line := pre + msg + post;
    DurationTokenText(num, u);
    AckMessageNoDash(seqNo, from, rtt);
    NoDashNoStamp(line, 0);
    assert StartsAt(line, |pre|, msg) by {
      StartsAtPrefix(pre + msg, post);
      StartsAtSplit(line, 0, pre, msg);
    }
    forall k | 0 <= k < |pre|
      ensures line[k] != 'R'
    {
      assert line[k] == pre[k] && pre[k] in pre;
    }
    SimpleSearchSkip(line, 0, |pre|);
    AckAtMessage(line, |pre|, seqNo, from, rtt);
    ParseDurationSuffix(num, u);
  }

  /** `(RTT:` occurs nowhere in the text: the part both patterns need. */
  predicate NoRttText(s: string) {
    forall d :: 0 <= d <= |s| ==> !StartsAt(s, d, "(RTT:")
  }

  /** No `(` in the text is directly followed by `R`. */
  predicate NoRttOpen(s: string) {
    forall k :: 0 <= k < |s| - 1 ==> !(s[k] == '(' && s[k + 1] == 'R')
  }

  /** Without `(R` there is no `(RTT:`. */
  lemma NoRttOpenText(s: string)
    requires NoRttOpen(s)
    ensures NoRttText(s)
  {
    forall d | 0 <= d <= |s| && StartsAt(s, d, "(RTT:")
      ensures false
    {
      StartsAtChar(s, d, "(RTT:", 0);
      StartsAtChar(s, d, "(RTT:", 1);
    }
  }

  lemma {:induction false} NoRttTailFrom(s: string, q: nat)
    requires q <= |s| && NoRttText(s)
    ensures TailFrom(s, q) == None
    decreases |s| - q
  {
    if q < |s| {
      NoRttTailFrom(s, q + 1);
    }
  }

  lemma {:induction false} NoRttAckFrom(s: string, p: nat)
    requires p <= |s| && NoRttText(s)
    ensures AckFrom(s, p) == None && SimpleSearch(s, p) == None
    decreases |s| - p
  {
    NoRttTailFrom(s, if p + 12 <= |s| then p + 12 else |s|);
    if p < |s| {
      NoRttAckFrom(s, p + 1);
    }
  }

  lemma {:induction false} NoRttStamped(s: string, i: nat)
    requires i <= |s| && NoRttText(s)
    ensures StampedSearch(s, i) == None
    decreases |s| - i
  {
    if TimestampAt(s, i).Some? {
      var z := TimestampAt(s, i).value;
      NoRttAckFrom(s, RunEnd(s, RunEnd(s, RunEnd(s, z, IsSpace), IsWordChar), IsSpace));
    }
    if i < |s| {
      NoRttStamped(s, i + 1);
    }
  }

  /** Both patterns need `(RTT:`: a line in which it occurs nowhere yields no sample. */
  lemma NoRttNoSample(line: string, isoOk: string -> bool)
    requires NoRttText(line)
    ensures LineSample(line, isoOk) == None
  {
    NoRttStamped(line, 0);
    NoRttAckFrom(line, 0);
  }

  /** Gluing two texts creates no `(R` when the first does not end in `(`. */
  lemma NoRttOpenJoin(a: string, b: string)
    requires NoRttOpen(a) && NoRttOpen(b) && (a == [] || a[|a| - 1] != '(')
    ensures NoRttOpen(a + b)
  {
    var s := a + b;
    forall k | 0 <= k < |s| - 1
      ensures !(s[k] == '(' && s[k + 1] == 'R')
    {
      if k + 1 < |a| {
        assert s[k] == a[k] && s[k + 1] == a[k + 1];
      } else if k >= |a| {
        assert s[k] == b[k - |a|] && s[k + 1] == b[k + 1 - |a|];
      }
    }
  }

  /** A text without `(` has no `(R`. */
  lemma NoParenNoRttOpen(t: string)
    requires '(' !in t
    ensures NoRttOpen(t)
  {
    forall k | 0 <= k < |t| - 1
      ensures t[k] != '('
    {
      assert t[k] in t;
    }
  }

  /**
   * The message for an ACK that matched no probe gives no sample: its only `(` opens
   * `(no matching probe)`. This holds whatever surrounds it, as long as that holds no `(`.
   */
  lemma NoProbeLineNoSample(pre: string, seqNo: nat, from: string, post: string, isoOk: string -> bool)
    requires '(' !in pre && '(' !in from && '(' !in post
    ensures LineSample(pre + AckNoProbeMessage(seqNo, from) + post, isoOk) == None
  {
    var n := NatText(seqNo);
    var front := pre + AckHead(seqNo) + "from " + from;
    var note := " (no matching probe)";
    assert pre + AckNoProbeMessage(seqNo, from) + post == front + note + post;
    assert forall k :: 0 <= k < |n| ==> n[k] != '(';
    assert '(' !in AckHead(seqNo);
    assert '(' !in front;
    NoParenNoRttOpen(front);
    NoParenNoRttOpen(post);
    assert NoRttOpen(note) by {
      forall k | 0 <= k < |note| - 1
        ensures !(note[k] == '(' && note[k + 1] == 'R')
      {
      }
    }
    if front != [] {
      assert front[|front| - 1] in front;
    }
    NoRttOpenJoin(front, note);
    NoRttOpenJoin(front + note, post);
    NoRttOpenText(front + note + post);
    NoRttNoSample(front + note + post, isoOk);
  }

  lemma {:induction false} AckAtSimple(s: string, i: nat, p: nat)
    requires i <= p <= |s| && AckAt(s, p).Some?
    ensures SimpleSearch(s, i).Some?
    decreases p - i
  {
    if i < p && AckAt(s, i).None? {
      AckAtSimple(s, i + 1, p);
    }
  }

  lemma {:induction false} AckFromSimple(s: string, c: nat, i: nat)
    requires i <= c <= |s| && AckFrom(s, c).Some?
    ensures SimpleSearch(s, i).Some?
    decreases |s| - c
  {
    if AckAt(s, c).Some? {
      AckAtSimple(s, i, c);
    } else {
      AckFromSimple(s, c + 1, i);
    }
  }

  /** Wherever the timestamped pattern matches, the simple one (its tail) matches too. */
  lemma {:induction false} StampedSearchSimple(s: string, i: nat)
    requires i <= |s| && StampedSearch(s, i).Some?
    ensures SimpleSearch(s, i).Some?
    decreases |s| - i
  {
    if StampedAt(s, i).Some? {
      var z := TimestampAt(s, i).value;
      AckFromSimple(s, RunEnd(s, RunEnd(s, RunEnd(s, z, IsSpace), IsWordChar), IsSpace), i);
    } else {
      StampedSearchSimple(s, i + 1);
      if AckAt(s, i).None? {
        assert SimpleSearch(s, i) == SimpleSearch(s, i + 1);
      }
    }
  }

  /**
   * A line the timestamped pattern matches but whose timestamp or RTT text fails to parse
   * is dropped, although the simple pattern would have matched it: stage two is not tried.
   */
  lemma StampedFailureNotRetried(line: string, isoOk: string -> bool)
    requires StampedSearch(line, 0).Some? && StampedSample(StampedSearch(line, 0).value, isoOk).None?
    ensures SimpleSearch(line, 0).Some? && LineSample(line, isoOk).None?
  {
    StampedSearchSimple(line, 0);
  }

  // ---------------------------------------------------------------------------
  // print_statistics

  /** The figures `print_statistics` prints, the jitter as its square, the variance. */
  datatype RttStatistics = RttStatistics(
    count: nat, min: real, max: real, mean: real, p50: real, p95: real, p99: real, variance: real)

  /** `int(n * 0.95)`, taken exactly. */
  function P95Index(n: nat): nat { 95 * n / 100 }

  /** `min(int(n * 0.99), n - 1)`, taken exactly. */
  function P99Index(n: nat): nat
    requires n >= 1
  {
    if 99 * n / 100 < n - 1 then 99 * n / 100 else n - 1
  }

  /** The rank indices of the three percentiles are in bounds and ordered for every nonempty sample list. */
  lemma PercentileIndices(n: nat)
    requires n >= 1
    ensures 0 <= n / 2 <= P95Index(n) <= P99Index(n) < n
  {
  }

  /** The statistics of a sample list; `None` for the empty list, for which only a message is printed. */
  function Statistics(rtts: seq<real>): (r: Option<RttStatistics>)
    ensures r.None? <==> rtts == []
    ensures r.Some? ==> r.value.count == |rtts|
  {
    if rtts == [] then None
    else
      var t := SortReals(rtts);
      var n := |t|;
      PercentileIndices(n);
      Some(RttStatistics(n, t[0], t[n - 1], Mean(rtts), t[n / 2], t[P95Index(n)], t[P99Index(n)], PopVariance(rtts)))
  }

  /**
   * The minimum and maximum are samples bounding all the others, the percentiles and the
   * mean lie between them in order, and the variance is not negative.
   */
  lemma StatisticsOrdered(rtts: seq<real>)
    requires rtts != []
    ensures var st := Statistics(rtts).value;
      && st.min in rtts && st.max in rtts && (forall x :: x in rtts ==> st.min <= x <= st.max)
      && st.min <= st.p50 <= st.p95 <= st.p99 <= st.max
      && st.min <= st.mean <= st.max
      && st.variance >= 0.0
  {
    var t := SortReals(rtts);
    var n := |t|;
    PercentileIndices(n);
    SortedEnds(rtts);
    MeanBounds(rtts, t[0], t[n - 1]);
    PopVarianceNonNegative(rtts);
  }

  /** Each percentile is one of the samples. */
  lemma PercentilesAreSamples(rtts: seq<real>)
    requires rtts != []
    ensures var st := Statistics(rtts).value; st.p50 in rtts && st.p95 in rtts && st.p99 in rtts
  {
    var n := |rtts|;
    PercentileIndices(n);
    SortedElements(rtts, n / 2);
    SortedElements(rtts, P95Index(n));
    SortedElements(rtts, P99Index(n));
  }

  /** The lower bucket boundaries in microseconds; the last bucket is `[5000, inf)`. */
  const RttBuckets: seq<real> := [0.0, 50.0, 100.0, 200.0, 500.0, 1000.0, 2000.0, 5000.0]

  lemma RttBucketsIncreasing()
    ensures |RttBuckets| == 8 && Increasing(RttBuckets) && RttBuckets[0] == 0.0
  {
  }

  /** The numeric part of `print_statistics`: the figures, the eight counts and their bars. */
  method PrintStatistics(rtts: seq<real>) returns (stats: Option<RttStatistics>, counts: seq<nat>, bars: seq<nat>)
    ensures stats == Statistics(rtts)
    ensures rtts == [] ==> counts == [] && bars == []
    ensures rtts != [] ==> counts == HistogramSpec(RttBuckets, rtts) && bars == Bars(counts)
  {
    stats := Statistics(rtts);
    counts, bars := [], [];
    if rtts == [] {
      return;
    }
    counts := FillHistogram(RttBuckets, rtts);
    bars := Bars(counts);
  }

  /**
   * Every non-negative, finite RTT is counted in exactly one of the eight buckets, and negative ones
   * in none, so the counts add up to the number of non-negative samples.
   */
  lemma RttHistogramCounts(rtts: seq<real>)
    ensures |HistogramSpec(RttBuckets, rtts)| == 8
    ensures SumNat(HistogramSpec(RttBuckets, rtts)) == CountAtLeast(0.0, rtts)
    ensures forall i :: 0 <= i < 8 ==> HistogramSpec(RttBuckets, rtts)[i] == CountInBucket(RttBuckets, i, rtts)
  {
    RttBucketsIncreasing();
    HistogramTotal(RttBuckets, rtts);
    forall i | 0 <= i < 8
      ensures HistogramSpec(RttBuckets, rtts)[i] == CountInBucket(RttBuckets, i, rtts)
    {
      HistogramCountsBucket(RttBuckets, rtts, i);
    }
  }

  // ---------------------------------------------------------------------------
  // plot_latency: the CDF and rolling-jitter series

  /** The CDF curve: the sorted RTTs against `i / n` for `i` in `1..n`. */
  function CdfSeries(rtts: seq<real>): (r: (seq<real>, seq<real>))
    ensures |r.0| == |r.1| == |rtts|
  {
    (SortReals(rtts), seq(|rtts|, i requires 0 <= i < |rtts| => CdfLevel(i, |rtts|)))
  }

  /** The height of the `i`-th point (from 0) of a CDF over `n` samples. */
  function CdfLevel(i: nat, n: nat): real
    requires i < n
  {
    (i + 1) as real / n as real
  }

  /** The x values of the CDF are the samples in ascending order. */
  lemma CdfSorted(rtts: seq<real>)
    ensures Sorted(CdfSeries(rtts).0) && multiset(CdfSeries(rtts).0) == multiset(rtts)
  {
  }

  /** The y values rise strictly, stay in `(0, 1]`, and the last one is exactly 1. */
  lemma CdfLevels(rtts: seq<real>)
    requires rtts != []
    ensures var ys := CdfSeries(rtts).1;
      && (forall i, j :: 0 <= i < j < |ys| ==> ys[i] < ys[j])
      && (forall i :: 0 <= i < |ys| ==> 0.0 < ys[i] <= 1.0)
      && ys[|ys| - 1] == 1.0
  {
    var n := |rtts|;
    var ys := CdfSeries(rtts).1;
    assert forall i :: 0 <= i < n ==> ys[i] == CdfLevel(i, n);
    forall i, j | 0 <= i < j < n
      ensures CdfLevel(i, n) < CdfLevel(j, n)
    {
      CdfLevelOrder(i, j, n);
    }
    forall i | 0 <= i < n
      ensures 0.0 < CdfLevel(i, n) <= 1.0
    {
      CdfLevelRange(i, n);
    }
    CdfLevelRange(n - 1, n);
  }

  lemma CdfLevelOrder(i: nat, j: nat, n: nat)
    requires i < j < n
    ensures CdfLevel(i, n) < CdfLevel(j, n)
  {
    DivLess((i + 1) as real, (j + 1) as real, n as real);
  }

  lemma CdfLevelRange(i: nat, n: nat)
    requires i < n
    ensures 0.0 < CdfLevel(i, n) <= 1.0
    ensures i == n - 1 ==> CdfLevel(i, n) == 1.0
  {
    DivLess(0.0, (i + 1) as real, n as real);
    if i + 1 < n {
      DivLess((i + 1) as real, n as real, n as real);
    }
  }

  lemma DivLess(a: real, b: real, n: real)
    requires n > 0.0 && a < b
    ensures a / n < b / n
  {
    assert b / n - a / n == (b - a) / n;
  }

  /** Width of the rolling window. */
  const Window: nat := 20

  /**
   * The rolling-jitter loop: for every `i` from 20 on, the spread of the 20 samples before
   * `i`; nothing for a series of 20 samples or fewer. The value kept is the variance whose
   * square root the plot draws.
   */
  method RollingJitter(rtts: seq<real>) returns (jitters: seq<real>)
    ensures |rtts| <= Window ==> jitters == []
    ensures |rtts| > Window ==> |jitters| == |rtts| - Window
    ensures forall k :: 0 <= k < |jitters| ==> jitters[k] == PopVariance(rtts[k..k + Window]) && jitters[k] >= 0.0
  {
    jitters := [];
    if |rtts| <= Window {
      return;
    }
    var i := Window;
    while i < |rtts|
      invariant Window <= i <= |rtts|
      invariant |jitters| == i - Window
      invariant forall k :: 0 <= k < |jitters| ==> jitters[k] == PopVariance(rtts[k..k + Window]) && jitters[k] >= 0.0
    {
      var w := rtts[i - Window..i];
      var mean := Sum(w) / Window as real;
      var variance := SquaredDeviation(w, mean) / Window as real;
      PopVarianceNonNegative(w);
      jitters := jitters + [variance];
      i := i + 1;
    }
  }
}
