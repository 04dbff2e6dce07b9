/**
 * The body of `analyze_trace` in bench/analyze_trace.py: the events of a trace read
 * line by line, grouped by call name in a `defaultdict(list)`, one summary row per
 * call name in ascending name order, the `epoll_wait` wait classes and histogram, and
 * the `sendto`/`recvfrom` figures. Printing is left out; what is printed is returned.
 */
module TraceReport {
  import opened Wrappers
  import opened Text
  import opened RealStats
  import opened Histogram
  import opened AnalyzeTrace

  // ---------------------------------------------------------------------------
  // Reading the events

  /** What `parse_strace_line` makes of each line of a trace. */
  function LineParses(lines: seq<string>): (ps: seq<LineParse>)
    ensures |ps| == |lines|
  {
    MapLines(ParseStraceLine, lines)
  }

  function MapLines(f: string -> LineParse, lines: seq<string>): (ps: seq<LineParse>)
    ensures |ps| == |lines|
  {
    seq(|lines|, i requires 0 <= i < |lines| => f(lines[i]))
  }

  lemma MapLinesAppend(f: string -> LineParse, a: seq<string>, b: seq<string>)
    ensures MapLines(f, a + b) == MapLines(f, a) + MapLines(f, b)
  {
    forall i | 0 <= i < |a + b|
      ensures MapLines(f, a + b)[i] == (MapLines(f, a) + MapLines(f, b))[i]
    {
      if i >= |a| {
        assert (a + b)[i] == b[i - |a|];
      }
    }
  }

  /**
   * The events kept from a run of line results, in file order, or `None` once a line
   * has raised: the `ValueError` of `float()` is not caught and ends the whole analysis.
   */
  function EventsOf(ps: seq<LineParse>): (r: Option<seq<SyscallEvent>>)
    ensures r.Some? ==> |r.value| <= |ps|
  {
    if ps == [] then Some([])
    else
      match EventsOf(ps[..|ps| - 1])
      case None => None
      case Some(evs) =>
        match ps[|ps| - 1]
        case NoMatch => Some(evs)
        case Parsed(e) => Some(evs + [e])
        case FloatError => None
  }

  /** The events of a whole trace. */
  function TraceEvents(lines: seq<string>): (r: Option<seq<SyscallEvent>>)
    ensures r.Some? ==> |r.value| <= |lines|
  {
    EventsOf(LineParses(lines))
  }

  /** The events kept are the parsed ones, in order, and none is kept when some line raises. */
  lemma {:induction false} EventsOfRaised(ps: seq<LineParse>, k: nat)
    requires k < |ps| && ps[k].FloatError?
    ensures EventsOf(ps) == None
  {
    if k < |ps| - 1 {
      EventsOfRaised(ps[..|ps| - 1], k);
    }
  }

  /** Conversely, the events are lost only because some line raised. */
  lemma {:induction false} EventsOfNone(ps: seq<LineParse>)
    requires EventsOf(ps) == None
    ensures exists k :: 0 <= k < |ps| && ps[k].FloatError?
  {
    var init := ps[..|ps| - 1];
    if EventsOf(init) == None {
      EventsOfNone(init);
      var k :| 0 <= k < |init| && init[k].FloatError?;
      assert ps[k] == init[k];
    } else {
      assert ps[|ps| - 1].FloatError?;
    }
  }

  /** No event is kept exactly when no line matches the pattern. */
  lemma {:induction false} EventsOfEmpty(ps: seq<LineParse>)
    ensures EventsOf(ps) == Some([]) <==> forall k :: 0 <= k < |ps| ==> ps[k].NoMatch?
  {
    if ps != [] {
      var init := ps[..|ps| - 1];
      EventsOfEmpty(init);
      assert forall k :: 0 <= k < |init| ==> init[k] == ps[k];
    }
  }

  /** The events of two stretches of a trace are those of the first followed by those of the second. */
  lemma {:induction false} EventsOfAppend(a: seq<LineParse>, b: seq<LineParse>)
    ensures EventsOf(a + b)
      == match (EventsOf(a), EventsOf(b))
         case (Some(x), Some(y)) => Some(x + y)
         case _ => None
  {
    if b == [] {
      assert a + b == a;
      if EventsOf(a).Some? {
        assert EventsOf(a).value + [] == EventsOf(a).value;
      }
    } else {
      var init := b[..|b| - 1];
      assert (a + b)[..|a + b| - 1] == a + init;
      assert (a + b)[|a + b| - 1] == b[|b| - 1];
      EventsOfAppend(a, init);
      match (EventsOf(a), EventsOf(init))
      case (Some(x), Some(y)) =>
        if b[|b| - 1].Parsed? {
          assert x + (y + [b[|b| - 1].event]) == x + y + [b[|b| - 1].event];
        }
      case _ =>
    }
  }

  /** Reading a trace in two stretches gives the events of the first followed by those of the second. */
  lemma TraceEventsAppend(a: seq<string>, b: seq<string>)
    ensures TraceEvents(a + b)
      == match (TraceEvents(a), TraceEvents(b))
         case (Some(x), Some(y)) => Some(x + y)
         case _ => None
  {
    MapLinesAppend(ParseStraceLine, a, b);
    EventsOfAppend(LineParses(a), LineParses(b));
  }

  /** Every event kept is one of the parsed lines. */
  lemma {:induction false} EventsOfParsed(ps: seq<LineParse>, e: SyscallEvent)
    requires EventsOf(ps).Some? && e in EventsOf(ps).value
    ensures Parsed(e) in ps
  {
    var init := ps[..|ps| - 1];
    if e in EventsOf(init).value {
      EventsOfParsed(init, e);
      assert Parsed(e) in init;
    }
  }

  /** No event read from a trace has a negative duration. */
  lemma TraceEventsNonNegative(lines: seq<string>)
    requires TraceEvents(lines).Some?
    ensures forall e :: e in TraceEvents(lines).value ==> e.duration >= 0.0
  {
    forall e | e in TraceEvents(lines).value
      ensures e.duration >= 0.0
    {
      EventsOfParsed(LineParses(lines), e);
      var k :| 0 <= k < |lines| && LineParses(lines)[k] == Parsed(e);
      ParsedDurationNonNegative(lines[k]);
    }
  }

  /** One more line result extends the events as the reading loop does. */
  lemma EventsOfStep(ps: seq<LineParse>, k: nat)
    requires k < |ps|
    ensures EventsOf(ps[..k + 1])
      == match EventsOf(ps[..k])
         case None => None
         case Some(evs) =>
           match ps[k]
           case NoMatch => Some(evs)
           case Parsed(e) => Some(evs + [e])
           case FloatError => None
  {
    assert ps[..k + 1][..k] == ps[..k];
  }

  /** The reading loop: every line is parsed, and each event found is appended to `events`. */
  method CollectEvents(lines: seq<string>) returns (r: Option<seq<SyscallEvent>>)
    ensures r == TraceEvents(lines)
  {
    ghost var ps := LineParses(lines);
    var events: seq<SyscallEvent> := [];
    var k := 0;
    while k < |lines|
      invariant 0 <= k <= |lines|
      invariant EventsOf(ps[..k]) == Some(events)
    {
      var parsed := ParseStraceLine(lines[k]);
      assert parsed == ps[k];
      EventsOfStep(ps, k);
      if parsed.FloatError? {
        EventsOfRaised(ps, k);
        return None;
      }
      if parsed.Parsed? {
        events := events + [parsed.event];
      }
      k := k + 1;
    }
    assert ps[..k] == ps;
    r := Some(events);
  }

  // ---------------------------------------------------------------------------
  // Grouping by call name

  /** The events of one call name, in file order. */
  function Calls(events: seq<SyscallEvent>, name: string): (r: seq<SyscallEvent>)
    ensures |r| <= |events|
    ensures forall k :: 0 <= k < |r| ==> r[k].syscall == name
  {
    if events == [] then []
    else
      var e := events[|events| - 1];
      Calls(events[..|events| - 1], name) + (if e.syscall == name then [e] else [])
  }

  /** `Calls` keeps exactly the events of that name. */
  lemma {:induction false} CallsMembers(events: seq<SyscallEvent>, name: string, e: SyscallEvent)
    ensures e in Calls(events, name) <==> e in events && e.syscall == name
  {
    if events != [] {
      var init := events[..|events| - 1];
      CallsMembers(init, name, e);
      assert events == init + [events[|events| - 1]];
    }
  }

  /**
   * `by_syscall` after the grouping loop: each event appended to the list of its name,
   * a missing name starting an empty list.
   */
  function GroupSpec(events: seq<SyscallEvent>): (g: map<string, seq<SyscallEvent>>)
    ensures forall n :: n in g ==> g[n] != []
  {
    if events == [] then map[]
    else
      var g := GroupSpec(events[..|events| - 1]);
      var e := events[|events| - 1];
      g[e.syscall := (if e.syscall in g then g[e.syscall] else []) + [e]]
  }

  /** The keys of `by_syscall` in the dictionary's own order, the order in which the names first appear. */
  function NameOrder(events: seq<SyscallEvent>): (ns: seq<string>) {
    if events == [] then []
    else
      var ns := NameOrder(events[..|events| - 1]);
      var n := events[|events| - 1].syscall;
      if n in ns then ns else ns + [n]
  }

  predicate Distinct(ns: seq<string>) {
    forall i, j :: 0 <= i < j < |ns| ==> ns[i] != ns[j]
  }

  /** The keys of the groups are the names listed in their order. */
  lemma {:induction false} GroupKeys(events: seq<SyscallEvent>)
    ensures forall n :: n in GroupSpec(events) <==> n in NameOrder(events)
  {
    if events != [] {
      GroupKeys(events[..|events| - 1]);
    }
  }

  /**
   * The groups are keyed by exactly the names that occur, in order of first appearance
   * and without repetition, and each group is the events of its name in file order.
   */
  lemma {:induction false} GroupsAreCalls(events: seq<SyscallEvent>)
    ensures Distinct(NameOrder(events))
    ensures forall n :: n in GroupSpec(events) <==> n in NameOrder(events)
    ensures forall n :: n in NameOrder(events) <==> Calls(events, n) != []
    ensures forall n :: n in GroupSpec(events) ==> GroupSpec(events)[n] == Calls(events, n)
  {
    if events != [] {
      GroupsAreCalls(events[..|events| - 1]);
    }
  }

  /** Every event lands in the group of its name. */
  lemma EventGrouped(events: seq<SyscallEvent>, k: nat)
    requires k < |events|
    ensures events[k].syscall in GroupSpec(events)
    ensures events[k] in GroupSpec(events)[events[k].syscall]
  {
    GroupsAreCalls(events);
    CallsMembers(events, events[k].syscall, events[k]);
  }

  /** A name has a group exactly when some event has that name, and the group is that name's events. */
  lemma GroupOfName(events: seq<SyscallEvent>, name: string)
    ensures name in GroupSpec(events) <==> exists k :: 0 <= k < |events| && events[k].syscall == name
    ensures name in GroupSpec(events) ==> GroupSpec(events)[name] == Calls(events, name)
  {
    GroupsAreCalls(events);
    if name in GroupSpec(events) {
      var c := Calls(events, name);
      CallsMembers(events, name, c[0]);
    }
    if exists k :: 0 <= k < |events| && events[k].syscall == name {
      var k :| 0 <= k < |events| && events[k].syscall == name;
      EventGrouped(events, k);
    }
  }

  /** The grouping loop over `by_syscall`, a dictionary whose keys keep their insertion order. */
  method GroupBySyscall(events: seq<SyscallEvent>) returns (groups: map<string, seq<SyscallEvent>>, order: seq<string>)
    ensures groups == GroupSpec(events) && order == NameOrder(events)
  {
    groups := map[];
    order := [];
    var k := 0;
    while k < |events|
      invariant 0 <= k <= |events|
      invariant groups == GroupSpec(events[..k]) && order == NameOrder(events[..k])
    {
      assert events[..k + 1][..k] == events[..k];
      var e := events[k];
      GroupKeys(events[..k]);
      if e.syscall !in groups {
        groups := groups[e.syscall := []];
        order := order + [e.syscall];
      }
      groups := groups[e.syscall := groups[e.syscall] + [e]];
      k := k + 1;
    }
    assert events[..k] == events;
  }

  // ---------------------------------------------------------------------------
  // Group sizes

  /** The sizes of the groups of the names `ns`, added up. */
  function GroupSizes(events: seq<SyscallEvent>, ns: seq<string>): nat {
    if ns == [] then 0 else GroupSizes(events, ns[..|ns| - 1]) + |Calls(events, ns[|ns| - 1])|
  }

  /** How often `x` occurs in `ns`. */
  function Occurrences(ns: seq<string>, x: string): (c: nat)
    ensures c <= |ns|
  {
    if ns == [] then 0 else Occurrences(ns[..|ns| - 1], x) + (if ns[|ns| - 1] == x then 1 else 0)
  }

  /** One more event adds one to the size of every listed group of its name. */
  lemma {:induction false} GroupSizesStep(events: seq<SyscallEvent>, e: SyscallEvent, ns: seq<string>)
    ensures GroupSizes(events + [e], ns) == GroupSizes(events, ns) + Occurrences(ns, e.syscall)
  {
    if ns != [] {
      GroupSizesStep(events, e, ns[..|ns| - 1]);
      assert (events + [e])[..|events + [e]| - 1] == events;
    }
  }

  /** A name listed once occurs once. */
  lemma {:induction false} OccurrencesDistinct(ns: seq<string>, x: string)
    requires Distinct(ns)
    ensures Occurrences(ns, x) == if x in ns then 1 else 0
  {
    if ns != [] {
      var init := ns[..|ns| - 1];
      OccurrencesDistinct(init, x);
      assert ns == init + [ns[|ns| - 1]];
      if ns[|ns| - 1] == x {
        assert forall k :: 0 <= k < |init| ==> init[k] != x by {
          forall k | 0 <= k < |init|
            ensures init[k] != x
          {
            assert ns[k] != ns[|ns| - 1];
          }
        }
      }
    }
  }

  /** The groups of a list of distinct names covering every event hold all events between them. */
  lemma {:induction false} GroupSizesTotal(events: seq<SyscallEvent>, ns: seq<string>)
    requires Distinct(ns)
    requires forall k :: 0 <= k < |events| ==> events[k].syscall in ns
    ensures GroupSizes(events, ns) == |events|
  {
    if events == [] {
      GroupSizesEmpty(ns);
    } else {
      var init := events[..|events| - 1];
      var e := events[|events| - 1];
      GroupSizesTotal(init, ns);
      assert init + [e] == events;
      GroupSizesStep(init, e, ns);
      OccurrencesDistinct(ns, e.syscall);
    }
  }

  lemma {:induction false} GroupSizesEmpty(ns: seq<string>)
    ensures GroupSizes([], ns) == 0
  {
    if ns != [] {
      GroupSizesEmpty(ns[..|ns| - 1]);
    }
  }

  // ---------------------------------------------------------------------------
  // `sorted(by_syscall.keys())`

  predicate StrictlySorted(ns: seq<string>) {
    forall i, j :: 0 <= i < j < |ns| ==> StrLt(ns[i], ns[j])
  }

  lemma StrictlySortedDistinct(ns: seq<string>)
    requires StrictlySorted(ns)
    ensures Distinct(ns)
  {
    forall i, j | 0 <= i < j < |ns|
      ensures ns[i] != ns[j]
    {
      StrLtIrreflexive(ns[i]);
    }
  }

  /** Puts `x` into its place in the ascending list `ns` of distinct names, unless it is there already. */
  function InsertName(x: string, ns: seq<string>): (r: seq<string>)
    requires StrictlySorted(ns)
    ensures StrictlySorted(r)
    ensures forall y :: y in r <==> y == x || y in ns
  {
    if ns == [] then [x]
    else if x == ns[0] then ns
    else if StrLt(x, ns[0]) then
      assert forall j :: 0 <= j < |ns| ==> StrLt(x, ns[j]) by {
        forall j | 0 <= j < |ns|
          ensures StrLt(x, ns[j])
        {
          if j > 0 {
            StrLtTrans(x, ns[0], ns[j]);
          }
        }
      }
      [x] + ns
    else
      StrLtTotal(x, ns[0]);
      var rest := InsertName(x, ns[1..]);
      assert forall y :: y in rest ==> StrLt(ns[0], y) by {
        forall y | y in rest
          ensures StrLt(ns[0], y)
        {
          if y != x {
            var j :| 0 <= j < |ns[1..]| && ns[1..][j] == y;
            assert ns[j + 1] == y;
          }
        }
      }
      assert forall y :: y in ns <==> y == ns[0] || y in ns[1..] by {
        assert ns == [ns[0]] + ns[1..];
      }
      [ns[0]] + rest
  }

  /** Python's `sorted` of a list of names: ascending, and the same names. */
  function SortNames(ns: seq<string>): (r: seq<string>)
    ensures StrictlySorted(r)
    ensures forall y :: y in r <==> y in ns
  {
    if ns == [] then []
    else
      var r := InsertName(ns[|ns| - 1], SortNames(ns[..|ns| - 1]));
      assert forall y :: y in ns <==> y in ns[..|ns| - 1] || y == ns[|ns| - 1] by {
        assert ns == ns[..|ns| - 1] + [ns[|ns| - 1]];
      }
      r
  }

  // ---------------------------------------------------------------------------
  // The summary table

  /** One line of the table: name, number of calls, and the mean, median, p99 and maximum in microseconds. */
  datatype SyscallRow = SyscallRow(syscall: string, count: nat, mean: real, p50: real, p99: real, max: real)

  /** `[e.duration * 1_000_000 for e in calls]`. */
  function Micros(calls: seq<SyscallEvent>): (d: seq<real>)
    ensures |d| == |calls|
  {
    seq(|calls|, i requires 0 <= i < |calls| => calls[i].duration * 1000000.0)
  }

  /** `int(len(durations) * 0.99)`, taken as the exact floor of 99n/100. */
  function P99Rank(n: nat): nat {
    (99 * n) / 100
  }

  /** The p99 rank is a position of the sorted list, and not before its middle. */
  lemma P99RankBounds(n: nat)
    requires n >= 1
    ensures n / 2 <= P99Rank(n) < n
  {
  }

  /** The row of one call name; `p99` is the element at the p99 rank of the sorted durations, or the only one. */
  function RowOf(name: string, calls: seq<SyscallEvent>): (r: SyscallRow)
    requires calls != []
    ensures r.syscall == name && r.count == |calls|
  {
    var d := Micros(calls);
    var n := |d|;
    var p99 := if n > 1 then P99RankBounds(n); SortReals(d)[P99Rank(n)] else d[0];
    SyscallRow(name, |calls|, Mean(d), Median(d), p99, MaxReal(d))
  }

  /**
   * Every row is ordered: the smallest duration is at most the mean and the median, the
   * median at most the p99, and the p99 and the mean at most the maximum, which is the
   * largest duration; the p99 is one of the durations; a single call gives its own
   * duration in every column.
   */
  lemma RowBounds(name: string, calls: seq<SyscallEvent>)
    requires calls != []
    ensures var r := RowOf(name, calls); var d := Micros(calls); var t := SortReals(d);
      && r.syscall == name && r.count == |calls|
      && t[0] <= r.mean <= r.max && t[0] <= r.p50 <= r.p99 <= r.max
      && r.p99 in d && r.max in d && (forall x :: x in d ==> x <= r.max)
      && (|calls| == 1 ==> r.mean == r.p50 == r.p99 == r.max == d[0])
  {
    var d := Micros(calls);
    var t := SortReals(d);
    var n := |d|;
    SortedEnds(d);
    MeanBounds(d, t[0], t[n - 1]);
    MedianBounds(d);
    MaxRealSorted(d);
    if n > 1 {
      P99RankBounds(n);
      SortedElements(d, P99Rank(n));
      assert t[n / 2] <= t[P99Rank(n)];
    } else {
      assert t == [d[0]] by {
        assert multiset(t) == multiset{d[0]} by { assert d == [d[0]]; }
        assert t[0] in multiset(t);
      }
      assert d == [d[0]];
      assert Sum(d) == d[0] by { assert d[..0] == []; }
    }
  }

  /** The rows made by `row` for the names in the order given; a name with no durations prints nothing. */
  function RowsBy(row: (string, seq<SyscallEvent>) --> SyscallRow, groups: map<string, seq<SyscallEvent>>, names: seq<string>): (rows: seq<SyscallRow>)
    requires forall n, c :: c != [] ==> row.requires(n, c)
    ensures |rows| <= |names|
  {
    if names == [] then []
    else
      var n := names[|names| - 1];
      RowsBy(row, groups, names[..|names| - 1]) + (if n in groups && groups[n] != [] then [row(n, groups[n])] else [])
  }

  /** One more name adds its row, when it has a nonempty list. */
  lemma RowsByStep(row: (string, seq<SyscallEvent>) --> SyscallRow, groups: map<string, seq<SyscallEvent>>, names: seq<string>, k: nat)
    requires forall n, c :: c != [] ==> row.requires(n, c)
    requires k < |names|
    ensures RowsBy(row, groups, names[..k + 1]) == RowsBy(row, groups, names[..k])
      + (if names[k] in groups && groups[names[k]] != [] then [row(names[k], groups[names[k]])] else [])
  {
    assert names[..k + 1][..k] == names[..k];
  }

  /** The rows of the table for the names in the order given. */
  function RowsSpec(groups: map<string, seq<SyscallEvent>>, names: seq<string>): seq<SyscallRow> {
    RowsBy(RowOf, groups, names)
  }

  /** The table loop, one row per name with a nonempty list of durations. */
  method ReportRows(groups: map<string, seq<SyscallEvent>>, names: seq<string>) returns (rows: seq<SyscallRow>)
    ensures rows == RowsSpec(groups, names)
  {
    rows := [];
    var k := 0;
    while k < |names|
      invariant 0 <= k <= |names|
      invariant rows == RowsSpec(groups, names[..k])
    {
      var name := names[k];
      var next := [];
      if name in groups {
        var calls := groups[name];
        if |calls| > 0 {
          next := [RowOf(name, calls)];
        }
      }
      RowsByStep(RowOf, groups, names, k);
      rows := rows + next;
      k := k + 1;
    }
    assert names[..k] == names;
  }

  /** The sum of the `count` column. */
  function CountTotal(rows: seq<SyscallRow>): nat {
    if rows == [] then 0 else CountTotal(rows[..|rows| - 1]) + rows[|rows| - 1].count
  }

  /** The sizes of the lists of the names `ns` in `groups`, added up. */
  function SizesIn(groups: map<string, seq<SyscallEvent>>, ns: seq<string>): nat
    requires forall k :: 0 <= k < |ns| ==> ns[k] in groups
  {
    if ns == [] then 0 else SizesIn(groups, ns[..|ns| - 1]) + |groups[ns[|ns| - 1]]|
  }

  /**
   * For names whose lists are all present and nonempty there is one row per name, in
   * the same order, each the row of that name's list, and the counts add up to the list sizes.
   */
  lemma {:induction false} RowsOfGroups(row: (string, seq<SyscallEvent>) --> SyscallRow, groups: map<string, seq<SyscallEvent>>, names: seq<string>)
    requires forall n, c :: c != [] ==> row.requires(n, c)
    requires forall n, c :: c != [] ==> row(n, c).count == |c|
    requires forall k :: 0 <= k < |names| ==> names[k] in groups && groups[names[k]] != []
    ensures var rows := RowsBy(row, groups, names);
      && |rows| == |names|
      && (forall k :: 0 <= k < |names| ==> rows[k] == row(names[k], groups[names[k]]))
      && CountTotal(rows) == SizesIn(groups, names)
  {
    if names != [] {
      var init := names[..|names| - 1];
      var n := names[|names| - 1];
      RowsOfGroups(row, groups, init);
      var prev := RowsBy(row, groups, init);
      var rows := RowsBy(row, groups, names);
      assert rows == prev + [row(n, groups[n])];
      forall k | 0 <= k < |names|
        ensures rows[k] == row(names[k], groups[names[k]])
      {
        if k < |init| {
          assert rows[k] == prev[k] && names[k] == init[k];
        }
      }
    }
  }

  /** In the grouping of a trace, the list sizes are the numbers of events of each name. */
  lemma {:induction false} SizesInGroups(events: seq<SyscallEvent>, names: seq<string>)
    requires forall k :: 0 <= k < |names| ==> names[k] in GroupSpec(events)
    ensures SizesIn(GroupSpec(events), names) == GroupSizes(events, names)
  {
    if names != [] {
      SizesInGroups(events, names[..|names| - 1]);
      GroupsAreCalls(events);
    }
  }

  /** The names reported are the group keys, which are the names of the events. */
  lemma ReportedNames(events: seq<SyscallEvent>)
    ensures var names := SortNames(NameOrder(events));
      && (forall n :: n in names <==> n in GroupSpec(events))
      && (forall k :: 0 <= k < |events| ==> events[k].syscall in names)
      && (forall n :: n in names ==> exists k :: 0 <= k < |events| && events[k].syscall == n)
  {
    var names := SortNames(NameOrder(events));
    GroupsAreCalls(events);
    forall k | 0 <= k < |events|
      ensures events[k].syscall in names
    {
      EventGrouped(events, k);
    }
    forall n | n in names
      ensures exists k :: 0 <= k < |events| && events[k].syscall == n
    {
      var c := Calls(events, n);
      CallsMembers(events, n, c[0]);
      var k :| 0 <= k < |events| && events[k] == c[0];
    }
  }

  /**
   * The table has one row per call name occurring in the trace, in strictly ascending
   * name order, each summarising the events of that name, and its `count` column adds
   * up to the number of events.
   */
  lemma TableRows(events: seq<SyscallEvent>)
    ensures var names := SortNames(NameOrder(events));
      var rows := RowsSpec(GroupSpec(events), names);
      && |rows| == |names|
      && (forall i, j :: 0 <= i < j < |rows| ==> StrLt(rows[i].syscall, rows[j].syscall))
      && (forall n :: n in names ==> n in GroupSpec(events))
      && (forall k :: 0 <= k < |rows| ==> rows[k] == RowOf(names[k], GroupSpec(events)[names[k]]))
      && CountTotal(rows) == |events|
  {
    var names := SortNames(NameOrder(events));
    ReportedNames(events);
    RowsOfGroups(RowOf, GroupSpec(events), names);
    assert CountTotal(RowsSpec(GroupSpec(events), names)) == |events| by {
      SizesInGroups(events, names);
      StrictlySortedDistinct(names);
      GroupSizesTotal(events, names);
    }
  }

  // ---------------------------------------------------------------------------
  // The epoll_wait analysis

  /** `[e.duration * 1000 for e in calls]`: durations in milliseconds. */
  function Millis(calls: seq<SyscallEvent>): (d: seq<real>)
    ensures |d| == |calls|
  {
    seq(|calls|, i requires 0 <= i < |calls| => calls[i].duration * 1000.0)
  }

  /** Waits under a millisecond: the loop was processing events. */
  predicate Immediate(ms: real) { ms < 1.0 }

  /** Waits of 1 ms up to 100 ms: active communication. */
  predicate ShortWait(ms: real) { 1.0 <= ms < 100.0 }

  /** Waits of 100 ms up to a second: waiting for the tick. */
  predicate MediumWait(ms: real) { 100.0 <= ms < 1000.0 }

  /** Waits of a second or more: idle. */
  predicate LongWait(ms: real) { ms >= 1000.0 }

  /** The four wait-time counts and the number of waits they are taken over. */
  datatype WaitClasses = WaitClasses(immediate: nat, short: nat, medium: nat, long: nat, total: nat)

  /** The four `sum(1 for d in durations if ...)` counts and `len(durations)`. */
  function ClassifyWaits(d: seq<real>): (w: WaitClasses)
    ensures w.total == |d|
  {
    WaitClasses(CountIf(d, Immediate), CountIf(d, ShortWait), CountIf(d, MediumWait), CountIf(d, LongWait), |d|)
  }

  /** Every wait falls in exactly one class, so the four counts add up to the total. */
  lemma {:induction false} WaitClassesPartition(d: seq<real>)
    ensures var w := ClassifyWaits(d); w.immediate + w.short + w.medium + w.long == w.total
  {
    if d != [] {
      WaitClassesPartition(d[..|d| - 1]);
    }
  }

  /** `100 * c / total`, the percentage printed beside a count. */
  function Percent(c: nat, total: nat): real
    requires total > 0
  {
    100.0 * (c as real) / (total as real)
  }

  /** Percentages of disjoint counts add up. */
  lemma PercentAdd(x: nat, y: nat, total: nat)
    requires total > 0
    ensures Percent(x, total) + Percent(y, total) == Percent(x + y, total)
  {
  }

  /** The whole is a hundred percent. */
  lemma PercentWhole(total: nat)
    requires total > 0
    ensures Percent(total, total) == 100.0
  {
  }

  /** The four printed percentages add up to 100. */
  lemma PercentagesSum(w: WaitClasses)
    requires w.total > 0 && w.immediate + w.short + w.medium + w.long == w.total
    ensures Percent(w.immediate, w.total) + Percent(w.short, w.total)
      + Percent(w.medium, w.total) + Percent(w.long, w.total) == 100.0
  {
    PercentAdd(w.immediate, w.short, w.total);
    PercentAdd(w.immediate + w.short, w.medium, w.total);
    PercentAdd(w.immediate + w.short + w.medium, w.long, w.total);
    assert w.immediate + w.short + w.medium + w.long == w.total;
    PercentWhole(w.total);
  }

  /** The lower bounds of the buckets 0-1ms, 1-10ms, 10-100ms, 100-500ms, 500ms-1s and >1s. */
  const EpollLows: seq<real> := [0.0, 1.0, 10.0, 100.0, 500.0, 1000.0]

  /** The histogram boundaries increase. */
  lemma EpollLowsIncreasing()
    ensures Increasing(EpollLows) && |EpollLows| == 6
  {
  }

  /** The epoll_wait section: the wait classes, the bucket counts and the bars drawn for them. */
  datatype EpollReport = EpollReport(classes: WaitClasses, counts: seq<nat>, bars: seq<nat>)

  /**
   * The epoll_wait figures of a list of calls; `None` when the largest bucket count is
   * zero, where `bar_width * count / max_count` raises `ZeroDivisionError`.
   */
  function EpollOf(calls: seq<SyscallEvent>): (r: Option<EpollReport>)
    ensures r.Some? ==> |r.value.counts| == |r.value.bars| == |EpollLows|
  {
    var d := Millis(calls);
    var counts := HistogramSpec(EpollLows, d);
    if MaxCount(counts) == 0 then None
    else Some(EpollReport(ClassifyWaits(d), counts, Bars(counts)))
  }

  /** The bucket a wait of `ms` milliseconds is counted in, for `ms >= 0`. */
  lemma EpollBucket(ms: real)
    requires 0.0 <= ms
    ensures BucketOf(EpollLows, ms) == Some(
      if ms < 1.0 then 0 else if ms < 10.0 then 1 else if ms < 100.0 then 2
      else if ms < 500.0 then 3 else if ms < 1000.0 then 4 else 5)
  {
    var i: nat := if ms < 1.0 then 0 else if ms < 10.0 then 1 else if ms < 100.0 then 2
      else if ms < 500.0 then 3 else if ms < 1000.0 then 4 else 5;
    BucketFromFirst(EpollLows, ms, 0, i);
  }

  /**
   * The two views of the waits agree: the immediate waits are the 0-1ms bucket, the short
   * ones the 1-10ms and 10-100ms buckets, the medium ones the 100-500ms and 500ms-1s
   * buckets, and the long ones the >1s bucket.
   */
  lemma {:induction false} ClassesMatchBuckets(d: seq<real>)
    requires forall k :: 0 <= k < |d| ==> 0.0 <= d[k]
    ensures var c := HistogramSpec(EpollLows, d); var w := ClassifyWaits(d);
      && w.immediate == c[0] && w.short == c[1] + c[2]
      && w.medium == c[3] + c[4] && w.long == c[5]
  {
    if d != [] {
      var v := d[|d| - 1];
      ClassesMatchBuckets(d[..|d| - 1]);
      EpollBucket(v);
    }
  }

  /**
   * For a nonempty list of calls with nonnegative, finite durations (every model real is
   * finite, unlike the `inf` that `float()` gives on overflow) the histogram never divides
   * by zero: the counts add up to the number of calls, every bar fits in 40 characters and
   * the fullest bucket's bar is full; the wait classes partition the calls.
   */
  lemma EpollFacts(calls: seq<SyscallEvent>)
    requires calls != []
    requires forall k :: 0 <= k < |calls| ==> calls[k].duration >= 0.0
    ensures var r := EpollOf(calls);
      && r.Some?
      && SumNat(r.value.counts) == |calls|
      && (forall i :: 0 <= i < |EpollLows| ==> r.value.bars[i] <= BarWidth)
      && BarWidth in r.value.bars
      && r.value.classes.total == |calls|
      && r.value.classes.immediate + r.value.classes.short + r.value.classes.medium + r.value.classes.long == |calls|
  {
    var d := Millis(calls);
    var counts := HistogramSpec(EpollLows, d);
    EpollLowsIncreasing();
    HistogramTotal(EpollLows, d);
    CountAtLeastAll(0.0, d);
    MaxCountPositive(counts);
    BarsBounds(counts);
    WaitClassesPartition(d);
  }

  // ---------------------------------------------------------------------------
  // The network I/O analysis

  /** The sendto or recvfrom figures: number of calls, mean and maximum in microseconds. */
  datatype IoSummary = IoSummary(calls: nat, mean: real, max: real)

  /** The summary of a nonempty list of calls. */
  function IoOf(calls: seq<SyscallEvent>): (r: IoSummary)
    requires calls != []
    ensures r.calls == |calls|
  {
    var d := Micros(calls);
    IoSummary(|calls|, Mean(d), MaxReal(d))
  }

  /**
   * The mean lies between the smallest duration and the maximum, the maximum is the
   * largest duration, and both agree with the name's row of the summary table.
   */
  lemma IoBounds(name: string, calls: seq<SyscallEvent>)
    requires calls != []
    ensures var r := IoOf(calls); var d := Micros(calls);
      && SortReals(d)[0] <= r.mean <= r.max
      && r.max in d && (forall x :: x in d ==> x <= r.max)
      && r.mean == RowOf(name, calls).mean && r.max == RowOf(name, calls).max
  {
    RowBounds(name, calls);
  }

  /** The summary of the group `name`, when the trace has one. */
  function IoIn(groups: map<string, seq<SyscallEvent>>, name: string): (r: Option<IoSummary>)
    requires forall n :: n in groups ==> groups[n] != []
    ensures r.Some? <==> name in groups
  {
    if name in groups then Some(IoOf(groups[name])) else None
  }

  // ---------------------------------------------------------------------------
  // The whole analysis

  /** The name of the event-loop call the epoll sections are about. */
  const EpollWait: string := "epoll_wait"

  /** How `analyze_trace` ends. */
  datatype TraceOutcome =
    | Raised           // `float()` raised on a matched stamp or duration
    | NoSyscalls       // "No syscalls found in trace file"
    | DivisionByZero   // the histogram's `bar_width * count / max_count` raised
    | Report(total: nat, rows: seq<SyscallRow>, epoll: Option<EpollReport>, sendto: Option<IoSummary>, recvfrom: Option<IoSummary>)

  /**
   * The figures printed for a nonempty list of events: the total, the table in sorted
   * name order, the epoll_wait section when there are such calls, and the sendto and
   * recvfrom summaries when there are such calls.
   */
  function ReportOf(events: seq<SyscallEvent>): (r: TraceOutcome)
    ensures r.Report? || r == DivisionByZero
    ensures r.Report? ==> r.total == |events|
  {
    var groups := GroupSpec(events);
    var rows := RowsSpec(groups, SortNames(NameOrder(events)));
    var epoll := if EpollWait in groups then EpollOf(groups[EpollWait]) else None;
    if EpollWait in groups && epoll.None? then DivisionByZero
    else Report(|events|, rows, epoll, IoIn(groups, "sendto"), IoIn(groups, "recvfrom"))
  }

  /** The outcome of analysing the lines of a trace. */
  function AnalysisOf(lines: seq<string>): (r: TraceOutcome)
    ensures r == Raised <==> TraceEvents(lines).None?
    ensures r == NoSyscalls <==> TraceEvents(lines) == Some([])
  {
    match TraceEvents(lines)
    case None => Raised
    case Some(events) => if events == [] then NoSyscalls else ReportOf(events)
  }

  /**
   * The epoll_wait figures: the wait classes, the bucket-counting loop, then the bars,
   * or `None` where `max_count` is zero and the first bar divides by it.
   */
  method EpollSection(calls: seq<SyscallEvent>) returns (r: Option<EpollReport>)
    ensures r == EpollOf(calls)
  {
    var d := Millis(calls);
    var counts := FillHistogram(EpollLows, d);
    var maxCount := MaxCount(counts);
    if maxCount == 0 {
      return None;
    }
    r := Some(EpollReport(ClassifyWaits(d), counts, Bars(counts)));
  }

  /**
   * `analyze_trace`: read the events, stop if there are none, group them, build the
   * table over the sorted names, then the epoll_wait and network sections.
   */
  method AnalyzeTraceLines(lines: seq<string>) returns (outcome: TraceOutcome)
    ensures outcome == AnalysisOf(lines)
  {
    var parsed := CollectEvents(lines);
    if parsed.None? {
      return Raised;
    }
    var events := parsed.value;
    if |events| == 0 {
      return NoSyscalls;
    }
    outcome := ReportEvents(events);
  }

  /** The report part of `analyze_trace`, once there are events. */
  method ReportEvents(events: seq<SyscallEvent>) returns (outcome: TraceOutcome)
    ensures outcome == ReportOf(events)
  {
    var groups, order := GroupBySyscall(events);
    var rows := ReportRows(groups, SortNames(order));
    var epoll: Option<EpollReport> := None;
    if EpollWait in groups {
      epoll := EpollSection(groups[EpollWait]);
      if epoll.None? {
        return DivisionByZero;
      }
    }
    outcome := Report(|events|, rows, epoll, IoIn(groups, "sendto"), IoIn(groups, "recvfrom"));
  }

  /** The analysis raises exactly when some line's stamp or duration makes `float()` raise. */
  lemma AnalysisRaises(lines: seq<string>)
    ensures AnalysisOf(lines) == Raised
      <==> exists k :: 0 <= k < |lines| && LineParses(lines)[k].FloatError?
  {
    var ps := LineParses(lines);
    if AnalysisOf(lines) == Raised {
      EventsOfNone(ps);
    } else if exists k :: 0 <= k < |lines| && ps[k].FloatError? {
      var k :| 0 <= k < |lines| && ps[k].FloatError?;
      EventsOfRaised(ps, k);
    }
  }

  /** "No syscalls found" is printed exactly when no line matches the pattern. */
  lemma AnalysisEmpty(lines: seq<string>)
    ensures AnalysisOf(lines) == NoSyscalls
      <==> forall k :: 0 <= k < |lines| ==> LineParses(lines)[k].NoMatch?
  {
    EventsOfEmpty(LineParses(lines));
  }

  /**
   * For durations `float()` reads as finite, the missing zero guard in the histogram is never
   * reached: the analysis never divides by zero. A trace whose every epoll_wait duration
   * overflows to `inf` is outside the model.
   */
  lemma NoDivisionByZero(lines: seq<string>)
    ensures AnalysisOf(lines) != DivisionByZero
  {
    if TraceEvents(lines).Some? && TraceEvents(lines).value != [] {
      var events := TraceEvents(lines).value;
      var groups := GroupSpec(events);
      if EpollWait in groups {
        var calls := groups[EpollWait];
        TraceEventsNonNegative(lines);
        forall k | 0 <= k < |calls|
          ensures calls[k].duration >= 0.0
        {
          GroupsAreCalls(events);
          CallsMembers(events, EpollWait, calls[k]);
        }
        EpollFacts(calls);
      }
    }
  }

  /**
   * A trace with events gives a report of all of them, with the table over the sorted
   * names; the epoll_wait, sendto and recvfrom sections appear exactly when the trace has
   * calls of that name, and summarise exactly those calls.
   */
  lemma ReportContents(lines: seq<string>)
    requires TraceEvents(lines).Some? && TraceEvents(lines).value != []
    ensures var events := TraceEvents(lines).value; var r := AnalysisOf(lines);
      && r.Report? && r.total == |events|
      && r.rows == RowsSpec(GroupSpec(events), SortNames(NameOrder(events)))
      && (r.epoll.Some? <==> exists k :: 0 <= k < |events| && events[k].syscall == EpollWait)
      && (r.epoll.Some? ==> r.epoll == EpollOf(Calls(events, EpollWait)))
      && (r.sendto.Some? <==> exists k :: 0 <= k < |events| && events[k].syscall == "sendto")
      && (r.sendto.Some? ==> Calls(events, "sendto") != [] && r.sendto.value == IoOf(Calls(events, "sendto")))
      && (r.recvfrom.Some? <==> exists k :: 0 <= k < |events| && events[k].syscall == "recvfrom")
      && (r.recvfrom.Some? ==> Calls(events, "recvfrom") != [] && r.recvfrom.value == IoOf(Calls(events, "recvfrom")))
  {
    var events := TraceEvents(lines).value;
    NoDivisionByZero(lines);
    GroupOfName(events, EpollWait);
    GroupOfName(events, "sendto");
    GroupOfName(events, "recvfrom");
    if EpollWait in GroupSpec(events) {
      assert EpollOf(GroupSpec(events)[EpollWait]).Some?;
    }
  }
}
