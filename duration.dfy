/**
 * `parse_duration` of bench/visualize_latency.py: a duration token as Rust's `{:?}`
 * prints it (`234.56µs`, `1.2ms`, `3s`, `500ns`) read back as microseconds.
 */
module Duration {
  import opened Wrappers
  import opened Text

  /** The suffixes `parse_duration` recognises, and no suffix at all. */
  datatype Unit = MicroSign | Micro | Nano | Milli | Second | Bare

  function Suffix(u: Unit): string {
    match u
    case MicroSign => "\U{B5}s"
    case Micro => "us"
    case Nano => "ns"
    case Milli => "ms"
    case Second => "s"
    case Bare => ""
  }

  /** Every suffix but the empty one begins and ends with a non-space character, and ends in `s`. */
  lemma SuffixShape(u: Unit)
    requires u != Bare
    ensures var w := Suffix(u); w != [] && !IsSpace(w[0]) && w[|w| - 1] == 's'
  {
  }

  /** How many microseconds one of the unit is. */
  function ToMicros(v: real, u: Unit): real {
    match u
    case MicroSign => v
    case Micro => v
    case Nano => v / 1000.0
    case Milli => v * 1000.0
    case Second => v * 1000000.0
    case Bare => v
  }

  /**
   * The suffix `parse_duration` acts on: `µs`, `us`, `ns`, `ms` and `s` are tested in
   * that order and the first one the text ends with wins; `Bare` when none does.
   */
  function UnitOf(s: string): (u: Unit)
    ensures EndsWith(s, Suffix(u))
    ensures u == Bare <==> !EndsWith(s, "s")
  {
    if EndsWith(s, "\U{B5}s") then MicroSign
    else if EndsWith(s, "us") then Micro
    else if EndsWith(s, "ns") then Nano
    else if EndsWith(s, "ms") then Milli
    else if EndsWith(s, "s") then Second
    else assert s[|s|..] == ""; Bare
  }

  /** A text of two or more characters ends with a two-character suffix exactly when its last two characters are the suffix. */
  lemma EndsWithTwo(s: string, w: string)
    requires |w| == 2 && |s| >= 2
    ensures EndsWith(s, w) <==> s[|s| - 2] == w[0] && s[|s| - 1] == w[1]
  {
    assert s[|s| - 2..] == [s[|s| - 2], s[|s| - 1]];
  }

  /** A nonempty text ends with a one-character suffix exactly when its last character is it. */
  lemma EndsWithOne(s: string, w: string)
    requires |w| == 1 && |s| >= 1
    ensures EndsWith(s, w) <==> s[|s| - 1] == w[0]
  {
    assert s[|s| - 1..] == [s[|s| - 1]];
  }

  /** The unit named by the last two characters `a`, `b` of a text, read directly. */
  function UnitOfPair(a: char, b: char): Unit {
    if b != 's' then Bare
    else if a == '\U{B5}' then MicroSign
    else if a == 'u' then Micro
    else if a == 'n' then Nano
    else if a == 'm' then Milli
    else Second
  }

  /** Testing the suffixes in order amounts to looking at the last two characters. */
  lemma UnitOfLastTwo(s: string)
    requires |s| >= 2
    ensures UnitOf(s) == UnitOfPair(s[|s| - 2], s[|s| - 1])
  {
    EndsWithTwo(s, "\U{B5}s");
    EndsWithTwo(s, "us");
    EndsWithTwo(s, "ns");
    EndsWithTwo(s, "ms");
    EndsWithOne(s, "s");
  }

  /**
   * `parse_duration`: strip, find the unit suffix, and scale the number in front of it
   * to microseconds. `None` is the `ValueError` that `float()` raises.
   */
  function ParseDuration(text: string): (r: Option<real>)
    ensures !EndsWith(Strip(text), "s") ==> r == ParseFloat(text)
  {
    var s := Strip(text);
    var u := UnitOf(s);
    ParseFloatStripped(text);
    Scale(ParseFloat(s[..|s| - |Suffix(u)|]), u)
  }

  /** `parse_duration` spelled out for a text whose stripped form `s` has unit `u` and number text `x`. */
  lemma ParseDurationParts(text: string, s: string, u: Unit, x: string)
    requires s == Strip(text) && UnitOf(s) == u && x == s[..|s| - |Suffix(u)|]
    ensures ParseDuration(text) == Scale(ParseFloat(x), u)
  {
  }

  function Scale(v: Option<real>, u: Unit): Option<real> {
    match v
    case None => None
    case Some(x) => Some(ToMicros(x, u))
  }
}
