/** The viewport animations of script.js: the statistics counters that
    `animateCounters` ramps up in 100 steps, and the intersection callback
    that restarts them and reveals every element it sees. */
module StatsAnimator {
  import opened Wrappers
  import opened JsText
  import opened Ramp
  import opened Viewport

  const Steps: nat := 100

  /** The suffixes a counter text keeps: a `+` if it contains one, then a
      `%` if it contains one. */
  function Suffix(text: string): string
  {
    if '+' in text then (if '%' in text then "+%" else "+")
    else (if '%' in text then "%" else "")
  }

  /** The suffix is `+%`, `+`, `%` or nothing, holds a `+` exactly when the
      text does and a `%` exactly when the text does, and starts with no
      digit. */
  lemma SuffixShape(text: string)
    ensures Suffix(text) in {"", "+", "%", "+%"}
    ensures ('+' in Suffix(text) <==> '+' in text) && ('%' in Suffix(text) <==> '%' in text)
    ensures Suffix(text) == [] || DigitValue(Suffix(text)[0]) == -1
  {
  }

  /** A frame keeps the suffixes of the text it replaces, so they survive
      every tick. */
  lemma SuffixOfFrame(v: int, text: string)
    ensures Suffix(IntToString(v) + Suffix(text)) == Suffix(text)
  {
    var digits := IntToString(v);
    var suffix := Suffix(text);
    SuffixShape(text);
    assert '+' in digits + suffix <==> '+' in suffix;
    assert '%' in digits + suffix <==> '%' in suffix;
  }

  /** One counter of `animateCounters`, one loop iteration per timer tick,
      until the interval is cleared. `values` are the numbers shown after
      each tick and `frames` the texts: each number followed by the
      suffixes of the original text. */
  method AnimateCounter(text: string) returns (values: seq<int>, frames: seq<string>)
    requires ParseInt(text).Some?
    ensures values == CounterValues(ParseInt(text).value, Steps)
    ensures frames == Render(values, Suffix(text))
  {
    values, frames := RunInterval(ParseInt(text).value, text);
  }

  /** The interval of one counter for a parsed target, on the element whose
      text is `text`. */
  method RunInterval(target: int, text: string) returns (values: seq<int>, frames: seq<string>)
    ensures values == CounterValues(target, Steps)
    ensures frames == Render(values, Suffix(text))
  {
    var suffix := Suffix(text);
    var increment: real := target as real / Steps as real;
    var current: real := 0.0;
    var content := text;
    var ticks: nat := 0;
    var running := true;
    values, frames := [], [];
    while running
      invariant ticks <= Ticks(target, Steps) && (running <==> ticks < Ticks(target, Steps))
      invariant current == Total(target, Steps, ticks)
      invariant values == CounterValues(target, Steps)[..ticks]
      invariant Suffix(content) == suffix
      invariant frames == Render(values, suffix)
      decreases Steps - ticks
    {
      current := current + increment;
      TickOutcome(target, Steps, ticks);
      ticks := ticks + 1;
      var frameSuffix := Suffix(content);
      var v;
      if current >= target as real {
        v := target;
        running := false;
      } else {
        v := current.Floor;
      }
      SuffixOfFrame(v, content);
      content := IntToString(v) + frameSuffix;
      RenderSnoc(values, v, suffix);
      values, frames := values + [v], frames + [content];
    }
    assert values == CounterValues(target, Steps);
  }

  /** The frames of a counter: the decimal text of each number with the
      suffixes, so a `+` or `%` in the original text survives the
      animation, and each frame reads back as its number. */
  lemma FramesReadBack(text: string, k: nat)
    requires ParseInt(text).Some? && k < Ticks(ParseInt(text).value, Steps)
    ensures var values := CounterValues(ParseInt(text).value, Steps);
      var frame := Render(values, Suffix(text))[k];
      frame == IntToString(values[k]) + Suffix(text) &&
      Suffix(frame) == Suffix(text) && ParseInt(frame) == Some(values[k])
  {
    var values := CounterValues(ParseInt(text).value, Steps);
    var suffix := Suffix(text);
    RenderAt(values, suffix, k);
    SuffixOfFrame(values[k], text);
    SuffixShape(text);
    ParseIntToString(values[k], suffix);
  }

  /** How many entries report an intersecting statistics section. */
  function StatsHits(entries: seq<Entry>, stats: set<nat>): (n: nat)
    ensures n <= |entries|
    ensures n == 0 <==> forall e | e in entries :: !(e.isIntersecting && e.target in stats)
  {
    if entries == [] then 0
    else
      var last := entries[|entries| - 1];
      var init := entries[..|entries| - 1];
      assert entries == init + [last];
      StatsHits(init, stats) + (if last.isIntersecting && last.target in stats then 1 else 0)
  }

  /** The elements observed for fade-in (`.feature-card`, `.stats-section`,
      `.content-card`): which of them are revealed (inline opacity "1" and
      `translateY(0)`), and how many times the counters were restarted. No
      element is ever unobserved. */
  class PageObserver {
    const stats: set<nat>
    var revealed: set<nat>
    var counterRuns: nat

    constructor (stats: set<nat>)
      ensures this.stats == stats && revealed == {} && counterRuns == 0
    {
      this.stats := stats;
      revealed := {};
      counterRuns := 0;
    }

    /** The observer callback: every intersecting entry reveals its element,
        and every intersecting statistics section starts all counters again. */
    method OnEntries(entries: seq<Entry>)
      modifies this
      ensures revealed == old(revealed) + Intersecting(entries)
      ensures counterRuns == old(counterRuns) + StatsHits(entries, stats)
    {
      for k := 0 to |entries|
        invariant revealed == old(revealed) + Intersecting(entries[..k])
        invariant counterRuns == old(counterRuns) + StatsHits(entries[..k], stats)
      {
        var entry := entries[k];
        assert entries[..k + 1] == entries[..k] + [entry];
        assert entries[..k + 1][..k] == entries[..k];
        if entry.isIntersecting {
          if entry.target in stats {
            counterRuns := counterRuns + 1;
          }
          revealed := revealed + {entry.target};
        }
      }
      assert entries[..|entries|] == entries;
    }
  }

  /** Unlike the counters of the other page, these restart on every
      intersection of the statistics section: delivering the same entries
      twice reveals nothing new but starts the counters twice as often. */
  lemma RepeatedEntries(entries: seq<Entry>, stats: set<nat>)
    ensures Intersecting(entries + entries) == Intersecting(entries)
    ensures StatsHits(entries + entries, stats) == 2 * StatsHits(entries, stats)
  {
    StatsHitsAppend(entries, entries, stats);
  }

  lemma {:induction false} StatsHitsAppend(a: seq<Entry>, b: seq<Entry>, stats: set<nat>)
    ensures StatsHits(a + b, stats) == StatsHits(a, stats) + StatsHits(b, stats)
  {
    if b != [] {
      var init := b[..|b| - 1];
      assert (a + b)[..|a + b| - 1] == a + init;
      StatsHitsAppend(a, init, stats);
    } else {
      assert a + b == a;
    }
  }
}
