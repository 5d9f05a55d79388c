/** The animations of tyh.js `initAnimations`: the statistics counter that
    ramps up in 50 steps, the observer that starts each counter once and
    then stops watching it, and the typing effect of the hero title. */
module Animations {
  import opened Wrappers
  import opened JsText
  import opened Ramp
  import opened Viewport

  const Steps: nat := 50

  /** The only suffix this counter keeps: a `+` if the text has one. */
  function PlusSuffix(text: string): string
  {
    if '+' in text then "+" else ""
  }

  /** The target of a counter: `parseInt` of the text without its first
      `+`. */
  function Target(text: string): Option<int>
  {
    ParseInt(RemoveFirst(text, '+'))
  }

  /** A frame holds a `+` exactly when the text it replaced did. */
  lemma PlusOfFrame(v: int, suffix: string)
    requires suffix == "" || suffix == "+"
    ensures PlusSuffix(IntToString(v) + suffix) == suffix
  {
    var digits := IntToString(v);
    assert '+' in digits + suffix <==> '+' in suffix;
  }

  /** `animateCounter`, one loop iteration per timer tick until the
      interval is cleared: the running total is clamped to the target once
      it reaches it, and every tick shows the floored total followed by a
      `+` when the text showing before the tick had one. */
  method AnimateCounter(text: string) returns (values: seq<int>, frames: seq<string>)
    requires Target(text).Some?
    ensures values == CounterValues(Target(text).value, Steps)
    ensures frames == Render(values, PlusSuffix(text))
  {
    values, frames := RunInterval(Target(text).value, text);
  }

  /** The interval of `animateCounter` for a parsed target, on the element
      whose text is `text`. */
  method RunInterval(target: int, text: string) returns (values: seq<int>, frames: seq<string>)
    ensures values == CounterValues(target, Steps)
    ensures frames == Render(values, PlusSuffix(text))
  {
    var suffix := PlusSuffix(text);
    var current: real := 0.0;
    var increment: real := target as real / Steps as real;
    var content := text;
    var ticks: nat := 0;
    var running := true;
    values, frames := [], [];
    while running
      invariant ticks <= Ticks(target, Steps) && (running <==> ticks < Ticks(target, Steps))
      invariant running ==> current == Total(target, Steps, ticks)
      invariant values == CounterValues(target, Steps)[..ticks]
      invariant PlusSuffix(content) == suffix
      invariant frames == Render(values, suffix)
      decreases Steps - ticks
    {
      current := current + increment;
      TickOutcome(target, Steps, ticks);
      ticks := ticks + 1;
      if current >= target as real {
        current := target as real;
        running := false;
      }
      var v := current.Floor;
      var frameSuffix := PlusSuffix(content);
      PlusOfFrame(v, frameSuffix);
      content := IntToString(v) + frameSuffix;
      RenderSnoc(values, v, suffix);
      values, frames := values + [v], frames + [content];
    }
    assert values == CounterValues(target, Steps);
  }

  /** Each frame is the decimal text of its number, with a `+` exactly when
      the original text had one and never a `%`; with the `+` removed it
      reads back as that number, as the next run's target would. */
  lemma FramesReadBack(text: string, k: nat)
    requires Target(text).Some? && k < Ticks(Target(text).value, Steps)
    ensures var values := CounterValues(Target(text).value, Steps);
      var frame := Render(values, PlusSuffix(text))[k];
      frame == IntToString(values[k]) + PlusSuffix(text) &&
      ('+' in frame <==> '+' in text) && '%' !in frame &&
      Target(frame) == Some(values[k])
  {
    var values := CounterValues(Target(text).value, Steps);
    RenderAt(values, PlusSuffix(text), k);
    FrameReadsBack(values[k], PlusSuffix(text));
  }

  /** The text of a number, with or without a trailing `+`, has no `%`, has
      a `+` exactly when one was appended, and is read back as the number. */
  lemma FrameReadsBack(v: int, suffix: string)
    requires suffix == "" || suffix == "+"
    ensures var frame := IntToString(v) + suffix;
      ('+' in frame <==> suffix == "+") && '%' !in frame && Target(frame) == Some(v)
  {
    var digits := IntToString(v);
    var frame := digits + suffix;
    assert '+' in frame <==> '+' in suffix;
    if suffix == "+" {
      RemoveTrailingPlus(digits);
    } else {
      assert frame == digits;
      RemoveFirstSpec(digits, '+');
    }
    ParseIntToString(v, []);
    assert digits + [] == digits;
  }

  /** Deleting the first `+` of a number's text followed by `+` gives the
      number's text back. */
  lemma RemoveTrailingPlus(digits: string)
    requires '+' !in digits
    ensures RemoveFirst(digits + "+", '+') == digits
  {
    var frame := digits + "+";
    assert frame[|digits|] == '+';
    assert '+' in frame[..|digits| + 1];
    assert IndexOf(frame, '+') == |digits|;
    assert frame[..|digits|] == digits;
  }

  // ---------------------------------------------------------------------
  // The statistics observer

  predicate Distinct(s: seq<nat>)
  {
    forall i, j | 0 <= i < j < |s| :: s[i] != s[j]
  }

  /** The observer's state is sound: no counter was started twice, and no
      started element is still observed. */
  predicate StartedOnce(started: seq<nat>, observed: set<nat>)
  {
    Distinct(started) && forall k | 0 <= k < |started| :: started[k] !in observed
  }

  /** What the browser delivers to a callback: entries for observed
      elements only, and each element reported intersecting at most once. */
  predicate Reported(entries: seq<Entry>, observed: set<nat>)
  {
    (forall k | 0 <= k < |entries| :: entries[k].target in observed) &&
    Distinct(IntersectingTargets(entries))
  }

  /** Starting and unobserving every intersecting element keeps the state
      sound, so each statistic animates at most once. */
  lemma {:induction false} StartedOncePreserved(started: seq<nat>, observed: set<nat>, entries: seq<Entry>)
    requires StartedOnce(started, observed) && Reported(entries, observed)
    ensures StartedOnce(started + IntersectingTargets(entries), observed - Intersecting(entries))
  {
    if entries != [] {
      var last := entries[|entries| - 1];
      var init := entries[..|entries| - 1];
      var t := IntersectingTargets(init);
      assert entries == init + [last];
      assert IntersectingTargets(entries) == t + (if last.isIntersecting then [last.target] else []);
      assert Reported(init, observed) by {
        forall i, j | 0 <= i < j < |t| ensures t[i] != t[j] {
          assert IntersectingTargets(entries)[i] == t[i] && IntersectingTargets(entries)[j] == t[j];
        }
      }
      StartedOncePreserved(started, observed, init);
      var s := started + t;
      assert StartedOnce(s, observed - Intersecting(init));
      if last.isIntersecting {
        var n := last.target;
        assert n in observed;
        assert n !in t by {
          forall i | 0 <= i < |t| ensures t[i] != n {
            assert IntersectingTargets(entries)[i] == t[i] && IntersectingTargets(entries)[|t|] == n;
          }
        }
        assert n !in started;
        assert started + IntersectingTargets(entries) == s + [n];
        assert forall k | 0 <= k < |s| :: s[k] != n;
      } else {
        assert started + IntersectingTargets(entries) == s;
      }
    }
  }

  /** The statistics observer of `initAnimations`: the elements it still
      observes and, in order, the elements whose counter it started. */
  class StatsObserver {
    var observed: set<nat>
    var started: seq<nat>

    ghost predicate Valid()
      reads this
    {
      StartedOnce(started, observed)
    }

    /** Every `.stat-number` is observed, and nothing has started. */
    constructor (stats: set<nat>)
      ensures observed == stats && started == [] && Valid()
    {
      observed := stats;
      started := [];
    }

    /** The callback: each intersecting entry starts its counter and is
        unobserved at once. */
    method OnEntries(entries: seq<Entry>)
      modifies this
      ensures started == old(started) + IntersectingTargets(entries)
      ensures observed == old(observed) - Intersecting(entries)
      ensures old(Valid()) && Reported(entries, old(observed)) ==> Valid()
    {
      ghost var started0, observed0 := started, observed;
      for k := 0 to |entries|
        invariant started == started0 + IntersectingTargets(entries[..k])
        invariant observed == observed0 - Intersecting(entries[..k])
      {
        var entry := entries[k];
        assert entries[..k + 1] == entries[..k] + [entry];
        assert entries[..k + 1][..k] == entries[..k];
        if entry.isIntersecting {
          started := started + [entry.target];
          observed := observed - {entry.target};
        }
      }
      assert entries[..|entries|] == entries;
      if StartedOnce(started0, observed0) && Reported(entries, observed0) {
        StartedOncePreserved(started0, observed0, entries);
      }
    }
  }

  // ---------------------------------------------------------------------
  // The typing effect

  /** The hero title's text after each call of `typeWriter`: emptied
      first, then one more character of the original text per call, until
      the whole text is back and the next call does nothing. */
  method TypeWriter(text: string) returns (frames: seq<string>)
    ensures |frames| == |text| + 1
    ensures forall k | 0 <= k < |frames| :: frames[k] == text[..k]
  {
    var content := "";
    var i := 0;
    frames := [content];
    while i < |text|
      invariant 0 <= i <= |text| && |frames| == i + 1
      invariant content == text[..i]
      invariant forall k | 0 <= k <= i :: frames[k] == text[..k]
    {
      content := content + [text[i]];
      i := i + 1;
      frames := frames + [content];
    }
  }
}
