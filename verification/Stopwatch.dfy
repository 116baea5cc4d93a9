/** ui_events.cpp and the stopwatch part of display.cpp: start, stop and lap on a nanosecond clock
    that does not run backwards. */
module Stopwatch {
  import opened Wrappers

  const NS_PER_MS := 1_000_000
  const NS_PER_SECOND := 1_000_000_000
  const NS_PER_MINUTE := 60_000_000_000

  /** The figures of a label mm:ss.mmm. */
  datatype Label = Label(minutes: nat, seconds: nat, milliseconds: nat)

  function Decompose(duration: nat): Label {
    var minutes := duration / NS_PER_MINUTE;
    var seconds := (duration - minutes * NS_PER_MINUTE) / NS_PER_SECOND;
    var milliseconds := (duration - minutes * NS_PER_MINUTE - seconds * NS_PER_SECOND) / NS_PER_MS;
    Label(minutes, seconds, milliseconds)
  }

  function Millis(l: Label): nat {
    (l.minutes * 60 + l.seconds) * 1000 + l.milliseconds
  }

  /** A figure is in normal form and stands for the duration cut to whole milliseconds. */
  lemma Recompose(duration: nat)
    ensures Millis(Decompose(duration)) == duration / 1_000_000
    ensures Decompose(duration).seconds < 60 && Decompose(duration).milliseconds < 1000
  {
  }

  function Sum(laps: seq<nat>): nat {
    if laps == [] then 0 else Sum(laps[..|laps| - 1]) + laps[|laps| - 1]
  }

  /** What the lap labels add up to. */
  function ShownSum(laps: seq<nat>): nat {
    if laps == [] then 0 else ShownSum(laps[..|laps| - 1]) + Millis(Decompose(laps[|laps| - 1]))
  }

  lemma SumAppend(laps: seq<nat>, lap: nat)
    ensures Sum(laps + [lap]) == Sum(laps) + lap
  {
    assert (laps + [lap])[..|laps|] == laps;
  }

  lemma CutSum(a: nat, b: nat)
    ensures 0 <= (a + b) / NS_PER_MS - a / NS_PER_MS - b / NS_PER_MS <= 1
  {
  }

  /** After k laps the total shown exceeds the laps and the remainder shown by 0 to k milliseconds. */
  lemma {:induction false} ShownTotal(laps: seq<nat>, rest: nat)
    ensures 0 <= Millis(Decompose(Sum(laps) + rest)) - ShownSum(laps) - Millis(Decompose(rest)) <= |laps|
  {
    hide Millis, Decompose;
    Recompose(Sum(laps) + rest);
    Recompose(rest);
    if laps != [] {
      var front, lap := laps[..|laps| - 1], laps[|laps| - 1];
      ShownTotal(front, lap + rest);
      Recompose(Sum(front) + (lap + rest));
      Recompose(lap + rest);
      Recompose(lap);
      CutSum(lap, rest);
    }
  }

  class Stopwatch {
    var started: bool
    var startTime: int
    var lapTime: int
    ghost var clock: int  // the latest time read
    ghost var laps: seq<nat>  // the laps of the current timing

    /** The laps add up exactly to the time between start and the latest lap. */
    ghost predicate Valid()
      reads this
    {
      startTime <= lapTime <= clock && Sum(laps) == lapTime - startTime
    }

    constructor ()
      ensures Valid() && !started && laps == [] && clock == 0
    {
      started, startTime, lapTime := false, 0, 0;
      clock, laps := 0, [];
    }

    /** The start button: starts a new timing, or stops and shows the total. */
    method StartClicked(now: int) returns (shown: Option<Label>)
      requires Valid() && clock <= now
      modifies this
      ensures Valid() && clock == now && started == !old(started)
      ensures old(started) ==>
        startTime == old(startTime) && lapTime == old(lapTime) && laps == old(laps) &&
        shown == Some(Decompose(now - startTime)) &&
        0 <= Millis(shown.value) - ShownSum(laps) - Millis(Decompose(now - lapTime)) <= |laps|
      ensures !old(started) ==> startTime == lapTime == now && laps == [] && shown == None
    {
      if started {
        started := false;
        shown := Some(Decompose(now - startTime));
        ShownTotal(laps, now - lapTime);
      } else {
        started := true;
        startTime := now;
        lapTime := startTime;
        laps := [];
        shown := None;
      }
      clock := now;
    }

    /** The lap button (stopclicked): shows the time since the last lap while the stopwatch runs. */
    method StopClicked(now: int) returns (shown: Option<Label>)
      requires Valid() && clock <= now
      modifies this
      ensures Valid() && clock == now && started == old(started) && startTime == old(startTime)
      ensures started ==>
        lapTime == now && laps == old(laps) + [now - old(lapTime)] && shown == Some(Decompose(now - old(lapTime)))
      ensures !started ==> lapTime == old(lapTime) && laps == old(laps) && shown == None
    {
      shown := None;
      if started {
        var finalTime := now - lapTime;
        lapTime := now;
        SumAppend(laps, finalTime);
        laps := laps + [finalTime];
        shown := Some(Decompose(finalTime));
      }
      clock := now;
    }

    /** The running total on the watch face: at most a millisecond a lap off the labels shown so far. */
    method Render(now: int) returns (shown: Option<Label>)
      requires Valid() && clock <= now
      ensures shown == if started then Some(Decompose(now - startTime)) else None
      ensures started ==>
        0 <= Millis(shown.value) - ShownSum(laps) - Millis(Decompose(now - lapTime)) <= |laps|
    {
      shown := if started then Some(Decompose(now - startTime)) else None;
      ShownTotal(laps, now - lapTime);
    }
  }
}
