/**
  Behaviour of the controller over successive cycles: a cycle is one
  filter_read_cb delivery followed by one update. The lemmas here relate
  the swipe counters, the fine-swipe flags and the short-press detector to
  the touched flags the cycles produce.
 */
module Ticks {
  import opened Types
  import opened Scan
  import opened Gesture
  import opened Buttons
  import opened Channels
  import opened TouchSlider

  /** One cycle: the filter callback stores new readings, then update runs. */
  function Tick(s: Controller, t: PadTable, values: seq<uint16>): (r: (Controller, PadTable))
    requires s.Ready() && t.Valid() && |values| == TouchPadMax
    ensures r.0.Ready() && r.1.Valid()
    ensures r.1 == FilterRead(t, values) && r.0 == Update(s, r.1)
  {
    var t1 := FilterRead(t, values);
    (Update(s, t1), t1)
  }

  /** The coarse swipe step a cycle should register, computed from the
      new touched flags of the slider alone: nothing on an untouched cycle
      or on the first cycle of a contact; otherwise the sign of the change
      of the span position n - 1 - first - last against the previous
      position. */
  function Step(s: Controller, flags: seq<bool>): (e: int)
    ensures -1 <= e <= 1
  {
    var first, last := FirstTouched(flags), LastTouched(flags);
    if first == -1 || s.motion.firstTouch then 0
    else
      var pos := |flags| - 1 - first - last;
      if pos > s.motion.actualValue then 1
      else if pos < s.motion.actualValue then -1
      else 0
  }

  /** A cycle counts a swipe down exactly when the position rises and a
      swipe up exactly when it falls, within one contact; the int8 storing
      of the difference never changes its sign since positions stay within
      -9..9. A coarse swipe also cancels a pending fine swipe. */
  lemma {:induction false} CoarseSwipeRule(s: Controller, t: PadTable)
    requires s.Ready() && t.Valid()
    ensures var (touched, m) := CheckSliderStatus(s, t);
      var e := Step(s, touched[..s.numSliderPins]);
      && m.swipeDownCount == (if e == 1 then WrapInt8(s.motion.swipeDownCount + 1) else s.motion.swipeDownCount)
      && m.swipeUpCount == (if e == -1 then WrapInt8(s.motion.swipeUpCount + 1) else s.motion.swipeUpCount)
      && (FirstTouched(touched[..s.numSliderPins]) != -1 ==>
            && m.state == (if e == 1 then SwipeDown else if e == -1 then SwipeUp else NoChange)
            && m.swipeFineUpCount == s.motion.swipeFineUpCount
            && m.swipeFineDownCount == s.motion.swipeFineDownCount
            && (e != 0 ==> !m.firstPadTop && !m.firstPadBot))
  {
    var n := s.numSliderPins;
    var touched := Classify(t, s.sliderPads, s.sliderTouched, n);
    var count := FreshTouches(t, s.sliderPads, touched, n);
    var flags := touched[..n];
    var first, last := FirstTouched(flags), LastTouched(flags);
    var m0 := if n > 0 then s.motion.(lastValue := s.motion.actualValue) else s.motion;
    if first != -1 {
      var m := HandleTouch(m0, flags, count, first, last);
      assert CheckSliderStatus(s, t) == (touched, m);
      if !s.motion.firstTouch {
        LaterTouchCountsSwipe(m0, flags, count, first, last);
        LaterTouchCountsBySign(m0, flags, count, first, last);
      }
    } else {
      assert CheckSliderStatus(s, t) == (touched, HandleNoTouch(m0, n, s.features.swipeFine));
    }
  }

  /** An untouched cycle ends the contact: a fine swipe is paid out in the
      direction of the extreme pad that started it (when fine swipes are
      enabled), the flags are cleared, and the coarse counters stay. */
  lemma {:induction false} ReleasePaysFineSwipe(s: Controller, t: PadTable)
    requires s.Ready() && t.Valid()
    requires FirstTouched(CheckSliderStatus(s, t).0[..s.numSliderPins]) == -1
    ensures var m := CheckSliderStatus(s, t).1;
      && m.swipeFineDownCount ==
           (if s.features.swipeFine && s.motion.firstPadBot then WrapInt8(s.motion.swipeFineDownCount + 1)
            else s.motion.swipeFineDownCount)
      && m.swipeFineUpCount ==
           (if s.features.swipeFine && s.motion.firstPadTop then WrapInt8(s.motion.swipeFineUpCount + 1)
            else s.motion.swipeFineUpCount)
      && !m.firstPadTop && !m.firstPadBot && m.firstTouch
      && m.swipeDownCount == s.motion.swipeDownCount
      && m.swipeUpCount == s.motion.swipeUpCount
  {
    var n := s.numSliderPins;
    var m0 := if n > 0 then s.motion.(lastValue := s.motion.actualValue) else s.motion;
    assert CheckSliderStatus(s, t).1 == HandleNoTouch(m0, n, s.features.swipeFine);
  }

  /** A fine swipe is paid out once: a second untouched cycle in a row
      leaves every swipe counter as it is. */
  lemma {:induction false} FineSwipePaidOnce(s: Controller, t1: PadTable, t2: PadTable)
    requires s.Ready() && t1.Valid() && t2.Valid()
    requires FirstTouched(Update(s, t1).SliderFlags()) == -1
    requires FirstTouched(Update(Update(s, t1), t2).SliderFlags()) == -1
    ensures var r1 := Update(s, t1); var r2 := Update(r1, t2);
      && r2.motion.swipeFineUpCount == r1.motion.swipeFineUpCount
      && r2.motion.swipeFineDownCount == r1.motion.swipeFineDownCount
      && r2.motion.swipeUpCount == r1.motion.swipeUpCount
      && r2.motion.swipeDownCount == r1.motion.swipeDownCount
  {
    ReleasePaysFineSwipe(s, t1);
    ReleasePaysFineSwipe(Update(s, t1), t2);
  }

  /** The first cycle of a contact, with every slider channel enabled,
      marks the bottom pad exactly when it is the only touched pad, and the
      top pad likewise; on a one-pad slider the lone pad is both. */
  lemma {:induction false} LonePadStartsFineSwipe(s: Controller, t: PadTable)
    requires s.Ready() && t.Valid() && s.motion.firstTouch && s.numSliderPins > 0
    requires forall i :: 0 <= i < s.numSliderPins ==> t.enabled[s.sliderPads[i]]
    requires FirstTouched(CheckSliderStatus(s, t).0[..s.numSliderPins]) != -1
    ensures var (touched, m) := CheckSliderStatus(s, t); var flags := touched[..s.numSliderPins];
      && (m.firstPadBot <==> OnlyTouched(flags, 0))
      && (m.firstPadTop <==> OnlyTouched(flags, s.numSliderPins - 1))
  {
    var n := s.numSliderPins;
    var touched := Classify(t, s.sliderPads, s.sliderTouched, n);
    var count := FreshTouches(t, s.sliderPads, touched, n);
    var flags := touched[..n];
    var first, last := FirstTouched(flags), LastTouched(flags);
    var m0 := s.motion.(lastValue := s.motion.actualValue);
    assert CheckSliderStatus(s, t) == (touched, HandleTouch(m0, flags, count, first, last));
    FreshTouchesAllEnabled(t, s.sliderPads, touched, n);
    CountOneIsSingle(flags);
    if OnlyTouched(flags, 0) {
      assert LastTouched(flags) == 0;
    }
    if OnlyTouched(flags, n - 1) {
      assert LastTouched(flags) == n - 1;
    }
  }

  /** The saved previous position is never read when there are slider pads:
      update overwrites it before using it. */
  lemma {:induction false} UpdateIgnoresLastValue(s: Controller, t: PadTable, a: int16)
    requires s.Ready() && t.Valid() && s.numSliderPins > 0
    ensures s.(motion := s.motion.(lastValue := a)).Ready()
    ensures Update(s.(motion := s.motion.(lastValue := a)), t) == Update(s, t)
  {
    var s' := s.(motion := s.motion.(lastValue := a));
    assert s'.motion.(lastValue := s'.motion.actualValue) == s.motion.(lastValue := s.motion.actualValue);
    assert CheckSliderStatus(s', t) == CheckSliderStatus(s, t);
  }

  /** On the first cycle of a contact the slider scan does not depend on
      the position fields; only the saved previous position keeps the old
      actual position b. */
  lemma {:induction false} FirstCycleKeepsOnlyLastValue(s: Controller, a: int16, b: int16, t: PadTable)
    requires s.Ready() && s.motion.firstTouch && s.numSliderPins > 0 && t.Valid()
    ensures s.(motion := s.motion.(lastValue := a, actualValue := b)).Ready()
    ensures var s' := s.(motion := s.motion.(lastValue := a, actualValue := b));
      CheckSliderStatus(s', t) == (CheckSliderStatus(s, t).0, CheckSliderStatus(s, t).1.(lastValue := b))
  {
    var s' := s.(motion := s.motion.(lastValue := a, actualValue := b));
    var n := s.numSliderPins;
    var touched := Classify(t, s.sliderPads, s.sliderTouched, n);
    var count := FreshTouches(t, s.sliderPads, touched, n);
    var flags := touched[..n];
    var first, last := FirstTouched(flags), LastTouched(flags);
    var m0 := s.motion.(lastValue := s.motion.actualValue);
    var m0' := s'.motion.(lastValue := b);
    assert m0' == m0.(lastValue := b, actualValue := b);
    if first == -1 {
      assert HandleNoTouch(m0', n, s.features.swipeFine)
          == HandleNoTouch(m0, n, s.features.swipeFine).(lastValue := b);
    } else {
      assert HandleTouch(m0', flags, count, first, last)
          == HandleTouch(m0, flags, count, first, last).(lastValue := b);
    }
  }

  /** Before a contact the position fields hold whatever they held (the
      class leaves them uninitialised); the first cycle keeps that value
      only in the saved previous position, and so the second cycle has
      forgotten it. */
  lemma {:induction false} IndeterminatePositionForgotten(s: Controller, a: int16, b: int16,
                                                          t1: PadTable, t2: PadTable)
    requires s.Ready() && s.motion.firstTouch && s.numSliderPins > 0
    requires t1.Valid() && t2.Valid()
    ensures s.(motion := s.motion.(lastValue := a, actualValue := b)).Ready()
    ensures var s' := s.(motion := s.motion.(lastValue := a, actualValue := b));
      && Update(s', t1) == Update(s, t1).(motion := Update(s, t1).motion.(lastValue := b))
      && Update(Update(s', t1), t2) == Update(Update(s, t1), t2)
  {
    var s' := s.(motion := s.motion.(lastValue := a, actualValue := b));
    FirstCycleKeepsOnlyLastValue(s, a, b, t1);
    var r := Update(s, t1);
    assert Update(s', t1) == r.(motion := r.motion.(lastValue := b));
    UpdateIgnoresLastValue(r, t2, b);
  }

  /** A trace of update cycles: each state is the update of the one before
      with the channel table of that cycle (whatever the filter callback
      last stored). */
  predicate IsTrace(states: seq<Controller>, tables: seq<PadTable>) {
    && |states| == |tables| + 1
    && forall i {:trigger tables[i]} :: 0 <= i < |tables| ==>
         states[i].Ready() && tables[i].Valid() && states[i + 1] == Update(states[i], tables[i])
  }

  /** The table the next tick starts from: the last one the run produced,
      or the initial one before any tick. */
  function LastTable(t: PadTable, tables: seq<PadTable>): PadTable {
    if |tables| == 0 then t else tables[|tables| - 1]
  }

  /** The tables a run of ticks from table t reads: each is the one before
      with the next vector of filtered values stored. */
  function Tables(t: PadTable, readings: seq<seq<uint16>>): (tables: seq<PadTable>)
    requires t.Valid()
    requires forall k :: 0 <= k < |readings| ==> |readings[k]| == TouchPadMax
    ensures |tables| == |readings|
    ensures forall k :: 0 <= k < |tables| ==> tables[k].Valid()
    decreases |readings|
  {
    if |readings| == 0 then []
    else
      var before := Tables(t, readings[..|readings| - 1]);
      before + [FilterRead(LastTable(t, before), readings[|readings| - 1])]
  }

  /** The states of a run from s that updates with each of the tables in turn. */
  function States(s: Controller, tables: seq<PadTable>): (states: seq<Controller>)
    requires s.Ready()
    requires forall k :: 0 <= k < |tables| ==> tables[k].Valid()
    ensures |states| == |tables| + 1 && states[0] == s
    ensures states[|tables|].Ready()
    decreases |tables|
  {
    if |tables| == 0 then [s]
    else
      var before := States(s, tables[..|tables| - 1]);
      before + [Update(before[|tables| - 1], tables[|tables| - 1])]
  }

  /** A run of ticks from state s and table t, one tick per vector of
      filtered values in readings: the states before and after every tick,
      and the table each tick's update read. */
  function Run(s: Controller, t: PadTable, readings: seq<seq<uint16>>): (r: (seq<Controller>, seq<PadTable>))
    requires s.Ready() && t.Valid()
    requires forall k :: 0 <= k < |readings| ==> |readings[k]| == TouchPadMax
    ensures |r.0| == |readings| + 1 && |r.1| == |readings| && r.0[0] == s
  {
    var tables := Tables(t, readings);
    (States(s, tables), tables)
  }

  /** A trace extended by one more update cycle is a trace. */
  lemma TraceExtend(states: seq<Controller>, tables: seq<PadTable>, t1: PadTable, s1: Controller)
    requires IsTrace(states, tables)
    requires states[|states| - 1].Ready() && t1.Valid() && s1 == Update(states[|states| - 1], t1)
    ensures IsTrace(states + [s1], tables + [t1])
  {
    var states', tables' := states + [s1], tables + [t1];
    var n := |tables|;
    forall i | 0 <= i < n + 1
      ensures states'[i].Ready() && tables'[i].Valid() && states'[i + 1] == Update(states'[i], tables'[i])
    {
      if i < n {
        CycleCopied(states, tables, s1, t1, i);
      } else {
        assert tables'[n] == t1 && states'[n] == states[n] && states'[n + 1] == s1;
      }
    }
  }

  /** A cycle of a trace is still a cycle once the trace is extended. */
  lemma CycleCopied(states: seq<Controller>, tables: seq<PadTable>, s1: Controller, t1: PadTable, i: nat)
    requires IsTrace(states, tables) && i < |tables|
    ensures (states + [s1])[i].Ready() && (tables + [t1])[i].Valid()
    ensures (states + [s1])[i + 1] == Update((states + [s1])[i], (tables + [t1])[i])
  {
    assert (tables + [t1])[i] == tables[i] && (states + [s1])[i] == states[i] && (states + [s1])[i + 1] == states[i + 1];
  }

  /** The last state of States is the update of the one before it with
      the last table. */
  lemma StatesLast(s: Controller, tables: seq<PadTable>)
    requires s.Ready() && |tables| > 0
    requires forall k :: 0 <= k < |tables| ==> tables[k].Valid()
    ensures var states := States(s, tables); var n := |tables|;
      states[n - 1].Ready() && states[n] == Update(states[n - 1], tables[n - 1])
  {
    var n := |tables|;
    var prev := States(s, tables[..n - 1]);
    assert States(s, tables)[n - 1] == prev[n - 1];
  }

  /** Dropping the last table drops only the last state. */
  lemma StatesPrefix(s: Controller, tables: seq<PadTable>, i: nat)
    requires s.Ready() && 0 < |tables| && i < |tables|
    requires forall k :: 0 <= k < |tables| ==> tables[k].Valid()
    ensures States(s, tables)[i] == States(s, tables[..|tables| - 1])[i]
  {
  }

  /** Each state of States after the first is the update of the one before
      it with that cycle's table. */
  lemma {:induction false} StatesStep(s: Controller, tables: seq<PadTable>, i: nat)
    requires s.Ready()
    requires forall k :: 0 <= k < |tables| ==> tables[k].Valid()
    requires i < |tables|
    ensures States(s, tables)[i].Ready()
    ensures States(s, tables)[i + 1] == Update(States(s, tables)[i], tables[i])
    decreases |tables|
  {
    var n := |tables|;
    if i == n - 1 {
      StatesLast(s, tables);
    } else {
      var before := tables[..n - 1];
      StatesStep(s, before, i);
      StatesPrefix(s, tables, i);
      StatesPrefix(s, tables, i + 1);
      assert before[i] == tables[i];
    }
  }

  /** Updating with any sequence of valid tables gives a trace. */
  lemma StatesFormTrace(s: Controller, tables: seq<PadTable>)
    requires s.Ready()
    requires forall k :: 0 <= k < |tables| ==> tables[k].Valid()
    ensures IsTrace(States(s, tables), tables)
  {
    var states := States(s, tables);
    forall i | 0 <= i < |tables|
      ensures states[i].Ready() && tables[i].Valid() && states[i + 1] == Update(states[i], tables[i])
    {
      StatesStep(s, tables, i);
    }
  }

  /** Every run, of any length, is a trace. */
  lemma {:induction false} RunIsTrace(s: Controller, t: PadTable, readings: seq<seq<uint16>>)
    requires s.Ready() && t.Valid()
    requires forall k :: 0 <= k < |readings| ==> |readings[k]| == TouchPadMax
    ensures IsTrace(Run(s, t, readings).0, Run(s, t, readings).1)
  {
    StatesFormTrace(s, Tables(t, readings));
  }

  /** Each table a run reads is the table before it with that cycle's
      filtered values stored. */
  lemma {:induction false} RunReadsFilteredValues(t: PadTable, readings: seq<seq<uint16>>, k: nat)
    requires t.Valid()
    requires forall k :: 0 <= k < |readings| ==> |readings[k]| == TouchPadMax
    requires k < |readings|
    ensures var tables := Tables(t, readings);
      tables[k] == FilterRead(LastTable(t, tables[..k]), readings[k])
    decreases |readings|
  {
    var n := |readings|;
    var prefix := readings[..n - 1];
    var before := Tables(t, prefix);
    var tables := Tables(t, readings);
    if k < n - 1 {
      RunReadsFilteredValues(t, prefix, k);
      assert tables[..k] == before[..k] && prefix[k] == readings[k];
    } else {
      assert tables[..k] == before;
    }
  }

  /** Each step of a run is one tick: from the state and table before it,
      the filter delivery of that cycle's values and then an update. */
  lemma {:induction false} RunTicks(s: Controller, t: PadTable, readings: seq<seq<uint16>>, k: nat)
    requires s.Ready() && t.Valid()
    requires forall k :: 0 <= k < |readings| ==> |readings[k]| == TouchPadMax
    requires k < |readings|
    ensures var (states, tables) := Run(s, t, readings);
      states[k].Ready() && (states[k + 1], tables[k]) == Tick(states[k], LastTable(t, tables[..k]), readings[k])
  {
    var tables := Tables(t, readings);
    RunIsTrace(s, t, readings);
    RunReadsFilteredValues(t, readings, k);
  }

  /** The coarse step of every cycle of a trace, in order. */
  function Steps(states: seq<Controller>): (e: seq<int>)
    ensures |e| == if |states| == 0 then 0 else |states| - 1
    decreases |states|
  {
    if |states| < 2 then []
    else Steps(states[..|states| - 1]) + [Step(states[|states| - 2], states[|states| - 1].SliderFlags())]
  }

  /** Entry j of Steps is the step of cycle j. */
  lemma {:induction false} StepsAt(states: seq<Controller>, j: nat)
    requires j < |states| - 1
    ensures Steps(states)[j] == Step(states[j], states[j + 1].SliderFlags())
    decreases |states|
  {
    var prefix := states[..|states| - 1];
    if j < |states| - 2 {
      StepsAt(prefix, j);
      assert prefix[j] == states[j] && prefix[j + 1] == states[j + 1];
    }
  }

  /** For each entry of steps, whether it is e. */
  function StepIs(steps: seq<int>, e: int): (f: seq<bool>)
    ensures |f| == |steps|
    ensures forall j {:trigger f[j]} :: 0 <= j < |f| ==> f[j] == (steps[j] == e)
  {
    seq(|steps|, j requires 0 <= j < |steps| => steps[j] == e)
  }

  /** The number of cycles of a trace whose coarse step is e. */
  function CountSteps(states: seq<Controller>, e: int): (c: nat)
    ensures c < |states| || c == 0
  {
    CountTouched(StepIs(Steps(states), e))
  }

  /** The counter relation between a state and its successor r for a cycle
      whose coarse step is e: the swipe-down counter is bumped on a step
      down, the swipe-up counter on a step up, and neither otherwise. */
  predicate Advances(s: Controller, r: Controller, e: int) {
    && r.motion.swipeDownCount == (if e == 1 then WrapInt8(s.motion.swipeDownCount + 1) else s.motion.swipeDownCount)
    && r.motion.swipeUpCount == (if e == -1 then WrapInt8(s.motion.swipeUpCount + 1) else s.motion.swipeUpCount)
  }

  /** Each state advances the counters of the one before by the step of
      that cycle. */
  predicate AdvancesAlong(states: seq<Controller>, steps: seq<int>) {
    && |steps| == |states| - 1
    && forall i {:trigger steps[i]} :: 0 <= i < |steps| ==> Advances(states[i], states[i + 1], steps[i])
  }

  /** One update cycle advances the counters by its coarse step. */
  lemma {:induction false} CycleBumpsCounters(s: Controller, t: PadTable, r: Controller)
    requires s.Ready() && t.Valid() && r == Update(s, t)
    ensures Advances(s, r, Step(s, r.SliderFlags()))
  {
    CoarseSwipeRule(s, t);
  }

  /** A trace advances the counters along its states by its steps. */
  lemma TraceAdvances(states: seq<Controller>, tables: seq<PadTable>)
    requires IsTrace(states, tables)
    ensures AdvancesAlong(states, Steps(states))
  {
    var steps := Steps(states);
    forall i | 0 <= i < |steps|
      ensures Advances(states[i], states[i + 1], steps[i])
    {
      StepsAt(states, i);
      assert states[i + 1] == Update(states[i], tables[i]);
      CycleBumpsCounters(states[i], tables[i], states[i + 1]);
    }
  }

  /** A wrapping int8 counter that is bumped exactly at the set flags has,
      after n steps, moved from its start by the number of set flags among
      the first n. */
  lemma {:induction false} CounterCountsBumps(c: seq<int8>, bumps: seq<bool>, n: nat)
    requires |c| == |bumps| + 1 && n <= |bumps|
    requires forall j :: 0 <= j < |bumps| ==> c[j + 1] == if bumps[j] then WrapInt8(c[j] as int + 1) else c[j]
    ensures c[n] == WrapInt8(c[0] + CountTouched(bumps[..n]))
    decreases n
  {
    if n > 0 {
      CounterCountsBumps(c, bumps, n - 1);
      assert bumps[..n][..n - 1] == bumps[..n - 1];
      if bumps[n - 1] {
        WrapInt8Add(c[0] + CountTouched(bumps[..n - 1]), 1);
      }
    }
  }

  /** Along states that advance the counters, the swipe-down counter moves,
      with int8 wrap-around, by the number of steps down. */
  lemma DownCounterCountsSteps(states: seq<Controller>, steps: seq<int>)
    requires AdvancesAlong(states, steps)
    ensures states[|states| - 1].motion.swipeDownCount
            == WrapInt8(states[0].motion.swipeDownCount + CountTouched(StepIs(steps, 1)))
  {
    var downs: seq<int8> := seq(|states|, j requires 0 <= j < |states| => states[j].motion.swipeDownCount);
    var bumps := StepIs(steps, 1);
    forall j | 0 <= j < |steps|
      ensures downs[j + 1] == if bumps[j] then WrapInt8(downs[j] as int + 1) else downs[j]
    {
      assert Advances(states[j], states[j + 1], steps[j]);
    }
    CounterCountsBumps(downs, bumps, |bumps|);
    assert bumps[..|bumps|] == bumps;
  }

  /** Along states that advance the counters, the swipe-up counter moves,
      with int8 wrap-around, by the number of steps up. */
  lemma UpCounterCountsSteps(states: seq<Controller>, steps: seq<int>)
    requires AdvancesAlong(states, steps)
    ensures states[|states| - 1].motion.swipeUpCount
            == WrapInt8(states[0].motion.swipeUpCount + CountTouched(StepIs(steps, -1)))
  {
    var ups: seq<int8> := seq(|states|, j requires 0 <= j < |states| => states[j].motion.swipeUpCount);
    var bumps := StepIs(steps, -1);
    forall j | 0 <= j < |steps|
      ensures ups[j + 1] == if bumps[j] then WrapInt8(ups[j] as int + 1) else ups[j]
    {
      assert Advances(states[j], states[j + 1], steps[j]);
    }
    CounterCountsBumps(ups, bumps, |bumps|);
    assert bumps[..|bumps|] == bumps;
  }

  /** Over any trace each swipe counter advances, with int8 wrap-around, by
      the number of coarse steps in its direction. */
  lemma TraceCountsSteps(states: seq<Controller>, tables: seq<PadTable>)
    requires IsTrace(states, tables)
    ensures var first, last := states[0], states[|states| - 1];
      && last.motion.swipeDownCount == WrapInt8(first.motion.swipeDownCount + CountSteps(states, 1))
      && last.motion.swipeUpCount == WrapInt8(first.motion.swipeUpCount + CountSteps(states, -1))
  {
    TraceAdvances(states, tables);
    DownCounterCountsSteps(states, Steps(states));
    UpCounterCountsSteps(states, Steps(states));
  }

  /** getSwipeStatus of counters advanced by down and up steps from those
      of s reports the wrapped difference of the unwrapped totals. */
  lemma StatusOfAdvancedCounters(r: Controller, s: Controller, down: int, up: int)
    requires r.motion.swipeDownCount == WrapInt8(s.motion.swipeDownCount + down)
    requires r.motion.swipeUpCount == WrapInt8(s.motion.swipeUpCount + up)
    ensures GetSwipeStatus(r).0 == WrapInt8(s.motion.swipeDownCount - s.motion.swipeUpCount + down - up)
  {
    WrapInt8Sub(s.motion.swipeDownCount + down, s.motion.swipeUpCount + up);
  }

  /** getSwipeStatus at the end of a trace reports the counters' difference
      at its start plus the number of coarse steps down minus the number of
      coarse steps up, as an int8; from freshly read counters, just the
      steps taken. */
  lemma {:induction false} SwipeStatusCountsSteps(states: seq<Controller>, tables: seq<PadTable>)
    requires IsTrace(states, tables)
    ensures GetSwipeStatus(states[|states| - 1]).0
            == WrapInt8(states[0].motion.swipeDownCount - states[0].motion.swipeUpCount
                        + CountSteps(states, 1) - CountSteps(states, -1))
  {
    TraceCountsSteps(states, tables);
    StatusOfAdvancedCounters(states[|states| - 1], states[0], CountSteps(states, 1), CountSteps(states, -1));
  }
}
