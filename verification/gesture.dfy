/**
  The swipe-gesture state machine of one slider: coarse swipes counted from
  successive positions, and fine swipes counted on release from the extreme
  pad that started the contact.
 */
module Gesture {
  import opened Types
  import opened Encoder

  /** _sliderState, the classification of the last cycle. */
  datatype SwipeState = NoChange | SwipeUp | SwipeDown

  /** The slider's motion state. sliderValue is the library's static
      _sliderValue table (TouchPadMax entries, the first n in use). */
  datatype Motion = Motion(
    sliderValue: seq<int8>,
    lastValue: int16,
    actualValue: int16,
    state: SwipeState,
    swipeCount: int8,
    swipeUpCount: int8,
    swipeDownCount: int8,
    swipeFineUpCount: int8,
    swipeFineDownCount: int8,
    firstTouch: bool,
    firstPadTop: bool,
    firstPadBot: bool)
  {
    /** What every cycle keeps true: pad values are -1, 0 or +1; after a
        touched cycle the position is a slider position; the first-pad flags
        are clear while a contact has not started. */
    predicate Valid() {
      && |sliderValue| == TouchPadMax
      && (forall i :: 0 <= i < TouchPadMax ==> -1 <= sliderValue[i] <= 1)
      && (!firstTouch ==> -(MaxSliderPins as int) < actualValue < MaxSliderPins)
      && (firstTouch ==> !firstPadTop && !firstPadBot)
    }
  }

  /** The motion state the class members start with; the position fields
      have no initialiser in the class, so their content is a parameter. */
  function InitialMotion(indeterminate: int16): (m: Motion)
    ensures m.Valid() && m.firstTouch && !m.firstPadTop && !m.firstPadBot
    ensures m.state == NoChange && m.swipeCount == 0
    ensures m.swipeUpCount == 0 && m.swipeDownCount == 0
    ensures m.swipeFineUpCount == 0 && m.swipeFineDownCount == 0
  {
    Motion(seq(TouchPadMax, _ => 0), indeterminate, indeterminate, NoChange, 0,
           0, 0, 0, 0, true, false, false)
  }

  /** resetFirstTouches: both first-pad flags cleared, nothing else changed. */
  function ResetFirstTouches(m: Motion): (r: Motion)
    ensures !r.firstPadTop && !r.firstPadBot
    ensures r.(firstPadTop := m.firstPadTop, firstPadBot := m.firstPadBot) == m
  {
    m.(firstPadTop := false, firstPadBot := false)
  }

  /** analyzeGesture: recompute the position as the sum of the first n pad
      values and, unless this is the first cycle of a contact, count a swipe
      when it differs from the previous position. The difference is stored
      into int8 (_swipeCount) before its sign is examined. */
  function AnalyzeGesture(m: Motion, n: nat): (r: Motion)
    requires |m.sliderValue| == TouchPadMax && n <= MaxSliderPins
    ensures r.actualValue == Sum(m.sliderValue[..n])
    ensures r.sliderValue == m.sliderValue && r.lastValue == m.lastValue && r.firstTouch == m.firstTouch
    ensures r.swipeFineUpCount == m.swipeFineUpCount && r.swipeFineDownCount == m.swipeFineDownCount
    ensures r.state == SwipeDown <==>
              !m.firstTouch && r.actualValue != m.lastValue && WrapInt8(r.actualValue - m.lastValue) > 0
    ensures r.state == SwipeUp <==>
              !m.firstTouch && r.actualValue != m.lastValue && WrapInt8(r.actualValue - m.lastValue) < 0
    ensures r.state == SwipeDown ==>
              && r.swipeDownCount == WrapInt8(m.swipeDownCount + 1) && r.swipeUpCount == m.swipeUpCount
              && !r.firstPadTop && !r.firstPadBot
    ensures r.state == SwipeUp ==>
              && r.swipeUpCount == WrapInt8(m.swipeUpCount + 1) && r.swipeDownCount == m.swipeDownCount
              && !r.firstPadTop && !r.firstPadBot
    ensures r.state == NoChange ==>
              && r.swipeUpCount == m.swipeUpCount && r.swipeDownCount == m.swipeDownCount
              && r.firstPadTop == m.firstPadTop && r.firstPadBot == m.firstPadBot
  {
    var actual := Sum(m.sliderValue[..n]);
    var m1 := m.(actualValue := actual);
    if actual != m.lastValue && !m.firstTouch then
      var delta := WrapInt8(actual - m.lastValue);
      var m2 := m1.(swipeCount := delta);
      if delta > 0 then
        ResetFirstTouches(m2.(state := SwipeDown, swipeDownCount := WrapInt8(m.swipeDownCount + 1)))
      else if delta < 0 then
        ResetFirstTouches(m2.(state := SwipeUp, swipeUpCount := WrapInt8(m.swipeUpCount + 1)))
      else
        m2.(state := NoChange)
    else
      m1.(state := NoChange)
  }

  /** handleNoTouch: zero the pad values and the position, mark the next
      touch as the first of a contact, pay out a pending fine swipe when fine
      swipes are enabled, and clear the first-pad flags. */
  function HandleNoTouch(m: Motion, n: nat, fineEnabled: bool): (r: Motion)
    requires m.Valid() && n <= MaxSliderPins
    ensures r.Valid()
    ensures forall i :: 0 <= i < n ==> r.sliderValue[i] == 0
    ensures forall i :: n <= i < TouchPadMax ==> r.sliderValue[i] == m.sliderValue[i]
    ensures r.actualValue == 0 && r.firstTouch && !r.firstPadTop && !r.firstPadBot
    ensures r.swipeFineUpCount ==
              if fineEnabled && m.firstPadTop then WrapInt8(m.swipeFineUpCount + 1) else m.swipeFineUpCount
    ensures r.swipeFineDownCount ==
              if fineEnabled && m.firstPadBot then WrapInt8(m.swipeFineDownCount + 1) else m.swipeFineDownCount
    ensures r.swipeUpCount == m.swipeUpCount && r.swipeDownCount == m.swipeDownCount
    ensures r.lastValue == m.lastValue && r.state == m.state && r.swipeCount == m.swipeCount
  {
    var values := seq(TouchPadMax, i requires 0 <= i < TouchPadMax =>
                        if i < n then 0 else m.sliderValue[i]);
    var m1 := m.(sliderValue := values, actualValue := 0, firstTouch := true);
    var m2 :=
      if fineEnabled then
        m1.(swipeFineUpCount := if m.firstPadTop then WrapInt8(m.swipeFineUpCount + 1) else m.swipeFineUpCount,
            swipeFineDownCount := if m.firstPadBot then WrapInt8(m.swipeFineDownCount + 1) else m.swipeFineDownCount)
      else m1;
    ResetFirstTouches(m2)
  }

  /** handleTouch for the touched flags t of the n slider pads, with span
      [first, last] and count fresh touches: on the first cycle of a contact
      with a single fresh touch, note whether the bottom (index 0) or top
      (index n-1) pad is touched; then encode the span and analyse the
      gesture. */
  function HandleTouch(m: Motion, t: seq<bool>, count: nat, first: int, last: int): (r: Motion)
    requires m.Valid() && 0 < |t| <= MaxSliderPins
    requires 0 <= first <= last < |t|
    ensures r.Valid()
    ensures !r.firstTouch
    ensures forall i :: 0 <= i < |t| ==> r.sliderValue[i] == PadValue(i, first, last)
    ensures forall i :: |t| <= i < TouchPadMax ==> r.sliderValue[i] == m.sliderValue[i]
    ensures r.actualValue == |t| - 1 - first - last
    ensures r.lastValue == m.lastValue
    ensures r.swipeFineUpCount == m.swipeFineUpCount && r.swipeFineDownCount == m.swipeFineDownCount
    // the first cycle of a contact never counts a coarse swipe
    ensures m.firstTouch ==>
              && r.state == NoChange
              && r.swipeUpCount == m.swipeUpCount && r.swipeDownCount == m.swipeDownCount
              && r.firstPadBot == (count == 1 && t[0])
              && r.firstPadTop == (count == 1 && t[|t| - 1])
  {
    var n := |t|;
    var m1 :=
      if m.firstTouch && count == 1 then
        m.(firstPadBot := m.firstPadBot || t[0], firstPadTop := m.firstPadTop || t[n - 1])
      else m;
    var values := seq(TouchPadMax, i requires 0 <= i < TouchPadMax =>
                        if i < n then PadValue(i, first, last) else m.sliderValue[i]);
    assert values[..n] == Encode(n, first, last);
    SpanPosition(n, first, last);
    var m2 := AnalyzeGesture(m1.(sliderValue := values), n);
    m2.(firstTouch := false)
  }

  /** A later cycle of a contact counts a swipe by the sign of the position
      change, stored as int8: down when it is positive, up when negative; a
      counted swipe clears the first-pad flags. */
  lemma LaterTouchCountsSwipe(m: Motion, t: seq<bool>, count: nat, first: int, last: int)
    requires m.Valid() && 0 < |t| <= MaxSliderPins
    requires 0 <= first <= last < |t| && !m.firstTouch
    ensures var r := HandleTouch(m, t, count, first, last);
      && (r.state == SwipeDown <==>
            r.actualValue != m.lastValue && WrapInt8(r.actualValue - m.lastValue) > 0)
      && (r.state == SwipeUp <==>
            r.actualValue != m.lastValue && WrapInt8(r.actualValue - m.lastValue) < 0)
      && r.swipeDownCount == (if r.state == SwipeDown then WrapInt8(m.swipeDownCount + 1) else m.swipeDownCount)
      && r.swipeUpCount == (if r.state == SwipeUp then WrapInt8(m.swipeUpCount + 1) else m.swipeUpCount)
      && (r.state == NoChange ==> r.firstPadTop == m.firstPadTop && r.firstPadBot == m.firstPadBot)
      && (r.state != NoChange ==> !r.firstPadTop && !r.firstPadBot)
  {
  }

  /** Positions stay within -9..9, so the int8 storing of their difference
      never changes its sign: a later cycle counts a swipe down exactly when
      the position rises above the previous one and up exactly when it
      falls below it. */
  lemma LaterTouchCountsBySign(m: Motion, t: seq<bool>, count: nat, first: int, last: int)
    requires m.Valid() && 0 < |t| <= MaxSliderPins
    requires 0 <= first <= last < |t| && !m.firstTouch
    requires -(MaxSliderPins as int) < m.lastValue < MaxSliderPins
    ensures var r := HandleTouch(m, t, count, first, last); var pos := |t| - 1 - first - last;
      && r.state == (if pos > m.lastValue then SwipeDown else if pos < m.lastValue then SwipeUp else NoChange)
      && r.swipeDownCount == (if pos > m.lastValue then WrapInt8(m.swipeDownCount + 1) else m.swipeDownCount)
      && r.swipeUpCount == (if pos < m.lastValue then WrapInt8(m.swipeUpCount + 1) else m.swipeUpCount)
  {
    LaterTouchCountsSwipe(m, t, count, first, last);
    var pos := |t| - 1 - first - last;
    assert -0x80 <= pos - m.lastValue < 0x80;
  }
}
