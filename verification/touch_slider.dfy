/**
  The TouchSlider controller: construction, start(), the periodic update
  cycle, the feature toggles, the button registry operations and the
  consuming getters. The channel tables are a separate value (they are
  static members shared by the class) that update reads and start writes.
 */
module TouchSlider {
  import opened Types
  import opened Scan
  import opened Encoder
  import opened Gesture
  import opened Buttons
  import opened Channels

  // Build options of the library (the #define lines of its header).
  const StartWithCalibration: bool := true
  const StartWithSwipeFine: bool := true
  const StartPrintSwipeStatus: bool := true
  const StartPrintSliderTouched: bool := true
  const StartWithTouchButtons: bool := false

  /** The five feature flags of the class. */
  datatype Feature = PrintSwipeStatus | PrintSliderTouched | PrintButtonTouched | SwipeFine | TouchButtons

  datatype Features = Features(
    printSwipeStatus: bool,
    printSliderTouched: bool,
    printButtonTouched: bool,
    swipeFine: bool,
    touchButtons: bool)

  /** Every feature flag defaults to false in the class. */
  const AllOff := Features(false, false, false, false, false)

  function IsOn(f: Features, w: Feature): bool {
    match w
    case PrintSwipeStatus => f.printSwipeStatus
    case PrintSliderTouched => f.printSliderTouched
    case PrintButtonTouched => f.printButtonTouched
    case SwipeFine => f.swipeFine
    case TouchButtons => f.touchButtons
  }

  /** The enable and disable methods: each sets its own flag and no other. */
  function SetFeature(f: Features, w: Feature, on: bool): (r: Features)
    ensures IsOn(r, w) == on
    ensures forall v :: v != w ==> IsOn(r, v) == IsOn(f, v)
  {
    match w
    case PrintSwipeStatus => f.(printSwipeStatus := on)
    case PrintSliderTouched => f.(printSliderTouched := on)
    case PrintButtonTouched => f.(printButtonTouched := on)
    case SwipeFine => f.(swipeFine := on)
    case TouchButtons => f.(touchButtons := on)
  }

  /** setDefaultConfiguration: switch on the features the build options
      select; it never switches a feature off, and it ignores the option for
      printing the buttons. */
  function DefaultConfiguration(f: Features): (r: Features)
    ensures r.swipeFine == (f.swipeFine || StartWithSwipeFine)
    ensures r.touchButtons == (f.touchButtons || StartWithTouchButtons)
    ensures r.printSwipeStatus == (f.printSwipeStatus || StartPrintSwipeStatus)
    ensures r.printSliderTouched == (f.printSliderTouched || StartPrintSliderTouched)
    ensures r.printButtonTouched == f.printButtonTouched
  {
    var f1 := if StartPrintSwipeStatus then SetFeature(f, PrintSwipeStatus, true) else f;
    var f2 := if StartPrintSliderTouched then SetFeature(f1, PrintSliderTouched, true) else f1;
    var f3 := if StartWithSwipeFine then SetFeature(f2, SwipeFine, true) else f2;
    if StartWithTouchButtons then SetFeature(f3, TouchButtons, true) else f3
  }

  /** The two constructors: one sensitivity for every slider pad, or one per pad. */
  datatype Sensitivity = Uniform(percent: uint8) | PerPad(percents: seq<uint8>)

  datatype Controller = Controller(
    touchThreshold: uint8,          // TOUCH_THRESHOLD, 0 when per-pad sensitivities apply
    thresholdArray: seq<uint8>,     // TOUCH_THRESHOLD_ARRAY
    numSliderPins: nat,
    sliderPins: seq<Pin>,
    sliderPads: seq<PadId>,
    sliderTouched: seq<bool>,
    motion: Motion,
    features: Features,
    buttons: Registry,
    detector: Detector,
    shortPress: Pin)                // _gpioButtonTouched, the pending short press
  {
    predicate Valid() {
      && |thresholdArray| == TouchPadMax
      && numSliderPins <= MaxSliderPins
      && |sliderPins| == TouchPadMax && |sliderPads| == TouchPadMax && |sliderTouched| == TouchPadMax
      && motion.Valid()
      && buttons.Valid()
    }

    /** Every slider pin got a touch channel (construction did not stop early). */
    predicate SliderMapped()
      requires Valid()
    {
      forall i :: 0 <= i < numSliderPins ==> sliderPads[i] < TouchPadMax
    }

    /** What update needs so that it indexes no table out of bounds. */
    predicate Ready() {
      && Valid()
      && SliderMapped()
      && (features.touchButtons ==> CanLookUp(detector, buttons))
    }

    /** The touched flags of the slider pads. */
    function SliderFlags(): seq<bool>
    {
      if numSliderPins <= |sliderTouched| then sliderTouched[..numSliderPins] else []
    }
  }

  /** Index of the first pin the mapping rejects, if any. */
  function FirstUnmapped(pins: seq<Pin>, padOf: PadMapping): (r: Option<nat>)
    ensures r.None? <==> forall i :: 0 <= i < |pins| ==> padOf(pins[i]) < TouchPadMax
    ensures r.Some? ==> r.value < |pins| && padOf(pins[r.value]) == TouchPadMax
    ensures r.Some? ==> forall i :: 0 <= i < r.value ==> padOf(pins[i]) < TouchPadMax
    decreases |pins|
  {
    if |pins| == 0 then None
    else if padOf(pins[0]) == TouchPadMax then Some(0)
    else
      match FirstUnmapped(pins[1..], padOf)
      case None =>
        assert forall i :: 1 <= i < |pins| ==> pins[i] == pins[1..][i - 1];
        None
      case Some(k) =>
        assert forall i :: 1 <= i < |pins| ==> pins[i] == pins[1..][i - 1];
        Some(k + 1)
  }

  function Min(a: nat, b: nat): nat {
    if a < b then a else b
  }

  /** The first `written` caller pins, then zero-initialised slots. */
  function StoredPins(pins: seq<Pin>, written: nat): (r: seq<Pin>)
    requires written <= |pins| && written <= TouchPadMax
    ensures |r| == TouchPadMax
    ensures forall i :: 0 <= i < written ==> r[i] == pins[i]
  {
    seq(TouchPadMax, i requires 0 <= i < TouchPadMax => if i < written then pins[i] else 0)
  }

  /** The channels of the first `written` caller pins, then zero-initialised slots. */
  function StoredPads(pins: seq<Pin>, written: nat, padOf: PadMapping): (r: seq<PadId>)
    requires written <= |pins| && written <= TouchPadMax
    ensures |r| == TouchPadMax
    ensures forall i :: 0 <= i < written ==> r[i] == padOf(pins[i])
  {
    seq(TouchPadMax, i requires 0 <= i < TouchPadMax => if i < written then padOf(pins[i]) else 0)
  }

  /** TOUCH_THRESHOLD_ARRAY after construction. */
  function StoredPercents(sens: Sensitivity, accepted: nat): (r: seq<uint8>)
    requires accepted <= TouchPadMax
    requires sens.PerPad? ==> accepted <= |sens.percents|
    ensures |r| == TouchPadMax
    ensures sens.PerPad? ==> forall i :: 0 <= i < accepted ==> r[i] == sens.percents[i]
  {
    seq(TouchPadMax, i requires 0 <= i < TouchPadMax =>
          if sens.PerPad? && i < accepted then sens.percents[i] else 0)
  }

  /** The constructors. The pin count is clamped to MaxSliderPins. Pins are
      stored with their channels in order; at the first pin without a channel
      the constructor returns early, leaving that slot's channel as the
      sentinel, the button capacity at TouchPadMax and the default features
      unset. indeterminate is whatever the uninitialised position fields hold. */
  function Construct(pins: seq<Pin>, sens: Sensitivity, numSliderPins: uint8, padOf: PadMapping,
                     indeterminate: int16): (s: Controller)
    requires |pins| >= Min(numSliderPins, MaxSliderPins)
    requires sens.PerPad? ==> |sens.percents| >= Min(numSliderPins, MaxSliderPins)
    ensures s.Valid()
    ensures s.numSliderPins == Min(numSliderPins, MaxSliderPins)
    ensures s.SliderMapped() <==> forall i :: 0 <= i < s.numSliderPins ==> padOf(pins[i]) < TouchPadMax
    ensures s.Ready() == s.SliderMapped()
    ensures s.buttons.count == 0 && s.detector == Idle && s.shortPress == GpioNC
    ensures s.motion == InitialMotion(indeterminate)
  {
    var n := Min(numSliderPins, MaxSliderPins);
    var bad := FirstUnmapped(pins[..n], padOf);
    // slots written before the early return, and slots whose percent was stored
    var written := if bad.Some? then bad.value + 1 else n;
    var accepted := if bad.Some? then bad.value else n;
    var base := Controller(0, StoredPercents(sens, accepted), n, StoredPins(pins, written),
                           StoredPads(pins, written, padOf), seq(TouchPadMax, _ => false),
                           InitialMotion(indeterminate), AllOff, EmptyRegistry(TouchPadMax), Idle, GpioNC);
    if bad.Some? then
      assert pins[..n][bad.value] == pins[bad.value];
      base
    else
      assert forall i :: 0 <= i < n ==> pins[..n][i] == pins[i];
      base.(touchThreshold := if sens.Uniform? then sens.percent else 0,
            buttons := EmptyRegistry(TouchPadMax - n),
            features := DefaultConfiguration(AllOff))
  }

  /** What a successful construction configures, and what an aborted one
      leaves at the class defaults. */
  lemma {:induction false} ConstructConfiguration(pins: seq<Pin>, sens: Sensitivity, numSliderPins: uint8,
                                                  padOf: PadMapping, indeterminate: int16)
    requires |pins| >= Min(numSliderPins, MaxSliderPins)
    requires sens.PerPad? ==> |sens.percents| >= Min(numSliderPins, MaxSliderPins)
    ensures var s := Construct(pins, sens, numSliderPins, padOf, indeterminate);
      && (s.SliderMapped() ==>
            && s.sliderPins[..s.numSliderPins] == pins[..s.numSliderPins]
            && (forall i :: 0 <= i < s.numSliderPins ==> s.sliderPads[i] == padOf(pins[i]))
            && s.buttons.capacity == TouchPadMax - s.numSliderPins
            && s.features.swipeFine && !s.features.touchButtons
            && s.touchThreshold == (if sens.Uniform? then sens.percent else 0)
            && (sens.PerPad? ==> s.thresholdArray[..s.numSliderPins] == sens.percents[..s.numSliderPins]))
      && (!s.SliderMapped() ==> s.buttons.capacity == TouchPadMax && s.features == AllOff && s.touchThreshold == 0)
  {
    var s := Construct(pins, sens, numSliderPins, padOf, indeterminate);
    var n := s.numSliderPins;
    var bad := FirstUnmapped(pins[..n], padOf);
    assert bad.None? <==> s.SliderMapped() by {
      assert forall i :: 0 <= i < n ==> pins[..n][i] == pins[i];
    }
    if bad.None? {
      assert s.sliderPins[..n] == pins[..n];
    }
  }

  /** The sensitivity start() gives slider pad i. */
  function SliderPercent(s: Controller, i: nat): (p: uint8)
    requires s.Valid() && i < TouchPadMax
    // the uniform sensitivity wins whenever one was given
    ensures s.touchThreshold != 0 ==> p == s.touchThreshold
    ensures s.touchThreshold == 0 ==> p == s.thresholdArray[i]
  {
    if s.touchThreshold != 0 then s.touchThreshold else s.thresholdArray[i]
  }

  /** The channels start() enables, in order: slider pads, then buttons. */
  function StartPads(s: Controller): (pads: seq<nat>)
    requires s.Valid() && s.SliderMapped()
    ensures |pads| == s.numSliderPins + s.buttons.count
    ensures forall k :: 0 <= k < |pads| ==> pads[k] < TouchPadMax
    ensures forall i :: 0 <= i < s.numSliderPins ==> pads[i] == s.sliderPads[i]
    ensures forall i :: 0 <= i < s.buttons.count ==> pads[s.numSliderPins + i] == s.buttons.pads[i]
  {
    s.sliderPads[..s.numSliderPins] + s.buttons.pads[..s.buttons.count]
  }

  /** The sensitivities start() passes along with StartPads, in the same order. */
  function StartPercents(s: Controller): (ps: seq<uint8>)
    requires s.Valid()
    ensures |ps| == s.numSliderPins + s.buttons.count
    ensures forall i :: 0 <= i < s.numSliderPins ==> ps[i] == SliderPercent(s, i)
    ensures forall i :: 0 <= i < s.buttons.count ==> ps[s.numSliderPins + i] == s.buttons.percent[i]
  {
    seq(s.numSliderPins, i requires 0 <= i < s.numSliderPins => SliderPercent(s, i))
      + s.buttons.percent[..s.buttons.count]
  }

  /** start() (scheduling aside): enable every slider pad with the uniform
      sensitivity when one is set, else with its own; enable every registered
      button with its sensitivity; then calibrate from the peripheral's
      readings. */
  function Start(s: Controller, t: PadTable, readings: seq<uint16>): (r: PadTable)
    requires s.Valid() && s.SliderMapped() && t.Valid() && |readings| == TouchPadMax
    ensures r.Valid() && r.filtered == t.filtered
    ensures forall i :: 0 <= i < s.numSliderPins ==> r.enabled[s.sliderPads[i]]
    ensures forall i :: 0 <= i < s.buttons.count ==> r.enabled[s.buttons.pads[i]]
    ensures forall j :: 0 <= j < TouchPadMax && j !in StartPads(s) ==>
              r.enabled[j] == t.enabled[j] && r.percent[j] == t.percent[j]
    ensures forall i :: 0 <= i < s.numSliderPins && s.sliderPads[i] !in StartPads(s)[i + 1..] ==>
              r.percent[s.sliderPads[i]] == SliderPercent(s, i)
    ensures forall j :: 0 <= j < TouchPadMax && r.enabled[j] ==>
              r.threshold[j] == CalibratedThreshold(readings[j], r.percent[j])
    ensures forall j :: 0 <= j < TouchPadMax && !r.enabled[j] ==> r.threshold[j] == t.threshold[j]
  {
    var t1 := EnableInputs(t, StartPads(s), StartPercents(s));
    if StartWithCalibration then Calibrate(t1, readings) else t1
  }

  /** checkSliderStatus with handleNoTouch / handleTouch: classify the
      slider pads, locate the touched span, save the previous position and
      either reset the slider or encode the span and analyse the gesture.
      Returns the new touched flags and motion state. */
  function CheckSliderStatus(s: Controller, t: PadTable): (r: (seq<bool>, Motion))
    requires s.Ready() && t.Valid()
    ensures |r.0| == TouchPadMax && r.1.Valid()
    // classification of the slider pads
    ensures forall i :: 0 <= i < s.numSliderPins && t.enabled[s.sliderPads[i]] ==>
              r.0[i] == IsTouched(t.filtered[s.sliderPads[i]], t.threshold[s.sliderPads[i]])
    ensures forall i :: 0 <= i < TouchPadMax && (i >= s.numSliderPins || !t.enabled[s.sliderPads[i]]) ==>
              r.0[i] == s.sliderTouched[i]
    // the previous position is saved before it is recomputed
    ensures s.numSliderPins > 0 ==> r.1.lastValue == s.motion.actualValue
    // a touched cycle encodes the touched span
    ensures FirstTouched(r.0[..s.numSliderPins]) != -1 ==>
              && !r.1.firstTouch
              && r.1.actualValue == s.numSliderPins - 1 - FirstTouched(r.0[..s.numSliderPins])
                                    - LastTouched(r.0[..s.numSliderPins])
              && r.1.sliderValue[..s.numSliderPins]
                 == Encode(s.numSliderPins, FirstTouched(r.0[..s.numSliderPins]), LastTouched(r.0[..s.numSliderPins]))
    // an untouched cycle resets the slider
    ensures FirstTouched(r.0[..s.numSliderPins]) == -1 ==>
              && r.1.firstTouch && r.1.actualValue == 0
              && (forall i :: 0 <= i < s.numSliderPins ==> r.1.sliderValue[i] == 0)
  {
    var n := s.numSliderPins;
    var touched := Classify(t, s.sliderPads, s.sliderTouched, n);
    var count := FreshTouches(t, s.sliderPads, touched, n);
    var flags := touched[..n];
    var first, last := FirstTouched(flags), LastTouched(flags);
    var m0 := if n > 0 then s.motion.(lastValue := s.motion.actualValue) else s.motion;
    var m1 := if first == -1 then HandleNoTouch(m0, n, s.features.swipeFine)
              else HandleTouch(m0, flags, count, first, last);
    assert first != -1 ==> m1.sliderValue[..n] == Encode(n, first, last);
    (touched, m1)
  }

  /** One update cycle (the ticker callback): checkSliderStatus, then, when
      buttons are enabled, checkButtonStatus and the short-press detector.
      Only the dynamic state changes. */
  function Update(s: Controller, t: PadTable): (r: Controller)
    requires s.Ready() && t.Valid()
    ensures r.Ready()
    // configuration and registry membership are not touched by a cycle
    ensures r == s.(sliderTouched := r.sliderTouched, motion := r.motion, buttons := r.buttons,
                    detector := r.detector, shortPress := r.shortPress)
    ensures r.buttons == s.buttons.(touched := r.buttons.touched)
    ensures (r.sliderTouched, r.motion) == CheckSliderStatus(s, t)
    // buttons are left alone while the feature is off
    ensures !s.features.touchButtons ==>
              r.buttons == s.buttons && r.detector == s.detector && r.shortPress == s.shortPress
    ensures s.features.touchButtons ==>
              && r.buttons == CheckButtonStatus(s.buttons, t)
              && (r.detector, r.shortPress) == CheckSingleButtonTouch(r.buttons, s.detector, s.shortPress)
  {
    var (touched, m) := CheckSliderStatus(s, t);
    var r := s.(sliderTouched := touched, motion := m);
    if s.features.touchButtons then
      var b := CheckButtonStatus(s.buttons, t);
      var step := CheckSingleButtonTouch(b, s.detector, s.shortPress);
      r.(buttons := b, detector := step.0, shortPress := step.1)
    else r
  }

  /** The armed pin is one of the registered buttons. Every cycle with
      buttons enabled establishes this, and it implies what update needs. */
  predicate ArmedRegistered(s: Controller)
    requires s.Valid()
  {
    s.detector.armed ==> s.detector.pin in s.buttons.Registered()
  }

  lemma ArmedRegisteredCanLookUp(s: Controller)
    requires s.Valid() && ArmedRegistered(s)
    ensures CanLookUp(s.detector, s.buttons)
  {
    if s.detector.armed {
      var k :| 0 <= k < s.buttons.count && s.buttons.pins[k] == s.detector.pin;
    }
  }

  /** A cycle with buttons enabled leaves the armed pin registered; with
      buttons disabled the detector and the registered list are unchanged. */
  lemma {:induction false} UpdateKeepsArmedRegistered(s: Controller, t: PadTable)
    requires s.Ready() && t.Valid()
    requires s.features.touchButtons || ArmedRegistered(s)
    ensures ArmedRegistered(Update(s, t))
  {
    var r := Update(s, t);
    assert r.buttons.Registered() == s.buttons.Registered();
  }

  /** addTouchButton: the registry add; a successful add also switches the
      button feature on. */
  function AddTouchButton(s: Controller, pin: Pin, p: uint8, padOf: PadMapping): (r: Controller)
    requires s.Valid()
    ensures r.Valid()
    ensures r == s.(buttons := r.buttons, features := r.features)
    ensures r.buttons == Add(s.buttons, pin, p, s.sliderPins[..s.numSliderPins], padOf)
    ensures r.buttons.count == s.buttons.count + 1 ==> r.features == SetFeature(s.features, TouchButtons, true)
    ensures r.buttons.count != s.buttons.count + 1 ==> r.features == s.features
  {
    var b := Add(s.buttons, pin, p, s.sliderPins[..s.numSliderPins], padOf);
    if b.count == s.buttons.count + 1 then
      s.(buttons := b, features := SetFeature(s.features, TouchButtons, true))
    else s.(buttons := b)
  }

  /** Adding a button keeps the armed pin registered, so the controller stays
      ready for the next cycle. */
  lemma {:induction false} AddTouchButtonKeepsReady(s: Controller, pin: Pin, p: uint8, padOf: PadMapping)
    requires s.Valid() && s.SliderMapped() && ArmedRegistered(s)
    ensures var r := AddTouchButton(s, pin, p, padOf);
      ArmedRegistered(r) && r.Ready()
  {
    var r := AddTouchButton(s, pin, p, padOf);
    if r.buttons.count == s.buttons.count + 1 {
      AddAppends(s.buttons, pin, p, s.sliderPins[..s.numSliderPins], padOf);
    } else {
      assert r.buttons.Registered() == s.buttons.Registered();
    }
    ArmedRegisteredCanLookUp(r);
  }

  /** removeTouchButton. */
  function RemoveTouchButton(s: Controller, pin: Pin): (r: Controller)
    requires s.Valid()
    ensures r.Valid()
    ensures r == s.(buttons := Remove(s.buttons, pin))
  {
    s.(buttons := Remove(s.buttons, pin))
  }

  /** Removing any button but the armed one keeps the controller ready. */
  lemma {:induction false} RemoveTouchButtonKeepsReady(s: Controller, pin: Pin)
    requires s.Valid() && s.SliderMapped() && ArmedRegistered(s)
    requires s.detector.armed ==> pin != s.detector.pin
    ensures var r := RemoveTouchButton(s, pin);
      ArmedRegistered(r) && r.Ready()
  {
    var r := RemoveTouchButton(s, pin);
    if s.detector.armed {
      RemoveKeepsOtherPins(s.buttons, pin, s.detector.pin);
    }
    ArmedRegisteredCanLookUp(r);
  }

  /** getSwipeStatus: report swipe-downs minus swipe-ups since the last read,
      as int8, and zero both counters. */
  function GetSwipeStatus(s: Controller): (r: (int8, Controller))
    ensures r.0 == WrapInt8(s.motion.swipeDownCount - s.motion.swipeUpCount)
    ensures r.1 == s.(motion := s.motion.(swipeUpCount := 0, swipeDownCount := 0))
  {
    (WrapInt8(s.motion.swipeDownCount - s.motion.swipeUpCount),
     s.(motion := s.motion.(swipeUpCount := 0, swipeDownCount := 0)))
  }

  /** getSwipeStatusFine: the same over the fine counters when fine swipes
      are enabled; otherwise 0, with the counters left as they are. */
  function GetSwipeStatusFine(s: Controller): (r: (int8, Controller))
    ensures !s.features.swipeFine ==> r == (0, s)
    ensures s.features.swipeFine ==>
              && r.0 == WrapInt8(s.motion.swipeFineDownCount - s.motion.swipeFineUpCount)
              && r.1 == s.(motion := s.motion.(swipeFineUpCount := 0, swipeFineDownCount := 0))
  {
    if !s.features.swipeFine then (0, s)
    else
      (WrapInt8(s.motion.swipeFineDownCount - s.motion.swipeFineUpCount),
       s.(motion := s.motion.(swipeFineUpCount := 0, swipeFineDownCount := 0)))
  }

  /** getButtonShortPress: hand out the pending short press and clear it
      when buttons are enabled; otherwise GPIO_NUM_NC, clearing nothing. */
  function GetButtonShortPress(s: Controller): (r: (Pin, Controller))
    ensures !s.features.touchButtons ==> r == (GpioNC, s)
    ensures s.features.touchButtons ==> r == (s.shortPress, s.(shortPress := GpioNC))
  {
    if !s.features.touchButtons then (GpioNC, s)
    else (s.shortPress, s.(shortPress := GpioNC))
  }

  /** Reads consume: a second read straight after the first reports the
      neutral value and changes nothing more. */
  lemma ReadsConsume(s: Controller)
    ensures var (_, s1) := GetSwipeStatus(s);
      GetSwipeStatus(s1) == (0, s1)
    ensures var (_, s1) := GetSwipeStatusFine(s);
      GetSwipeStatusFine(s1) == (0, s1)
    ensures var (_, s1) := GetButtonShortPress(s);
      GetButtonShortPress(s1) == (GpioNC, s1)
  {
  }

  /** isTouchButtonPressed, for a pin found in the button array: the flag
      of the first slot holding the pin. */
  function IsTouchButtonPressed(s: Controller, pin: Pin): (pressed: bool)
    requires s.Valid() && pin in s.buttons.pins
    ensures forall k :: 0 <= k < TouchPadMax && s.buttons.pins[k] == pin && pin !in s.buttons.pins[..k] ==>
              pressed == s.buttons.touched[k]
  {
    var k := IndexOfPin(s.buttons.pins, pin).value;
    assert forall j :: 0 <= j < TouchPadMax && s.buttons.pins[j] == pin && pin !in s.buttons.pins[..j] ==> j == k by {
      forall j | 0 <= j < TouchPadMax && s.buttons.pins[j] == pin && pin !in s.buttons.pins[..j] {
        FirstSlotIsLookup(s.buttons.pins, pin, j);
      }
    }
    s.buttons.touched[k]
  }

  /** isTouchSliderPressed, for a pin found in the slider array: the flag of
      the first slot holding the pin. */
  function IsTouchSliderPressed(s: Controller, pin: Pin): (pressed: bool)
    requires s.Valid() && pin in s.sliderPins
    ensures forall k :: 0 <= k < TouchPadMax && s.sliderPins[k] == pin && pin !in s.sliderPins[..k] ==>
              pressed == s.sliderTouched[k]
  {
    var k := IndexOfPin(s.sliderPins, pin).value;
    assert forall j :: 0 <= j < TouchPadMax && s.sliderPins[j] == pin && pin !in s.sliderPins[..j] ==> j == k by {
      forall j | 0 <= j < TouchPadMax && s.sliderPins[j] == pin && pin !in s.sliderPins[..j] {
        FirstSlotIsLookup(s.sliderPins, pin, j);
      }
    }
    s.sliderTouched[k]
  }

  /** getSliderTouched: copy the first k slider flags. */
  function GetSliderTouched(s: Controller, k: nat): (r: seq<bool>)
    requires s.Valid() && k <= TouchPadMax
    ensures |r| == k && forall i :: 0 <= i < k ==> r[i] == s.sliderTouched[i]
  {
    s.sliderTouched[..k]
  }

  /** A successful construction gives equal slider pins equal channels:
      each slider pad is the mapping applied to its pin. */
  lemma {:induction false} ConstructSliderPinsAgree(pins: seq<Pin>, sens: Sensitivity, numSliderPins: uint8,
                                                    padOf: PadMapping, indeterminate: int16)
    requires |pins| >= Min(numSliderPins, MaxSliderPins)
    requires sens.PerPad? ==> |sens.percents| >= Min(numSliderPins, MaxSliderPins)
    ensures var s := Construct(pins, sens, numSliderPins, padOf, indeterminate);
      s.SliderMapped() ==> PinsAgree(s.sliderPins, s.sliderPads, s.numSliderPins)
  {
    var s := Construct(pins, sens, numSliderPins, padOf, indeterminate);
    ConstructConfiguration(pins, sens, numSliderPins, padOf, indeterminate);
    if s.SliderMapped() {
      assert forall i :: 0 <= i < s.numSliderPins ==> s.sliderPins[i] == s.sliderPins[..s.numSliderPins][i];
    }
  }

  /** After a cycle, the pressed query of a registered button reports the
      classifier's verdict on its enabled channel, provided slots holding
      the same pin hold the same channel (which add and remove preserve):
      the lookup may find an earlier copy of the pin, but on that channel. */
  lemma {:induction false} ButtonQueryReportsClassifier(s: Controller, t: PadTable, i: nat)
    requires s.Ready() && t.Valid() && s.features.touchButtons
    requires PinsAgree(s.buttons.pins, s.buttons.pads, s.buttons.count) && i < s.buttons.count
    requires t.enabled[s.buttons.pads[i]]
    ensures s.buttons.pins[i] in Update(s, t).buttons.pins
    ensures IsTouchButtonPressed(Update(s, t), s.buttons.pins[i])
            == IsTouched(t.filtered[s.buttons.pads[i]], t.threshold[s.buttons.pads[i]])
  {
    LookupAtMost(s.buttons.pins, i);
  }

  /** After a cycle, the pressed query of a slider pin reports the
      classifier's verdict on its enabled channel, provided slots holding
      the same pin hold the same channel (as construction ensures). */
  lemma {:induction false} SliderQueryReportsClassifier(s: Controller, t: PadTable, i: nat)
    requires s.Ready() && t.Valid() && i < s.numSliderPins
    requires PinsAgree(s.sliderPins, s.sliderPads, s.numSliderPins)
    requires t.enabled[s.sliderPads[i]]
    ensures s.sliderPins[i] in Update(s, t).sliderPins
    ensures IsTouchSliderPressed(Update(s, t), s.sliderPins[i])
            == IsTouched(t.filtered[s.sliderPads[i]], t.threshold[s.sliderPads[i]])
  {
    LookupAtMost(s.sliderPins, i);
  }
}
