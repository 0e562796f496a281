# TouchSlider in Dafny

A model of the decision logic of the TouchSlider library for the ESP32's
capacitive touch peripheral. The library reads a row of adjacent touch pads
as a slider, plus a pool of separate touch buttons. On every ticker cycle
(`update`), the filtered value of each slider pad's channel is compared with
its threshold, and so is that of each of the first `_numTouchButtons` button
slots when buttons are enabled. A channel that is disabled keeps its
previous flag. A button removed from the list keeps its channel enabled, but
no slot compares it any more. For the slider, the touched span is encoded as -1/0/+1 per pad and
summed into a position. A change of position between cycles counts a coarse
swipe up or down. A contact that starts on the lone bottom or top pad counts
a fine swipe when it is released. For the buttons, a detector publishes a
short press when a button held alone is released. The consuming getters hand
out and clear the swipe counters and the pending short press.

The model is purely functional. The controller is an immutable `Controller`
record holding the instance fields of the class. The four static channel
tables (enabled, sensitivity percent, filtered value, threshold) are a
separate `PadTable` value: `start` and the calibration write it, the filter
callback feeds it, and `update` reads it. Every operation is a function that
returns the new state, and the getters return a `(value, state)` pair. The
GPIO-to-channel lookup is a parameter (`PadMapping`). It returns the sentinel
`TouchPadMax` for a pin that is not a touch pin. `Esp32Pins.PadOf` is the
library's ESP32 table, given as one injective instance.

Modules:
- `Types`: the fixed-width integers, with int8 wrap-around (`WrapInt8`) and
  uint16 truncation, plus pins and channels.
- `Scan`: the first and last touched index, and the count of touched flags.
- `Channels`: the channel tables, the classifier, `setInput`, calibration and
  `filter_read_cb`.
- `Encoder`: the -1/0/+1 encoding and the position it sums to.
- `Gesture`: `analyzeGesture`, `handleTouch`, `handleNoTouch` and
  `resetFirstTouches`.
- `Buttons`: the registry (add, remove, lookup by pin), `checkButtonStatus`
  and the short-press detector.
- `TouchSlider`: the constructors, feature toggles and build options,
  `start`'s choice of sensitivity, `checkSliderStatus`, `update`, and the
  getters and queries.
- `Ticks`: cycles and traces of cycles, and what the counters and detector do
  along them.

Quirks of the code that the model keeps as they are:
- `removeTouchButton` shifts the later buttons left but never decrements the
  count, and it does not shift the touched flags. Removing the last button
  therefore leaves it registered, and adding it again is rejected
  (`Buttons.RemoveLastThenReAddRejected`). Removing any other button leaves
  the last pin in the final two slots on one channel. Once the button check
  has run, both slots carry the same flag, so that button is never the only
  one touched. The detector can then never arm on it or publish its press
  again (`Buttons.RemoveSilencesLast`). Removing the last pin after that
  changes nothing (`Buttons.RemoveThenRemoveLastIsNoOp`).
- `addTouchButton` writes the pin into the free slot before it rejects a pin
  that has no touch channel.
- The short-press detector publishes the armed button as soon as that button
  is released, even when another button is touched by then.
- After a multi-touch the detector re-arms on whichever button is later the
  only one touched.
- Any coarse swipe clears the fine-swipe flags.
- On a one-pad slider, a lone touch sets both first-pad flags.
- The previous position is saved only when there is at least one slider pad.

The doc comment of `checkSingleButtonTouch` (TouchSlider.cpp:423) says a
press means touched and released "without any other buttons being touched in
between". The code does not enforce this. A button released while another is
touched still fires (`Buttons.ReleaseWhileOtherTouchedFires`). An overlap
followed by a lone hold and release of the other button fires that button
(`Buttons.OverlapThenLoneReleaseFires`). The model follows the code.

## Model

| member | source | states |
|---|---|---|
| Types.WrapInt8 | TouchSlider.h:100-105 | storing into an int8 field keeps a value in -128..127 unchanged; outside it, `Types.WrapInt8Offset` shows the value moves only by multiples of 256 |
| Types.WrapInt8Offset | TouchSlider.h:100-105 | the int8 conversion differs from its argument by a multiple of 256 |
| Types.WrapInt8Congruent | TouchSlider.h:100-105 | arguments congruent modulo 256 convert to the same int8, so the conversion is the unique int8 in the residue class |
| Types.WrapInt8Add | TouchSlider.cpp:627 | adding k to an already wrapped int8 value and wrapping again gives the wrap of the unwrapped sum |
| Types.WrapInt8Sub | TouchSlider.cpp:236 | the int8 difference of two wrapped counters equals the wrapped difference of the unwrapped counts |
| Types.TruncUint16 | TouchSlider.cpp:218 | storing a non-negative value into a uint16 keeps it modulo 65536, unchanged below 65536 |
| Esp32Pins.PadOf | TouchSlider.cpp:733-743 | a pin gets a real touch channel exactly when it is one of the ten ESP32 touch GPIOs; every other pin gets the sentinel |
| Esp32Pins.PadOfInjective | TouchSlider.cpp:733-743 | no two touch pins share a channel |
| Scan.FirstTouched | TouchSlider.cpp:497-504 | firstTouchedIndex is the lowest touched index, or -1 exactly when nothing is touched |
| Scan.LastTouched | TouchSlider.cpp:497-504 | lastTouchedIndex is the highest touched index, or -1 exactly when nothing is touched |
| Scan.ScanSlider | TouchSlider.cpp:497-506 | the scan loop sets padTouchedFound exactly when some pad is touched, and yields the lowest and highest touched index, first <= last |
| Scan.CountTouched | TouchSlider.cpp:450-455 | the count of touched flags is at most their number, and zero exactly when none is set |
| Scan.CountOneIsSingle | TouchSlider.cpp:450-463 | the count is one exactly when a single flag is set; that flag is then both first and last, so the copied pin is the lone button's |
| Channels.Blank | TouchSlider.cpp:5-8 | the static channel tables start with every channel disabled and every threshold zero |
| Channels.SetInput | TouchSlider.cpp:332-335 | setInput enables its channel with the given percent and changes no other channel or table |
| Channels.EnableInputs | TouchSlider.cpp:164-175 | the setInput sequence of start enables every listed channel; each listed channel keeps the percent of its last listing; unlisted channels are unchanged |
| Channels.CalibratedThreshold | TouchSlider.cpp:218 | threshold = reading * percent / 100 truncated to 16 bits; with percent <= 100 it is the floor of that percentage and at most the reading |
| Channels.TouchedMeansBelowPercent | TouchSlider.cpp:218 | with percent <= 100 a channel is touched exactly when (f + 1) * 100 <= reading * percent |
| Channels.Calibrate | TouchSlider.cpp:213-222 | enabled channels get the threshold derived from their reading; disabled ones keep theirs; other tables unchanged |
| Channels.CalibrationReadingIsUntouched | TouchSlider.cpp:213-222 | with percent <= 100 the calibration reading itself classifies as untouched |
| Channels.FilterRead | TouchSlider.cpp:716-722 | the filter callback stores the new value of enabled channels only; disabled channels and the other tables keep theirs |
| Channels.Classify | TouchSlider.cpp:487-495 | each of the first n pads whose channel is enabled is touched iff filtered < threshold; every other flag keeps its previous value |
| Channels.IsTouched | TouchSlider.cpp:490 | a channel reads touched when its filtered value is below its threshold; a channel with a zero (never calibrated) threshold never reads touched |
| Channels.EnabledTouched | TouchSlider.cpp:488-491 | marks exactly the first n pads whose channel is enabled and whose flag is set |
| Channels.FreshTouches | TouchSlider.cpp:487-495 | touchedPadCount never exceeds the number of slider pads scanned |
| Channels.FreshTouchesCountsEnabled | TouchSlider.cpp:487-495 | touchedPadCount is exactly the number of pads among the first n whose channel is enabled and whose flag is set |
| Channels.FreshTouchesAllEnabled | TouchSlider.cpp:487-495 | with every slider channel enabled, touchedPadCount is the number of touched flags |
| Encoder.PadValue | TouchSlider.cpp:561-567 | a pad's value is -1, 0 or +1: 0 exactly inside the touched span, -1 exactly below it, +1 above it |
| Encoder.Encode | TouchSlider.cpp:560-568 | the encoding has one value per slider pad; `Encoder.EncodingMeaning` states what each value means |
| Encoder.Sum | TouchSlider.cpp:617-620 | the accumulated position of n int8 values lies within -128n..127n, so ten pad values never overflow the int16 `_actualValue` |
| Encoder.SumAppend | TouchSlider.cpp:617-620 | the sum splits over a concatenation: summing part by part gives the same position |
| Encoder.EncodePrefixSum | TouchSlider.cpp:560-568 | the sum of the first m encoded values is the number of pads above the span minus the number below it |
| Encoder.SpanPosition | TouchSlider.cpp:617-620 | the position of a touched span [first, last] on N pads is N-1-first-last, within [-(N-1), N-1] |
| Encoder.LonePadPosition | TouchSlider.cpp:617-620 | a lone touched pad k sits at position N-1-2k |
| Encoder.PositionAntitone | TouchSlider.cpp:560-568 | moving the span toward higher indices lowers the position, strictly when it moves at all |
| Encoder.EncodingMeaning | TouchSlider.cpp:560-568 | a pad encodes -1 iff nothing at or below it is touched, +1 iff nothing at or above it is, 0 iff touched pads lie on both sides |
| Gesture.InitialMotion | TouchSlider.h:91-109 | the motion fields start with the state NO_CHANGE, `_swipeCount` and the four swipe counters 0, firstTouch set and both first-pad flags clear |
| Gesture.ResetFirstTouches | TouchSlider.cpp:646-649 | resetFirstTouches clears both first-pad flags and changes nothing else |
| Gesture.AnalyzeGesture | TouchSlider.cpp:616-641 | the position is the pad-value sum; a swipe is counted only off the first cycle and on a change; a positive int8 delta bumps only the down counter, a negative only the up counter; a swipe clears the first-pad flags |
| Gesture.HandleNoTouch | TouchSlider.cpp:514-534 | an untouched cycle zeroes the slider pads' values and the position, sets firstTouch, pays a fine swipe per set flag when enabled, clears both flags, and keeps the coarse counters |
| Gesture.HandleTouch | TouchSlider.cpp:544-571 | a touched cycle encodes the span and clears firstTouch; on a first cycle no coarse swipe counts and the flags record a lone bottom or top pad |
| Gesture.LaterTouchCountsSwipe | TouchSlider.cpp:622-640 | off the first cycle a touched cycle counts down iff the int8 delta is positive and up iff it is negative, bumping only that counter, and clears the flags on a swipe |
| Gesture.LaterTouchCountsBySign | TouchSlider.cpp:622-640 | since positions stay within -9..9, the int8 delta has the sign of the position change: down iff the position rose, up iff it fell |
| Buttons.EmptyRegistry | TouchSlider.h:117-122 | no buttons are registered at first, within the given capacity |
| Buttons.IndexOfPin | TouchSlider.cpp:596-604 | the lookup by pin yields the first slot holding it, and nothing exactly when the pin is in no slot |
| Buttons.FirstSlotIsLookup | TouchSlider.cpp:596-604 | a slot holding the pin with no earlier copy is exactly the slot the lookup returns |
| Buttons.LookupAtMost | TouchSlider.cpp:596-604 | looking up the pin of slot i finds slot i or an earlier copy of that pin |
| Buttons.Add | TouchSlider.cpp:96-127 | a button is counted in iff there is room, the pin is not already a button or slider pin and has a channel; it then lands in slot count; a full registry or a duplicate leaves everything; an unmapped pin is written to the free slot uncounted |
| Buttons.ShiftOut | TouchSlider.cpp:143-148 | the shift loop drops slot i, moves the later used slots one left and leaves the last used slot as it was |
| Buttons.Remove | TouchSlider.cpp:136-156 | removing a registered pin shifts later pins, channels and percents left in order, keeps the count and touched flags; an absent pin or empty registry changes nothing |
| Buttons.ShiftSource | TouchSlider.cpp:143-148 | after slot i is shifted out, every used slot but the last takes its content from a slot other than i |
| Buttons.ShiftOutSlots | TouchSlider.cpp:143-148 | slot j of the shifted array holds what slot j, j+1 or count-1 held before, as the shift loop moves them |
| Buttons.RemoveSlots | TouchSlider.cpp:143-149 | a remove moves each registered slot's pin, channel and sensitivity together, slot by slot |
| Buttons.AddKeepsPinsAgree | TouchSlider.cpp:116-126 | an add keeps every pin held in several counted slots on one channel, since a counted pin is new |
| Buttons.RemoveKeepsPinsAgree | TouchSlider.cpp:141-150 | a remove keeps every pin held in several counted slots on one channel, including the duplicated last pin |
| Buttons.ShiftOutRepeat | TouchSlider.cpp:143-148 | shifting out the next-to-last used slot when it repeats the last one changes nothing |
| Buttons.RemoveLeavesLastTwice | TouchSlider.cpp:141-150 | with distinct pins, removing any pin but the last leaves the last pin, channel and sensitivity in both final slots and the last pin in no earlier slot |
| Buttons.DuplicateLastNeverArms | TouchSlider.cpp:450-463 | when the last pin also fills the slot before it with an equal flag, and no earlier slot, the detector never arms on that pin |
| Buttons.RemoveSilencesLast | TouchSlider.cpp:141-150 | after removing any pin but the last, a button check gives the last pin's two slots the same flag on an enabled channel, and the detector never arms on that pin |
| Buttons.RemoveThenRemoveLastIsNoOp | TouchSlider.cpp:136-156 | after removing any pin but the last, removing the last pin too changes nothing |
| Buttons.CheckButtonStatus | TouchSlider.cpp:411-418 | each registered button on an enabled channel is touched iff filtered < threshold; other flags and the registry are unchanged |
| Buttons.CheckSingleButtonTouch | TouchSlider.cpp:430-474 | an armed button no longer touched is published and the detector disarms; otherwise the detector arms on the lone touched button, and disarms when none or several are touched |
| Buttons.AddAppends | TouchSlider.cpp:116-126 | a successful add appends the pin to the registered list, where the lookup finds it, and keeps the pins distinct |
| Buttons.RemoveKeepsOtherPins | TouchSlider.cpp:141-150 | removing one pin keeps every other registered pin registered |
| Buttons.RemoveDuplicatesLast | TouchSlider.cpp:141-150 | removing any pin but the last leaves the last pin in both final slots, as the count is not decremented |
| Buttons.RemoveDropsPin | TouchSlider.cpp:141-150 | with distinct pins, removing any pin but the last takes it out of the registered list |
| Buttons.RemoveLastThenReAddRejected | TouchSlider.cpp:101-106 | after removing the last registered pin it is still registered, so adding it again is rejected as a duplicate |
| Buttons.ShiftOutLast | TouchSlider.cpp:143-148 | shifting out the last used slot changes no slot |
| Buttons.RemoveLastDistinctIsNoOp | TouchSlider.cpp:141-150 | with distinct pins, removing the last registered pin changes nothing at all |
| Buttons.IndexOfRegistered | TouchSlider.cpp:596-604 | with distinct registered pins the lookup of a registered pin finds its own slot |
| Buttons.ShortPressAfterLoneTouch | TouchSlider.cpp:437-463 | from idle, a press is published on the next cycle exactly when one lone button k was touched and k is released, and the pin published is k's |
| Buttons.ReleaseWhileOtherTouchedFires | TouchSlider.cpp:437-447 | an armed button released while another is touched is still published |
| Buttons.OverlapCancelsPress | TouchSlider.cpp:468-473 | a second button touched while one is held disarms without publishing, and a later cycle with nothing touched publishes nothing |
| Buttons.OverlapThenLoneReleaseFires | TouchSlider.cpp:450-473 | after an overlap, the button that stays touched alone re-arms the detector, and its release publishes it |
| TouchSlider.SetFeature | TouchSlider.h:44-47 | each enable or disable method sets its own flag and no other |
| TouchSlider.DefaultConfiguration | TouchSlider.cpp:337-352 | the build options switch on swipe-fine, swipe-status and slider printing but not buttons; nothing is switched off; button printing is left alone |
| TouchSlider.FirstUnmapped | TouchSlider.cpp:27-33 | the constructor loop stops at the first slider pin without a channel, and at none exactly when every pin has one |
| TouchSlider.Construct | TouchSlider.cpp:21-85 | the pin count is clamped to 10; the controller is ready exactly when every slider pin has a channel; no buttons, the detector idle, no pending press, the initial motion |
| TouchSlider.ConstructConfiguration | TouchSlider.cpp:21-85 | a complete construction stores the pins and their channels in order, sets the button capacity to TouchPadMax minus the pin count, turns swipe-fine on and buttons off, and keeps the uniform or per-pad percents; an aborted one leaves capacity TouchPadMax, every feature off and no uniform percent |
| TouchSlider.SliderPercent | TouchSlider.cpp:166-169 | a slider pad gets the uniform sensitivity whenever it is non-zero, else its own entry of the per-pad array |
| TouchSlider.StartPads | TouchSlider.cpp:165-175 | start lists the slider pads' channels in order, then the registered buttons' channels, all of them real channels |
| TouchSlider.StartPercents | TouchSlider.cpp:165-175 | start passes each slider pad's chosen sensitivity, then each registered button's own, in the order of the channels |
| TouchSlider.Start | TouchSlider.cpp:164-178 | start enables every slider and button channel; a slider pad gets the uniform percent when non-zero, else its own; other channels unchanged; enabled channels get calibrated thresholds and disabled ones keep theirs |
| TouchSlider.CheckSliderStatus | TouchSlider.cpp:485-507 | the slider pads are reclassified; the previous position is saved; a touched cycle encodes the touched span at N-1-first-last; an untouched one resets the slider |
| TouchSlider.Update | TouchSlider.cpp:383-402 | a cycle changes only the dynamic state: the slider scan always; the button scan and detector only when buttons are enabled; the controller stays ready |
| TouchSlider.ArmedRegisteredCanLookUp | TouchSlider.cpp:437 | an armed pin that is registered can be looked up, so the detector's unchecked index is in range |
| TouchSlider.UpdateKeepsArmedRegistered | TouchSlider.cpp:430-474 | after a cycle the armed pin is a registered button |
| TouchSlider.AddTouchButton | TouchSlider.cpp:96-127 | the registry add with the slider pins; a successful add also enables buttons; nothing else changes |
| TouchSlider.AddTouchButtonKeepsReady | TouchSlider.cpp:96-127 | adding a button keeps the armed pin registered, so update stays safe |
| TouchSlider.RemoveTouchButton | TouchSlider.cpp:136-156 | only the button registry changes, as `Buttons.Remove` describes |
| TouchSlider.RemoveTouchButtonKeepsReady | TouchSlider.cpp:136-156 | removing any button other than the armed one keeps update safe |
| TouchSlider.GetSwipeStatus | TouchSlider.cpp:235-242 | returns down minus up as int8 and zeroes both coarse counters, changing nothing else |
| TouchSlider.GetSwipeStatusFine | TouchSlider.cpp:255-268 | when enabled, returns fine down minus fine up as int8 and zeroes both; when disabled, returns 0 and changes nothing |
| TouchSlider.GetButtonShortPress | TouchSlider.cpp:277-286 | when enabled, returns the pending pin and resets it to no-pin; when disabled, returns no-pin and changes nothing |
| TouchSlider.ReadsConsume | TouchSlider.cpp:235-286 | a second read straight after the first returns 0 (or no-pin) and changes nothing |
| TouchSlider.GetSliderTouched | TouchSlider.cpp:318-323 | copies exactly the first k slider flags |
| TouchSlider.IsTouchButtonPressed | TouchSlider.cpp:294-297 | the pressed query of a button pin reports the flag of the first slot holding that pin |
| TouchSlider.IsTouchSliderPressed | TouchSlider.cpp:305-308 | the pressed query of a slider pin reports the flag of the first slot holding that pin |
| TouchSlider.ConstructSliderPinsAgree | TouchSlider.cpp:27-33 | a complete construction puts every slider pin held in several slots on one channel, since each pad is its pin's channel |
| TouchSlider.ButtonQueryReportsClassifier | TouchSlider.cpp:294-297 | after a cycle, a registered button's pressed query reports the classifier verdict for its enabled channel, whenever same-pin slots share a channel (which add and remove keep) |
| TouchSlider.SliderQueryReportsClassifier | TouchSlider.cpp:305-308 | after a cycle, a slider pin's pressed query reports the classifier verdict for its enabled channel, whenever same-pin slots share a channel (as construction leaves them) |
| Ticks.Tick | TouchSlider.cpp:716-722 | a cycle is one filter delivery followed by one update; the controller stays ready |
| Ticks.CoarseSwipeRule | TouchSlider.cpp:616-641 | a cycle counts a swipe down exactly when, within one contact, the span position rises above the previous one, a swipe up exactly when it falls; a swipe clears the fine flags |
| Ticks.ReleasePaysFineSwipe | TouchSlider.cpp:514-534 | an untouched cycle pays the fine swipe of the extreme pad that started the contact, when enabled, and ends the contact |
| Ticks.FineSwipePaidOnce | TouchSlider.cpp:514-534 | a second untouched cycle in a row changes no swipe counter |
| Ticks.LonePadStartsFineSwipe | TouchSlider.cpp:545-557 | on the first cycle of a contact the bottom flag is set iff pad 0 alone is touched, the top flag iff pad N-1 alone is |
| Ticks.UpdateIgnoresLastValue | TouchSlider.cpp:497-506 | update never reads the saved previous position; it overwrites it first |
| Ticks.FirstCycleKeepsOnlyLastValue | TouchSlider.cpp:497-506 | on a first cycle the old position fields affect only the saved previous position |
| Ticks.IndeterminatePositionForgotten | TouchSlider.h:91-107 | from a state before a contact, whatever the uninitialised position fields held survives one cycle only in the saved previous position and is gone after two |
| Ticks.Tables | TouchSlider.cpp:716-722 | the filter callback, run over a sequence of filtered-value vectors, yields one valid table per vector |
| Ticks.States | TouchSlider.cpp:383-402 | updating with a sequence of tables yields one more state than tables, starting at the given state and ending ready |
| Ticks.Run | TouchSlider.cpp:383-402 | a run of ticks over a sequence of filtered-value vectors has one more state than ticks and starts at the given state |
| Ticks.TraceExtend | TouchSlider.cpp:383-402 | a trace followed by one more update cycle is still a trace |
| Ticks.CycleCopied | TouchSlider.cpp:383-402 | a cycle of a trace is still a cycle of the extended trace |
| Ticks.StatesLast | TouchSlider.cpp:383-402 | the last state of a run of updates is the update of the state before it with the last table |
| Ticks.StatesPrefix | TouchSlider.cpp:383-402 | dropping the last table of a run of updates drops only its last state |
| Ticks.StatesStep | TouchSlider.cpp:383-402 | every state of a run of updates after the first is the update of the one before it with that cycle's table |
| Ticks.StatesFormTrace | TouchSlider.cpp:383-402 | updating with any sequence of valid tables gives a trace |
| Ticks.RunIsTrace | TouchSlider.cpp:383-402 | every run of ticks, of any length, is a trace of update cycles |
| Ticks.RunReadsFilteredValues | TouchSlider.cpp:716-722 | each table a run reads is the previous table with that cycle's filtered values stored for the enabled channels |
| Ticks.RunTicks | TouchSlider.cpp:383-402 | each step of a run is one tick, a filter delivery and then an update, from the state and table before it |
| Ticks.CycleBumpsCounters | TouchSlider.cpp:622-635 | each cycle bumps the down counter on a rising step, the up counter on a falling step, neither otherwise |
| Ticks.TraceAdvances | TouchSlider.cpp:622-635 | along a trace every cycle advances the counters by its own step |
| Ticks.CounterCountsBumps | TouchSlider.cpp:627 | an int8 counter bumped at the set flags has moved, with wrap-around, by the number of set flags |
| Ticks.DownCounterCountsSteps | TouchSlider.cpp:627 | the down counter moves, with wrap-around, by the number of rising steps |
| Ticks.UpCounterCountsSteps | TouchSlider.cpp:632 | the up counter moves, with wrap-around, by the number of falling steps |
| Ticks.TraceCountsSteps | TouchSlider.cpp:616-641 | over any trace each coarse counter advances by the number of steps in its direction |
| Ticks.StatusOfAdvancedCounters | TouchSlider.cpp:235-242 | the swipe status of advanced counters is the wrapped difference of the unwrapped totals |
| Ticks.SwipeStatusCountsSteps | TouchSlider.cpp:235-242 | the swipe status read after a trace is its starting difference plus rising steps minus falling steps, as int8 |

## Left out

- The ESP-IDF peripheral calls are foreign code: `touch_pad_init`, the FSM mode and voltage set-up, `touch_pad_config`, the filter start, `touch_pad_read_filtered` and the filter-callback registration. Calibration readings are a parameter of `Channels.Calibrate` and `TouchSlider.Start`. Filtered values are a parameter of `Channels.FilterRead`.
- The `Ticker` scheduling of `begin`, `stop` and `resume`, the `_sliderRunning` flag, `UPDATE_INTERVAL`, `filter_period` and `threshold_inactive` are timing plumbing. A cycle is `Ticks.Tick`, one filter delivery then one update.
- The callback can run at any time relative to a tick. Instead of modelling that timing, `Ticks.IsTrace` allows an arbitrary valid channel table for each cycle.
- All printing and logging is left out: `Serial.printf`, `log_i`, the `LOG*` macros of Logger.h, the `print*` helpers and the `printedOnce` static. The print feature flags are modelled only as flags.
- The non-ESP32 branch of `mapGpioToTouchPad` is not modelled, because the mapping is a parameter and `Esp32Pins.PadOf` is the ESP32 branch. `TouchPadMax` is fixed at the ESP32's 10.
- The static tables and the function-static detector state are shared by all instances in the library. The model has one controller with one `PadTable`, and keeps the detector state in the controller.
- Out-of-bounds reads through sentinel indices are preconditions rather than undefined behaviour:
  - a lookup of an unregistered pin in `isTouchButtonPressed` / `isTouchSliderPressed`;
  - the detector's lookup of its armed pin (`Controller.Ready`);
  - indexing the tables with the sentinel channel of an aborted construction (`Controller.SliderMapped`).
- Class arrays that have no initialiser are taken as zero-initialised, as for an object of static storage duration. `_lastValue` / `_actualValue` are a parameter of the construction instead.
- The constructors read the caller's arrays without bounds checks. Their lengths are preconditions of `TouchSlider.Construct`.
- `getSliderTouched` with more than `TOUCH_PAD_MAX` flags reads out of bounds. `TouchSlider.GetSliderTouched` requires at most `TouchPadMax`.
- Buttons.RemoveSilencesLast: the equal flags are promised only while the last pin's channel is enabled. On a disabled channel both slots keep the old flags, which the remove does not shift.
- TouchSlider.Start: the sensitivity it states is only that of the slider pads. A button channel's sensitivity follows from `Channels.EnableInputs` and is not restated.
- The loop counters and index types of the source (uint8, int8) never wrap, because every index is below 10. They are modelled as unbounded integers.
