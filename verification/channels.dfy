/**
  The per-channel tables the library keeps as static class members
  (enabled flag, sensitivity percent, filtered value, threshold), the touch
  classifier, threshold calibration and the filter callback that feeds the
  tables.
 */
module Channels {
  import opened Types
  import Scan

  /** The four static tables, each indexed by touch channel. */
  datatype PadTable = PadTable(
    enabled: seq<bool>,
    percent: seq<uint8>,
    filtered: seq<uint16>,
    threshold: seq<uint16>)
  {
    predicate Valid() {
      && |enabled| == TouchPadMax
      && |percent| == TouchPadMax
      && |filtered| == TouchPadMax
      && |threshold| == TouchPadMax
    }
  }

  /** The tables at program start: static storage is zero-initialised. */
  function Blank(): (t: PadTable)
    ensures t.Valid()
    ensures forall i :: 0 <= i < TouchPadMax ==> !t.enabled[i] && t.threshold[i] == 0
  {
    PadTable(seq(TouchPadMax, _ => false), seq(TouchPadMax, _ => 0),
             seq(TouchPadMax, _ => 0), seq(TouchPadMax, _ => 0))
  }

  /** A channel reads as touched when its filtered value lies below its
      threshold: touch adds capacitance, which lowers the count. */
  function IsTouched(filtered: uint16, threshold: uint16): (touched: bool)
    // a channel whose threshold was never calibrated cannot read as touched
    ensures threshold == 0 ==> !touched
  {
    filtered < threshold
  }

  /** setInput: enable one channel with the given sensitivity. */
  function SetInput(t: PadTable, pad: nat, p: uint8): (r: PadTable)
    requires t.Valid() && pad < TouchPadMax
    ensures r.Valid()
    ensures r.enabled[pad] && r.percent[pad] == p
    ensures forall i :: 0 <= i < TouchPadMax && i != pad ==>
              r.enabled[i] == t.enabled[i] && r.percent[i] == t.percent[i]
    ensures r.filtered == t.filtered && r.threshold == t.threshold
  {
    t.(enabled := t.enabled[pad := true], percent := t.percent[pad := p])
  }

  /** setInput applied to each (pad, percent) pair in order, as start() does. */
  function EnableInputs(t: PadTable, pads: seq<nat>, percents: seq<uint8>): (r: PadTable)
    requires t.Valid() && |pads| == |percents|
    requires forall k :: 0 <= k < |pads| ==> pads[k] < TouchPadMax
    ensures r.Valid()
    ensures r.filtered == t.filtered && r.threshold == t.threshold
    ensures forall k :: 0 <= k < |pads| ==> r.enabled[pads[k]]
    ensures forall i :: 0 <= i < TouchPadMax && i !in pads ==>
              r.enabled[i] == t.enabled[i] && r.percent[i] == t.percent[i]
    // the last assignment to a channel is the one that sticks
    ensures forall k :: 0 <= k < |pads| && pads[k] !in pads[k+1..] ==>
              r.percent[pads[k]] == percents[k]
    decreases |pads|
  {
    if |pads| == 0 then t
    else
      var r := EnableInputs(SetInput(t, pads[0], percents[0]), pads[1..], percents[1..]);
      assert forall k :: 1 <= k < |pads| ==> pads[k] == pads[1..][k - 1];
      assert forall k :: 1 <= k < |pads| ==> pads[k+1..] == pads[1..][k..];
      assert pads[0] !in pads[1..] ==> r.percent[pads[0]] == percents[0];
      r
  }

  /** The threshold calibrate_thresholds derives from one reading: the
      32-bit product reading * percent, divided by 100, stored into 16 bits. */
  function CalibratedThreshold(reading: uint16, p: uint8): (th: uint16)
    ensures (th - reading * p / 100) % 0x1_0000 == 0
    ensures p <= 100 ==> th <= reading && th * 100 <= reading * p < th * 100 + 100
  {
    var q := reading * p / 100;
    assert p <= 100 ==> reading * p <= reading * 100;
    TruncUint16(q)
  }

  /** With a sensitivity of at most 100 percent, a channel calibrated on
      baseline reading is touched exactly when (f + 1) * 100 <= reading * p,
      i.e. when f is below p percent of the baseline in integer steps. */
  lemma TouchedMeansBelowPercent(f: uint16, reading: uint16, p: uint8)
    requires p <= 100
    ensures IsTouched(f, CalibratedThreshold(reading, p)) <==> (f + 1) * 100 <= reading * p
  {
    var th := CalibratedThreshold(reading, p);
    if f < th {
      assert (f + 1) * 100 <= th * 100;
    } else {
      assert th * 100 <= f * 100;
    }
  }

  /** calibrate_thresholds: every enabled channel gets the threshold derived
      from its reading (the peripheral's filtered value, an input here);
      disabled channels keep theirs. */
  function Calibrate(t: PadTable, readings: seq<uint16>): (r: PadTable)
    requires t.Valid() && |readings| == TouchPadMax
    ensures r.Valid()
    ensures r.enabled == t.enabled && r.percent == t.percent && r.filtered == t.filtered
    ensures forall i :: 0 <= i < TouchPadMax ==>
              r.threshold[i] == if t.enabled[i] then CalibratedThreshold(readings[i], t.percent[i])
                                else t.threshold[i]
  {
    t.(threshold := seq(TouchPadMax, i requires 0 <= i < TouchPadMax =>
                          if t.enabled[i] then CalibratedThreshold(readings[i], t.percent[i])
                          else t.threshold[i]))
  }

  /** The calibration reading itself never reads as touched when the
      sensitivity is at most 100 percent. */
  lemma {:induction false} CalibrationReadingIsUntouched(t: PadTable, readings: seq<uint16>, i: nat)
    requires t.Valid() && |readings| == TouchPadMax && i < TouchPadMax
    requires t.enabled[i] && t.percent[i] <= 100
    ensures !IsTouched(readings[i], Calibrate(t, readings).threshold[i])
  {
    TouchedMeansBelowPercent(readings[i], readings[i], t.percent[i]);
  }

  /** filter_read_cb: copy the peripheral's filtered values into the table,
      for enabled channels only. */
  function FilterRead(t: PadTable, values: seq<uint16>): (r: PadTable)
    requires t.Valid() && |values| == TouchPadMax
    ensures r.Valid()
    ensures r.enabled == t.enabled && r.percent == t.percent && r.threshold == t.threshold
    ensures forall i :: 0 <= i < TouchPadMax ==>
              r.filtered[i] == if t.enabled[i] then values[i] else t.filtered[i]
  {
    t.(filtered := seq(TouchPadMax, i requires 0 <= i < TouchPadMax =>
                         if t.enabled[i] then values[i] else t.filtered[i]))
  }

  /** The touched-flag update of checkSliderStatus and checkButtonStatus: the
      first n entries whose channel is enabled are reclassified from the
      table; every other flag keeps its previous value. */
  function Classify(t: PadTable, pads: seq<PadId>, flags: seq<bool>, n: nat): (r: seq<bool>)
    requires t.Valid() && n <= |pads| == |flags|
    requires forall i :: 0 <= i < n ==> pads[i] < TouchPadMax
    ensures |r| == |flags|
    ensures forall i :: 0 <= i < n && t.enabled[pads[i]] ==>
              r[i] == IsTouched(t.filtered[pads[i]], t.threshold[pads[i]])
    ensures forall i :: 0 <= i < |flags| && (i >= n || !t.enabled[pads[i]]) ==> r[i] == flags[i]
  {
    seq(|flags|, i requires 0 <= i < |flags| =>
          if i < n && t.enabled[pads[i]] then IsTouched(t.filtered[pads[i]], t.threshold[pads[i]])
          else flags[i])
  }

  /** Which of the first n flags belong to an enabled channel and are set. */
  function EnabledTouched(t: PadTable, pads: seq<PadId>, flags: seq<bool>, n: nat): (e: seq<bool>)
    requires t.Valid() && n <= |pads| == |flags|
    requires forall i :: 0 <= i < n ==> pads[i] < TouchPadMax
    ensures |e| == n
    ensures forall i :: 0 <= i < n ==> (e[i] <==> t.enabled[pads[i]] && flags[i])
  {
    seq(n, i requires 0 <= i < n => t.enabled[pads[i]] && flags[i])
  }

  /** touchedPadCount of checkSliderStatus: how many of the first n channels
      are enabled and read as touched this cycle. */
  function FreshTouches(t: PadTable, pads: seq<PadId>, flags: seq<bool>, n: nat): (c: nat)
    requires t.Valid() && n <= |pads| == |flags|
    requires forall i :: 0 <= i < n ==> pads[i] < TouchPadMax
    ensures c <= n
    decreases n
  {
    if n == 0 then 0
    else
      FreshTouches(t, pads, flags, n - 1)
      + (if t.enabled[pads[n - 1]] && flags[n - 1] then 1 else 0)
  }

  /** touchedPadCount is the number of the first n pads whose channel is
      enabled and whose flag is set. */
  lemma {:induction false} FreshTouchesCountsEnabled(t: PadTable, pads: seq<PadId>, flags: seq<bool>, n: nat)
    requires t.Valid() && n <= |pads| == |flags|
    requires forall i :: 0 <= i < n ==> pads[i] < TouchPadMax
    ensures FreshTouches(t, pads, flags, n) == Scan.CountTouched(EnabledTouched(t, pads, flags, n))
    decreases n
  {
    if n > 0 {
      assert EnabledTouched(t, pads, flags, n)[..n - 1] == EnabledTouched(t, pads, flags, n - 1);
      FreshTouchesCountsEnabled(t, pads, flags, n - 1);
    }
  }

  /** When all n channels are enabled, the fresh-touch count is the number of
      touched flags. */
  lemma {:induction false} FreshTouchesAllEnabled(t: PadTable, pads: seq<PadId>, flags: seq<bool>, n: nat)
    requires t.Valid() && n <= |pads| == |flags|
    requires forall i :: 0 <= i < n ==> pads[i] < TouchPadMax && t.enabled[pads[i]]
    ensures FreshTouches(t, pads, flags, n) == Scan.CountTouched(flags[..n])
    decreases n
  {
    if n > 0 {
      assert flags[..n][..n - 1] == flags[..n - 1];
      FreshTouchesAllEnabled(t, pads, flags, n - 1);
    }
  }
}
