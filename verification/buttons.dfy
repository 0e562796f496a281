/**
  The touch-button registry (add / remove / lookup by pin) and the
  single-button short-press detector.
 */
module Buttons {
  import opened Types
  import opened Scan
  import Channels

  /** The button arrays of the class. They have TouchPadMax slots each; the
      first count slots are the registered buttons, but the lookup by pin
      scans every slot. */
  datatype Registry = Registry(
    pins: seq<Pin>,
    pads: seq<PadId>,
    percent: seq<uint8>,
    touched: seq<bool>,
    count: nat,
    capacity: nat)
  {
    predicate Valid() {
      && |pins| == TouchPadMax && |pads| == TouchPadMax
      && |percent| == TouchPadMax && |touched| == TouchPadMax
      && count <= capacity <= TouchPadMax
      // only pins with a touch channel are ever counted in
      && (forall i :: 0 <= i < count ==> pads[i] < TouchPadMax)
    }

    /** The registered pins, in registration order. */
    function Registered(): seq<Pin>
      requires Valid()
    {
      pins[..count]
    }
  }

  /** No buttons; the arrays are zero-initialised. */
  function EmptyRegistry(capacity: nat): (b: Registry)
    requires capacity <= TouchPadMax
    ensures b.Valid() && b.count == 0 && b.capacity == capacity
  {
    Registry(seq(TouchPadMax, _ => 0), seq(TouchPadMax, _ => 0), seq(TouchPadMax, _ => 0),
             seq(TouchPadMax, _ => false), 0, capacity)
  }

  /** getIndexFromGpioButton / getIndexFromGpioSlider: the first slot holding
      pin, or None where the library returns UINT8_MAX. */
  function IndexOfPin(pins: seq<Pin>, pin: Pin): (r: Option<nat>)
    ensures r.None? <==> pin !in pins
    ensures r.Some? ==> r.value < |pins| && pins[r.value] == pin && pin !in pins[..r.value]
    decreases |pins|
  {
    if |pins| == 0 then None
    else if pins[0] == pin then Some(0)
    else
      match IndexOfPin(pins[1..], pin)
      case None => None
      case Some(k) =>
        assert pins[..k + 1] == [pins[0]] + pins[1..][..k];
        Some(k + 1)
  }

  /** addTouchButton. Rejected when the registry is full, or the pin is
      already a button or a slider pin. Otherwise the pin and its channel are
      written to slot count; only if the channel is valid is the button
      counted in, with its sensitivity. */
  function Add(b: Registry, pin: Pin, p: uint8, sliderPins: seq<Pin>, padOf: PadMapping): (r: Registry)
    requires b.Valid()
    ensures r.Valid()
    ensures r.capacity == b.capacity && r.touched == b.touched
    ensures r.count == b.count + 1 <==>
              && b.count < b.capacity
              && pin !in b.Registered() && pin !in sliderPins
              && padOf(pin) < TouchPadMax
    ensures r.count != b.count + 1 ==> r.count == b.count
    ensures r.count == b.count + 1 ==>
              && r.pins == b.pins[b.count := pin]
              && r.pads == b.pads[b.count := padOf(pin)]
              && r.percent == b.percent[b.count := p]
    // an unmapped new pin still lands in the free slot, uncounted
    ensures r.count == b.count && b.count < b.capacity && pin !in b.Registered() && pin !in sliderPins ==>
              r == b.(pins := b.pins[b.count := pin], pads := b.pads[b.count := TouchPadMax])
    ensures b.count >= b.capacity || pin in b.Registered() || pin in sliderPins ==> r == b
  {
    if b.count >= b.capacity then b
    else if pin in b.pins[..b.count] then b
    else if pin in sliderPins then b
    else
      var written := b.(pins := b.pins[b.count := pin], pads := b.pads[b.count := padOf(pin)]);
      if padOf(pin) == TouchPadMax then written
      else written.(percent := b.percent[b.count := p], count := b.count + 1)
  }

  /** The in-place left shift of removeTouchButton over one array: slot i is
      dropped, slots i+1 .. n-1 move one to the left, and slot n-1 keeps its
      old content. */
  function ShiftOut<T>(s: seq<T>, i: nat, n: nat): (r: seq<T>)
    requires i < n <= |s|
    ensures |r| == |s|
    ensures r[..n - 1] == s[..i] + s[i + 1..n]
    ensures r[n - 1..] == s[n - 1..]
  {
    var r := s[..i] + s[i + 1..n] + s[n - 1..];
    assert r[..n - 1] == s[..i] + s[i + 1..n];
    r
  }

  /** removeTouchButton. When pin is registered, the later pins, channels and
      sensitivities shift one slot left; the count is not decremented and
      the touched flags are not shifted. */
  function Remove(b: Registry, pin: Pin): (r: Registry)
    requires b.Valid()
    ensures r.Valid()
    ensures r.count == b.count && r.capacity == b.capacity && r.touched == b.touched
    ensures b.count == 0 || pin !in b.Registered() ==> r == b
    ensures b.count > 0 && pin in b.Registered() ==>
              var i := IndexOfPin(b.Registered(), pin).value;
              && r.pins[..b.count - 1] == b.pins[..i] + b.pins[i + 1..b.count]
              && r.pads[..b.count - 1] == b.pads[..i] + b.pads[i + 1..b.count]
              && r.percent[..b.count - 1] == b.percent[..i] + b.percent[i + 1..b.count]
              && r.pins[b.count - 1..] == b.pins[b.count - 1..]
              && r.pads[b.count - 1..] == b.pads[b.count - 1..]
              && r.percent[b.count - 1..] == b.percent[b.count - 1..]
  {
    if b.count == 0 then b
    else
      match IndexOfPin(b.pins[..b.count], pin)
      case None => b
      case Some(i) =>
        var r := b.(pins := ShiftOut(b.pins, i, b.count),
                    pads := ShiftOut(b.pads, i, b.count),
                    percent := ShiftOut(b.percent, i, b.count));
        assert forall j :: 0 <= j < b.count ==> r.pads[j] < TouchPadMax by {
          forall j | 0 <= j < b.count
            ensures r.pads[j] < TouchPadMax
          {
            if j < b.count - 1 {
              assert r.pads[j] == r.pads[..b.count - 1][j];
            } else {
              assert r.pads[j] == r.pads[b.count - 1..][0];
            }
          }
        }
        r
  }

  /** checkButtonStatus: reclassify the registered buttons from the channel tables. */
  function CheckButtonStatus(b: Registry, t: Channels.PadTable): (r: Registry)
    requires b.Valid() && t.Valid()
    ensures r.Valid() && r == b.(touched := r.touched)
    ensures forall i :: 0 <= i < b.count && t.enabled[b.pads[i]] ==>
              r.touched[i] == Channels.IsTouched(t.filtered[b.pads[i]], t.threshold[b.pads[i]])
    ensures forall i :: 0 <= i < TouchPadMax && (i >= b.count || !t.enabled[b.pads[i]]) ==>
              r.touched[i] == b.touched[i]
  {
    b.(touched := Channels.Classify(t, b.pads, b.touched, b.count))
  }

  /** The function-static state of checkSingleButtonTouch: whether a lone
      button is being held, and which. */
  datatype Detector = Detector(armed: bool, pin: Pin)

  const Idle := Detector(false, GpioNC)

  /** The armed pin can be looked up (the library indexes the touched flags
      with the lookup result unchecked). */
  predicate CanLookUp(d: Detector, b: Registry) {
    d.armed ==> d.pin in b.pins
  }

  /** checkSingleButtonTouch, returning the new detector and the pending
      short press. If the armed button is no longer touched it is published
      and the detector disarms; otherwise exactly one touched button arms the
      detector on it, and none or several disarm it. */
  function CheckSingleButtonTouch(b: Registry, d: Detector, pending: Pin): (r: (Detector, Pin))
    requires b.Valid() && CanLookUp(d, b)
    ensures !r.0.armed ==> r.0 == Idle
    ensures r.0.armed ==> r.0.pin in b.Registered()
    ensures d.armed && !b.touched[IndexOfPin(b.pins, d.pin).value] ==> r == (Idle, d.pin)
    ensures !(d.armed && !b.touched[IndexOfPin(b.pins, d.pin).value]) ==>
              && r.1 == pending
              && (r.0.armed <==> exists k :: OnlyTouched(b.touched[..b.count], k))
              && (forall k :: OnlyTouched(b.touched[..b.count], k) ==> r.0.pin == b.pins[k])
  {
    if d.armed && !b.touched[IndexOfPin(b.pins, d.pin).value] then (Idle, d.pin)
    else
      var flags := b.touched[..b.count];
      CountOneIsSingle(flags);
      if CountTouched(flags) == 1 then
        var k := LastTouched(flags);
        assert b.pins[k] == b.Registered()[k];
        (Detector(true, b.pins[k]), pending)
      else (Idle, pending)
  }

  /** No pin is registered twice. */
  predicate Distinct(s: seq<Pin>) {
    forall i, j :: 0 <= i < j < |s| ==> s[i] != s[j]
  }

  /** The slot a lookup finds is the first slot holding the pin, so any slot
      that holds the pin with no earlier copy is the one the lookup returns. */
  lemma FirstSlotIsLookup(pins: seq<Pin>, pin: Pin, k: nat)
    requires k < |pins| && pins[k] == pin && pin !in pins[..k]
    ensures IndexOfPin(pins, pin) == Some(k)
  {
  }

  /** Looking up the pin of slot i finds slot i or an earlier copy of it. */
  lemma LookupAtMost(pins: seq<Pin>, i: nat)
    requires i < |pins|
    ensures IndexOfPin(pins, pins[i]).Some? && IndexOfPin(pins, pins[i]).value <= i
  {
  }

  /** Among the first n slots, slots holding the same pin hold the same
      channel. Distinct pins satisfy this trivially, and so does the
      duplicate a remove leaves behind. */
  predicate PinsAgree(pins: seq<Pin>, pads: seq<PadId>, n: nat)
    requires n <= |pins| && n <= |pads|
  {
    forall i, j :: 0 <= i < n && 0 <= j < n && pins[i] == pins[j] ==> pads[i] == pads[j]
  }

  /** Where slot j of an n-slot array comes from after slot i is shifted out. */
  function ShiftSource(i: nat, n: nat, j: nat): (k: nat)
    requires i < n && j < n
    ensures k < n && (j < n - 1 ==> k != i)
  {
    if j < i then j else if j < n - 1 then j + 1 else n - 1
  }

  /** Slot by slot, what the shift leaves in each of the first n slots. */
  lemma ShiftOutSlots<T>(s: seq<T>, i: nat, n: nat)
    requires i < n <= |s|
    ensures forall j :: 0 <= j < n ==> ShiftOut(s, i, n)[j] == s[ShiftSource(i, n, j)]
  {
    var r := ShiftOut(s, i, n);
    forall j | 0 <= j < n
      ensures r[j] == s[ShiftSource(i, n, j)]
    {
      if j < n - 1 {
        assert r[j] == r[..n - 1][j];
      } else {
        assert r[j] == r[n - 1..][0];
      }
    }
  }

  /** Slot by slot, a remove moves each registered slot's pin, channel and
      sensitivity together. */
  lemma {:induction false} RemoveSlots(b: Registry, pin: Pin)
    requires b.Valid() && pin in b.Registered()
    ensures var i := IndexOfPin(b.Registered(), pin).value; var r := Remove(b, pin);
      forall j :: 0 <= j < b.count ==>
        && r.pins[j] == b.pins[ShiftSource(i, b.count, j)]
        && r.pads[j] == b.pads[ShiftSource(i, b.count, j)]
        && r.percent[j] == b.percent[ShiftSource(i, b.count, j)]
  {
    var i := IndexOfPin(b.Registered(), pin).value;
    ShiftOutSlots(b.pins, i, b.count);
    ShiftOutSlots(b.pads, i, b.count);
    ShiftOutSlots(b.percent, i, b.count);
  }

  /** Adding a button keeps same-pin slots on the same channel: a counted
      pin is new to the registered list. */
  lemma {:induction false} AddKeepsPinsAgree(b: Registry, pin: Pin, p: uint8, sliderPins: seq<Pin>, padOf: PadMapping)
    requires b.Valid() && PinsAgree(b.pins, b.pads, b.count)
    ensures var r := Add(b, pin, p, sliderPins, padOf);
      PinsAgree(r.pins, r.pads, r.count)
  {
    var r := Add(b, pin, p, sliderPins, padOf);
    if r.count == b.count + 1 {
      assert forall i :: 0 <= i < b.count ==> b.pins[i] == b.Registered()[i];
    }
  }

  /** Removing a button keeps same-pin slots on the same channel, including
      the last pin it leaves in two slots. */
  lemma {:induction false} RemoveKeepsPinsAgree(b: Registry, pin: Pin)
    requires b.Valid() && PinsAgree(b.pins, b.pads, b.count)
    ensures var r := Remove(b, pin);
      PinsAgree(r.pins, r.pads, r.count)
  {
    if pin in b.Registered() {
      RemoveSlots(b, pin);
    }
  }

  /** Shifting out the next-to-last used slot when it already repeats the
      last one leaves the array as it was. */
  lemma ShiftOutRepeat<T>(s: seq<T>, n: nat)
    requires 2 <= n <= |s| && s[n - 2] == s[n - 1]
    ensures ShiftOut(s, n - 2, n) == s
  {
    var r := ShiftOut(s, n - 2, n);
    assert r[..n - 1] == s[..n - 2] + [s[n - 1]];
    assert s[..n - 1] == s[..n - 2] + [s[n - 2]];
    assert r == r[..n - 1] + r[n - 1..];
    assert s == s[..n - 1] + s[n - 1..];
  }

  /** After removing a button other than the last (pins distinct), the last
      pin sits in the final two slots with the same channel and nowhere
      else among the registered slots. */
  lemma {:induction false} RemoveLeavesLastTwice(b: Registry, pin: Pin)
    requires b.Valid() && Distinct(b.Registered())
    requires pin in b.Registered() && pin != b.pins[b.count - 1]
    ensures var r := Remove(b, pin); var n := b.count;
      && n >= 2
      && r.pins[n - 2] == r.pins[n - 1] == b.pins[n - 1]
      && r.pads[n - 2] == r.pads[n - 1] == b.pads[n - 1]
      && r.percent[n - 2] == r.percent[n - 1]
      && forall k :: 0 <= k < n - 2 ==> r.pins[k] != b.pins[n - 1]
  {
    var n := b.count;
    var i := IndexOfPin(b.Registered(), pin).value;
    RemoveSlots(b, pin);
    assert i < n - 1;
    assert ShiftSource(i, n, n - 2) == n - 1;
    forall k | 0 <= k < n - 2
      ensures Remove(b, pin).pins[k] != b.pins[n - 1]
    {
      assert b.Registered()[ShiftSource(i, n, k)] != b.Registered()[n - 1];
    }
  }

  /** A registry whose last pin also fills the slot before it, with equal
      flags there and in no earlier slot, never arms the detector on that
      pin. */
  lemma {:induction false} DuplicateLastNeverArms(c: Registry, d: Detector, pending: Pin)
    requires c.Valid() && c.count >= 2 && CanLookUp(d, c)
    requires c.touched[c.count - 2] == c.touched[c.count - 1]
    requires forall k :: 0 <= k < c.count - 2 ==> c.pins[k] != c.pins[c.count - 1]
    ensures CheckSingleButtonTouch(c, d, pending).0 != Detector(true, c.pins[c.count - 1])
  {
    var n := c.count;
    var res := CheckSingleButtonTouch(c, d, pending);
    if res.0.armed {
      var k :| OnlyTouched(c.touched[..n], k);
      assert c.touched[..n][n - 2] == c.touched[..n][n - 1];
      assert k < n - 2;
    }
  }

  /** After removing a button other than the last (pins distinct), while
      the last pin's channel is enabled a check gives both of its slots the
      same flag, so no cycle can see that button as the lone touched one:
      the detector never arms on it again. */
  lemma {:induction false} RemoveSilencesLast(b: Registry, pin: Pin, t: Channels.PadTable, d: Detector, pending: Pin)
    requires b.Valid() && t.Valid() && Distinct(b.Registered())
    requires pin in b.Registered() && pin != b.pins[b.count - 1]
    requires t.enabled[b.pads[b.count - 1]]
    ensures var c := CheckButtonStatus(Remove(b, pin), t);
      && c.touched[b.count - 2] == c.touched[b.count - 1]
      && (CanLookUp(d, c) ==> CheckSingleButtonTouch(c, d, pending).0 != Detector(true, b.pins[b.count - 1]))
  {
    var c := CheckButtonStatus(Remove(b, pin), t);
    RemoveLeavesLastTwice(b, pin);
    if CanLookUp(d, c) {
      DuplicateLastNeverArms(c, d, pending);
    }
  }

  /** After removing a button other than the last (pins distinct), removing
      the last pin as well changes nothing: the lookup finds its first copy
      in slot count-2, and shifting that out restores the duplicate. */
  lemma {:induction false} RemoveThenRemoveLastIsNoOp(b: Registry, pin: Pin)
    requires b.Valid() && Distinct(b.Registered())
    requires pin in b.Registered() && pin != b.pins[b.count - 1]
    ensures var r := Remove(b, pin);
      Remove(r, b.pins[b.count - 1]) == r
  {
    var r := Remove(b, pin);
    var last := b.pins[b.count - 1];
    var n := b.count;
    RemoveLeavesLastTwice(b, pin);
    assert last !in r.Registered()[..n - 2] by {
      assert forall j :: 0 <= j < n - 2 ==> r.Registered()[..n - 2][j] == r.pins[j];
    }
    FirstSlotIsLookup(r.Registered(), last, n - 2);
    ShiftOutRepeat(r.pins, n);
    ShiftOutRepeat(r.pads, n);
    ShiftOutRepeat(r.percent, n);
  }

  /** A successful add appends the pin to the registered list, where the
      lookup then finds it. */
  lemma {:induction false} AddAppends(b: Registry, pin: Pin, p: uint8, sliderPins: seq<Pin>, padOf: PadMapping)
    requires b.Valid()
    requires Add(b, pin, p, sliderPins, padOf).count == b.count + 1
    ensures Add(b, pin, p, sliderPins, padOf).Registered() == b.Registered() + [pin]
    ensures IndexOfPin(Add(b, pin, p, sliderPins, padOf).Registered(), pin) == Some(b.count)
    ensures Distinct(b.Registered()) ==> Distinct(Add(b, pin, p, sliderPins, padOf).Registered())
  {
    var r := Add(b, pin, p, sliderPins, padOf);
    assert r.Registered() == b.Registered() + [pin];
    var k := IndexOfPin(r.Registered(), pin);
    assert pin !in r.Registered()[..b.count];
  }

  /** Removing one pin keeps every other registered pin registered. */
  lemma {:induction false} RemoveKeepsOtherPins(b: Registry, pin: Pin, q: Pin)
    requires b.Valid() && q != pin && q in b.Registered()
    ensures q in Remove(b, pin).Registered()
  {
    var r := Remove(b, pin);
    if b.count > 0 && pin in b.Registered() {
      var i := IndexOfPin(b.Registered(), pin).value;
      var j :| 0 <= j < b.count && b.pins[j] == q;
      assert j != i;
      if j < i {
        assert r.pins[..b.count - 1][j] == q;
      } else {
        assert r.pins[..b.count - 1][j - 1] == q;
      }
    }
  }

  /** Because the count is not decremented, removing any button but the last
      leaves the last registered pin in the list twice, in the final two
      slots. */
  lemma {:induction false} RemoveDuplicatesLast(b: Registry, pin: Pin)
    requires b.Valid() && pin in b.Registered()
    requires pin != b.pins[b.count - 1]
    ensures var r := Remove(b, pin);
      b.count >= 2 && r.pins[b.count - 2] == r.pins[b.count - 1] == b.pins[b.count - 1]
  {
    var r := Remove(b, pin);
    var i := IndexOfPin(b.Registered(), pin).value;
    assert i < b.count - 1;
    assert r.pins[b.count - 2] == r.pins[..b.count - 1][b.count - 2];
    assert r.pins[b.count - 1] == r.pins[b.count - 1..][0];
  }

  /** With distinct pins, removing any but the last pin takes it out of the
      registered list. */
  lemma {:induction false} RemoveDropsPin(b: Registry, pin: Pin)
    requires b.Valid() && Distinct(b.Registered()) && pin in b.Registered()
    requires pin != b.pins[b.count - 1]
    ensures pin !in Remove(b, pin).Registered()
  {
    var r := Remove(b, pin);
    var i := IndexOfPin(b.Registered(), pin).value;
    assert r.Registered() == b.pins[..i] + b.pins[i + 1..b.count] + [b.pins[b.count - 1]] by {
      assert r.Registered() == r.pins[..b.count - 1] + [r.pins[b.count - 1]];
      assert r.pins[b.count - 1] == r.pins[b.count - 1..][0];
    }
    assert forall j :: 0 <= j < b.count && j != i ==> b.pins[j] != pin;
  }

  /** Removing the last registered pin leaves it registered (slot count-1
      is never cleared), so adding the same pin again is rejected as a
      duplicate. */
  lemma {:induction false} RemoveLastThenReAddRejected(b: Registry, p: uint8, sliderPins: seq<Pin>, padOf: PadMapping)
    requires b.Valid() && b.count > 0
    ensures var pin := b.pins[b.count - 1];
      && pin in Remove(b, pin).Registered()
      && Add(Remove(b, pin), pin, p, sliderPins, padOf) == Remove(b, pin)
  {
    var pin := b.pins[b.count - 1];
    var r := Remove(b, pin);
    assert b.Registered()[b.count - 1] == pin;
    assert r.Registered()[b.count - 1] == r.pins[b.count - 1..][0];
  }

  /** Shifting out the last used slot leaves the array as it was. */
  lemma ShiftOutLast<T>(s: seq<T>, n: nat)
    requires 0 < n <= |s|
    ensures ShiftOut(s, n - 1, n) == s
  {
    var r := ShiftOut(s, n - 1, n);
    assert r == r[..n - 1] + r[n - 1..];
    assert s == s[..n - 1] + s[n - 1..];
  }

  /** With distinct pins, removing the last registered pin changes nothing:
      the shift moves no slot and the count stays. */
  lemma {:induction false} RemoveLastDistinctIsNoOp(b: Registry)
    requires b.Valid() && b.count > 0 && Distinct(b.Registered())
    ensures Remove(b, b.pins[b.count - 1]) == b
  {
    var pin := b.pins[b.count - 1];
    assert b.Registered()[b.count - 1] == pin;
    assert IndexOfPin(b.pins[..b.count], pin) == Some(b.count - 1);
    ShiftOutLast(b.pins, b.count);
    ShiftOutLast(b.pads, b.count);
    ShiftOutLast(b.percent, b.count);
  }

  /** With distinct registered pins, looking up a registered pin finds its
      own slot. */
  lemma {:induction false} IndexOfRegistered(b: Registry, k: nat)
    requires b.Valid() && Distinct(b.Registered()) && k < b.count
    ensures IndexOfPin(b.pins, b.pins[k]) == Some(k)
  {
    var j := IndexOfPin(b.pins, b.pins[k]).value;
    assert b.Registered()[k] == b.pins[k];
    assert forall i :: 0 <= i < j ==> b.pins[..j][i] == b.pins[i];
  }

  /** Two detector cycles from idle over the same registry with the touched
      flags f1 and then f2, pins distinct: the second cycle publishes a
      short press exactly when the first saw one lone button k and the
      second sees k released, and the pin published is k's; otherwise the
      pending value stays. */
  lemma {:induction false} ShortPressAfterLoneTouch(b: Registry, f1: seq<bool>, f2: seq<bool>, pending: Pin)
    requires b.Valid() && Distinct(b.Registered())
    requires |f1| == TouchPadMax && |f2| == TouchPadMax
    ensures var step1 := CheckSingleButtonTouch(b.(touched := f1), Idle, pending);
      && step1.1 == pending
      && CanLookUp(step1.0, b.(touched := f2))
      && (forall k :: OnlyTouched(f1[..b.count], k) && !f2[k] ==>
            CheckSingleButtonTouch(b.(touched := f2), step1.0, step1.1) == (Idle, b.pins[k]))
      && ((forall k :: OnlyTouched(f1[..b.count], k) ==> f2[k]) ==>
            CheckSingleButtonTouch(b.(touched := f2), step1.0, step1.1).1 == pending)
  {
    var b1, b2 := b.(touched := f1), b.(touched := f2);
    var step1 := CheckSingleButtonTouch(b1, Idle, pending);
    if step1.0.armed {
      var k :| OnlyTouched(f1[..b.count], k);
      assert b2.Registered() == b.Registered();
      IndexOfRegistered(b2, k);
    }
  }

  /** A button released while another is touched still publishes its short
      press: the detector does not look at the other buttons once the armed
      one is released. */
  lemma {:induction false} ReleaseWhileOtherTouchedFires(b: Registry, k: nat, j: nat, pending: Pin)
    requires b.Valid() && Distinct(b.Registered()) && k < b.count && j < b.count && j != k
    requires !b.touched[k] && b.touched[j]
    ensures CheckSingleButtonTouch(b, Detector(true, b.pins[k]), pending) == (Idle, b.pins[k])
  {
    IndexOfRegistered(b, k);
  }

  /** A second button touched while one is held disarms the detector without
      publishing, so releasing both afterwards reports nothing. */
  lemma {:induction false} OverlapCancelsPress(b: Registry, k: nat, j: nat, f: seq<bool>, pending: Pin)
    requires b.Valid() && Distinct(b.Registered()) && k < b.count && j < b.count && j != k
    requires b.touched[k] && b.touched[j]
    requires |f| == TouchPadMax && forall i :: 0 <= i < b.count ==> !f[i]
    ensures CheckSingleButtonTouch(b, Detector(true, b.pins[k]), pending) == (Idle, pending)
    ensures CheckSingleButtonTouch(b.(touched := f), Idle, pending) == (Idle, pending)
  {
    IndexOfRegistered(b, k);
    assert b.touched[..b.count][k] && b.touched[..b.count][j];
    assert forall i :: 0 <= i < b.count ==> !b.(touched := f).touched[..b.count][i];
  }

  /** An overlap does not cancel the hold for good: once the other button j
      is the only one still touched the detector re-arms on it, and
      releasing j then publishes j's short press. */
  lemma {:induction false} OverlapThenLoneReleaseFires(b: Registry, k: nat, j: nat, f2: seq<bool>, f3: seq<bool>,
                                                       pending: Pin)
    requires b.Valid() && Distinct(b.Registered()) && k < b.count && j < b.count && j != k
    requires b.touched[k] && b.touched[j]
    requires |f2| == TouchPadMax && OnlyTouched(f2[..b.count], j)
    requires |f3| == TouchPadMax && !f3[j]
    ensures var s1 := CheckSingleButtonTouch(b, Detector(true, b.pins[k]), pending);
      && s1 == (Idle, pending)
      && CheckSingleButtonTouch(b.(touched := f2), s1.0, s1.1) == (Detector(true, b.pins[j]), pending)
      && CanLookUp(Detector(true, b.pins[j]), b.(touched := f3))
      && CheckSingleButtonTouch(b.(touched := f3), Detector(true, b.pins[j]), pending) == (Idle, b.pins[j])
  {
    OverlapCancelsPress(b, k, j, seq(TouchPadMax, _ => false), pending);
    assert b.(touched := f2).touched[..b.count] == f2[..b.count];
    IndexOfRegistered(b.(touched := f3), j);
  }
}
