/**
  The slider encoder: the touched span [first, last] of the slider pads is
  the reference zero, untouched pads below it count -1 and pads above it
  count +1; the position is the sum.
 */
module Encoder {
  import opened Types
  import opened Scan

  /** The value handleTouch gives pad i for the touched span [first, last]. */
  function PadValue(i: int, first: int, last: int): (v: int8)
    ensures -1 <= v <= 1
    ensures v == 0 <==> first <= i <= last
    ensures v == -1 <==> i < first
  {
    if first <= i <= last then 0
    else if i < first then -1
    else 1
  }

  /** The values of the first n pads. */
  function Encode(n: nat, first: int, last: int): (v: seq<int8>)
    ensures |v| == n
  {
    seq(n, i requires 0 <= i < n => PadValue(i, first, last))
  }

  /** Left-to-right sum, as analyzeGesture accumulates it. */
  function Sum(v: seq<int8>): (r: int)
    ensures -0x80 * |v| <= r <= 0x7F * |v|
    decreases |v|
  {
    if |v| == 0 then 0 else Sum(v[..|v| - 1]) + v[|v| - 1]
  }

  /** The sum splits over a concatenation, so the order in which the pads
      are added up does not matter. */
  lemma {:induction false} SumAppend(a: seq<int8>, b: seq<int8>)
    ensures Sum(a + b) == Sum(a) + Sum(b)
    decreases |b|
  {
    if |b| > 0 {
      assert (a + b)[..|a + b| - 1] == a + b[..|b| - 1];
      SumAppend(a, b[..|b| - 1]);
    } else {
      assert a + b == a;
    }
  }

  /** Sum of a prefix of length m of the encoding: the pads above the span in
      the prefix minus the pads below it. */
  lemma {:induction false} EncodePrefixSum(m: nat, first: int, last: int)
    requires 0 <= first <= last
    ensures Sum(Encode(m, first, last)) ==
              (if m > last + 1 then m - last - 1 else 0) - (if m < first then m else first)
    decreases m
  {
    if m > 0 {
      assert Encode(m, first, last)[..m - 1] == Encode(m - 1, first, last);
      EncodePrefixSum(m - 1, first, last);
    }
  }

  /** The position of a touched span [first, last] on an n-pad slider is
      n - 1 - first - last, so it lies within [-(n-1), n-1]. */
  lemma {:induction false} SpanPosition(n: nat, first: int, last: int)
    requires 0 <= first <= last < n
    ensures Sum(Encode(n, first, last)) == n - 1 - first - last
    ensures -(n - 1) <= Sum(Encode(n, first, last)) <= n - 1
  {
    EncodePrefixSum(n, first, last);
  }

  /** A lone touched pad k sits at position n - 1 - 2k. */
  lemma {:induction false} LonePadPosition(n: nat, k: nat)
    requires k < n
    ensures Sum(Encode(n, k, k)) == n - 1 - 2 * k
  {
    SpanPosition(n, k, k);
  }

  /** Moving either end of the touched span towards higher indices lowers
      the position: the position is strictly antitone in the span. */
  lemma {:induction false} PositionAntitone(n: nat, f1: int, l1: int, f2: int, l2: int)
    requires 0 <= f1 <= l1 < n && 0 <= f2 <= l2 < n
    requires f1 <= f2 && l1 <= l2
    ensures Sum(Encode(n, f2, l2)) <= Sum(Encode(n, f1, l1))
    ensures (f1, l1) != (f2, l2) ==> Sum(Encode(n, f2, l2)) < Sum(Encode(n, f1, l1))
  {
    SpanPosition(n, f1, l1);
    SpanPosition(n, f2, l2);
  }

  /** What each encoded value means in terms of the touched flags alone: -1
      when nothing at or below the pad is touched, +1 when nothing at or above
      it is touched, 0 when touched pads lie on both sides (or on the pad). */
  lemma {:induction false} EncodingMeaning(t: seq<bool>, i: nat)
    requires FirstTouched(t) != -1 && i < |t|
    ensures var v := Encode(|t|, FirstTouched(t), LastTouched(t))[i];
      && (v == -1 <==> forall j :: 0 <= j <= i ==> !t[j])
      && (v == 1 <==> forall j :: i <= j < |t| ==> !t[j])
      && (v == 0 <==> (exists j :: 0 <= j <= i && t[j]) && (exists j :: i <= j < |t| && t[j]))
  {
    var first, last := FirstTouched(t), LastTouched(t);
    assert t[first] && t[last];
  }
}
