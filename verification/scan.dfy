/**
  Scans over an ordered row of touched flags: the lowest and highest touched
  index, and how many flags are set. Shared by the slider scan and the
  button detector.
 */
module Scan {

  /** Index of the lowest touched flag, or -1 when none is touched. */
  function FirstTouched(t: seq<bool>): (k: int)
    ensures -1 <= k < |t|
    ensures k == -1 <==> forall i :: 0 <= i < |t| ==> !t[i]
    ensures k != -1 ==> t[k] && forall i :: 0 <= i < k ==> !t[i]
    decreases |t|
  {
    if |t| == 0 then -1
    else if t[0] then 0
    else
      var k := FirstTouched(t[1..]);
      assert forall i :: 1 <= i < |t| ==> t[i] == t[1..][i - 1];
      if k == -1 then -1 else k + 1
  }

  /** Index of the highest touched flag, or -1 when none is touched. */
  function LastTouched(t: seq<bool>): (k: int)
    ensures -1 <= k < |t|
    ensures k == -1 <==> forall i :: 0 <= i < |t| ==> !t[i]
    ensures k != -1 ==> t[k] && forall i :: k < i < |t| ==> !t[i]
    decreases |t|
  {
    if |t| == 0 then -1
    else if t[|t| - 1] then |t| - 1
    else LastTouched(t[..|t| - 1])
  }

  /** The second loop of checkSliderStatus: one left-to-right pass that
      records whether anything is touched and the first and last touched
      index. */
  method ScanSlider(t: seq<bool>) returns (found: bool, first: int, last: int)
    ensures found <==> exists i :: 0 <= i < |t| && t[i]
    ensures first == FirstTouched(t) && last == LastTouched(t)
    ensures found ==> 0 <= first <= last < |t|
  {
    found, first, last := false, -1, -1;
    var i := 0;
    while i < |t|
      invariant 0 <= i <= |t|
      invariant !found ==> first == -1 && last == -1 && forall j :: 0 <= j < i ==> !t[j]
      invariant found ==> 0 <= first <= last < i && t[first] && t[last]
      invariant found ==> (forall j :: 0 <= j < first ==> !t[j]) && (forall j :: last < j < i ==> !t[j])
    {
      if t[i] {
        found := true;
        if first == -1 {
          first := i;
        }
        last := i;
      }
      i := i + 1;
    }
  }

  /** Number of touched flags. */
  function CountTouched(t: seq<bool>): (c: nat)
    ensures c <= |t|
    ensures c == 0 <==> forall i :: 0 <= i < |t| ==> !t[i]
    decreases |t|
  {
    if |t| == 0 then 0
    else CountTouched(t[..|t| - 1]) + (if t[|t| - 1] then 1 else 0)
  }

  /** Flag k is the only touched one. */
  predicate OnlyTouched(t: seq<bool>, k: int) {
    0 <= k < |t| && t[k] && forall i :: 0 <= i < |t| && i != k ==> !t[i]
  }

  /** Exactly one flag is set iff the count is one; that flag is then both
      the first and the last touched index. */
  lemma {:induction false} CountOneIsSingle(t: seq<bool>)
    ensures CountTouched(t) == 1 <==> OnlyTouched(t, LastTouched(t))
    ensures CountTouched(t) == 1 ==> FirstTouched(t) == LastTouched(t)
    decreases |t|
  {
    if |t| > 0 {
      var u := t[..|t| - 1];
      assert forall i :: 0 <= i < |u| ==> u[i] == t[i];
      CountOneIsSingle(u);
      if t[|t| - 1] {
        if CountTouched(t) == 1 {
          assert CountTouched(u) == 0;
        }
      } else {
        assert LastTouched(t) == LastTouched(u);
        if OnlyTouched(t, LastTouched(t)) {
          assert OnlyTouched(u, LastTouched(u));
        }
      }
    }
  }
}
