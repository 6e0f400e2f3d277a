/** pages/2_analysis.py: snapping the slider's day count to one the OHLC
    endpoint accepts, and the colour of each volume bar. */
module AnalysisPage {
  import Api

  /** The day counts the OHLC endpoint accepts, in the order the page lists them. */
  const ValidDays: seq<int> := [1, 7, 14, 30, 90, 180, 365]

  function Abs(x: int): nat
  {
    if x < 0 then -x else x
  }

  /** Index of the element Python's `min(xs, key=lambda x: abs(x - target))` returns:
      min scans left to right and replaces its candidate only by a strictly
      smaller key, so the first closest element wins. */
  function FirstClosest(xs: seq<int>, target: int): (k: nat)
    requires xs != []
    ensures k < |xs|
    ensures forall j :: 0 <= j < |xs| ==> Abs(xs[k] - target) <= Abs(xs[j] - target)
    ensures forall j :: 0 <= j < k ==> Abs(xs[j] - target) > Abs(xs[k] - target)
  {
    if |xs| == 1 then 0
    else
      var best := FirstClosest(xs[..|xs| - 1], target);
      assert forall j :: 0 <= j < |xs| - 1 ==> xs[..|xs| - 1][j] == xs[j];
      if Abs(xs[|xs| - 1] - target) < Abs(xs[best] - target) then |xs| - 1 else best
  }

  /** The two properties single out one index: the first among the closest. */
  lemma FirstClosestUnique(xs: seq<int>, target: int, k: nat)
    requires xs != [] && k < |xs|
    requires forall j :: 0 <= j < |xs| ==> Abs(xs[k] - target) <= Abs(xs[j] - target)
    requires forall j :: 0 <= j < k ==> Abs(xs[j] - target) > Abs(xs[k] - target)
    ensures k == FirstClosest(xs, target)
  {
    var b := FirstClosest(xs, target);
  }

  /** `days = min(valid_days, key=lambda x: abs(x - raw_days))`. */
  function NearestValidDays(raw: int): (d: int)
    // an accepted day count, and none is strictly closer to the slider's value
    ensures d in ValidDays
    ensures forall x :: x in ValidDays ==> Abs(d - raw) <= Abs(x - raw)
  {
    var k := FirstClosest(ValidDays, raw);
    assert forall x :: x in ValidDays ==> exists j :: 0 <= j < |ValidDays| && ValidDays[j] == x;
    ValidDays[k]
  }

  /** Ties go to the smaller day count: every accepted one below the choice is
      strictly farther. */
  lemma NearestValidDaysTieBreak(raw: int)
    ensures forall j :: 0 <= j < |ValidDays| && ValidDays[j] < NearestValidDays(raw) ==>
              Abs(ValidDays[j] - raw) > Abs(NearestValidDays(raw) - raw)
  {
    assert forall a, b :: 0 <= a <= b < |ValidDays| ==> ValidDays[a] <= ValidDays[b];
  }

  /** An accepted day count is kept as it is. */
  lemma NearestValidDaysFixesValid(raw: int)
    requires raw in ValidDays
    ensures NearestValidDays(raw) == raw
  {
    var k := FirstClosest(ValidDays, raw);
    var i :| 0 <= i < |ValidDays| && ValidDays[i] == raw;
    assert Abs(ValidDays[k] - raw) <= Abs(ValidDays[i] - raw) == 0;
  }

  /** The chosen day count lies in the slider's range 1..365. */
  lemma NearestValidDaysInRange(raw: int)
    ensures 1 <= NearestValidDays(raw) <= 365
  {
  }

  /** 22 is 8 away from both 14 and 30; the earlier, 14, is chosen. */
  lemma NearestValidDaysTie()
    ensures NearestValidDays(22) == 14
  {
    FirstClosestUnique(ValidDays, 22, 2);
  }

  datatype Colour = Green | Red

  /** `'green' if c >= o else 'red'`. */
  function BarColour(c: Api.Candle): Colour
  {
    if c.close >= c.open then Green else Red
  }

  /** One colour per row of the merged frame, in order. */
  function BarColours(df: seq<Api.Candle>): (r: seq<Colour>)
    ensures |r| == |df|
    ensures forall i :: 0 <= i < |df| ==> (r[i] == Green <==> df[i].close >= df[i].open)
    ensures forall i :: 0 <= i < |df| ==> (r[i] == Red <==> df[i].close < df[i].open)
  {
    seq(|df|, i requires 0 <= i < |df| => BarColour(df[i]))
  }
}
