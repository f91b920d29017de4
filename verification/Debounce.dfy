/** When a run of equal weights becomes a measurement, as a property of whole histories. */
module Debounce {

  const SAMEVALUE_CNT := 10
  const TIMEOUT := 15

  /** An accepted frame: when it was read, and its weight in tenths of a kilogram. */
  datatype Weighing = Weighing(time: int, weight: nat)

  /** Weighing `i` continues the run of the one before. */
  predicate Linked(h: seq<Weighing>, i: nat)
    requires i < |h|
  {
    i > 0 && h[i].weight == h[i - 1].weight && h[i].time - h[i - 1].time <= TIMEOUT
  }

  /** Length of the run that the history ends with. */
  function RunLength(h: seq<Weighing>): nat {
    if h == [] then 0
    else if Linked(h, |h| - 1) then RunLength(h[..|h| - 1]) + 1
    else 1
  }

  /** Is the last weighing of `h` the one that is reported? */
  predicate Reports(h: seq<Weighing>) {
    h != [] && RunLength(h) == SAMEVALUE_CNT + 1 && h[|h| - 1].weight != 0
  }

  /** The weights reported over a history. */
  function Pushes(h: seq<Weighing>): seq<nat> {
    if h == [] then []
    else Pushes(h[..|h| - 1]) + if Reports(h) then [h[|h| - 1].weight] else []
  }

  /** It is the maximal final run: linked throughout, and not linked to what precedes it. */
  lemma {:induction false} RunIsMaximal(h: seq<Weighing>)
    requires h != []
    ensures var r := RunLength(h);
            && 1 <= r <= |h| && !Linked(h, |h| - r)
            && forall i | |h| - r < i < |h| :: Linked(h, i)
  {
    var n := |h| - 1;
    if Linked(h, n) {
      var init := h[..n];
      RunIsMaximal(init);
      forall i | |h| - RunLength(h) < i < n
        ensures Linked(h, i)
      {
        assert Linked(init, i);
      }
      assert !Linked(init, n - RunLength(init));
    }
  }

  /** Eleven weighings, none shared, stand behind every report. */
  lemma {:induction false} ReportsAreEarned(h: seq<Weighing>)
    ensures (SAMEVALUE_CNT + 1) * |Pushes(h)| + RunLength(h)
            <= |h| + if RunLength(h) > SAMEVALUE_CNT then SAMEVALUE_CNT + 1 else 0
    ensures (SAMEVALUE_CNT + 1) * |Pushes(h)| <= |h|
  {
    if h != [] {
      ReportsAreEarned(h[..|h| - 1]);
    }
  }

  lemma {:induction false} LinkedAlike(h: seq<Weighing>, i: nat, j: nat)
    requires i <= j < |h| && forall k | i < k <= j :: Linked(h, k)
    ensures h[i].weight == h[j].weight
  {
    if i < j {
      LinkedAlike(h, i, j - 1);
      assert Linked(h, j);
    }
  }

  /** The history ends with exactly eleven equal weights other than zero, each at most 15
      seconds after the one before it. */
  predicate Eleventh(h: seq<Weighing>)
    requires h != []
  {
    var n := |h| - 1;
    && h[n].weight != 0 && n >= 10
    && (forall i | n - 10 <= i < n :: h[i].weight == h[n].weight && h[i + 1].time - h[i].time <= 15)
    && (n > 10 ==> h[n - 11].weight != h[n].weight || h[n - 10].time - h[n - 11].time > 15)
  }

  lemma RunOfEleven(h: seq<Weighing>)
    requires h != [] && RunLength(h) == 11 && h[|h| - 1].weight != 0
    ensures Eleventh(h)
  {
    hide RunLength;
    var n := |h| - 1;
    RunIsMaximal(h);
    forall i | n - 10 <= i < n
      ensures h[i].weight == h[n].weight && h[i + 1].time - h[i].time <= 15
    {
      assert Linked(h, i + 1);
      LinkedAlike(h, i, n);
    }
    assert !Linked(h, n - 10);
  }

  lemma ElevenAreARun(h: seq<Weighing>)
    requires h != [] && Eleventh(h)
    ensures RunLength(h) == 11 && h[|h| - 1].weight != 0
  {
    hide RunLength;
    var n, r := |h| - 1, RunLength(h);
    RunIsMaximal(h);
    forall k | n - 10 < k <= n
      ensures Linked(h, k)
    {
      assert h[k - 1].weight == h[n].weight && h[k - 1 + 1].time - h[k - 1].time <= 15;
      assert k < n ==> h[k].weight == h[n].weight;
    }
    assert !Linked(h, n - 10);
  }

  /** A weight is reported when and only when it has come for the eleventh time in a row. */
  lemma ReportedWhenEleventh(h: seq<Weighing>)
    requires h != []
    ensures Pushes(h) == Pushes(h[..|h| - 1]) + if Eleventh(h) then [h[|h| - 1].weight] else []
  {
    hide RunLength, Eleventh;
    if Eleventh(h) {
      ElevenAreARun(h);
    } else if Reports(h) {
      RunOfEleven(h);
    }
  }

  lemma {:induction false} RunGrows(h: seq<Weighing>, i: nat, j: nat)
    requires i <= j < |h|
    requires forall k | i < k <= j :: Linked(h, k)
    ensures RunLength(h[..j + 1]) == RunLength(h[..i + 1]) + (j - i)
    decreases j
  {
    if i < j {
      RunGrows(h, i, j - 1);
      assert h[..j + 1][..j] == h[..j];
      assert Linked(h, j) && Linked(h[..j + 1], j);
    }
  }

  /** One report per run: between two reports a run ends, and the second run is at
      least eleven weighings long. */
  lemma OneReportPerRun(h: seq<Weighing>, i: nat, j: nat)
    requires i < j < |h| && Reports(h[..i + 1]) && Reports(h[..j + 1])
    ensures exists k | i < k <= j - SAMEVALUE_CNT :: !Linked(h, k)
  {
    var now := h[..j + 1];
    RunIsMaximal(now);
    var k := j - SAMEVALUE_CNT;
    assert !Linked(now, k) && !Linked(h, k);
    if k <= i {
      forall m | i < m <= j
        ensures Linked(h, m)
      {
        assert Linked(now, m);
      }
      RunGrows(h, i, j);
      assert false;
    }
  }

  // ---------- the three variables that implement it ----------

  /** `last_measurement`, `samevalue_count` and `last_measurement_date` after history `h`. */
  predicate Tracks(last: int, count: nat, date: int, h: seq<Weighing>) {
    if h == [] then last == -1 && count == 0
    else last == h[|h| - 1].weight && count + 1 == RunLength(h) && date == h[|h| - 1].time
  }
}
