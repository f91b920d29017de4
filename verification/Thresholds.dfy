/** Rules that divide all weights among them. */
module Thresholds {
  import opened Debounce
  import opened Starfrit
  import opened StarfritRules

  predicate Increasing(ts: seq<real>) {
    && (forall i | 0 <= i < |ts| :: ts[i] > 0.0)
    && (forall i, j | 0 <= i < j < |ts| :: ts[i] < ts[j])
  }

  /** The rules (0,t1), (t1,t2), ..., (tm,0), one URL each; 0 stands for "no bound". */
  function Bands(ts: seq<real>, urls: seq<string>): seq<Rule>
    requires |urls| == |ts| + 1
  {
    seq(|urls|, i requires 0 <= i < |urls| =>
      Rule(if i == 0 then 0.0 else ts[i - 1], if i == |ts| then 0.0 else ts[i], urls[i]))
  }

  /** How many thresholds `w` has reached. */
  function BandOf(ts: seq<real>, w: real): (k: nat)
    ensures k <= |ts|
  {
    if ts == [] then 0
    else if w < ts[|ts| - 1] then BandOf(ts[..|ts| - 1], w) else |ts|
  }

  lemma {:induction false} BandBounds(ts: seq<real>, w: real)
    requires Increasing(ts)
    ensures var k := BandOf(ts, w);
            (k > 0 ==> ts[k - 1] <= w) && (k < |ts| ==> w < ts[k])
  {
    if ts != [] && w < ts[|ts| - 1] {
      BandBounds(ts[..|ts| - 1], w);
    }
  }

  lemma {:induction false} SelectedOnly(rules: seq<Rule>, w: real, k: nat)
    requires forall i | 0 <= i < |rules| :: Matches(rules[i], w) <==> i == k
    ensures Selected(rules, w) == if k < |rules| then [rules[k].url] else []
  {
    if rules != [] {
      SelectedOnly(rules[..|rules| - 1], w, k);
    }
  }

  /** Every weight falls to exactly one of the rules, the one of its band. */
  lemma ExactlyOneRule(ts: seq<real>, urls: seq<string>, w: real)
    requires Increasing(ts) && |urls| == |ts| + 1 && w > 0.0
    ensures forall i | 0 <= i < |urls| :: Matches(Bands(ts, urls)[i], w) <==> i == BandOf(ts, w)
    ensures Selected(Bands(ts, urls), w) == [urls[BandOf(ts, w)]]
  {
    BandBounds(ts, w);
    SelectedOnly(Bands(ts, urls), w, BandOf(ts, w));
  }

  /** With such rules every reported weight leads to exactly one request, to its band's URL. */
  lemma {:induction false} OneCallEach(ts: seq<real>, urls: seq<string>, weights: seq<nat>)
    requires Increasing(ts) && |urls| == |ts| + 1
    requires forall i | 0 <= i < |weights| :: weights[i] > 0
    ensures var calls := Calls(Bands(ts, urls), weights);
            && |calls| == |weights|
            && forall i | 0 <= i < |calls| :: calls[i] == Call(urls[BandOf(ts, Kg(weights[i]))], weights[i])
  {
    hide Bands, BandOf, Increasing, CallsFor, Kg;
    if weights != [] {
      var n := |weights| - 1;
      OneCallEach(ts, urls, weights[..n]);
      OneCall(ts, urls, weights[n]);
    }
  }

  lemma OneCall(ts: seq<real>, urls: seq<string>, weight: nat)
    requires Increasing(ts) && |urls| == |ts| + 1 && weight > 0
    ensures CallsFor(Bands(ts, urls), weight) == [Call(urls[BandOf(ts, Kg(weight))], weight)]
  {
    hide Bands, BandOf, Increasing, Selected;
    ExactlyOneRule(ts, urls, Kg(weight));
  }

  lemma {:induction false} PushesArePositive(h: seq<Weighing>)
    ensures forall i | 0 <= i < |Pushes(h)| :: Pushes(h)[i] > 0
  {
    if h != [] {
      PushesArePositive(h[..|h| - 1]);
    }
  }

  /** The service as a whole, with such rules: one request per report, and at least eleven
      weighings behind each request. */
  lemma RequestsAreEarned(ts: seq<real>, urls: seq<string>, h: seq<Weighing>)
    requires Increasing(ts) && |urls| == |ts| + 1
    ensures var calls := Calls(Bands(ts, urls), Pushes(h));
            && |calls| == |Pushes(h)| && 11 * |calls| <= |h|
            && forall i | 0 <= i < |calls| :: calls[i] == Call(urls[BandOf(ts, Kg(Pushes(h)[i]))], Pushes(h)[i])
  {
    hide Bands, BandOf, Increasing, Calls, Pushes, RunLength;
    PushesArePositive(h);
    OneCallEach(ts, urls, Pushes(h));
    ReportsAreEarned(h);
  }
}
