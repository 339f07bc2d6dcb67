/** `probs_to_preds` and the row bookkeeping of `test_model_thresholds`
    (`API/model/model_evaluation.py` and its duplicate `model_evaluation.py`).
    The metrics — accuracy, ROC AUC, the upset share and their rounding to
    three places — are one uninterpreted function of the predictions. */
module Evaluation {

  import opened Tables
  import opened Dedupe

  /** Upset predictions at threshold `thresh`: strictly above it is an
      upset. */
  function ProbsToPreds(probs: seq<real>, thresh: real): (r: seq<Bit>)
    ensures |r| == |probs|
    ensures forall i :: 0 <= i < |probs| ==> (r[i] == 1 <==> probs[i] > thresh)
  {
    if |probs| == 0 then []
    else [if probs[0] > thresh then 1 else 0] + ProbsToPreds(probs[1..], thresh)
  }

  /** Raising the threshold never turns a 0 into a 1. */
  lemma PredsMonotone(probs: seq<real>, lo: real, hi: real, i: nat)
    requires lo <= hi && i < |probs|
    ensures ProbsToPreds(probs, hi)[i] <= ProbsToPreds(probs, lo)[i]
  {
  }

  function Ones(s: seq<Bit>): (n: nat)
    ensures n <= |s|
  {
    if |s| == 0 then 0 else s[0] + Ones(s[1..])
  }

  /** So the predicted upset count (`np.mean(preds)` times the game count)
      never grows with the threshold. */
  lemma {:induction false} UpsetsMonotone(probs: seq<real>, lo: real, hi: real)
    requires lo <= hi
    ensures Ones(ProbsToPreds(probs, hi)) <= Ones(ProbsToPreds(probs, lo))
  {
    if |probs| > 0 {
      UpsetsMonotone(probs[1..], lo, hi);
    }
  }

  /** One row of the performance table: the three rounded metrics. */
  datatype Perf = Perf(accuracy: real, auc: real, upsets: real)

  /** A row labelled by its threshold. */
  type Entry = (real, Perf)

  function Labels(tab: seq<Entry>): (r: seq<real>)
    ensures |r| == |tab|
    ensures forall i :: 0 <= i < |tab| ==> r[i] == tab[i].0
  {
    seq(|tab|, i requires 0 <= i < |tab| => tab[i].0)
  }

  /** `performances.loc[k] = v`: overwrite every row labelled `k`, or
      append a new row when there is none. */
  function Upsert(tab: seq<Entry>, k: real, v: Perf): (r: seq<Entry>)
    ensures Labels(r) == if k in Labels(tab) then Labels(tab) else Labels(tab) + [k]
    ensures forall i :: 0 <= i < |r| ==> r[i] == if i < |tab| && tab[i].0 != k then tab[i] else (k, v)
  {
    if k in Labels(tab) then
      seq(|tab|, i requires 0 <= i < |tab| => if tab[i].0 == k then (k, v) else tab[i])
    else tab + [(k, v)]
  }

  /** Every row holds the metrics at its own threshold. */
  predicate Scored(tab: seq<Entry>, probs: seq<real>, score: seq<Bit> -> Perf) {
    forall i :: 0 <= i < |tab| ==> tab[i].1 == score(ProbsToPreds(probs, tab[i].0))
  }

  lemma UpsertKeeps(tab: seq<Entry>, probs: seq<real>, score: seq<Bit> -> Perf, k: real)
    requires Distinct(Labels(tab)) && Scored(tab, probs, score)
    ensures var r := Upsert(tab, k, score(ProbsToPreds(probs, k)));
      Distinct(Labels(r)) && Scored(r, probs, score)
  {
    var r := Upsert(tab, k, score(ProbsToPreds(probs, k)));
    assert Labels(r) == if k in Labels(tab) then Labels(tab) else Labels(tab) + [k];
  }

  /** The position where `x` first occurs in `s`. */
  function FirstIndex(s: seq<real>, x: real): (i: nat)
    requires x in s
    ensures i < |s| && s[i] == x && forall j :: 0 <= j < i ==> s[j] != x
  {
    if s[0] == x then 0 else 1 + FirstIndex(s[1..], x)
  }

  /** Appending to a sequence leaves the first occurrence of an element
      already present where it was. */
  lemma FirstIndexSnoc(front: seq<real>, k: real, x: real)
    requires x in front
    ensures FirstIndex(front + [k], x) == FirstIndex(front, x)
  {
    var j := FirstIndex(front, x);
    assert (front + [k])[j] == x;
  }

  /** The table the loop builds: one row per distinct threshold, in order of
      first appearance, each holding the metrics at that threshold. */
  function Performances(threshs: seq<real>, probs: seq<real>, score: seq<Bit> -> Perf): (r: seq<Entry>)
    ensures Distinct(Labels(r))
    ensures forall x :: x in Labels(r) <==> x in threshs
    ensures Scored(r, probs, score)
    ensures forall a, b :: 0 <= a < b < |r| ==> r[a].0 in threshs && r[b].0 in threshs && FirstIndex(threshs, r[a].0) < FirstIndex(threshs, r[b].0)
  {
    if |threshs| == 0 then []
    else
      var front := threshs[..|threshs| - 1];
      var k := threshs[|threshs| - 1];
      assert threshs == front + [k];
      var tab := Performances(front, probs, score);
      UpsertKeeps(tab, probs, score, k);
      UpsertFollowsFirst(tab, front, k, score(ProbsToPreds(probs, k)));
      Upsert(tab, k, score(ProbsToPreds(probs, k)))
  }

  /** Storing threshold `k` keeps a table's rows in order of first
      appearance once `k` is given after the others. */
  lemma UpsertFollowsFirst(tab: seq<Entry>, front: seq<real>, k: real, v: Perf)
    requires forall x :: x in Labels(tab) <==> x in front
    requires forall a, b :: 0 <= a < b < |tab| ==> tab[a].0 in front && tab[b].0 in front && FirstIndex(front, tab[a].0) < FirstIndex(front, tab[b].0)
    ensures var r, s := Upsert(tab, k, v), front + [k];
      forall a, b :: 0 <= a < b < |r| ==> r[a].0 in s && r[b].0 in s && FirstIndex(s, r[a].0) < FirstIndex(s, r[b].0)
  {
    var r, s := Upsert(tab, k, v), front + [k];
    forall a | 0 <= a < |tab|
      ensures tab[a].0 in front && FirstIndex(s, tab[a].0) == FirstIndex(front, tab[a].0)
    {
      assert Labels(tab)[a] in front;
      FirstIndexSnoc(front, k, tab[a].0);
    }
    assert k !in front ==> FirstIndex(s, k) == |front|;
    assert forall a :: 0 <= a < |tab| ==> r[a].0 == tab[a].0;
  }

  /** On distinct thresholds the table holds one row per threshold, in the
      order given. */
  lemma {:induction false} PerformancesInOrder(threshs: seq<real>, probs: seq<real>, score: seq<Bit> -> Perf)
    requires Distinct(threshs)
    ensures Labels(Performances(threshs, probs, score)) == threshs
  {
    if |threshs| > 0 {
      var front := threshs[..|threshs| - 1];
      var k := threshs[|threshs| - 1];
      assert threshs == front + [k];
      PerformancesInOrder(front, probs, score);
      assert k !in front by {
        forall j | 0 <= j < |front| ensures front[j] != k {
          assert threshs[j] == front[j];
        }
      }
    }
  }

  function MetricPair(e: Entry): (real, real) {
    (e.1.accuracy, e.1.auc)
  }

  /** `test_model_thresholds`: the performance table with rows of equal
      (Accuracy, AUC) collapsed onto the last of them. */
  function ThresholdTable(threshs: seq<real>, probs: seq<real>, score: seq<Bit> -> Perf): (r: seq<Entry>)
    ensures forall a, b :: 0 <= a < b < |r| ==> MetricPair(r[a]) != MetricPair(r[b])
    ensures Scored(r, probs, score) && forall i :: 0 <= i < |r| ==> r[i].0 in threshs
    ensures forall t :: t in threshs ==> exists j :: 0 <= j < |r| && MetricPair(r[j]) == MetricPair((t, score(ProbsToPreds(probs, t))))
  {
    var tab := Performances(threshs, probs, score);
    ThresholdRows(tab, threshs, probs, score);
    ThresholdPairs(tab, threshs, probs, score);
    KeepLast(tab, MetricPair)
  }

  lemma ThresholdRows(tab: seq<Entry>, threshs: seq<real>, probs: seq<real>, score: seq<Bit> -> Perf)
    requires Scored(tab, probs, score) && forall x :: x in Labels(tab) ==> x in threshs
    ensures var r := KeepLast(tab, MetricPair);
      Scored(r, probs, score) && forall i :: 0 <= i < |r| ==> r[i].0 in threshs
  {
    var r := KeepLast(tab, MetricPair);
    KeptFrom(tab, MetricPair);
    forall i | 0 <= i < |r|
      ensures r[i].1 == score(ProbsToPreds(probs, r[i].0)) && r[i].0 in threshs
    {
      assert r[i] in r;
      ScoredEntry(tab, probs, score, r[i]);
    }
  }

  /** An entry found in a scored table holds the metrics at its own
      threshold, and its threshold is one of the table's labels. */
  lemma ScoredEntry(tab: seq<Entry>, probs: seq<real>, score: seq<Bit> -> Perf, e: Entry)
    requires Scored(tab, probs, score) && exists m :: 0 <= m < |tab| && tab[m] == e
    ensures e.1 == score(ProbsToPreds(probs, e.0)) && e.0 in Labels(tab)
  {
    var m :| 0 <= m < |tab| && tab[m] == e;
    assert Labels(tab)[m] == e.0;
  }

  lemma ThresholdPairs(tab: seq<Entry>, threshs: seq<real>, probs: seq<real>, score: seq<Bit> -> Perf)
    requires Scored(tab, probs, score) && forall x :: x in threshs ==> x in Labels(tab)
    ensures var r := KeepLast(tab, MetricPair);
      forall t :: t in threshs ==> exists j :: 0 <= j < |r| && MetricPair(r[j]) == MetricPair((t, score(ProbsToPreds(probs, t))))
  {
    var r := KeepLast(tab, MetricPair);
    forall t | t in threshs
      ensures exists j :: 0 <= j < |r| && MetricPair(r[j]) == MetricPair((t, score(ProbsToPreds(probs, t))))
    {
      var i :| 0 <= i < |tab| && Labels(tab)[i] == t;
      assert MetricPair(tab[i]) == MetricPair((t, score(ProbsToPreds(probs, t))));
    }
  }

  /** Each surviving row is the last row of the performance table with its
      (Accuracy, AUC). */
  lemma ThresholdKeepsLast(threshs: seq<real>, probs: seq<real>, score: seq<Bit> -> Perf, j: nat)
    requires j < |ThresholdTable(threshs, probs, score)|
    ensures exists i :: LastOfKey(Performances(threshs, probs, score), MetricPair, ThresholdTable(threshs, probs, score)[j], i)
  {
    KeepLastAt(Performances(threshs, probs, score), MetricPair, j);
  }

  /** So a surviving row belongs to a given threshold, and no threshold
      first given after it scores the same (Accuracy, AUC). */
  lemma ThresholdKeepsLastThreshold(threshs: seq<real>, probs: seq<real>, score: seq<Bit> -> Perf, j: nat)
    requires j < |ThresholdTable(threshs, probs, score)|
    ensures var e := ThresholdTable(threshs, probs, score)[j];
      && e.0 in threshs && e.1 == score(ProbsToPreds(probs, e.0))
      && forall t :: t in threshs && FirstIndex(threshs, t) > FirstIndex(threshs, e.0) ==>
           MetricPair((t, score(ProbsToPreds(probs, t)))) != MetricPair(e)
  {
    var p := Performances(threshs, probs, score);
    var e := ThresholdTable(threshs, probs, score)[j];
    ThresholdKeepsLast(threshs, probs, score, j);
    var i :| LastOfKey(p, MetricPair, e, i);
    LaterThresholdsDiffer(p, threshs, probs, score, e, i);
  }

  /** In a scored table whose rows follow the thresholds' first
      appearances, a row no later row shares its (Accuracy, AUC) with
      differs in that pair from every threshold given after its own. */
  lemma LaterThresholdsDiffer(p: seq<Entry>, threshs: seq<real>, probs: seq<real>, score: seq<Bit> -> Perf, e: Entry, i: int)
    requires LastOfKey(p, MetricPair, e, i) && Scored(p, probs, score)
    requires forall x :: x in Labels(p) <==> x in threshs
    requires forall a, b :: 0 <= a < b < |p| ==> p[a].0 in threshs && p[b].0 in threshs && FirstIndex(threshs, p[a].0) < FirstIndex(threshs, p[b].0)
    ensures e.0 in threshs && e.1 == score(ProbsToPreds(probs, e.0))
    ensures forall t :: t in threshs && FirstIndex(threshs, t) > FirstIndex(threshs, e.0) ==>
      MetricPair((t, score(ProbsToPreds(probs, t)))) != MetricPair(e)
  {
    assert Labels(p)[i] == e.0;
    forall t | t in threshs && FirstIndex(threshs, t) > FirstIndex(threshs, e.0)
      ensures MetricPair((t, score(ProbsToPreds(probs, t)))) != MetricPair(e)
    {
      assert t in Labels(p);
      var i' :| 0 <= i' < |p| && Labels(p)[i'] == t;
      assert p[i'] == (t, score(ProbsToPreds(probs, t)));
      assert i' > i;
    }
  }

}
