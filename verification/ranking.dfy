/**
 * Turning a set of symptom ids into a ranked list of diseases: the 0/1
 * presence vector over the classifier's symptom columns, the classifier's
 * per-class probabilities sorted highest first (`probs.argsort()[::-1]`),
 * the top-N slice, and the sorted "common symptoms" of a disease.
 *
 * The trained classifier is opaque: it is a function from a presence vector to
 * one probability per class, together with the label encoder's class names.
 */
module Ranking {
  import opened Wrappers
  import StableSort
  import StringOrder

  // ---------------------------------------------------------------------------
  // Presence vector

  /** Sets to 1 every slot whose column is `s`; a value that is not a column changes nothing. */
  function Mark(v: seq<int>, columns: seq<string>, s: string): seq<int>
    requires |v| == |columns|
  {
    seq(|v|, j requires 0 <= j < |v| => if columns[j] == s then 1 else v[j])
  }

  /**
   * A row of zeros over `columns`, then a 1 at the column of each id that is a
   * column; ids that are not columns are ignored.
   */
  function PresenceVector(columns: seq<string>, ids: seq<string>): (v: seq<int>)
    ensures |v| == |columns|
    ensures forall j :: 0 <= j < |v| ==> v[j] == (if columns[j] in ids then 1 else 0)
  {
    if ids == [] then seq(|columns|, _ => 0)
    else
      var v0 := PresenceVector(columns, ids[..|ids| - 1]);
      assert forall t :: t in ids <==> t in ids[..|ids| - 1] || t == ids[|ids| - 1] by {
        assert ids == ids[..|ids| - 1] + [ids[|ids| - 1]];
      }
      Mark(v0, columns, ids[|ids| - 1])
  }

  /** Only which columns were named matters: not the order, repeats or unknown ids. */
  lemma PresenceDependsOnKnownIds(columns: seq<string>, ids1: seq<string>, ids2: seq<string>)
    requires forall j :: 0 <= j < |columns| ==> (columns[j] in ids1 <==> columns[j] in ids2)
    ensures PresenceVector(columns, ids1) == PresenceVector(columns, ids2)
  {
    var a := PresenceVector(columns, ids1);
    var b := PresenceVector(columns, ids2);
    assert |a| == |b|;
    forall j | 0 <= j < |a| ensures a[j] == b[j] {
    }
  }

  // ---------------------------------------------------------------------------
  // Classifier and ranking

  /**
   * The trained model with its label encoder: `classes[i]` is the disease name
   * of class `i`, and `proba` gives one probability per class.
   */
  datatype ClassifierModel = ClassifierModel(classes: seq<string>, proba: seq<int> -> seq<real>)

  ghost predicate WellShaped(c: ClassifierModel) {
    forall v :: |c.proba(v)| == |c.classes|
  }

  type Classifier = c: ClassifierModel | WellShaped(c) witness ClassifierModel([], v => [])

  /** The class indices `n - 1, ..., 1, 0`. */
  function Descending(n: nat): seq<nat> {
    seq(n, k requires 0 <= k < n => n - 1 - k)
  }

  function ProbabilityKey(probs: seq<real>): nat -> real {
    (i: nat) => if i < |probs| then probs[i] else 0.0
  }

  function NegatedIndex(i: nat): int {
    -(i as int)
  }

  /**
   * `probs.argsort()[::-1]`: the class indices ordered by probability, highest
   * first. An ascending stable sort reversed lists equal probabilities from the
   * highest class index down, which is what sorting the reversed indices stably
   * into non-increasing order gives.
   */
  function RankClasses(probs: seq<real>): (r: seq<nat>)
    ensures |r| == |probs|
    ensures forall k :: 0 <= k < |r| ==> r[k] < |probs|
    ensures forall c :: 0 <= c < |probs| ==> c in r
    ensures forall i, j :: 0 <= i < j < |r| ==> r[i] != r[j]
    ensures forall i, j :: 0 <= i < j < |r| ==> probs[r[i]] >= probs[r[j]]
  {
    var d := Descending(|probs|);
    var r := StableSort.SortDescending(d, ProbabilityKey(probs));
    RankClassesFacts(probs, d, r);
    r
  }

  lemma RankClassesFacts(probs: seq<real>, d: seq<nat>, r: seq<nat>)
    requires d == Descending(|probs|)
    requires multiset(r) == multiset(d)
    requires StableSort.NonIncreasing(r, ProbabilityKey(probs))
    ensures |r| == |probs|
    ensures forall k :: 0 <= k < |r| ==> r[k] < |probs|
    ensures forall c :: 0 <= c < |probs| ==> c in r
    ensures forall i, j :: 0 <= i < j < |r| ==> r[i] != r[j]
    ensures forall i, j :: 0 <= i < j < |r| ==> probs[r[i]] >= probs[r[j]]
  {
    assert |r| == |multiset(r)| == |multiset(d)| == |d|;
    forall k | 0 <= k < |r| ensures r[k] < |probs| {
      assert r[k] in multiset(r);
      assert r[k] in d;
    }
    forall c | 0 <= c < |probs| ensures c in r {
      assert d[|probs| - 1 - c] == c;
      assert c in multiset(d);
    }
    StableSort.PermutationKeepsDistinct(d, r);
    forall i, j | 0 <= i < j < |r| ensures probs[r[i]] >= probs[r[j]] {
      assert ProbabilityKey(probs)(r[i]) >= ProbabilityKey(probs)(r[j]);
    }
  }

  /** Equal probabilities are listed from the highest class index down. */
  lemma RankClassesTiesByIndex(probs: seq<real>)
    ensures var r := RankClasses(probs);
      forall i, j :: 0 <= i < j < |r| && probs[r[i]] == probs[r[j]] ==> r[i] > r[j]
  {
    var d := Descending(|probs|);
    var key := ProbabilityKey(probs);
    assert StableSort.IncreasingBy(d, NegatedIndex) by {
      forall i, j | 0 <= i < j < |d| ensures NegatedIndex(d[i]) < NegatedIndex(d[j]) {
      }
    }
    StableSort.SortDescendingIsStable(d, key, NegatedIndex);
    var r := RankClasses(probs);
    assert r == StableSort.SortDescending(d, key);
    forall i, j | 0 <= i < j < |r| && probs[r[i]] == probs[r[j]] ensures r[i] > r[j] {
      assert key(r[i]) == key(r[j]);
      assert NegatedIndex(r[i]) < NegatedIndex(r[j]);
    }
  }

  /** One ranked disease: its name and its probability scaled to a percentage. */
  datatype Prediction = Prediction(disease: string, percent: real)

  predicate Ranked(preds: seq<Prediction>) {
    forall i, j :: 0 <= i < j < |preds| ==> preds[i].percent >= preds[j].percent
  }

  /** `model.predict_proba([input_vector])[0]` */
  function Probabilities(c: Classifier, columns: seq<string>, ids: seq<string>): seq<real> {
    c.proba(PresenceVector(columns, ids))
  }

  function ClassPrediction(c: Classifier, probs: seq<real>, i: nat): Prediction
    requires i < |c.classes| == |probs|
  {
    Prediction(c.classes[i], 100.0 * probs[i])
  }

  /** `p` is one of the classes, named and scaled. */
  predicate IsClassPrediction(c: Classifier, probs: seq<real>, p: Prediction)
    requires |probs| == |c.classes|
  {
    exists i :: 0 <= i < |c.classes| && p == ClassPrediction(c, probs, i)
  }

  lemma ClassPredictionIsOne(c: Classifier, probs: seq<real>, i: nat)
    requires i < |c.classes| == |probs|
    ensures IsClassPrediction(c, probs, ClassPrediction(c, probs, i))
  {
  }

  /**
   * `predict_disease`: the presence vector of `ids`, the classifier's
   * probabilities for it, and every class named and scaled, highest first.
   */
  function RankDiseases(c: Classifier, columns: seq<string>, ids: seq<string>): (r: seq<Prediction>)
    ensures |r| == |c.classes|
    ensures Ranked(r)
    ensures forall i :: 0 <= i < |c.classes| ==> ClassPrediction(c, Probabilities(c, columns, ids), i) in r
    ensures forall k :: 0 <= k < |r| ==> IsClassPrediction(c, Probabilities(c, columns, ids), r[k])
  {
    var probs := Probabilities(c, columns, ids);
    var order := RankClasses(probs);
    var r := seq(|order|, k requires 0 <= k < |order| => ClassPrediction(c, probs, order[k]));
    PredictionsInOrder(c, probs, order, r);
    r
  }

  /** Naming and scaling the classes in ranked order keeps every class and the order. */
  lemma PredictionsInOrder(c: Classifier, probs: seq<real>, order: seq<nat>, r: seq<Prediction>)
    requires |probs| == |c.classes| == |order| == |r|
    requires forall k :: 0 <= k < |order| ==> order[k] < |probs|
    requires forall i :: 0 <= i < |probs| ==> i in order
    requires forall i, j :: 0 <= i < j < |order| ==> probs[order[i]] >= probs[order[j]]
    requires forall k :: 0 <= k < |r| ==> r[k] == ClassPrediction(c, probs, order[k])
    ensures Ranked(r)
    ensures forall i :: 0 <= i < |c.classes| ==> ClassPrediction(c, probs, i) in r
    ensures forall k :: 0 <= k < |r| ==> IsClassPrediction(c, probs, r[k])
  {
    forall i | 0 <= i < |c.classes| ensures ClassPrediction(c, probs, i) in r {
      assert i in order;
      var k :| 0 <= k < |order| && order[k] == i;
      assert r[k] == ClassPrediction(c, probs, i);
    }
    forall k | 0 <= k < |r| ensures IsClassPrediction(c, probs, r[k]) {
      ClassPredictionIsOne(c, probs, order[k]);
    }
    forall i, j | 0 <= i < j < |r| ensures r[i].percent >= r[j].percent {
      assert probs[order[i]] >= probs[order[j]];
      assert r[i] == ClassPrediction(c, probs, order[i]) && r[j] == ClassPrediction(c, probs, order[j]);
    }
  }

  /** Ids that are not columns, repeats and order do not change the ranking. */
  lemma RankingDependsOnKnownIds(c: Classifier, columns: seq<string>, ids1: seq<string>, ids2: seq<string>)
    requires forall j :: 0 <= j < |columns| ==> (columns[j] in ids1 <==> columns[j] in ids2)
    ensures RankDiseases(c, columns, ids1) == RankDiseases(c, columns, ids2)
  {
    PresenceDependsOnKnownIds(columns, ids1, ids2);
  }

  /** `predictions[:n]`: the first `n` entries, or all of them when there are fewer. */
  function Top(preds: seq<Prediction>, n: nat): (r: seq<Prediction>)
    ensures |r| <= n && |r| <= |preds|
    ensures |r| == n || |r| == |preds|
    ensures r == preds[..|r|]
    ensures Ranked(preds) ==> Ranked(r)
    ensures Ranked(preds) ==>
      forall i, j :: 0 <= i < |r| <= j < |preds| ==> r[i].percent >= preds[j].percent
  {
    if n < |preds| then preds[..n] else preds
  }

  // ---------------------------------------------------------------------------
  // Common symptoms

  /**
   * `sorted(list(disease_symptom_dict.get(disease, [])))` when the disease is a
   * key, and nothing (shown as "N/A") when it is not.
   */
  function CommonSymptoms(dsd: map<string, seq<string>>, disease: string): (r: Option<seq<string>>)
    ensures r.None? <==> disease !in dsd
    ensures r.Some? ==> StringOrder.Sorted(r.value) && multiset(r.value) == multiset(dsd[disease])
  {
    if disease in dsd then Some(StringOrder.SortStrings(dsd[disease])) else None
  }

  /**
   * The stored list order does not matter: two mappings whose entries for the
   * disease hold the same names, repeats counted, show the same sorted list.
   */
  lemma CommonSymptomsIgnoreListOrder(dsd1: map<string, seq<string>>, dsd2: map<string, seq<string>>, disease: string)
    requires disease in dsd1 && disease in dsd2
    requires multiset(dsd1[disease]) == multiset(dsd2[disease])
    ensures CommonSymptoms(dsd1, disease) == CommonSymptoms(dsd2, disease)
  {
    StringOrder.SortedArrangementIsUnique(CommonSymptoms(dsd1, disease).value, CommonSymptoms(dsd2, disease).value);
  }

  /** The sorted mapping entry for a disease, or an empty list when it has none. */
  function CommonSymptomsOrEmpty(dsd: map<string, seq<string>>, disease: string): (r: seq<string>)
    ensures StringOrder.Sorted(r)
    ensures disease in dsd ==> multiset(r) == multiset(dsd[disease])
    ensures disease !in dsd ==> r == []
  {
    CommonSymptoms(dsd, disease).GetOr([])
  }
}
