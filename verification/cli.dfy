/**
 * One round of the interactive command-line loop of `main.py`: the exit
 * command, symptom extraction, the first top-5 ranking, and the optional
 * refinement in which the user adds comma-separated symptom ids and gets a
 * top-3 ranking over the enlarged list.
 *
 * The two lines the user types are parameters, and sentence segmentation is a
 * function from the text to its sentences.
 */
module Cli {
  import opened Wrappers
  import opened Text
  import opened Tokens
  import opened KnowledgeBase
  import opened Extraction
  import opened Ranking
  import opened Reporting

  const FirstTopN: nat := 5
  const RefinedTopN: nat := 3

  /** One printed prediction; a missing common-symptom list prints as "N/A". */
  datatype ShownPrediction = ShownPrediction(disease: string, percent: real, common: Option<seq<string>>)

  /**
   * `print_predictions`: the first `topN` predictions, each with its sorted
   * common symptoms from the disease-to-symptoms mapping.
   */
  function ShowPredictions(preds: seq<Prediction>, dsd: map<string, seq<string>>, topN: nat): (r: seq<ShownPrediction>)
    ensures |r| <= topN && |r| <= |preds|
    ensures |r| == topN || |r| == |preds|
    ensures forall k :: 0 <= k < |r| ==>
      && r[k].disease == preds[k].disease && r[k].percent == preds[k].percent
      && (r[k].common.None? <==> preds[k].disease !in dsd)
      && (r[k].common.Some? ==>
            StringOrder.Sorted(r[k].common.value) && multiset(r[k].common.value) == multiset(dsd[preds[k].disease]))
    ensures Ranked(preds) ==> forall i, j :: 0 <= i < j < |r| ==> r[i].percent >= r[j].percent
  {
    var top := Top(preds, topN);
    seq(|top|, k requires 0 <= k < |top| =>
      ShownPrediction(top[k].disease, top[k].percent, CommonSymptoms(dsd, top[k].disease)))
  }

  predicate NoRepeats(s: seq<string>) {
    forall i, j :: 0 <= i < j < |s| ==> s[i] != s[j]
  }

  /**
   * Appends, in order, each extra id that is a known column and not yet in the
   * list; nothing already there moves or disappears.
   */
  function MergeExtras(detected: seq<string>, extras: seq<string>, columns: seq<string>): (r: seq<string>)
    ensures |detected| <= |r| && r[..|detected|] == detected
    ensures forall k :: |detected| <= k < |r| ==> r[k] in columns && r[k] in extras && r[k] !in detected
    ensures forall k, m :: |detected| <= k < m < |r| ==> r[k] != r[m]
    ensures forall s :: s in r <==> s in detected || (s in extras && s in columns)
    ensures NoRepeats(detected) ==> NoRepeats(r)
    ensures (forall s :: s in extras && s in columns ==> s in detected) ==> r == detected
  {
    if extras == [] then detected
    else
      var acc := MergeExtras(detected, extras[..|extras| - 1], columns);
      var s := extras[|extras| - 1];
      assert forall t :: t in extras <==> t in extras[..|extras| - 1] || t == s by {
        assert extras == extras[..|extras| - 1] + [s];
      }
      if s in columns && s !in acc then
        var r := acc + [s];
        assert r[..|detected|] == acc[..|detected|];
        assert forall i :: 0 <= i < |detected| ==> detected[i] == acc[i];
        r
      else acc
  }

  /** Some occurrence of `x` in `s` comes before every occurrence of `y`. */
  predicate ComesBefore(s: seq<string>, x: string, y: string) {
    exists j :: 0 <= j < |s| && s[j] == x && y !in s[..j]
  }

  lemma ComesBeforeInPrefix(s: seq<string>, n: nat, x: string, y: string)
    requires n <= |s| && ComesBefore(s[..n], x, y)
    ensures ComesBefore(s, x, y)
  {
    var j :| 0 <= j < n && s[..n][j] == x && y !in s[..n][..j];
    assert s[..n][..j] == s[..j];
  }

  lemma ComesBeforeLater(s: seq<string>, n: nat, x: string, y: string)
    requires n <= |s| && x in s[..n] && y !in s[..n]
    ensures ComesBefore(s, x, y)
  {
    var j :| 0 <= j < n && s[..n][j] == x;
    assert s[..j] == s[..n][..j];
    assert s[j] == x && y !in s[..j];
  }

  /**
   * The appended extras keep the order in which they were first typed: of two
   * appended ids, the earlier one was typed before any occurrence of the later.
   */
  lemma {:induction false} MergeExtrasKeepsTypedOrder(detected: seq<string>, extras: seq<string>, columns: seq<string>, k: nat, m: nat)
    requires |detected| <= k < m < |MergeExtras(detected, extras, columns)|
    ensures var r := MergeExtras(detected, extras, columns);
      ComesBefore(extras, r[k], r[m])
  {
    if extras != [] {
      var n := |extras| - 1;
      var init := extras[..n];
      var acc := MergeExtras(detected, init, columns);
      var s := extras[n];
      var r := MergeExtras(detected, extras, columns);
      if m < |acc| {
        assert r[k] == acc[k] && r[m] == acc[m];
        MergeExtrasKeepsTypedOrder(detected, init, columns, k, m);
        ComesBeforeInPrefix(extras, n, acc[k], acc[m]);
      } else {
        assert r == (if s in columns && s !in acc then acc + [s] else acc);
        assert s in columns && s !in acc;
        assert r[k] == acc[k] && r[m] == s;
        assert acc[k] in init;
        assert s !in init;
        ComesBeforeLater(extras, n, acc[k], s);
      }
    }
  }

  /** The refined list holds the same known ids as the old list plus the extras, so it ranks the same. */
  lemma MergeExtrasRanksUnion(c: Classifier, detected: seq<string>, extras: seq<string>, columns: seq<string>)
    ensures RankDiseases(c, columns, MergeExtras(detected, extras, columns)) == RankDiseases(c, columns, detected + extras)
  {
    RankingDependsOnKnownIds(c, columns, MergeExtras(detected, extras, columns), detected + extras);
  }

  /**
   * The refinement prompt: blank input skips re-prediction; otherwise the
   * input is split on commas, blank pieces are dropped, each piece is put in
   * symptom-id normal form, and the known new ids are appended.
   */
  function Refine(extraInput: string, detected: seq<string>, columns: seq<string>): (r: Option<seq<string>>)
    ensures r.None? <==> Strip(extraInput) == []
    ensures r.Some? ==> r.value == MergeExtras(detected, CleanTokens(extraInput), columns)
  {
    var extra := Strip(extraInput);
    if extra == [] then None
    else
      CleanTokensIgnoresOuterWhitespace(extraInput);
      Some(MergeExtras(detected, CleanTokens(extra), columns))
  }

  /**
   * The refined top-3 after the refinement prompt, or nothing when the input
   * is blank.
   */
  function RefinedPredictions(
    extraInput: string, ids: seq<string>, c: Classifier, columns: seq<string>, dsd: map<string, seq<string>>
  ): (r: Option<seq<ShownPrediction>>)
    ensures r.None? <==> Strip(extraInput) == []
    ensures r.Some? ==>
      r.value == ShowPredictions(RankDiseases(c, columns, ids + CleanTokens(extraInput)), dsd, RefinedTopN)
  {
    match Refine(extraInput, ids, columns)
    case None => None
    case Some(merged) =>
      MergeExtrasRanksUnion(c, ids, CleanTokens(extraInput), columns);
      Some(ShowPredictions(RankDiseases(c, columns, merged), dsd, RefinedTopN))
  }

  datatype Turn =
    | Goodbye
    | NothingDetected
    | Report(detected: seq<DetectedSymptom>, first: seq<ShownPrediction>, refined: Option<seq<ShownPrediction>>)

  function IsExitCommand(text: string): bool {
    Strip(Lower(text)) == "exit"
  }

  /**
   * One pass of the loop: `text` is the answer to "How are you feeling
   * today?" and `extraInput` the answer to the refinement prompt.
   */
  function CliTurn(
    text: string, segment: string -> seq<string>, extraInput: string,
    kb: KnowledgeBase, ratio: Scorer, c: Classifier, columns: seq<string>, dsd: map<string, seq<string>>
  ): (t: Turn)
    ensures t.Goodbye? <==> IsExitCommand(text)
    ensures t.NothingDetected? <==> !IsExitCommand(text) && Extract(kb, segment(text), ratio) == []
    ensures t.Report? ==> t.detected == DetectedSymptoms(kb, segment(text), ratio)
    ensures t.Report? ==>
      t.first == ShowPredictions(RankDiseases(c, columns, Ids(t.detected)), dsd, FirstTopN)
    ensures t.Report? ==> (t.refined.None? <==> Strip(extraInput) == [])
    ensures t.Report? && t.refined.Some? ==>
      t.refined.value ==
        ShowPredictions(RankDiseases(c, columns, Ids(t.detected) + CleanTokens(extraInput)), dsd, RefinedTopN)
    ensures t.Report? ==> |t.first| <= FirstTopN && (t.refined.Some? ==> |t.refined.value| <= RefinedTopN)
  {
    if IsExitCommand(text) then Goodbye
    else
      var detected := DetectedSymptoms(kb, segment(text), ratio);
      if detected == [] then NothingDetected
      else
        var ids := Ids(detected);
        Report(detected,
          ShowPredictions(RankDiseases(c, columns, ids), dsd, FirstTopN),
          RefinedPredictions(extraInput, ids, c, columns, dsd))
  }
}
