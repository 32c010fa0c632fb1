/**
 * The second, self-contained front end (`Dataset2/main.py`): a 0/1 dataset
 * with one column per symptom, the disease-to-symptoms lists derived by
 * grouping rows by disease, the numbered symptom listing printed four to a
 * line, and one round of the prompt, which ranks the ten most probable diseases
 * for the comma-separated symptoms typed in.
 */
module Dataset2 {
  import opened Wrappers
  import opened Tokens
  import opened Ranking
  import Vocabulary

  /** A dataset row: its disease and one flag per symptom column; a missing flag is `None`. */
  datatype FlagRow = FlagRow(disease: string, flags: seq<Option<int>>)

  /** `fillna(0)` */
  function Flag(c: Option<int>): int {
    c.GetOr(0)
  }

  predicate HasColumn(rows: seq<FlagRow>, j: nat) {
    forall i :: 0 <= i < |rows| ==> j < |rows[i].flags|
  }

  // ---------------------------------------------------------------------------
  // Disease-to-symptoms lists

  /** `group[s].sum()`: the total of column `j` over the rows of `disease`. */
  function ColumnSum(rows: seq<FlagRow>, disease: string, j: nat): int
    requires HasColumn(rows, j)
  {
    if rows == [] then 0
    else
      var n := |rows|;
      ColumnSum(rows[..n - 1], disease, j) + (if rows[n - 1].disease == disease then Flag(rows[n - 1].flags[j]) else 0)
  }

  /** On 0/1 data a column's total for a disease is positive exactly when one of its rows has the flag set. */
  lemma {:induction false} PositiveSumIffFlagged(rows: seq<FlagRow>, disease: string, j: nat)
    requires HasColumn(rows, j)
    requires forall i :: 0 <= i < |rows| ==> Flag(rows[i].flags[j]) == 0 || Flag(rows[i].flags[j]) == 1
    ensures ColumnSum(rows, disease, j) >= 0
    ensures ColumnSum(rows, disease, j) > 0 <==>
      exists i :: 0 <= i < |rows| && rows[i].disease == disease && Flag(rows[i].flags[j]) == 1
  {
    if rows != [] {
      var n := |rows|;
      var init := rows[..n - 1];
      assert forall i :: 0 <= i < n - 1 ==> init[i] == rows[i];
      PositiveSumIffFlagged(init, disease, j);
      if exists i :: 0 <= i < n && rows[i].disease == disease && Flag(rows[i].flags[j]) == 1 {
        var i :| 0 <= i < n && rows[i].disease == disease && Flag(rows[i].flags[j]) == 1;
        if i < n - 1 {
          assert init[i].disease == disease && Flag(init[i].flags[j]) == 1;
        }
      }
    }
  }

  /** The column indices below `m` whose total for `disease` is positive, in column order. */
  function GroupIndices(rows: seq<FlagRow>, disease: string, m: nat): (r: seq<nat>)
    requires forall j :: 0 <= j < m ==> HasColumn(rows, j)
    ensures forall k :: 0 <= k < |r| ==> r[k] < m && ColumnSum(rows, disease, r[k]) > 0
    ensures forall j :: 0 <= j < m && ColumnSum(rows, disease, j) > 0 ==> j in r
    ensures forall a, b :: 0 <= a < b < |r| ==> r[a] < r[b]
  {
    if m == 0 then []
    else
      var init := GroupIndices(rows, disease, m - 1);
      if ColumnSum(rows, disease, m - 1) > 0 then init + [m - 1] else init
  }

  /** `[s for s in symptoms if group[s].sum() > 0]` */
  function GroupSymptoms(rows: seq<FlagRow>, symptoms: seq<string>, disease: string): (r: seq<string>)
    requires forall j :: 0 <= j < |symptoms| ==> HasColumn(rows, j)
  {
    var idx := GroupIndices(rows, disease, |symptoms|);
    seq(|idx|, k requires 0 <= k < |idx| => symptoms[idx[k]])
  }

  function RowDiseases(rows: seq<FlagRow>): set<string> {
    set i | 0 <= i < |rows| :: rows[i].disease
  }

  /**
   * `diseaseSymptomDict`: one entry per disease that labels a row, listing in
   * column order exactly the columns with a positive total for it.
   */
  function GroupMap(rows: seq<FlagRow>, symptoms: seq<string>): (r: map<string, seq<string>>)
    requires forall j :: 0 <= j < |symptoms| ==> HasColumn(rows, j)
    ensures r.Keys == RowDiseases(rows)
    ensures forall d :: d in r ==>
      var idx := GroupIndices(rows, d, |symptoms|);
      |r[d]| == |idx| && forall k :: 0 <= k < |idx| ==> r[d][k] == symptoms[idx[k]]
  {
    map d | d in RowDiseases(rows) :: GroupSymptoms(rows, symptoms, d)
  }

  /** With 0/1 data, a symptom is listed for a disease exactly when some row of that disease has it. */
  lemma GroupMapListsFlaggedSymptoms(rows: seq<FlagRow>, symptoms: seq<string>, d: string, j: nat)
    requires forall j :: 0 <= j < |symptoms| ==> HasColumn(rows, j)
    requires forall i, j :: 0 <= i < |rows| && 0 <= j < |rows[i].flags| ==> Flag(rows[i].flags[j]) == 0 || Flag(rows[i].flags[j]) == 1
    requires d in RowDiseases(rows) && j < |symptoms|
    ensures var idx := GroupIndices(rows, d, |symptoms|);
      (j in idx <==> exists i :: 0 <= i < |rows| && j < |rows[i].flags| && rows[i].disease == d && Flag(rows[i].flags[j]) == 1)
  {
    PositiveSumIffFlagged(rows, d, j);
  }

  // ---------------------------------------------------------------------------
  // Numbered listing

  function Flatten<T>(rows: seq<seq<T>>): seq<T> {
    if rows == [] then [] else rows[0] + Flatten(rows[1..])
  }

  /** `[s[i:i + 4] for i in range(0, len(s), 4)]` */
  function Chunks<T>(s: seq<T>): (r: seq<seq<T>>)
    ensures Flatten(r) == s
    ensures forall i :: 0 <= i < |r| ==> 1 <= |r[i]| <= 4
    ensures forall i :: 0 <= i < |r| - 1 ==> |r[i]| == 4
  {
    if s == [] then []
    else if |s| <= 4 then
      assert Flatten([s]) == s + Flatten<T>([]);
      [s]
    else
      var rest := Chunks(s[4..]);
      var r := [s[..4]] + rest;
      assert r[1..] == rest;
      assert s == s[..4] + s[4..];
      r
  }

  /** Entry `j` of chunk `i` is element `4 * i + j` of the input. */
  lemma {:induction false} ChunkPosition<T>(s: seq<T>, i: nat, j: nat)
    requires i < |Chunks(s)| && j < |Chunks(s)[i]|
    ensures 4 * i + j < |s| && Chunks(s)[i][j] == s[4 * i + j]
    decreases i
  {
    if |s| > 4 {
      assert Chunks(s) == [s[..4]] + Chunks(s[4..]);
      if i > 0 {
        ChunkPosition(s[4..], i - 1, j);
      }
    }
  }

  datatype ListingEntry = ListingEntry(number: nat, name: string)

  /**
   * The symptom listing, four entries to a line: read line by line, the
   * `k`-th symptom (from 0) is numbered `k + 1` and shown by its display name.
   */
  function Listing(symptoms: seq<string>): (r: seq<seq<ListingEntry>>)
    ensures forall i :: 0 <= i < |r| ==> 1 <= |r[i]| <= 4
    ensures forall i :: 0 <= i < |r| - 1 ==> |r[i]| == 4
    ensures var all := Flatten(r);
      |all| == |symptoms| &&
      forall k :: 0 <= k < |all| ==> all[k] == ListingEntry(k + 1, Vocabulary.DisplayName(symptoms[k]))
  {
    Chunks(seq(|symptoms|, k requires 0 <= k < |symptoms| => ListingEntry(k + 1, Vocabulary.DisplayName(symptoms[k]))))
  }

  /** Entry `j` of line `i` of the listing is symptom `4 * i + j`, numbered from 1. */
  lemma ListingPosition(symptoms: seq<string>, i: nat, j: nat)
    requires i < |Listing(symptoms)| && j < |Listing(symptoms)[i]|
    ensures 4 * i + j < |symptoms|
    ensures Listing(symptoms)[i][j] == ListingEntry(4 * i + j + 1, Vocabulary.DisplayName(symptoms[4 * i + j]))
  {
    ChunkPosition(seq(|symptoms|, k requires 0 <= k < |symptoms| => ListingEntry(k + 1, Vocabulary.DisplayName(symptoms[k]))), i, j);
  }

  // ---------------------------------------------------------------------------
  // One round of the prompt

  const TopN: nat := 10

  datatype ListedPrediction = ListedPrediction(disease: string, percent: real, common: seq<string>)

  /**
   * One round: the typed line is split on commas and cleaned, its symptom
   * columns form the presence vector, and the ten most probable diseases are
   * listed with their sorted symptom lists (empty for an unknown disease).
   */
  function PromptRound(line: string, c: Classifier, symptoms: seq<string>, dsd: map<string, seq<string>>): (r: seq<ListedPrediction>)
    ensures var ranked := RankDiseases(c, symptoms, CleanTokens(line));
      && |r| == (if |c.classes| < TopN then |c.classes| else TopN)
      && (forall k :: 0 <= k < |r| ==> r[k].disease == ranked[k].disease && r[k].percent == ranked[k].percent)
      && (forall k :: 0 <= k < |r| ==> r[k].common == CommonSymptomsOrEmpty(dsd, r[k].disease))
      && (forall i, j :: 0 <= i < |r| <= j < |ranked| ==> r[i].percent >= ranked[j].percent)
    ensures forall i, j :: 0 <= i < j < |r| ==> r[i].percent >= r[j].percent
  {
    var top := Top(RankDiseases(c, symptoms, CleanTokens(line)), TopN);
    seq(|top|, k requires 0 <= k < |top| =>
      ListedPrediction(top[k].disease, top[k].percent, CommonSymptomsOrEmpty(dsd, top[k].disease)))
  }
}
