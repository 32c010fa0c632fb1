/**
 * The training-time vocabulary of `train.py` (and of `sym.py`, which repeats
 * its first half): symptom ids in normal form, their display names, disease
 * names, the label encoding, the multi-hot training rows and the
 * disease-to-symptoms mapping saved next to the model.
 *
 * The dataset is a sequence of rows, each with a disease cell and the cells of
 * the symptom columns; a missing cell is `None`, which `fillna("none")` turns
 * into the string "none".
 */
module Vocabulary {
  import opened Wrappers
  import opened Text
  import opened Tokens
  import StringOrder
  import Ranking

  const NoneMarker: string := "none"

  type Cell = Option<string>

  /** `fillna("none")` */
  function Fill(c: Cell): string {
    c.GetOr(NoneMarker)
  }

  datatype Row = Row(disease: Cell, symptoms: seq<Cell>)

  // ---------------------------------------------------------------------------
  // Symptom ids

  /** Some symptom cell of some row holds `v` once filled. */
  predicate HasValue(rows: seq<Row>, v: string) {
    exists i, k :: 0 <= i < |rows| && 0 <= k < |rows[i].symptoms| && Fill(rows[i].symptoms[k]) == v
  }

  /** The filled cells. */
  function Filled(cells: seq<Cell>): (r: seq<string>)
    ensures |r| == |cells| && forall k :: 0 <= k < |r| ==> r[k] == Fill(cells[k])
  {
    seq(|cells|, k requires 0 <= k < |cells| => Fill(cells[k]))
  }

  /** `df[symptomCols].values.flatten()`: every filled symptom cell, row by row. */
  function SymptomValues(rows: seq<Row>): (r: seq<string>)
    ensures forall v :: v in r <==> HasValue(rows, v)
  {
    if rows == [] then []
    else
      var n := |rows|;
      var init := SymptomValues(rows[..n - 1]);
      var last := Filled(rows[n - 1].symptoms);
      var r := init + last;
      assert forall v :: v in r <==> HasValue(rows, v) by {
        forall v ensures v in r <==> HasValue(rows, v) {
          if v in init {
            var i, k :| 0 <= i < n - 1 && 0 <= k < |rows[..n - 1][i].symptoms| && Fill(rows[..n - 1][i].symptoms[k]) == v;
            assert rows[..n - 1][i] == rows[i];
          } else if v in last {
            var k :| 0 <= k < |last| && last[k] == v;
            assert Fill(rows[n - 1].symptoms[k]) == v;
          }
          if HasValue(rows, v) {
            var i, k :| 0 <= i < n && 0 <= k < |rows[i].symptoms| && Fill(rows[i].symptoms[k]) == v;
            if i < n - 1 {
              assert rows[..n - 1][i] == rows[i];
              assert HasValue(rows[..n - 1], v);
            } else {
              assert last[k] == v;
            }
          }
        }
      }
      r
  }

  /** `[s.strip().lower().replace(" ", "_") for s in values if s != 'none']` */
  function KeptIds(values: seq<string>): (r: seq<string>)
    ensures forall t :: t in r <==> exists v :: v in values && v != NoneMarker && t == NormalizeToken(v)
    ensures forall k :: 0 <= k < |r| ==> IsNormalized(r[k])
  {
    if values == [] then []
    else
      var n := |values|;
      var v := values[n - 1];
      assert values == values[..n - 1] + [v];
      NormalizeTokenFixedPoints(v);
      KeptIds(values[..n - 1]) + (if v != NoneMarker then [NormalizeToken(v)] else [])
  }

  /**
   * The symptom columns: every symptom cell not equal to "none", in normal
   * form, without repeats, sorted. The "none" test looks at the filled cell
   * before normalisation.
   */
  function SymptomIds(rows: seq<Row>): (r: seq<string>)
    ensures StringOrder.StrictlySorted(r)
    ensures forall t :: t in r <==> exists v :: HasValue(rows, v) && v != NoneMarker && t == NormalizeToken(v)
    ensures forall k :: 0 <= k < |r| ==> IsNormalized(r[k])
  {
    var kept := KeptIds(SymptomValues(rows));
    var r := StringOrder.SortedUnique(kept);
    assert forall k :: 0 <= k < |r| ==> IsNormalized(r[k]) by {
      forall k | 0 <= k < |r| ensures IsNormalized(r[k]) {
        assert r[k] in kept;
      }
    }
    r
  }

  // ---------------------------------------------------------------------------
  // Display names

  /** `symptom.replace("_", " ").title()` */
  function DisplayName(id: string): (r: string)
    ensures |r| == |id|
    ensures '_' !in r
    ensures Lower(r) == Lower(ReplaceChar(id, '_', ' '))
    ensures IsTitleCased(r)
  {
    var spaced := ReplaceChar(id, '_', ' ');
    LowerOfTitle(spaced);
    Title(spaced)
  }

  /** Any title-cased string that spells the id with `_` as space is its display name. */
  lemma DisplayNameDetermined(id: string, t: string)
    requires IsTitleCased(t) && Lower(t) == Lower(ReplaceChar(id, '_', ' '))
    ensures t == DisplayName(id)
  {
    TitleCasedUnique(t, DisplayName(id));
  }

  /** `dict(zip(symptoms, symptomsUser))` */
  function DisplayNames(ids: seq<string>): (r: map<string, string>)
    ensures r.Keys == set id | id in ids
    ensures forall id :: id in r ==> r[id] == DisplayName(id)
  {
    map id | id in ids :: DisplayName(id)
  }

  /**
   * Typing a display name back in gives the id: normalising undoes the display
   * mapping for an id in normal form that does not begin or end with `_`.
   */
  lemma DisplayNameRoundTrip(id: string)
    requires IsNormalized(id)
    requires id == [] || (id[0] != '_' && id[|id| - 1] != '_')
    ensures NormalizeToken(DisplayName(id)) == id
  {
    var spaced := ReplaceChar(id, '_', ' ');
    var shown := DisplayName(id);
    assert shown == Title(spaced);
    if id != [] {
      assert spaced[0] == id[0] && spaced[|id| - 1] == id[|id| - 1];
    }
    assert Stripped(spaced);
    TitleKeepsStripped(spaced);
    StripStripped(shown);
    var r := NormalizeToken(shown);
    forall i | 0 <= i < |id| ensures r[i] == id[i] {
      assert Lower(shown)[i] == Lower(spaced)[i];
      assert r[i] == (if shown[i] == ' ' then '_' else LowerChar(shown[i]));
      RoundTripChar(id[i], shown[i]);
    }
  }

  /** One character of the round trip: a shown character normalises back to the id's character. */
  lemma RoundTripChar(x: char, y: char)
    requires x != ' ' && !IsUpperLetter(x)
    requires LowerChar(y) == LowerChar(if x == '_' then ' ' else x)
    ensures (if y == ' ' then '_' else LowerChar(y)) == x
  {
  }

  // ---------------------------------------------------------------------------
  // Disease names

  /** `d.strip().title() if not d.isupper() else d.strip()` */
  function NormalizeDisease(d: string): (r: string)
    ensures Stripped(r)
    ensures |r| == |Strip(d)|
    ensures IsUpper(d) ==> r == Strip(d)
    ensures Lower(r) == Lower(Strip(d))
    ensures !IsUpper(d) ==> IsTitleCased(r)
  {
    if IsUpper(d) then Strip(d)
    else
      TitleKeepsStripped(Strip(d));
      LowerOfTitle(Strip(d));
      Title(Strip(d))
  }

  /**
   * Outside the all-upper-case case, the normalised disease name is the one
   * title-cased string that spells the stripped name.
   */
  lemma NormalizeDiseaseDetermined(d: string, t: string)
    requires !IsUpper(d)
    requires IsTitleCased(t) && Lower(t) == Lower(Strip(d))
    ensures t == NormalizeDisease(d)
  {
    TitleCasedUnique(t, NormalizeDisease(d));
  }

  /** Stripping keeps every letter, so an all-upper-case name stays all upper-case. */
  lemma StripKeepsUpper(d: string)
    requires IsUpper(d)
    ensures IsUpper(Strip(d))
  {
    var lead, trail := StripDecompose(d);
    var s := Strip(d);
    var i :| 0 <= i < |d| && IsUpperLetter(d[i]);
    assert d[i] == (lead + s + trail)[i];
    assert |lead| <= i < |lead| + |s| && s[i - |lead|] == d[i];
    forall j | 0 <= j < |s| ensures !IsLowerLetter(s[j]) {
      assert s[j] == d[|lead| + j];
    }
  }

  /** Normalising a normalised disease name changes nothing. */
  lemma NormalizeDiseaseIdempotent(d: string)
    ensures NormalizeDisease(NormalizeDisease(d)) == NormalizeDisease(d)
  {
    var r := NormalizeDisease(d);
    StripStripped(r);
    if IsUpper(d) {
      StripKeepsUpper(d);
    } else if !IsUpper(r) {
      StripStripped(Strip(d));
      TitleIdempotent(Strip(d));
    }
  }

  function DiseaseName(row: Row): string {
    NormalizeDisease(Fill(row.disease))
  }

  /** `[normalised d for d in diseases if d != "none"]` */
  function KeptDiseases(values: seq<string>): (r: seq<string>)
    ensures forall d :: d in r <==> exists v :: v in values && v != NoneMarker && d == NormalizeDisease(v)
  {
    if values == [] then []
    else
      var n := |values|;
      var v := values[n - 1];
      assert values == values[..n - 1] + [v];
      KeptDiseases(values[..n - 1]) + (if v != NoneMarker then [NormalizeDisease(v)] else [])
  }

  /** The filled disease cells, one per row. */
  function DiseaseValues(rows: seq<Row>): (r: seq<string>)
    ensures |r| == |rows| && forall i :: 0 <= i < |r| ==> r[i] == Fill(rows[i].disease)
  {
    seq(|rows|, i requires 0 <= i < |rows| => Fill(rows[i].disease))
  }

  /** The sorted, repeat-free disease names: the label encoder's classes. */
  function Diseases(rows: seq<Row>): (r: seq<string>)
    ensures StringOrder.StrictlySorted(r)
    ensures forall d :: d in r <==> exists i :: 0 <= i < |rows| && Fill(rows[i].disease) != NoneMarker && d == DiseaseName(rows[i])
  {
    var values := DiseaseValues(rows);
    var r := StringOrder.SortedUnique(KeptDiseases(values));
    assert forall d :: d in r <==> exists i :: 0 <= i < |rows| && Fill(rows[i].disease) != NoneMarker && d == DiseaseName(rows[i]) by {
      forall d ensures d in r <==> exists i :: 0 <= i < |rows| && Fill(rows[i].disease) != NoneMarker && d == DiseaseName(rows[i]) {
        if d in r {
          var v :| v in values && v != NoneMarker && d == NormalizeDisease(v);
          var i :| 0 <= i < |values| && values[i] == v;
          assert DiseaseName(rows[i]) == d;
        }
        if exists i :: 0 <= i < |rows| && Fill(rows[i].disease) != NoneMarker && d == DiseaseName(rows[i]) {
          var i :| 0 <= i < |rows| && Fill(rows[i].disease) != NoneMarker && d == DiseaseName(rows[i]);
          assert values[i] in values;
        }
      }
    }
    r
  }

  // ---------------------------------------------------------------------------
  // Label encoding

  function IndexOf(classes: seq<string>, d: string): (r: Option<nat>)
    ensures r.None? <==> d !in classes
    ensures r.Some? ==> r.value < |classes| && classes[r.value] == d
  {
    if classes == [] then None
    else if classes[0] == d then Some(0)
    else match IndexOf(classes[1..], d)
      case None => None
      case Some(i) => Some(i + 1)
  }

  /**
   * `le.transform(...)` of every row's normalised disease: fails when a row's
   * disease is not among the classes, otherwise gives the class index whose
   * name is that disease.
   */
  function EncodeLabels(rows: seq<Row>, classes: seq<string>): (r: Option<seq<nat>>)
    ensures r.Some? <==> forall i :: 0 <= i < |rows| ==> DiseaseName(rows[i]) in classes
    ensures r.Some? ==>
      && |r.value| == |rows|
      && forall i :: 0 <= i < |rows| ==> r.value[i] < |classes| && classes[r.value[i]] == DiseaseName(rows[i])
  {
    if forall i :: 0 <= i < |rows| ==> DiseaseName(rows[i]) in classes then
      Some(seq(|rows|, i requires 0 <= i < |rows| => IndexOf(classes, DiseaseName(rows[i])).value))
    else None
  }

  /** Training on its own diseases never fails to encode when no disease cell is missing. */
  lemma EncodeLabelsSucceeds(rows: seq<Row>)
    requires forall i :: 0 <= i < |rows| ==> Fill(rows[i].disease) != NoneMarker
    ensures EncodeLabels(rows, Diseases(rows)).Some?
  {
    forall i | 0 <= i < |rows| ensures DiseaseName(rows[i]) in Diseases(rows) {
    }
  }

  // ---------------------------------------------------------------------------
  // Multi-hot rows

  /** `[v for v in normalised values if v != 'none']` */
  function KeptTokens(values: seq<string>): (r: seq<string>)
    ensures forall t :: t in r <==> t != NoneMarker && exists v :: v in values && t == NormalizeToken(v)
  {
    if values == [] then []
    else
      var n := |values|;
      var t := NormalizeToken(values[n - 1]);
      assert values == values[..n - 1] + [values[n - 1]];
      KeptTokens(values[..n - 1]) + (if t != NoneMarker then [t] else [])
  }

  /** The row's normalised symptom values other than "none". */
  function RowTokens(cells: seq<Cell>): (r: seq<string>)
    ensures forall t :: t in r <==> t != NoneMarker && exists k :: 0 <= k < |cells| && t == NormalizeToken(Fill(cells[k]))
  {
    var values := Filled(cells);
    var r := KeptTokens(values);
    assert forall t :: t in r <==> t != NoneMarker && exists k :: 0 <= k < |cells| && t == NormalizeToken(Fill(cells[k])) by {
      forall t ensures t in r <==> t != NoneMarker && exists k :: 0 <= k < |cells| && t == NormalizeToken(Fill(cells[k])) {
        if t in r {
          var v :| v in values && t == NormalizeToken(v);
          var k :| 0 <= k < |values| && values[k] == v;
        }
        if t != NoneMarker && exists k :: 0 <= k < |cells| && t == NormalizeToken(Fill(cells[k])) {
          var k :| 0 <= k < |cells| && t == NormalizeToken(Fill(cells[k]));
          assert values[k] in values;
        }
      }
    }
    r
  }

  /**
   * Multi-hot encoding of one row: 1 exactly at the columns that are a
   * normalised value of the row other than "none".
   */
  function MultiHotRow(row: Row, columns: seq<string>): (r: seq<int>)
    ensures |r| == |columns|
    ensures forall j :: 0 <= j < |r| ==>
      r[j] == (if columns[j] != NoneMarker &&
                  exists k :: 0 <= k < |row.symptoms| && NormalizeToken(Fill(row.symptoms[k])) == columns[j]
               then 1 else 0)
  {
    Ranking.PresenceVector(columns, RowTokens(row.symptoms))
  }

  /** Every value a row lists, except one that normalises to "none", is set in its own multi-hot row. */
  lemma MultiHotCoversRow(rows: seq<Row>, i: nat, k: nat)
    requires i < |rows| && k < |rows[i].symptoms|
    requires NormalizeToken(Fill(rows[i].symptoms[k])) != NoneMarker
    ensures var columns := SymptomIds(rows);
      exists j :: 0 <= j < |columns| && columns[j] == NormalizeToken(Fill(rows[i].symptoms[k])) &&
        MultiHotRow(rows[i], columns)[j] == 1
  {
    var v := Fill(rows[i].symptoms[k]);
    var columns := SymptomIds(rows);
    ValueIsColumn(rows, i, k);
    var j :| 0 <= j < |columns| && columns[j] == NormalizeToken(v);
    CellSetsColumn(rows[i], columns, k, j);
  }

  /** A cell that does not normalise to "none" names a symptom column. */
  lemma ValueIsColumn(rows: seq<Row>, i: nat, k: nat)
    requires i < |rows| && k < |rows[i].symptoms|
    requires NormalizeToken(Fill(rows[i].symptoms[k])) != NoneMarker
    ensures NormalizeToken(Fill(rows[i].symptoms[k])) in SymptomIds(rows)
  {
    var v := Fill(rows[i].symptoms[k]);
    NoneMarkerIsNormal();
    assert v != NoneMarker;
    assert HasValue(rows, v);
  }

  /** A cell of the row that normalises to a column other than "none" sets that column. */
  lemma CellSetsColumn(row: Row, columns: seq<string>, k: nat, j: nat)
    requires k < |row.symptoms| && j < |columns|
    requires columns[j] != NoneMarker && NormalizeToken(Fill(row.symptoms[k])) == columns[j]
    ensures MultiHotRow(row, columns)[j] == 1
  {
  }

  /**
   * A cell that is not literally "none" but normalises to it passes the raw
   * "none" test, so "none" becomes a symptom column; the multi-hot test looks
   * at the normalised value and never sets that column.
   */
  lemma NoneSpellingIsDeadColumn(d: Cell, w: string)
    requires w != NoneMarker && NormalizeToken(w) == NoneMarker
    ensures var rows := [Row(d, [Some(w)])];
      SymptomIds(rows) == [NoneMarker] && MultiHotRow(rows[0], SymptomIds(rows)) == [0]
  {
    var rows := [Row(d, [Some(w)])];
    var ids := SymptomIds(rows);
    OnlyCellIsOnlyValue(rows, w);
    assert forall t :: t in ids <==> t == NoneMarker;
    StringOrder.StrictlySortedIsUnique(ids, [NoneMarker]);
    NoneColumnNeverSet(rows[0], ids, 0);
    var v := MultiHotRow(rows[0], ids);
    assert v == [v[0]];
  }

  lemma OnlyCellIsOnlyValue(rows: seq<Row>, w: string)
    requires |rows| == 1 && rows[0].symptoms == [Some(w)]
    ensures forall v :: HasValue(rows, v) <==> v == w
  {
    assert Fill(rows[0].symptoms[0]) == w;
  }

  /** "NONE" is such a spelling: it is not "none", and normalising it gives "none". */
  lemma UpperCaseNoneNormalizesToNone()
    ensures "NONE" != NoneMarker && NormalizeToken("NONE") == NoneMarker
  {
    var w := "NONE";
    assert w[0] != NoneMarker[0];
    NormalizeLetters(w);
    LowerSpelling(w, NoneMarker);
  }

  /** Lower-casing a word of letters gives `t` when each letter lowers to `t`'s letter. */
  lemma LowerSpelling(w: string, t: string)
    requires |w| == |t| && forall i :: 0 <= i < |w| ==> LowerChar(w[i]) == t[i]
    ensures Lower(w) == t
  {
  }

  /** The concrete case: a cell "NONE" makes a column "none" that no row ever sets. */
  lemma UpperCaseNoneIsDeadColumn(d: Cell)
    ensures var rows := [Row(d, [Some("NONE")])];
      SymptomIds(rows) == [NoneMarker] && MultiHotRow(rows[0], SymptomIds(rows)) == [0]
  {
    UpperCaseNoneNormalizesToNone();
    NoneSpellingIsDeadColumn(d, "NONE");
  }

  /** The multi-hot test skips "none", so a column named "none" is never set. */
  lemma NoneColumnNeverSet(row: Row, columns: seq<string>, j: nat)
    requires j < |columns| && columns[j] == NoneMarker
    ensures MultiHotRow(row, columns)[j] == 0
  {
  }

  // ---------------------------------------------------------------------------
  // Disease-to-symptoms mapping

  /** `symptomsDict.get(val, val)` */
  function Lookup(names: map<string, string>, v: string): string {
    if v in names then names[v] else v
  }

  function RowSymptomNames(row: Row, names: map<string, string>): set<string> {
    set t | t in RowTokens(row.symptoms) :: Lookup(names, t)
  }

  /** `d.setdefault(key, set()).update(values)` for each (key, values) pair in turn. */
  function UnionByKey(entries: seq<(string, set<string>)>): (r: map<string, set<string>>)
    ensures forall d :: d in r <==> exists i :: 0 <= i < |entries| && entries[i].0 == d
    ensures forall d, s :: d in r ==> (s in r[d] <==> exists i :: 0 <= i < |entries| && entries[i].0 == d && s in entries[i].1)
  {
    if entries == [] then map[]
    else
      var n := |entries|;
      var init := entries[..n - 1];
      var m := UnionByKey(init);
      var (d, vs) := entries[n - 1];
      var r := m[d := (if d in m then m[d] else {}) + vs];
      assert forall i :: 0 <= i < n - 1 ==> init[i] == entries[i];
      assert forall e, s :: e in r ==> (s in r[e] <==> exists i :: 0 <= i < n && entries[i].0 == e && s in entries[i].1) by {
        forall e, s | e in r ensures s in r[e] <==> exists i :: 0 <= i < n && entries[i].0 == e && s in entries[i].1 {
          if exists i :: 0 <= i < n && entries[i].0 == e && s in entries[i].1 {
            var i :| 0 <= i < n && entries[i].0 == e && s in entries[i].1;
            if i < n - 1 {
              assert init[i].0 == e && s in init[i].1;
            }
          }
        }
      }
      r
  }

  ghost predicate ListedFor(rows: seq<Row>, names: map<string, string>, d: string, s: string) {
    exists i :: 0 <= i < |rows| && DiseaseName(rows[i]) == d && s in RowSymptomNames(rows[i], names)
  }

  /**
   * For each normalised disease, the union over all its rows of the display
   * names (or, failing that, the ids) of the row's symptoms.
   */
  function DiseaseSymptomMap(rows: seq<Row>, names: map<string, string>): (r: map<string, set<string>>)
    ensures forall d :: d in r <==> exists i :: 0 <= i < |rows| && DiseaseName(rows[i]) == d
    ensures forall d, s :: d in r ==> (s in r[d] <==> ListedFor(rows, names, d, s))
  {
    var entries := seq(|rows|, i requires 0 <= i < |rows| => (DiseaseName(rows[i]), RowSymptomNames(rows[i], names)));
    var r := UnionByKey(entries);
    assert forall d :: d in r <==> exists i :: 0 <= i < |rows| && DiseaseName(rows[i]) == d by {
      forall d ensures d in r <==> exists i :: 0 <= i < |rows| && DiseaseName(rows[i]) == d {
        if exists i :: 0 <= i < |rows| && DiseaseName(rows[i]) == d {
          var i :| 0 <= i < |rows| && DiseaseName(rows[i]) == d;
          assert entries[i].0 == d;
        }
      }
    }
    assert forall d, s :: d in r ==> (s in r[d] <==> ListedFor(rows, names, d, s)) by {
      forall d, s | d in r ensures s in r[d] <==> ListedFor(rows, names, d, s) {
        if s in r[d] {
          var i :| 0 <= i < |entries| && entries[i].0 == d && s in entries[i].1;
          assert DiseaseName(rows[i]) == d && s in RowSymptomNames(rows[i], names);
        }
        if ListedFor(rows, names, d, s) {
          var i :| 0 <= i < |rows| && DiseaseName(rows[i]) == d && s in RowSymptomNames(rows[i], names);
          assert entries[i].0 == d && s in entries[i].1;
        }
      }
    }
    r
  }

  /** Adding rows only adds diseases and symptoms: the mapping grows. */
  lemma DiseaseSymptomMapGrows(rows: seq<Row>, more: seq<Row>, names: map<string, string>)
    ensures var m1 := DiseaseSymptomMap(rows, names);
      var m2 := DiseaseSymptomMap(rows + more, names);
      forall d :: d in m1 ==> d in m2 && m1[d] <= m2[d]
  {
    var m1 := DiseaseSymptomMap(rows, names);
    var m2 := DiseaseSymptomMap(rows + more, names);
    forall d | d in m1 ensures d in m2 && m1[d] <= m2[d] {
      var i :| 0 <= i < |rows| && DiseaseName(rows[i]) == d;
      assert (rows + more)[i] == rows[i];
      forall s | s in m1[d] ensures s in m2[d] {
        ListedForGrows(rows, more, names, d, s);
      }
    }
  }

  lemma ListedForGrows(rows: seq<Row>, more: seq<Row>, names: map<string, string>, d: string, s: string)
    requires ListedFor(rows, names, d, s)
    ensures ListedFor(rows + more, names, d, s)
  {
    var i :| 0 <= i < |rows| && DiseaseName(rows[i]) == d && s in RowSymptomNames(rows[i], names);
    assert (rows + more)[i] == rows[i];
  }

  /** "none" is already in normal form. */
  lemma NoneMarkerIsNormal()
    ensures NormalizeToken(NoneMarker) == NoneMarker
  {
    NormalizeLetters(NoneMarker);
    LowerSpelling(NoneMarker, NoneMarker);
  }

  /** A value a row contributes to the mapping is a symptom column. */
  lemma RowTokenIsColumn(rows: seq<Row>, i: nat, t: string)
    requires i < |rows| && t in RowTokens(rows[i].symptoms)
    ensures t in SymptomIds(rows)
  {
    var k :| 0 <= k < |rows[i].symptoms| && t == NormalizeToken(Fill(rows[i].symptoms[k]));
    var v := Fill(rows[i].symptoms[k]);
    NoneMarkerIsNormal();
    assert v != NoneMarker;
    assert HasValue(rows, v);
  }

  /**
   * With the display-name map of the same rows, the `get(val, val)` fallback
   * never fires: every listed symptom is the display name of a symptom column.
   */
  lemma MappingUsesDisplayNames(rows: seq<Row>)
    ensures var ids := SymptomIds(rows);
      var m := DiseaseSymptomMap(rows, DisplayNames(ids));
      forall d, s :: d in m && s in m[d] ==> exists id :: id in ids && s == DisplayName(id)
  {
    var ids := SymptomIds(rows);
    var names := DisplayNames(ids);
    var m := DiseaseSymptomMap(rows, names);
    forall d, s | d in m && s in m[d] ensures exists id :: id in ids && s == DisplayName(id) {
      assert ListedFor(rows, names, d, s);
      var i :| 0 <= i < |rows| && DiseaseName(rows[i]) == d && s in RowSymptomNames(rows[i], names);
      var t :| t in RowTokens(rows[i].symptoms) && s == Lookup(names, t);
      RowTokenIsColumn(rows, i, t);
      assert t in names;
    }
  }

  /** Every class the encoder knows has an entry in the mapping, so "N/A" is never shown for it. */
  lemma EveryClassHasMapping(rows: seq<Row>, names: map<string, string>)
    ensures forall d :: d in Diseases(rows) ==> d in DiseaseSymptomMap(rows, names)
  {
  }
}
