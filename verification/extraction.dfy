/**
 * The best-match symptom extractor: every synonym of every symptom is scored
 * against every sentence, scores below the threshold are dropped, each symptom
 * keeps its best score, and the survivors are listed best first.
 *
 * The fuzzy scorer (`fuzz.token_set_ratio`) is the parameter `ratio`, any
 * function into 0..100; sentence segmentation is the input `sentences`.
 */
module Extraction {
  import opened Wrappers
  import opened Text
  import opened KnowledgeBase
  import StableSort

  /** Scores below this are discarded. */
  const ConfidenceThreshold: int := 85

  type Score = x: int | 0 <= x <= 100

  /** A token-set similarity between a phrase and a sentence. */
  type Scorer = (string, string) -> Score

  /** One `(symptom_id, confidence)` pair. */
  datatype Match = Match(id: string, confidence: Score)

  // ---------------------------------------------------------------------------
  // The candidate scores, in the order of the three nested loops

  /** One phrase against every sentence, both lower-cased. */
  function SentenceScores(id: string, phrase: string, sentences: seq<string>, ratio: Scorer): (r: seq<Match>)
    ensures |r| == |sentences|
    ensures forall k :: 0 <= k < |r| ==> r[k] == Match(id, ratio(Lower(phrase), Lower(sentences[k])))
  {
    seq(|sentences|, k requires 0 <= k < |sentences| => Match(id, ratio(Lower(phrase), Lower(sentences[k]))))
  }

  /** Every phrase of one symptom against every sentence. */
  function PhraseScores(id: string, phrases: seq<string>, sentences: seq<string>, ratio: Scorer): (r: seq<Match>)
    ensures forall k :: 0 <= k < |r| ==> r[k].id == id
  {
    if phrases == [] then []
    else
      var init := PhraseScores(id, phrases[..|phrases| - 1], sentences, ratio);
      init + SentenceScores(id, phrases[|phrases| - 1], sentences, ratio)
  }

  /** Every score the pass computes, symptom by symptom, phrase by phrase, sentence by sentence. */
  function Candidates(kb: seq<SymptomEntry>, sentences: seq<string>, ratio: Scorer): seq<Match> {
    if kb == [] then []
    else
      var e := kb[|kb| - 1];
      Candidates(kb[..|kb| - 1], sentences, ratio) + PhraseScores(e.id, Phrases(e.synonyms), sentences, ratio)
  }

  /** `m` is the score of one of `e`'s phrases against one of the sentences. */
  ghost predicate ScoredFor(e: SymptomEntry, sentences: seq<string>, ratio: Scorer, m: Match) {
    exists p, k :: p in Phrases(e.synonyms) && 0 <= k < |sentences| && m == Match(e.id, ratio(Lower(p), Lower(sentences[k])))
  }

  lemma {:induction false} PhraseScoresOrigin(e: SymptomEntry, phrases: seq<string>, sentences: seq<string>, ratio: Scorer, m: Match)
    requires forall p :: p in phrases ==> p in Phrases(e.synonyms)
    ensures m in PhraseScores(e.id, phrases, sentences, ratio) ==> ScoredFor(e, sentences, ratio, m)
    ensures (exists p, k :: p in phrases && 0 <= k < |sentences| && m == Match(e.id, ratio(Lower(p), Lower(sentences[k]))))
      ==> m in PhraseScores(e.id, phrases, sentences, ratio)
  {
    if phrases != [] {
      var init := phrases[..|phrases| - 1];
      var last := phrases[|phrases| - 1];
      assert phrases == init + [last];
      PhraseScoresOrigin(e, init, sentences, ratio, m);
      var tail := SentenceScores(e.id, last, sentences, ratio);
      if m in tail {
        var k :| 0 <= k < |sentences| && tail[k] == m;
        assert last in Phrases(e.synonyms);
      }
      if exists p, k :: p in phrases && 0 <= k < |sentences| && m == Match(e.id, ratio(Lower(p), Lower(sentences[k]))) {
        var p, k :| p in phrases && 0 <= k < |sentences| && m == Match(e.id, ratio(Lower(p), Lower(sentences[k])));
        if p == last {
          assert tail[k] == m;
        } else {
          assert p in init;
        }
      }
    }
  }

  /** The pass scores every (synonym, sentence) pair of every symptom, and nothing else. */
  lemma {:induction false} CandidateOrigin(kb: seq<SymptomEntry>, sentences: seq<string>, ratio: Scorer, m: Match)
    ensures m in Candidates(kb, sentences, ratio) <==> exists i :: 0 <= i < |kb| && ScoredFor(kb[i], sentences, ratio, m)
  {
    if kb != [] {
      var init := kb[..|kb| - 1];
      var e := kb[|kb| - 1];
      var scores := PhraseScores(e.id, Phrases(e.synonyms), sentences, ratio);
      assert Candidates(kb, sentences, ratio) == Candidates(init, sentences, ratio) + scores;
      assert m in Candidates(kb, sentences, ratio) <==> m in Candidates(init, sentences, ratio) || m in scores;
      CandidateOrigin(init, sentences, ratio, m);
      EntryScoresOrigin(e, sentences, ratio, m);
      assert kb == init + [e];
      ScoredInSomeEntry(kb, init, e, sentences, ratio, m);
    }
  }

  /** The scores of one entry are exactly the matches scored for it. */
  lemma EntryScoresOrigin(e: SymptomEntry, sentences: seq<string>, ratio: Scorer, m: Match)
    ensures m in PhraseScores(e.id, Phrases(e.synonyms), sentences, ratio) <==> ScoredFor(e, sentences, ratio, m)
  {
    PhraseScoresOrigin(e, Phrases(e.synonyms), sentences, ratio, m);
  }

  /** Some entry scores `m` exactly when an earlier entry or the last one does. */
  lemma ScoredInSomeEntry(kb: seq<SymptomEntry>, init: seq<SymptomEntry>, e: SymptomEntry, sentences: seq<string>, ratio: Scorer, m: Match)
    requires kb == init + [e]
    ensures (exists i :: 0 <= i < |kb| && ScoredFor(kb[i], sentences, ratio, m)) <==>
      (exists i :: 0 <= i < |init| && ScoredFor(init[i], sentences, ratio, m)) || ScoredFor(e, sentences, ratio, m)
  {
    if exists i :: 0 <= i < |kb| && ScoredFor(kb[i], sentences, ratio, m) {
      var i :| 0 <= i < |kb| && ScoredFor(kb[i], sentences, ratio, m);
      if i < |init| {
        assert init[i] == kb[i];
      }
    }
    if exists i :: 0 <= i < |init| && ScoredFor(init[i], sentences, ratio, m) {
      var i :| 0 <= i < |init| && ScoredFor(init[i], sentences, ratio, m);
      assert init[i] == kb[i];
    }
    if ScoredFor(e, sentences, ratio, m) {
      assert kb[|init|] == e;
    }
  }

  // ---------------------------------------------------------------------------
  // `best_matches`: a dictionary from id to best score, kept in insertion order

  predicate DistinctIds(s: seq<Match>) {
    forall i, j :: 0 <= i < j < |s| ==> s[i].id != s[j].id
  }

  function IndexOfId(s: seq<Match>, id: string): (r: Option<nat>)
    ensures r.None? ==> forall k :: 0 <= k < |s| ==> s[k].id != id
    ensures r.Some? ==> r.value < |s| && s[r.value].id == id
  {
    if s == [] then None
    else if s[|s| - 1].id == id then Some(|s| - 1)
    else IndexOfId(s[..|s| - 1], id)
  }

  /**
   * One step of the pass: a score at or above the threshold is stored when the
   * id is new (appended) or beats the stored score (overwritten in place).
   * Stored scores never go down and no id moves.
   */
  function Record(best: seq<Match>, m: Match): (r: seq<Match>)
    ensures |best| <= |r| <= |best| + 1
    ensures forall k :: 0 <= k < |best| ==> r[k].id == best[k].id && r[k].confidence >= best[k].confidence
    ensures forall k :: 0 <= k < |best| && r[k] != best[k] ==> r[k] == m
    ensures |r| == |best| + 1 ==> r[|best|] == m && forall k :: 0 <= k < |best| ==> best[k].id != m.id
    ensures m.confidence < ConfidenceThreshold ==> r == best
    ensures m.confidence >= ConfidenceThreshold ==>
      exists k :: 0 <= k < |r| && r[k].id == m.id && r[k].confidence >= m.confidence
  {
    if m.confidence < ConfidenceThreshold then best
    else
      match IndexOfId(best, m.id)
      case None => best + [m]
      case Some(k) => if m.confidence > best[k].confidence then best[k := m] else best
  }

  /** The pass over a sequence of scores, starting from `best`. */
  function RecordAll(best: seq<Match>, cands: seq<Match>): seq<Match> {
    if cands == [] then best
    else Record(RecordAll(best, cands[..|cands| - 1]), cands[|cands| - 1])
  }

  /** Some score for `id` reached the threshold. */
  ghost predicate Reaches(cands: seq<Match>, id: string) {
    exists k :: 0 <= k < |cands| && cands[k].id == id && cands[k].confidence >= ConfidenceThreshold
  }

  /** `c` is the highest score `id` received, and it reached the threshold. */
  ghost predicate IsBest(cands: seq<Match>, id: string, c: int) {
    && c >= ConfidenceThreshold
    && (exists k :: 0 <= k < |cands| && cands[k].id == id && cands[k].confidence == c)
    && (forall k :: 0 <= k < |cands| && cands[k].id == id ==> cands[k].confidence <= c)
  }

  /**
   * `best` holds one entry per id that reached the threshold, and that entry's
   * score is the id's best.
   */
  ghost predicate Summarizes(best: seq<Match>, cands: seq<Match>) {
    && DistinctIds(best)
    && (forall i :: 0 <= i < |best| ==> IsBest(cands, best[i].id, best[i].confidence))
    && (forall id :: Reaches(cands, id) ==> exists i :: 0 <= i < |best| && best[i].id == id)
  }

  lemma RecordStep(cands: seq<Match>, m: Match, best: seq<Match>)
    requires Summarizes(best, cands)
    ensures Summarizes(Record(best, m), cands + [m])
  {
    if m.confidence < ConfidenceThreshold {
      RecordStepBelow(cands, m, best);
    } else {
      var r := Record(best, m);
      assert DistinctIds(r) by {
        forall i, j | 0 <= i < j < |r| ensures r[i].id != r[j].id {
          if j < |best| {
            assert r[i].id == best[i].id && r[j].id == best[j].id;
          }
        }
      }
      RecordStepBest(cands, m, best);
      RecordStepComplete(cands, m, best);
    }
  }

  lemma RecordStepBelow(cands: seq<Match>, m: Match, best: seq<Match>)
    requires Summarizes(best, cands)
    requires m.confidence < ConfidenceThreshold
    ensures Summarizes(Record(best, m), cands + [m])
  {
    var c2 := cands + [m];
    assert Record(best, m) == best;
    forall i | 0 <= i < |best| ensures IsBest(c2, best[i].id, best[i].confidence) {
      var k :| 0 <= k < |cands| && cands[k].id == best[i].id && cands[k].confidence == best[i].confidence;
      assert c2[k] == cands[k];
      forall j | 0 <= j < |c2| && c2[j].id == best[i].id ensures c2[j].confidence <= best[i].confidence {
        if j < |cands| { assert c2[j] == cands[j]; }
      }
    }
    forall id | Reaches(c2, id) ensures exists i :: 0 <= i < |best| && best[i].id == id {
      var k :| 0 <= k < |c2| && c2[k].id == id && c2[k].confidence >= ConfidenceThreshold;
      assert k < |cands| && cands[k] == c2[k];
      assert Reaches(cands, id);
    }
  }

  lemma RecordStepBest(cands: seq<Match>, m: Match, best: seq<Match>)
    requires Summarizes(best, cands)
    requires m.confidence >= ConfidenceThreshold
    requires DistinctIds(Record(best, m))
    ensures forall i :: 0 <= i < |Record(best, m)| ==> IsBest(cands + [m], Record(best, m)[i].id, Record(best, m)[i].confidence)
  {
    var c2 := cands + [m];
    var r := Record(best, m);
    var w :| 0 <= w < |r| && r[w].id == m.id && r[w].confidence >= m.confidence;
    assert c2[|cands|] == m;
    forall i | 0 <= i < |r| ensures IsBest(c2, r[i].id, r[i].confidence) {
      var id, c := r[i].id, r[i].confidence;
      if i == |best| {
        // a new id: none of its earlier scores reached the threshold
        assert r[i] == m;
        if Reaches(cands, m.id) {
          assert false;
        }
        forall j | 0 <= j < |c2| && c2[j].id == id ensures c2[j].confidence <= c {
          if j < |cands| { assert c2[j] == cands[j]; }
        }
      } else {
        assert IsBest(cands, best[i].id, best[i].confidence);
        forall j | 0 <= j < |c2| && c2[j].id == id ensures c2[j].confidence <= c {
          if j < |cands| {
            assert c2[j] == cands[j];
          } else if r[i] == best[i] {
            assert w == i;
          }
        }
        if r[i] == best[i] {
          var k :| 0 <= k < |cands| && cands[k].id == id && cands[k].confidence == c;
          assert c2[k] == cands[k];
        }
      }
    }
  }

  lemma RecordStepComplete(cands: seq<Match>, m: Match, best: seq<Match>)
    requires Summarizes(best, cands)
    requires m.confidence >= ConfidenceThreshold
    ensures forall id :: Reaches(cands + [m], id) ==> exists i :: 0 <= i < |Record(best, m)| && Record(best, m)[i].id == id
  {
    var c2 := cands + [m];
    var r := Record(best, m);
    forall id | Reaches(c2, id) ensures exists i :: 0 <= i < |r| && r[i].id == id {
      var k :| 0 <= k < |c2| && c2[k].id == id && c2[k].confidence >= ConfidenceThreshold;
      if k < |cands| {
        assert cands[k] == c2[k];
        assert Reaches(cands, id);
        var i :| 0 <= i < |best| && best[i].id == id;
        assert r[i].id == id;
      } else {
        assert c2[k] == m;
      }
    }
  }

  /** `best_matches` after the whole pass: exactly the best score of every id that reached the threshold. */
  function BestMatches(cands: seq<Match>): (r: seq<Match>)
    ensures Summarizes(r, cands)
  {
    if cands == [] then []
    else
      var init := cands[..|cands| - 1];
      var best := BestMatches(init);
      RecordStep(init, cands[|cands| - 1], best);
      assert init + [cands[|cands| - 1]] == cands;
      Record(best, cands[|cands| - 1])
  }

  lemma {:induction false} BestMatchesThenRecordAll(c1: seq<Match>, c2: seq<Match>)
    ensures BestMatches(c1 + c2) == RecordAll(BestMatches(c1), c2)
  {
    if c2 == [] {
      assert c1 + c2 == c1;
    } else {
      var init, last := c2[..|c2| - 1], c2[|c2| - 1];
      var c := c1 + c2;
      assert c[..|c| - 1] == c1 + init;
      assert c[|c| - 1] == last;
      calc {
        BestMatches(c);
        Record(BestMatches(c1 + init), last);
        { BestMatchesThenRecordAll(c1, init); }
        Record(RecordAll(BestMatches(c1), init), last);
        RecordAll(BestMatches(c1), c2);
      }
    }
  }

  // ---------------------------------------------------------------------------
  // The extractor

  function ConfidenceKey(m: Match): real {
    m.confidence as real
  }

  /** `extract_symptoms_from_text`, with the text already split into sentences. */
  function Extract(kb: KnowledgeBase, sentences: seq<string>, ratio: Scorer): (r: seq<Match>)
    ensures multiset(r) == multiset(BestMatches(Candidates(kb, sentences, ratio)))
    ensures Summarizes(r, Candidates(kb, sentences, ratio))
    ensures forall i :: 0 <= i < |r| ==> ConfidenceThreshold <= r[i].confidence <= 100
    ensures forall i, j :: 0 <= i < j < |r| ==> r[i].confidence >= r[j].confidence
  {
    var cands := Candidates(kb, sentences, ratio);
    var best := BestMatches(cands);
    var r := StableSort.SortDescending(best, ConfidenceKey);
    PermutationKeepsSummary(best, r, cands);
    ConfidenceOrder(r);
    SummaryReachesThreshold(r, cands);
    r
  }

  lemma SummaryReachesThreshold(best: seq<Match>, cands: seq<Match>)
    requires Summarizes(best, cands)
    ensures forall i :: 0 <= i < |best| ==> ConfidenceThreshold <= best[i].confidence
  {
    forall i | 0 <= i < |best| ensures ConfidenceThreshold <= best[i].confidence {
      assert IsBest(cands, best[i].id, best[i].confidence);
    }
  }

  lemma ConfidenceOrder(r: seq<Match>)
    requires StableSort.NonIncreasing(r, ConfidenceKey)
    ensures forall i, j :: 0 <= i < j < |r| ==> r[i].confidence >= r[j].confidence
  {
    forall i, j | 0 <= i < j < |r| ensures r[i].confidence >= r[j].confidence {
      assert ConfidenceKey(r[i]) >= ConfidenceKey(r[j]);
    }
  }

  lemma DistinctIdsCountOnce(s: seq<Match>, x: Match)
    requires DistinctIds(s)
    ensures multiset(s)[x] <= 1
  {
    if s != [] {
      assert s == [s[0]] + s[1..];
      assert DistinctIds(s[1..]) by {
        forall i, j | 0 <= i < j < |s[1..]| ensures s[1..][i].id != s[1..][j].id {
          assert s[1..][i] == s[i + 1] && s[1..][j] == s[j + 1];
        }
      }
      DistinctIdsCountOnce(s[1..], x);
      if s[0] == x {
        assert x !in s[1..] by {
          forall k | 0 <= k < |s[1..]| ensures s[1..][k] != x {
            assert s[1..][k] == s[k + 1];
          }
        }
      }
    }
  }

  /** Sorting adds and drops nothing, so the summary still holds. */
  lemma PermutationKeepsSummary(best: seq<Match>, r: seq<Match>, cands: seq<Match>)
    requires Summarizes(best, cands)
    requires multiset(r) == multiset(best)
    ensures Summarizes(r, cands)
  {
    forall i | 0 <= i < |r| ensures r[i] in best {
      assert r[i] in multiset(r);
    }
    forall i, j | 0 <= i < j < |r| ensures r[i].id != r[j].id {
      if r[i].id == r[j].id {
        var a :| 0 <= a < |best| && best[a] == r[i];
        var b :| 0 <= b < |best| && best[b] == r[j];
        if a == b {
          StableSort.TwoIndicesCountTwice(r, i, j);
          DistinctIdsCountOnce(best, r[i]);
          assert false;
        } else {
          assert false;
        }
      }
    }
    forall id | Reaches(cands, id) ensures exists i :: 0 <= i < |r| && r[i].id == id {
      var k :| 0 <= k < |best| && best[k].id == id;
      assert best[k] in multiset(best);
      assert best[k] in r;
    }
  }

  // ---------------------------------------------------------------------------
  // Properties of the extractor

  lemma {:induction false} RecordAllSameId(best: seq<Match>, cands: seq<Match>, x: string)
    requires forall k :: 0 <= k < |cands| ==> cands[k].id == x
    ensures var r := RecordAll(best, cands);
      && |best| <= |r| <= |best| + 1
      && (forall k :: 0 <= k < |best| ==> r[k].id == best[k].id)
      && (forall k :: |best| <= k < |r| ==> r[k].id == x)
  {
    if cands != [] {
      RecordAllSameId(best, cands[..|cands| - 1], x);
    }
  }

  /** Every id of `b` is a key of `kb`, and `b` lists them in the order of `kb`. */
  predicate InKbOrder(kb: seq<SymptomEntry>, b: seq<Match>) {
    && (forall i :: 0 <= i < |b| ==> Position(kb, b[i].id) < |kb|)
    && (forall i, j :: 0 <= i < j < |b| ==> Position(kb, b[i].id) < Position(kb, b[j].id))
  }

  lemma ExtendKbOrder(kb: seq<SymptomEntry>, b0: seq<Match>, b: seq<Match>)
    requires UniqueIds(kb) && kb != []
    requires InKbOrder(kb[..|kb| - 1], b0)
    requires |b0| <= |b| <= |b0| + 1
    requires forall k :: 0 <= k < |b0| ==> b[k].id == b0[k].id
    requires forall k :: |b0| <= k < |b| ==> b[k].id == kb[|kb| - 1].id
    ensures InKbOrder(kb, b)
  {
    var n := |kb|;
    FindAtPosition(kb, n - 1);
    forall i | 0 <= i < |b0| ensures Position(kb, b[i].id) == Position(kb[..n - 1], b0[i].id) < n - 1 {
      PositionInPrefix(kb, n - 1, b0[i].id);
    }
  }

  /** `best_matches` lists ids in dictionary order: each id enters when it first reaches the threshold. */
  lemma {:induction false} BestMatchesFollowKb(kb: seq<SymptomEntry>, sentences: seq<string>, ratio: Scorer)
    requires UniqueIds(kb)
    ensures InKbOrder(kb, BestMatches(Candidates(kb, sentences, ratio)))
  {
    if kb != [] {
      var n := |kb|;
      var init := kb[..n - 1];
      var e := kb[n - 1];
      BestMatchesFollowKb(init, sentences, ratio);
      var c0 := Candidates(init, sentences, ratio);
      var ps := PhraseScores(e.id, Phrases(e.synonyms), sentences, ratio);
      assert Candidates(kb, sentences, ratio) == c0 + ps;
      BestMatchesThenRecordAll(c0, ps);
      RecordAllSameId(BestMatches(c0), ps, e.id);
      ExtendKbOrder(kb, BestMatches(c0), RecordAll(BestMatches(c0), ps));
    }
  }

  function PositionKey(kb: seq<SymptomEntry>): Match -> int {
    (m: Match) => Position(kb, m.id) as int
  }

  /**
   * Equal confidences keep the dictionary's order of the ids, because the sort
   * is stable and `best_matches` is in dictionary order.
   */
  lemma ExtractTiesFollowKbOrder(kb: KnowledgeBase, sentences: seq<string>, ratio: Scorer)
    ensures var r := Extract(kb, sentences, ratio);
      forall i, j :: 0 <= i < j < |r| && r[i].confidence == r[j].confidence ==>
        Position(kb, r[i].id) < Position(kb, r[j].id)
  {
    var b := BestMatches(Candidates(kb, sentences, ratio));
    BestMatchesFollowKb(kb, sentences, ratio);
    var pos := PositionKey(kb);
    assert StableSort.IncreasingBy(b, pos) by {
      forall i, j | 0 <= i < j < |b| ensures pos(b[i]) < pos(b[j]) {
        assert pos(b[i]) == Position(kb, b[i].id) && pos(b[j]) == Position(kb, b[j].id);
      }
    }
    StableSort.SortDescendingIsStable(b, ConfidenceKey, pos);
    var r := Extract(kb, sentences, ratio);
    assert r == StableSort.SortDescending(b, ConfidenceKey);
    forall i, j | 0 <= i < j < |r| && r[i].confidence == r[j].confidence
      ensures Position(kb, r[i].id) < Position(kb, r[j].id)
    {
      assert ConfidenceKey(r[i]) == ConfidenceKey(r[j]);
      assert pos(r[i]) < pos(r[j]);
    }
  }

  /**
   * Every reported id is a dictionary key whose value has at least one phrase,
   * so looking up its display name cannot fail.
   */
  lemma DetectedAreKnown(kb: KnowledgeBase, sentences: seq<string>, ratio: Scorer)
    ensures var r := Extract(kb, sentences, ratio);
      forall i :: 0 <= i < |r| ==>
        Find(kb, r[i].id).Some? && PrimaryName(Find(kb, r[i].id).value).Some?
  {
    var cands := Candidates(kb, sentences, ratio);
    var r := Extract(kb, sentences, ratio);
    forall i | 0 <= i < |r| ensures Find(kb, r[i].id).Some? && PrimaryName(Find(kb, r[i].id).value).Some? {
      assert IsBest(cands, r[i].id, r[i].confidence);
      var k :| 0 <= k < |cands| && cands[k].id == r[i].id && cands[k].confidence == r[i].confidence;
      CandidateOrigin(kb, sentences, ratio, cands[k]);
      var j :| 0 <= j < |kb| && ScoredFor(kb[j], sentences, ratio, cands[k]);
      FindAtPosition(kb, j);
    }
  }

  lemma NoSentencesNoCandidates(kb: seq<SymptomEntry>, ratio: Scorer)
    ensures Candidates(kb, [], ratio) == []
  {
    var cands := Candidates(kb, [], ratio);
    if cands != [] {
      CandidateOrigin(kb, [], ratio, cands[0]);
      assert false;
    }
  }

  /** With nothing to scan (empty text gives no sentences) nothing is reported. */
  lemma NoSentencesNothingDetected(kb: KnowledgeBase, ratio: Scorer)
    ensures Extract(kb, [], ratio) == []
  {
    NoSentencesNoCandidates(kb, ratio);
    assert BestMatches([]) == [];
    assert |multiset(Extract(kb, [], ratio))| == 0;
  }

  /** A synonym that scores 100 against some sentence is reported with confidence 100. */
  lemma PerfectMatchDetected(kb: KnowledgeBase, sentences: seq<string>, ratio: Scorer, i: nat, p: string, k: nat)
    requires i < |kb| && p in Phrases(kb[i].synonyms) && k < |sentences|
    requires ratio(Lower(p), Lower(sentences[k])) == 100
    ensures Match(kb[i].id, 100) in Extract(kb, sentences, ratio)
  {
    var m := Match(kb[i].id, 100);
    var cands := Candidates(kb, sentences, ratio);
    assert ScoredFor(kb[i], sentences, ratio, m);
    CandidateOrigin(kb, sentences, ratio, m);
    var c :| 0 <= c < |cands| && cands[c] == m;
    assert Reaches(cands, m.id);
    var r := Extract(kb, sentences, ratio);
    var j :| 0 <= j < |r| && r[j].id == m.id;
    assert IsBest(cands, r[j].id, r[j].confidence);
    assert r[j] == m;
  }
}
