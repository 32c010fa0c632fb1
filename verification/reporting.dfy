/**
 * How both front ends present extracted symptoms: each (id, confidence) pair
 * with the symptom's display name, which is the first phrase of its
 * dictionary value (a plain string value is its own first phrase).
 */
module Reporting {
  import opened KnowledgeBase
  import opened Extraction

  datatype DetectedSymptom = DetectedSymptom(id: string, name: string, confidence: Score)

  /** `d` is named by the first phrase of the dictionary entry for its id. */
  predicate NamedAfterEntry(kb: seq<SymptomEntry>, d: DetectedSymptom) {
    exists j :: 0 <= j < |kb| && kb[j].id == d.id &&
      |Phrases(kb[j].synonyms)| > 0 && d.name == Phrases(kb[j].synonyms)[0]
  }

  /**
   * The extracted symptoms, in the extractor's order, each named by its entry's
   * first phrase.
   */
  function DetectedSymptoms(kb: KnowledgeBase, sentences: seq<string>, ratio: Scorer): (r: seq<DetectedSymptom>)
    ensures var ex := Extract(kb, sentences, ratio);
      && |r| == |ex|
      && (forall k :: 0 <= k < |r| ==> r[k].id == ex[k].id && r[k].confidence == ex[k].confidence)
    ensures forall k :: 0 <= k < |r| ==> NamedAfterEntry(kb, r[k])
  {
    var ex := Extract(kb, sentences, ratio);
    DetectedAreKnown(kb, sentences, ratio);
    var r := seq(|ex|, k requires 0 <= k < |ex| =>
      DetectedSymptom(ex[k].id, PrimaryName(Find(kb, ex[k].id).value).value, ex[k].confidence));
    assert forall k :: 0 <= k < |r| ==> NamedAfterEntry(kb, r[k]) by {
      forall k | 0 <= k < |r| ensures NamedAfterEntry(kb, r[k]) {
        var j :| 0 <= j < |kb| && kb[j].id == ex[k].id && kb[j].synonyms == Find(kb, ex[k].id).value;
      }
    }
    r
  }

  /** The ids of the detected symptoms, in order. */
  function Ids(ds: seq<DetectedSymptom>): (r: seq<string>)
    ensures |r| == |ds| && forall k :: 0 <= k < |r| ==> r[k] == ds[k].id
  {
    seq(|ds|, k requires 0 <= k < |ds| => ds[k].id)
  }
}
