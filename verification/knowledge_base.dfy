/**
 * The symptom dictionary loaded from JSON: an ordered mapping from symptom id
 * to either one synonym string or a list of synonyms.
 */
module KnowledgeBase {
  import opened Wrappers

  /** A dictionary value: a single phrase or a list of phrases. */
  datatype Synonyms = Phrase(text: string) | PhraseList(items: seq<string>)

  datatype SymptomEntry = SymptomEntry(id: string, synonyms: Synonyms)

  predicate UniqueIds(entries: seq<SymptomEntry>) {
    forall i, j :: 0 <= i < j < |entries| ==> entries[i].id != entries[j].id
  }

  /** A Python dict in insertion order: no id occurs twice. */
  type KnowledgeBase = kb: seq<SymptomEntry> | UniqueIds(kb) witness []

  /** The phrases matched for a value: a plain string counts as a one-element list. */
  function Phrases(v: Synonyms): seq<string> {
    match v
    case Phrase(t) => [t]
    case PhraseList(items) => items
  }

  /**
   * `name[0] if isinstance(name, list) else name`, the name shown for a symptom;
   * `None` where indexing an empty list raises.
   */
  function PrimaryName(v: Synonyms): (r: Option<string>)
    ensures r.Some? <==> |Phrases(v)| > 0
    ensures r.Some? ==> r.value == Phrases(v)[0]
  {
    match v
    case Phrase(t) => Some(t)
    case PhraseList(items) => if |items| > 0 then Some(items[0]) else None
  }

  /** `symptoms_dict.get(id)` */
  function Find(kb: seq<SymptomEntry>, id: string): (r: Option<Synonyms>)
    ensures r.None? <==> forall i :: 0 <= i < |kb| ==> kb[i].id != id
    ensures r.Some? ==> exists i :: 0 <= i < |kb| && kb[i].id == id && kb[i].synonyms == r.value
  {
    if kb == [] then None
    else if kb[0].id == id then Some(kb[0].synonyms)
    else
      var r := Find(kb[1..], id);
      assert forall i :: 1 <= i < |kb| ==> kb[i] == kb[1..][i - 1];
      r
  }

  /** Where `id` sits in the dictionary's iteration order (`|kb|` when absent). */
  function Position(kb: seq<SymptomEntry>, id: string): (r: nat)
    ensures r <= |kb|
    ensures r < |kb| ==> kb[r].id == id
    ensures forall i :: 0 <= i < r ==> kb[i].id != id
  {
    if kb == [] then 0
    else if kb[0].id == id then 0
    else
      var r := 1 + Position(kb[1..], id);
      assert forall i :: 1 <= i < |kb| ==> kb[i] == kb[1..][i - 1];
      r
  }

  /** With unique ids, the entry found for an id is the one stored at its position. */
  lemma FindAtPosition(kb: seq<SymptomEntry>, i: nat)
    requires UniqueIds(kb) && i < |kb|
    ensures Position(kb, kb[i].id) == i
    ensures Find(kb, kb[i].id) == Some(kb[i].synonyms)
  {
    var p := Position(kb, kb[i].id);
    assert p <= i;
  }

  lemma PositionInPrefix(kb: seq<SymptomEntry>, n: nat, id: string)
    requires n <= |kb| && Position(kb[..n], id) < n
    ensures Position(kb, id) == Position(kb[..n], id)
  {
    var p := Position(kb[..n], id);
    assert kb[..n][p] == kb[p];
    assert forall i :: 0 <= i < p ==> kb[..n][i] == kb[i];
  }
}
