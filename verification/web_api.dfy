/**
 * The three JSON endpoints of `app.py`: `/analyze` (symptom extraction),
 * `/predict` (top-5 ranking with common symptoms) and `/all_symptoms` (the
 * autocomplete list). Request parsing is reduced to the one field each
 * endpoint reads; a missing field or a JSON null is `None`.
 */
module WebApi {
  import opened Wrappers
  import opened KnowledgeBase
  import opened Extraction
  import opened Ranking
  import opened Reporting

  /** A reply: 200 with a body, or 400 with an error message. */
  datatype Response<T> = Ok(body: T) | BadRequest(error: string) {
    function Status(): int {
      if Ok? then 200 else 400
    }
  }

  // ---------------------------------------------------------------------------
  // /analyze

  datatype AnalyzeBody = AnalyzeBody(symptoms: seq<DetectedSymptom>, detectedIds: seq<string>)

  /** POST /analyze: empty or missing text is a bad request; otherwise the extracted symptoms. */
  function Analyze(text: Option<string>, segment: string -> seq<string>, kb: KnowledgeBase, ratio: Scorer): (r: Response<AnalyzeBody>)
    ensures r.Status() == 400 <==> text.None? || text.value == []
    ensures r.BadRequest? ==> r.error == "No text provided"
    ensures r.Ok? ==> r.body.symptoms == DetectedSymptoms(kb, segment(text.value), ratio)
    ensures r.Ok? ==>
      && |r.body.detectedIds| == |r.body.symptoms|
      && forall k :: 0 <= k < |r.body.symptoms| ==> r.body.detectedIds[k] == r.body.symptoms[k].id
    ensures r.Ok? ==> forall k :: 0 <= k < |r.body.symptoms| ==>
      ConfidenceThreshold <= r.body.symptoms[k].confidence && NamedAfterEntry(kb, r.body.symptoms[k])
    ensures r.Ok? ==> forall i, j :: 0 <= i < j < |r.body.detectedIds| ==>
      r.body.detectedIds[i] != r.body.detectedIds[j] &&
      r.body.symptoms[i].confidence >= r.body.symptoms[j].confidence
  {
    if text.None? || text.value == [] then BadRequest("No text provided")
    else
      var symptoms := DetectedSymptoms(kb, segment(text.value), ratio);
      Ok(AnalyzeBody(symptoms, Ids(symptoms)))
  }

  // ---------------------------------------------------------------------------
  // /predict

  const PredictTopN: nat := 5

  datatype PredictionEntry = PredictionEntry(disease: string, percent: real, commonSymptoms: seq<string>)

  /**
   * POST /predict: an empty or missing list is a bad request; otherwise the
   * five most probable diseases for the submitted ids, each with its sorted
   * common symptoms.
   */
  function Predict(symptoms: Option<seq<string>>, c: Classifier, columns: seq<string>, dsd: map<string, seq<string>>): (r: Response<seq<PredictionEntry>>)
    ensures r.Status() == 400 <==> symptoms.None? || symptoms.value == []
    ensures r.BadRequest? ==> r.error == "No symptoms provided"
    ensures r.Ok? ==>
      var ranked := RankDiseases(c, columns, symptoms.value);
      && |r.body| <= PredictTopN
      && |r.body| == (if |c.classes| < PredictTopN then |c.classes| else PredictTopN)
      && (forall k :: 0 <= k < |r.body| ==>
            r.body[k].disease == ranked[k].disease && r.body[k].percent == ranked[k].percent)
      && (forall k :: 0 <= k < |r.body| ==>
            r.body[k].commonSymptoms == CommonSymptomsOrEmpty(dsd, r.body[k].disease))
    ensures r.Ok? ==> forall i, j :: 0 <= i < j < |r.body| ==> r.body[i].percent >= r.body[j].percent
  {
    if symptoms.None? || symptoms.value == [] then BadRequest("No symptoms provided")
    else
      var top := Top(RankDiseases(c, columns, symptoms.value), PredictTopN);
      Ok(seq(|top|, k requires 0 <= k < |top| =>
        PredictionEntry(top[k].disease, top[k].percent, CommonSymptomsOrEmpty(dsd, top[k].disease))))
  }

  // ---------------------------------------------------------------------------
  // /all_symptoms

  datatype SymptomName = SymptomName(id: string, name: string)

  /**
   * The autocomplete name of a column: the id itself when the dictionary has
   * no entry for it, otherwise the entry's first phrase; an entry with an
   * empty phrase list has no first phrase, which fails the request.
   */
  function ColumnName(kb: KnowledgeBase, id: string): (r: Option<string>)
    ensures Find(kb, id).None? ==> r == Some(id)
    ensures Find(kb, id).Some? ==> r == PrimaryName(Find(kb, id).value)
    ensures r.None? <==> Find(kb, id) == Some(PhraseList([]))
  {
    match Find(kb, id)
    case None => Some(id)
    case Some(v) => PrimaryName(v)
  }

  /** GET /all_symptoms: one named entry per column, in column order. */
  function AllSymptoms(columns: seq<string>, kb: KnowledgeBase): (r: Result<seq<SymptomName>, string>)
    ensures r.Success? <==> forall j :: 0 <= j < |columns| ==> ColumnName(kb, columns[j]).Some?
    ensures r.Success? ==>
      && |r.value| == |columns|
      && forall j :: 0 <= j < |columns| ==>
           r.value[j] == SymptomName(columns[j], ColumnName(kb, columns[j]).value)
  {
    if columns == [] then Success([])
    else
      match AllSymptoms(columns[..|columns| - 1], kb)
      case Failure(e) => Failure(e)
      case Success(init) =>
        match ColumnName(kb, columns[|columns| - 1])
        case None => Failure("list index out of range")
        case Some(name) => Success(init + [SymptomName(columns[|columns| - 1], name)])
  }

  /**
   * The autocomplete list and `/analyze` agree: a detected symptom that is a
   * column carries the same name in both.
   */
  lemma AllSymptomsAgreesWithAnalyze(
    columns: seq<string>, kb: KnowledgeBase, text: string, segment: string -> seq<string>, ratio: Scorer, k: nat, j: nat)
    requires AllSymptoms(columns, kb).Success?
    requires Analyze(Some(text), segment, kb, ratio).Ok?
    requires var ds := Analyze(Some(text), segment, kb, ratio).body.symptoms;
      k < |ds| && j < |columns| && columns[j] == ds[k].id
    ensures AllSymptoms(columns, kb).value[j].name == Analyze(Some(text), segment, kb, ratio).body.symptoms[k].name
  {
    var d := Analyze(Some(text), segment, kb, ratio).body.symptoms[k];
    assert NamedAfterEntry(kb, d);
    var e :| 0 <= e < |kb| && kb[e].id == d.id && |Phrases(kb[e].synonyms)| > 0 && d.name == Phrases(kb[e].synonyms)[0];
    FindAtPosition(kb, e);
  }
}
