# SickScan core in Dafny

SickScan turns a free-text description of how someone feels into symptom ids
and then into a ranked list of probable diseases. This project models its core
as pure Dafny functions, with lemmas about their behaviour:

- **Extraction** (`nlp.py`). Every synonym of every dictionary symptom is
  scored against every sentence. A score below 85 is dropped, each symptom
  keeps its best score, and the survivors are sorted best first with a stable
  sort.
- **Ranking** (`main.py`, `app.py`, `Dataset2/main.py`). The presence vector
  over the symptom columns is built and handed to the classifier. The classes
  are sorted by probability in `argsort()[::-1]` order, and the top 5, 3 or 10
  are shown with each disease's sorted "common symptoms".
- **Command-line turn** (`main.py`). One turn is the exit command, extraction,
  the first top-5, then the refinement prompt. At that prompt the user adds
  comma-separated ids and gets a top-3 over the enlarged list.
- **Web endpoints** (`app.py`). `/analyze`, `/predict` and `/all_symptoms`,
  including their 400 replies and the failure of `/all_symptoms` on an empty
  synonym list.
- **Training vocabulary** (`train.py`, repeated in `sym.py`). It covers:
  - symptom ids in normal form (`strip().lower().replace(" ", "_")`) and their
    display names
  - normalised disease names and the label encoding
  - multi-hot rows
  - the disease-to-symptoms map
- **The second front end** (`Dataset2/main.py`). It covers:
  - the disease-to-symptoms lists built by grouping 0/1 rows
  - the numbered listing, printed four to a line
  - one prompt round with a top-10

Modules:

- `wrappers`: `Option` and `Result`.
- `text`: ASCII case mapping, Python's `strip`, `title` and `isupper`.
- `tokens`: `split(",")`, the symptom-id normal form, cleaning of typed lists.
- `string_order`: Python string order, `sorted` and `sorted(set(...))`.
- `stable_sort`: `sorted(..., reverse=True)` on a numeric key.
- `knowledge_base`: the symptom dictionary.
- `extraction`: the extractor.
- `ranking`: presence vector, classifier, ranking, top-N, common symptoms.
- `reporting`: naming of detected symptoms.
- `cli`: the command-line turn.
- `web_api`: the endpoints.
- `vocabulary`: `train.py` and `sym.py`.
- `dataset2`: the second front end.

The outside world is passed in as parameters:

- The fuzzy scorer (`fuzz.token_set_ratio`) is any function from two strings
  to 0..100.
- Sentence segmentation (spaCy) is a function from text to sentences.
- The trained classifier is its class names plus any function from a presence
  vector to one probability per class.
- Typed lines and request fields are inputs. A missing JSON field or null is
  `None`.

Behaviour of the code worth knowing, as modelled:

- A non-blank refinement line always re-ranks and prints a top-3, even when
  no typed id is a column; only a blank line leaves the first ranking
  standing (`Cli.CliTurn`, `Cli.RefinedPredictions`).
- Only the space character becomes `_` in a symptom id; other internal
  whitespace is kept, and runs of spaces are not collapsed
  (`Tokens.NormalizeToken`).
- A dictionary entry may have an empty phrase list. Such an entry is never
  detected, and `/all_symptoms` fails on it with an index error
  (`WebApi.AllSymptoms`).
- Tied probabilities have no order fixed by the code: numpy's default
  `argsort` is not a stable sort. The model orders ties as a stable ascending
  sort reversed would, from the highest class index down
  (`Ranking.RankClassesTiesByIndex`); this is a choice of the model.

## Model

| member | source | states |
|---|---|---|
| `Tokens.NormalizeToken` | train.py:25 | character by character, the normal form is the stripped input lower-cased with each space turned into `_`; it is stripped and holds no space and no upper-case letter |
| `Tokens.NormalizeTokenFixedPoints` | Dataset2/main.py:63 | normalising is idempotent, and a string is left unchanged exactly when it is already in normal form, so a typed id in normal form reaches the columns unchanged |
| `Tokens.JoinSplit` | main.py:119 | joining the pieces of `split(sep)` with `sep` gives back the original line |
| `Tokens.SplitJoin` | main.py:119 | splitting pieces joined by a separator they do not contain gives back those pieces |
| `Tokens.CleanTokens` | main.py:118-120 | every cleaned token is non-empty, comma-free and in normal form, and a token appears exactly when some non-blank comma piece of the line normalises to it |
| `Tokens.CleanPiecesPieceByPiece` | main.py:118-120 | cleaning goes piece by piece in typed order: it distributes over concatenation, and one piece gives its normal form when it is not blank and nothing otherwise, so order and repeats are kept |
| `Tokens.CleanTokensIgnoresOuterWhitespace` | main.py:115 | stripping the refinement line before splitting (as `main.py` does, unlike `Dataset2/main.py`) yields the same tokens |
| `Text.StripDecompose` | train.py:25 | `strip` removes exactly a whitespace prefix and a whitespace suffix and keeps the middle intact |
| `Text.TitleCasedUnique` | train.py:32 | two title-cased strings that agree up to letter case are equal, so `title()` is fixed by its lower-case form |
| `StringOrder.SortStrings` | main.py:71 | `sorted` of a string list is ordered and holds the same strings with the same multiplicities |
| `StringOrder.SortedArrangementIsUnique` | main.py:71 | two ordered lists with the same strings and multiplicities are identical, so the sorted output does not depend on input order |
| `StringOrder.SortedUnique` | train.py:23-29 | `sorted(set(xs))` is strictly ordered and holds exactly the strings of `xs` |
| `StringOrder.StrictlySortedIsUnique` | train.py:23-29 | only one strictly ordered list holds a given set of strings |
| `StableSort.SortDescending` | nlp.py:35 | the result is a permutation of the input in non-increasing key order |
| `StableSort.SortDescendingIsStable` | nlp.py:35 | elements with equal keys keep their input order |
| `KnowledgeBase.Find` | app.py:148-149 | a lookup fails exactly when no entry has the id; otherwise it returns that entry's value |
| `KnowledgeBase.PrimaryName` | main.py:103-104 | the display name is the first phrase, and exists exactly when the value has a phrase |
| `Extraction.Record` | nlp.py:28-32 | a score below 85 changes nothing; a new id is appended; a known id is only raised, in place; no id moves |
| `Extraction.CandidateOrigin` | nlp.py:17-25 | a score is computed exactly when it comes from some phrase of some entry against some sentence, both lower-cased |
| `Extraction.BestMatches` | nlp.py:10-32 | the kept pairs have distinct ids; each holds the best score of its id, at least 85; every id that reached 85 is kept |
| `Extraction.BestMatchesThenRecordAll` | nlp.py:17-32 | scanning two batches of scores in a row gives the summary of the first batch updated with the second |
| `Extraction.BestMatchesFollowKb` | nlp.py:17-32 | before sorting, the kept ids appear in dictionary order |
| `Extraction.Extract` | nlp.py:5-37 | the result is a permutation of the per-id best scores, each between 85 and 100, sorted highest first |
| `Extraction.ExtractTiesFollowKbOrder` | nlp.py:35 | symptoms with equal confidence are listed in dictionary order |
| `Extraction.DetectedAreKnown` | main.py:102-104 | every reported id is a dictionary key with at least one phrase, so naming it cannot fail |
| `Extraction.NoSentencesNothingDetected` | nlp.py:14-37 | with no sentences nothing is reported |
| `Extraction.PerfectMatchDetected` | nlp.py:25-32 | a phrase scoring 100 against a sentence is reported with confidence 100 |
| `Ranking.PresenceVector` | main.py:57-60 | the vector has one slot per column, and a slot is 1 exactly when its column was named; other ids are ignored |
| `Ranking.PresenceDependsOnKnownIds` | app.py:113-116 | two id lists that name the same columns give the same vector, whatever their order, repeats or unknown ids |
| `Ranking.RankClasses` | main.py:62-63 | the ranking lists every class index exactly once, by non-increasing probability |
| `Ranking.RankClassesTiesByIndex` | main.py:63 | classes with equal probability are listed from the higher index down |
| `Ranking.RankDiseases` | main.py:55-66 | every class appears as (its name, 100 × its probability); nothing else appears; the list is non-increasing in percentage |
| `Ranking.RankingDependsOnKnownIds` | app.py:113-123 | the ranking depends only on which columns the ids name |
| `Ranking.Top` | main.py:70 | the top-n is the prefix of length min(n, len), and every kept prediction scores at least as high as every dropped one |
| `Ranking.CommonSymptoms` | main.py:71 | an absent disease gives no list ("N/A"); a present one gives its symptoms sorted, with the same multiplicities |
| `Ranking.CommonSymptomsIgnoreListOrder` | main.py:71 | the shown list does not depend on the order in which the saved mapping stores a disease's symptoms |
| `Ranking.CommonSymptomsOrEmpty` | app.py:128-130 | an absent disease gives the empty list; a present one gives its symptoms sorted |
| `Reporting.DetectedSymptoms` | app.py:89-97 | one entry per extracted pair, in order, with the same id and confidence, each named after the first phrase of its dictionary entry |
| `Cli.ShowPredictions` | main.py:68-73 | at most `top_n` lines, one per leading prediction, each with its sorted common symptoms or "N/A"; ranked input gives non-increasing lines |
| `Cli.MergeExtras` | main.py:122-124 | the old list is kept as a prefix; only new, known, distinct extras are appended; membership is old ids plus known extras |
| `Cli.MergeExtrasKeepsTypedOrder` | main.py:122-124 | the appended extras come in the order they were first typed |
| `Cli.MergeExtrasRanksUnion` | main.py:122-127 | ranking the merged list equals ranking the old ids plus all typed extras |
| `Cli.Refine` | main.py:115-124 | a blank refinement line gives no refinement; otherwise the old list is merged with the line's cleaned tokens |
| `Cli.RefinedPredictions` | main.py:117-134 | the final top-3 appears exactly when the line is not blank, and is the top-3 ranking of the old ids plus the cleaned extras |
| `Cli.CliTurn` | main.py:86-134 | "exit" in any case with any padding ends the loop; otherwise either nothing is detected, or the named detections, top-5 and optional top-3 are reported as the ranking functions give them |
| `WebApi.Analyze` | app.py:76-102 | 400 "No text provided" exactly for missing or empty text; otherwise named symptoms ≥ 85 with distinct ids, highest first, and `detected_ids` listing their ids in the same order |
| `WebApi.Predict` | app.py:104-138 | 400 "No symptoms provided" exactly for a missing or empty list; otherwise min(5, classes) leading ranked diseases, each with sorted common symptoms or `[]` |
| `WebApi.ColumnName` | app.py:147-150 | a column absent from the dictionary is named by its id, otherwise by its entry's first phrase; it fails exactly for an empty phrase list |
| `WebApi.AllSymptoms` | app.py:140-154 | the request succeeds exactly when every column can be named, and then gives one (id, name) per column in column order |
| `WebApi.AllSymptomsAgreesWithAnalyze` | app.py:145-152 | a detected symptom that is a column has the same name in the autocomplete list as in `/analyze` |
| `Vocabulary.SymptomValues` | sym.py:13 | the flattened cells are exactly the filled symptom cells of the dataset |
| `Vocabulary.KeptIds` | sym.py:11-15 | a token is kept exactly when some value other than the raw "none" normalises to it; each token is in normal form |
| `Vocabulary.SymptomIds` | train.py:23-29 | the columns are strictly sorted, in normal form, and are exactly the normalised non-"none" cells |
| `Vocabulary.DisplayName` | train.py:32 | the display name spells the id with `_` as space, contains no `_`, and is title-cased: a letter is upper-case exactly when it starts a word |
| `Vocabulary.DisplayNameDetermined` | train.py:32 | any title-cased spelling of the id with `_` as space is the display name, so the contract fixes it |
| `Vocabulary.DisplayNames` | train.py:32-33 | the display map has exactly the symptom ids as keys, and sends each id to its display name |
| `Vocabulary.DisplayNameRoundTrip` | sym.py:19-20 | normalising the display name of an id in normal form that neither starts nor ends with `_` gives back the id |
| `Vocabulary.NormalizeDisease` | train.py:40 | the disease name is stripped; an all-upper-case name is only stripped; otherwise it is the stripped name title-cased, a letter upper-case exactly when it starts a word |
| `Vocabulary.NormalizeDiseaseDetermined` | train.py:40 | for a name that is not all upper-case, any title-cased spelling of the stripped name is the normalised name |
| `Vocabulary.NormalizeDiseaseIdempotent` | train.py:58 | normalising a normalised disease name changes nothing |
| `Vocabulary.Diseases` | train.py:38-44 | the classes are strictly sorted and are exactly the normalised names of rows whose raw disease cell is not "none" |
| `Vocabulary.EncodeLabels` | train.py:56-58 | encoding fails exactly when some row's disease is not a class; otherwise each row gets the index of its disease's class |
| `Vocabulary.EncodeLabelsSucceeds` | train.py:56-58 | encoding the dataset against its own classes succeeds when no disease cell is missing |
| `Vocabulary.RowTokens` | train.py:50-52 | a row's tokens are exactly its normalised cells other than "none" |
| `Vocabulary.MultiHotRow` | train.py:48-53 | the row's slot for a column is 1 exactly when some cell of the row normalises to that column, and the column is not "none" |
| `Vocabulary.MultiHotCoversRow` | train.py:48-53 | every value of a row that does not normalise to "none" is a column and is set in that row |
| `Vocabulary.NoneSpellingIsDeadColumn` | train.py:25-52 | a cell that is not literally "none" but normalises to "none" passes the raw test at line 27 and becomes the column "none", but the multi-hot test at line 52 sees the normalised "none" and never sets it |
| `Vocabulary.UpperCaseNoneNormalizesToNone` | train.py:25-27 | "NONE" is such a cell: it differs from "none" and normalises to it |
| `Vocabulary.UpperCaseNoneIsDeadColumn` | train.py:25-52 | a dataset whose only symptom cell is "NONE" has the single column "none", and its multi-hot row is `[0]` |
| `Vocabulary.UnionByKey` | train.py:89 | repeated `setdefault(key, set()).update(values)` holds every key seen, each with the union of its values |
| `Vocabulary.DiseaseSymptomMap` | train.py:81-89 | a disease is a key exactly when some row has it; a symptom is listed for it exactly when a row of that disease has it, named via the display map or by its id |
| `Vocabulary.DiseaseSymptomMapGrows` | train.py:81-89 | adding rows never removes a disease or any of its symptoms |
| `Vocabulary.MappingUsesDisplayNames` | train.py:88 | with the display map built from the same rows, every listed symptom is the display name of a column, so the `get(val, val)` fallback never fires |
| `Vocabulary.EveryClassHasMapping` | train.py:83 | the mapping's keys use the same disease normalisation as the label classes, so every class has an entry and "N/A" is never shown for a class |
| `Dataset2.PositiveSumIffFlagged` | Dataset2/main.py:48 | on 0/1 data a column's total for a disease is positive exactly when some row of that disease has the flag set |
| `Dataset2.GroupIndices` | Dataset2/main.py:48 | the listed columns are in increasing order, and are exactly those with a positive total for the disease |
| `Dataset2.GroupMap` | Dataset2/main.py:46-49 | one entry per disease that labels a row, listing in column order the columns with a positive total |
| `Dataset2.GroupMapListsFlaggedSymptoms` | Dataset2/main.py:14-49 | with 0/1 data a symptom is listed for a disease exactly when some row of that disease flags it |
| `Dataset2.Chunks` | Dataset2/main.py:55-56 | the chunks concatenate back to the input, and all are of size 4 except a last one of size 1 to 4 |
| `Dataset2.ChunkPosition` | Dataset2/main.py:55-57 | entry `j` of chunk `i` is element `4i + j` of the input |
| `Dataset2.Listing` | Dataset2/main.py:54-57 | read line by line, the `k`-th symptom is numbered `k + 1` and shown by its display name, four to a line |
| `Dataset2.ListingPosition` | Dataset2/main.py:57 | entry `j` of line `i` carries number `4i + j + 1` and the display name of symptom `4i + j` |
| `Dataset2.PromptRound` | Dataset2/main.py:59-82 | the round lists min(10, classes) leading ranked diseases for the cleaned typed ids, highest first, each with its sorted symptom list or `[]` |

## Left out

- The fuzzy scorer, spaCy segmentation and the trained Naive Bayes classifier are external code. They are parameters: a scorer into 0..100, a segmentation function, and a probability function with its class names.
- `fuzz.token_set_ratio` itself is not modelled: no property of the scorer beyond its range is assumed.
- `LabelEncoder` is modelled by its classes (the sorted disease names) and `inverse_transform` by indexing them.
- Floating point is modelled as `real`. `round(confidence, 2)` in `/predict` and the `:.2f` formatting of printed percentages are left out.
- Loading and saving artifacts is left out: `joblib`, JSON and CSV files, `load_artifacts` and its error messages.
- The JSON list order of the saved mapping is arbitrary (a Python set is dumped). `Ranking.CommonSymptomsIgnoreListOrder` shows this cannot affect what is shown.
- Flask plumbing is left out: routing, `render_template`, `jsonify`, and request bodies that are not JSON objects.
- A `text` or `symptoms` field of some other JSON type (a number, a list for `text`) is not modelled. Only a missing or null field, an empty value or a proper value is.
- The endless `while True` loops, `print` and `input` are left out. One loop pass is a function of the typed lines (`Cli.CliTurn`, `Dataset2.PromptRound`).
- The model cache branch of `Dataset2/main.py` (lines 22-43) is left out, along with the training call itself.
- The `:40` format that pads each "N. Name" cell of the listing to 40 characters is left out. `Dataset2.Listing` gives the number and name of each cell.
- The front end (`static/js/script.js`) is left out.
- Text handling covers ASCII only. Case mapping and `title` treat only `A`-`Z` and `a`-`z` as cased. `strip` removes Python's full `isspace` set.
- Ranking.RankClasses: ties are ordered as a stable ascending sort reversed would give them. numpy's default `argsort` is not guaranteed stable, so the source promises no particular tie order.
- Cli.CliTurn: `text.lower().strip()` is modelled as `Strip(Lower(text))`. On ASCII this is the same as the source.
- Dataset2.GroupMap: `fillna(0)` runs before the grouping, so a missing disease cell becomes the label `0` and forms a group of its own. Here every row has a disease string.
- Dataset2.GroupMap: with `fillna(0)` a missing flag is read as 0. Flags are integers here, not the 0/1 floats pandas may hold.
