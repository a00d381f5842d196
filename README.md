# Audio2Text entity grouping, modelled in Dafny

Audio2Text is a small web page. It transcribes an uploaded audio file with a
pretrained speech model, runs a pretrained named-entity tagger over the
transcript, and lists the people, organizations and locations it finds. The only
logic of its own is the grouping loop in `extract_entities`. That loop takes the
tagger's records, resolves each record's label, and appends the record's word
to one of three lists (`PERs`, `ORGs`, `LOCs`). What decides the list is an
`if / elif / elif` chain of "marker in label and word not in list" tests.

This project models that loop and proves what it guarantees.

- `text.dfy`, module `Text`: the case-sensitive substring test (`"PER" in label`),
  proved equal to the positional definition of a substring.
- `entities.dfy`, module `Entities`: the tagger's records (`Entity`, with two
  optional label keys), label resolution (`entity.get('entity_group',
  entity.get('entity'))`), and the error raised when a record has neither key.
- `aggregator.dfy`, module `Aggregator`: one pass of the loop body (`Step`), the
  loop as a fold (`Group`), the whole function as a pure specification
  (`Aggregate`), and the imperative loop itself (`ExtractEntities`). The loop
  appends to three sequences, and it is proved to return exactly `Aggregate`.
- `grouping_facts.dfy`, module `GroupingFacts`: a second description of the
  result, built in two stages. First, each word is routed to the streams whose
  test it reaches. Then each stream is deduplicated, keeping first occurrences.
  The module proves the loop equal to this description. Alongside it, the
  module proves first-seen order, where each word comes from, and growth only
  by appending. It ends with worked examples. No repeats, the size bound and
  the error path are the contracts of `Group` and `Aggregate` themselves.

The returned dictionary `{"PERs": ..., "ORGs": ..., "LOCs": ...}` is the
datatype `Grouped`, whose three fields are those three keys. So "the result has
exactly these keys" holds by construction. Python's exception for a record
without a label is the `Err(MissingLabel(i))` result, where `i` is the first
such record. A Dafny function always gives the same output for the same input,
so determinism is not stated separately.

**The `elif` chain is not first-match-wins.** An `if / elif / elif` chain
reads as if a span joined only the first category whose marker its label
contains. The code at main.py:68-73 differs, because each test is
`marker in label and word not in list`. When the word is already in the
persons list, the whole first test is false, and the organization test runs
next. So a label that contains two markers can send the same word to two
lists on two occurrences (`FallThroughExample`). The model follows the code.
What does hold is that one span adds to at most one list (the first ensures of
`Step`). With labels that carry a single marker, as the tagger's label set
does, each bucket is simply the filtered words with repeats removed
(`GroupSingleMarker`).

## Model

| member | source | states |
|---|---|---|
| Text.Contains | main.py:68-72 | Python's case-sensitive `sub in s` on `str`: a string never contains a longer one, and a prefix is contained; the full characterization is `ContainsIffOccurs` |
| Text.ContainsIffOccurs | main.py:68-72 | the `marker in label` test holds exactly when the marker occurs at some position of the label |
| Entities.ResolveLabel | main.py:65 | the label is the `entity_group` value whenever that key is present; `entity` is consulted only when it is absent; there is no label only when both keys are missing |
| Entities.ResolveAll | main.py:63-68 | resolution succeeds iff every record has a label, and then yields each record's word with its label, in order; otherwise the error names the first record without a label, where `"PER" in None` raises |
| Aggregator.Step | main.py:68-73 | one record changes at most one list, and only by appending its word; no-duplicates is preserved; a new person goes to `PERs` only; the organization test is reached when the label has no `PER` or the word is already in `PERs`, and the location test when neither earlier branch was taken; a word already in every list its label selects is skipped; a label with no marker changes nothing |
| Aggregator.Group | main.py:56-73 | after any sequence of spans, no list holds a word twice, and the three lists together hold at most one word per span |
| Aggregator.Aggregate | main.py:44-75 | the call succeeds iff every record has a label; on success the lists are duplicate-free and bounded by the number of records; on failure the error points at the first record without a label |
| Aggregator.ExtractEntities | main.py:56-75 | the loop over three growing lists returns exactly `Aggregate` of the records, including the failure at the first unlabelled record |
| GroupingFacts.GroupIsReference | main.py:63-73 | each list equals the deduplicated stream of words routed to it, where routing follows the fall-through of the `elif` chain |
| GroupingFacts.AggregateIsReference | main.py:44-75 | for records that all carry a label, the result is the reference value of their resolved spans |
| GroupingFacts.GroupSingleMarker | main.py:68-73 | when no label holds two markers, each list is the words whose label contains its marker, in input order, with later repeats removed |
| GroupingFacts.DedupKeepsFirstSeenOrder | main.py:63-73 | deduplication keeps distinct words in the order of their first occurrence |
| GroupingFacts.PersMembers | main.py:68-69 | a word is in `PERs` iff some span with that word has a label containing `PER` |
| GroupingFacts.AggregatePersMembers | main.py:63-69 | the same, stated on the tagger's records and their resolved labels |
| GroupingFacts.Provenance | main.py:70-73 | every word in `ORGs` (`LOCs`) comes from a span whose label contains `ORG` (`LOC`) |
| GroupingFacts.SingleMarkerMembers | main.py:70-73 | when no label holds two markers, a word is in `ORGs` (`LOCs`) iff some span with that word has a label containing `ORG` (`LOC`) |
| GroupingFacts.AggregateProvenance | main.py:63-73 | on the tagger's records: every word in `ORGs` (`LOCs`) is the word of a record whose resolved label contains `ORG` (`LOC`), and when no label holds two markers the converse holds too |
| GroupingFacts.GroupGrows | main.py:68-73 | later spans only append: each list after a prefix of the input is a prefix of the list after the whole input |
| GroupingFacts.AggregateEmpty | main.py:56-75 | no records give three empty lists |
| GroupingFacts.AggregateExample | main.py:63-75 | a person seen twice is listed once, and the `entity` key supplies the label when `entity_group` is absent |
| GroupingFacts.FallThroughExample | main.py:68-73 | a word seen twice with a label holding both `PER` and `ORG` ends up in both `PERs` and `ORGs` |
| GroupingFacts.MissingLabelExample | main.py:65-68 | a record with neither label key makes the call fail at that record, even when later records also lack one |

## Left out

- The tagger call `ner_pipeline(text)` (main.py:53) and its sub-word merging (main.py:25): this is model inference. Its output is the input sequence of records.
- `load_whisper_model` and `load_ner_model` (main.py:7-26): they only construct library pipelines.
- `transcribe_audio` (main.py:29-40): it reads the file and runs speech recognition, which is I/O plus an opaque model.
- `main` (main.py:78-128): page widgets, HTML styling and list rendering are presentation only.
- Dates: the page text promises date extraction (main.py:83), but no code implements it, so there is no date bucket.
- The record's `word` key is assumed present. A record without it would raise a key error at main.py:64, and the tagger always supplies it.
- Label values are strings. A key present with a non-string value, such as `None`, is not modelled.
- The three lists are values held in local sequences. The dictionary's aliasing of the lists it is built from (main.py:61) cannot be observed, because the lists are appended to only through the dictionary and then returned.
- Strings are compared as plain character sequences, with no Unicode normalisation. This matches Python's `==` and `in` on `str`.
