/**
 * The entity-grouping step of the transcription page: the records returned by
 * the tagger are bucketed into persons, organizations and locations, each
 * bucket keeping the first occurrence of every word in input order.
 */
module Aggregator {
  import opened Text
  import opened Entities

  /** The label substrings that select a bucket, tested in this order. */
  const PerMarker: string := "PER"
  const OrgMarker: string := "ORG"
  const LocMarker: string := "LOC"

  /**
   * The dictionary `{"PERs": ..., "ORGs": ..., "LOCs": ...}`: exactly these
   * three keys, each holding a list of words.
   */
  datatype Grouped = Grouped(pers: seq<string>, orgs: seq<string>, locs: seq<string>)
  {
    /** Every bucket is free of repeated words. */
    predicate Valid()
    {
      Distinct(pers) && Distinct(orgs) && Distinct(locs)
    }

    function Size(): nat
    {
      |pers| + |orgs| + |locs|
    }
  }

  /** All three buckets empty, as they stand before the first record. */
  const NoEntities := Grouped([], [], [])

  predicate Distinct(xs: seq<string>)
  {
    forall i, j :: 0 <= i < j < |xs| ==> xs[i] != xs[j]
  }

  /** True when the tag contains at least one of the three markers. */
  predicate HasMarker(tag: string)
  {
    Contains(tag, PerMarker) || Contains(tag, OrgMarker) || Contains(tag, LocMarker)
  }

  /**
   * One pass of the loop body: the `if / elif / elif` chain whose conditions
   * are "marker in tag and word not in bucket". A failed membership test makes
   * the whole condition false, so control falls through to the next marker.
   */
  function Step(g: Grouped, s: Span): (r: Grouped)
    // at most one bucket changes, and only by appending the span's word
    ensures r == g || r == g.(pers := g.pers + [s.word])
         || r == g.(orgs := g.orgs + [s.word]) || r == g.(locs := g.locs + [s.word])
    ensures g.Valid() ==> r.Valid()
    // priority: a new person goes to the persons bucket and nowhere else
    ensures Contains(s.tag, PerMarker) && s.word !in g.pers ==> r == g.(pers := g.pers + [s.word])
    // fall-through: the organization test is reached unless the person branch was taken
    ensures (!Contains(s.tag, PerMarker) || s.word in g.pers)
         && Contains(s.tag, OrgMarker) && s.word !in g.orgs
        ==> r == g.(orgs := g.orgs + [s.word])
    // ... and the location test unless one of the first two branches was taken
    ensures (!Contains(s.tag, PerMarker) || s.word in g.pers)
         && (!Contains(s.tag, OrgMarker) || s.word in g.orgs)
         && Contains(s.tag, LocMarker) && s.word !in g.locs
        ==> r == g.(locs := g.locs + [s.word])
    // a word already present in every bucket its tag selects is skipped
    ensures (!Contains(s.tag, PerMarker) || s.word in g.pers)
         && (!Contains(s.tag, OrgMarker) || s.word in g.orgs)
         && (!Contains(s.tag, LocMarker) || s.word in g.locs)
        ==> r == g
    // no `else` branch: a tag with no marker changes nothing
    ensures !HasMarker(s.tag) ==> r == g
  {
    if Contains(s.tag, PerMarker) && s.word !in g.pers then
      g.(pers := g.pers + [s.word])
    else if Contains(s.tag, OrgMarker) && s.word !in g.orgs then
      g.(orgs := g.orgs + [s.word])
    else if Contains(s.tag, LocMarker) && s.word !in g.locs then
      g.(locs := g.locs + [s.word])
    else
      g
  }

  /** The buckets after the loop has run over the resolved spans `t`. */
  function Group(t: seq<Span>): (g: Grouped)
    ensures g.Valid()
    ensures g.Size() <= |t|
    decreases |t|
  {
    if t == [] then NoEntities else Step(Group(t[..|t| - 1]), t[|t| - 1])
  }

  /**
   * What `extract_entities` returns for the tagger's records `es`: the grouped
   * buckets, or the failure raised at the first record that has no label.
   */
  function Aggregate(es: seq<Entity>): (r: Result<Grouped>)
    ensures r.Ok? <==> forall i :: 0 <= i < |es| ==> HasLabel(es[i])
    ensures r.Ok? ==> r.value.Valid() && r.value.Size() <= |es|
    ensures r.Err? ==> r.error.index < |es| && !HasLabel(es[r.error.index])
    ensures r.Err? ==> forall i :: 0 <= i < r.error.index ==> HasLabel(es[i])
  {
    match ResolveAll(es)
    case Err(e) => Err(e)
    case Ok(t) => Ok(Group(t))
  }

  /**
   * `extract_entities` after the tagger call: three lists start empty and a
   * loop over the records appends to them behind membership checks.
   */
  method ExtractEntities(es: seq<Entity>) returns (r: Result<Grouped>)
    ensures r == Aggregate(es)
  {
    var pers: seq<string> := [];
    var orgs: seq<string> := [];
    var locs: seq<string> := [];
    ghost var spans: seq<Span> := [];
    var i := 0;
    while i < |es|
      invariant 0 <= i <= |es|
      invariant |spans| == i
      invariant forall j :: 0 <= j < i ==> HasLabel(es[j])
      invariant forall j :: 0 <= j < i ==> spans[j] == Span(es[j].word, ResolveLabel(es[j]).value)
      invariant Grouped(pers, orgs, locs) == Group(spans)
    {
      var word := es[i].word;
      var entityType := ResolveLabel(es[i]);
      if entityType.None? {
        return Err(MissingLabel(i));
      }
      var tag := entityType.value;
      if Contains(tag, PerMarker) && word !in pers {
        pers := pers + [word];
      } else if Contains(tag, OrgMarker) && word !in orgs {
        orgs := orgs + [word];
      } else if Contains(tag, LocMarker) && word !in locs {
        locs := locs + [word];
      }
      ghost var before := spans;
      spans := spans + [Span(word, tag)];
      assert spans[..|spans| - 1] == before;
      i := i + 1;
    }
    assert ResolveAll(es).Ok?;
    assert ResolveAll(es).value == spans;
    r := Ok(Grouped(pers, orgs, locs));
  }
}
