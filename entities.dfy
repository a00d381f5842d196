/**
 * The records the entity tagger hands to the aggregation step, and how a
 * record's label is looked up.
 */
module Entities {

  datatype Option<T> = None | Some(value: T)

  /**
   * One record returned by the tagger: the surface `word`, and the label under
   * the key `entity_group` (present when sub-word tokens were merged) or under
   * the key `entity` (per-token output). `None` means the key is absent.
   */
  datatype Entity = Entity(word: string, entityGroup: Option<string>, entity: Option<string>)

  /** A record whose label has been resolved to the string `tag`. */
  datatype Span = Span(word: string, tag: string)

  /** Why aggregation fails: the record at `index` carries neither label key. */
  datatype AggregateError = MissingLabel(index: nat)

  datatype Result<T> = Ok(value: T) | Err(error: AggregateError)

  /** True when the record has a label under either key. */
  predicate HasLabel(e: Entity)
  {
    e.entityGroup.Some? || e.entity.Some?
  }

  /**
   * `entity.get('entity_group', entity.get('entity'))`: the `entity_group`
   * value whenever that key is present; `entity` is only consulted when it is
   * absent; no label at all only when both keys are absent.
   */
  function ResolveLabel(e: Entity): (r: Option<string>)
    ensures r.None? <==> !HasLabel(e)
    ensures e.entityGroup.Some? ==> r == e.entityGroup
    ensures e.entityGroup.None? && e.entity.Some? ==> r == e.entity
  {
    match e.entityGroup
    case Some(_) => e.entityGroup
    case None => e.entity
  }

  /**
   * Resolves the label of every record, in order. On success the spans are the
   * records' words paired with their labels; otherwise the error names the
   * FIRST record without a label, which is where the source's loop stops.
   */
  function ResolveAll(es: seq<Entity>): (r: Result<seq<Span>>)
    ensures r.Ok? <==> forall i :: 0 <= i < |es| ==> HasLabel(es[i])
    ensures r.Ok? ==> |r.value| == |es|
    ensures r.Ok? ==> forall i :: 0 <= i < |es| ==>
      r.value[i] == Span(es[i].word, ResolveLabel(es[i]).value)
    ensures r.Err? ==> r.error.index < |es| && !HasLabel(es[r.error.index])
    ensures r.Err? ==> forall i :: 0 <= i < r.error.index ==> HasLabel(es[i])
  {
    if es == [] then Ok([])
    else
      match ResolveLabel(es[0])
      case None => Err(MissingLabel(0))
      case Some(tag) =>
        match ResolveAll(es[1..])
        case Err(e) => Err(MissingLabel(e.index + 1))
        case Ok(rest) => Ok([Span(es[0].word, tag)] + rest)
  }
}
