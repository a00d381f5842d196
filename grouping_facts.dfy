/**
 * An independent description of the three buckets, the proof that the loop
 * computes it, and, alongside it, further properties of the grouping step:
 * first-seen order, where each word comes from, growth only by appending,
 * and worked examples.
 *
 * The description separates the two things the loop does at once. First,
 * every span's word is routed to the bucket streams whose test it reaches;
 * then each stream is deduplicated, keeping first occurrences.
 */
module GroupingFacts {
  import opened Text
  import opened Entities
  import opened Aggregator

  /**
   * `xs` with every element that already occurred earlier removed: the same
   * elements, each exactly once.
   */
  function Dedup(xs: seq<string>): (r: seq<string>)
    ensures forall x :: x in r <==> x in xs
    ensures Distinct(r)
    ensures |r| <= |xs|
    decreases |xs|
  {
    if xs == [] then []
    else
      var front, x := xs[..|xs| - 1], xs[|xs| - 1];
      assert xs == front + [x];
      if x in front then Dedup(front) else Dedup(front) + [x]
  }

  /** The words of the spans whose tag contains `marker`, in input order. */
  function Filter(t: seq<Span>, marker: string): seq<string>
    decreases |t|
  {
    if t == [] then []
    else Filter(t[..|t| - 1], marker)
         + (if Contains(t[|t| - 1].tag, marker) then [t[|t| - 1].word] else [])
  }

  /**
   * The organization test is reached for span `s`, processed after `before`,
   * when the person branch was not taken: its tag has no person marker, or
   * its word already came through the person stream.
   */
  predicate ReachesOrg(before: seq<Span>, s: Span)
  {
    !Contains(s.tag, PerMarker) || s.word in Filter(before, PerMarker)
  }

  /** The words routed to the organization test that pass its marker check. */
  function OrgStream(t: seq<Span>): seq<string>
    decreases |t|
  {
    if t == [] then []
    else
      var before, s := t[..|t| - 1], t[|t| - 1];
      OrgStream(before)
      + (if Contains(s.tag, OrgMarker) && ReachesOrg(before, s) then [s.word] else [])
  }

  /** The location test is reached when neither earlier branch was taken. */
  predicate ReachesLoc(before: seq<Span>, s: Span)
  {
    ReachesOrg(before, s) && (!Contains(s.tag, OrgMarker) || s.word in OrgStream(before))
  }

  /** The words routed to the location test that pass its marker check. */
  function LocStream(t: seq<Span>): seq<string>
    decreases |t|
  {
    if t == [] then []
    else
      var before, s := t[..|t| - 1], t[|t| - 1];
      LocStream(before)
      + (if Contains(s.tag, LocMarker) && ReachesLoc(before, s) then [s.word] else [])
  }

  /** The reference value of the buckets. */
  function Reference(t: seq<Span>): Grouped
  {
    Grouped(Dedup(Filter(t, PerMarker)), Dedup(OrgStream(t)), Dedup(LocStream(t)))
  }

  /** A tag that contains at most one of the three markers. */
  predicate SingleMarker(tag: string)
  {
    var p, o, l := Contains(tag, PerMarker), Contains(tag, OrgMarker), Contains(tag, LocMarker);
    !(p && o) && !(p && l) && !(o && l)
  }

  // ---------------------------------------------------------------------------
  // Dedup and Filter

  /** Appending one element to the input appends it to the output iff it is new. */
  lemma DedupSnoc(xs: seq<string>, x: string)
    ensures Dedup(xs + [x]) == if x in xs then Dedup(xs) else Dedup(xs) + [x]
  {
    assert (xs + [x])[..|xs|] == xs;
  }

  /** The first occurrences of distinct elements keep their relative order. */
  lemma {:induction false} DedupKeepsFirstSeenOrder(xs: seq<string>, i: nat, j: nat)
    requires i < j < |Dedup(xs)|
    ensures FirstIndex(xs, Dedup(xs)[i]) < FirstIndex(xs, Dedup(xs)[j])
    decreases |xs|
  {
    var front, x := xs[..|xs| - 1], xs[|xs| - 1];
    assert xs == front + [x];
    var d, d' := Dedup(xs), Dedup(front);
    var a, b := d[i], d[j];
    if x in front || j < |d'| {
      assert a == d'[i] && b == d'[j];
      DedupKeepsFirstSeenOrder(front, i, j);
      FirstIndexSnoc(front, x, a);
      FirstIndexSnoc(front, x, b);
    } else {
      assert a == d'[i] && b == x;
      FirstIndexSnoc(front, x, a);
      FirstIndexSnoc(front, x, b);
    }
  }

  /** The position of the first occurrence of `x` in `xs`. */
  function FirstIndex(xs: seq<string>, x: string): (k: nat)
    requires x in xs
    ensures k < |xs| && xs[k] == x
    ensures forall m :: 0 <= m < k ==> xs[m] != x
  {
    if xs[0] == x then 0 else 1 + FirstIndex(xs[1..], x)
  }

  lemma {:induction false} FirstIndexSnoc(xs: seq<string>, x: string, y: string)
    requires y in xs + [x]
    ensures y in xs ==> FirstIndex(xs + [x], y) == FirstIndex(xs, y)
    ensures y !in xs ==> FirstIndex(xs + [x], y) == |xs|
  {
    var k := FirstIndex(xs + [x], y);
    if y in xs {
      var k' := FirstIndex(xs, y);
      assert (xs + [x])[k'] == y;
      assert k <= k';
      assert xs[k] == y;
    } else {
      assert k == |xs|;
    }
  }

  lemma {:induction false} FilterMembers(t: seq<Span>, marker: string)
    ensures forall w :: w in Filter(t, marker) <==>
      exists j :: 0 <= j < |t| && t[j].word == w && Contains(t[j].tag, marker)
    decreases |t|
  {
    if t != [] {
      var front := t[..|t| - 1];
      FilterMembers(front, marker);
      forall w | w in Filter(t, marker)
        ensures exists j :: 0 <= j < |t| && t[j].word == w && Contains(t[j].tag, marker)
      {
        if w in Filter(front, marker) {
          var j :| 0 <= j < |front| && front[j].word == w && Contains(front[j].tag, marker);
          assert t[j] == front[j];
        }
      }
      forall w | exists j :: 0 <= j < |t| && t[j].word == w && Contains(t[j].tag, marker)
        ensures w in Filter(t, marker)
      {
        var j :| 0 <= j < |t| && t[j].word == w && Contains(t[j].tag, marker);
        if j < |t| - 1 {
          assert front[j] == t[j];
        }
      }
    }
  }

  lemma FilterSnoc(t: seq<Span>, s: Span, marker: string)
    ensures Filter(t + [s], marker)
         == Filter(t, marker) + (if Contains(s.tag, marker) then [s.word] else [])
  {
    assert (t + [s])[..|t|] == t;
  }

  // ---------------------------------------------------------------------------
  // The loop against the reference

  /** One pass of the loop body, applied to the reference value of the buckets. */
  lemma StepOnReference(ps: seq<string>, os: seq<string>, ls: seq<string>, s: Span)
    ensures
      var w := s.word;
      var cp, co, cl := Contains(s.tag, PerMarker), Contains(s.tag, OrgMarker), Contains(s.tag, LocMarker);
      Step(Grouped(Dedup(ps), Dedup(os), Dedup(ls)), s)
      == Grouped(Dedup(ps + (if cp then [w] else [])),
                 Dedup(os + (if co && (!cp || w in ps) then [w] else [])),
                 Dedup(ls + (if cl && (!cp || w in ps) && (!co || w in os) then [w] else [])))
  {
    var w := s.word;
    var cp, co, cl := Contains(s.tag, PerMarker), Contains(s.tag, OrgMarker), Contains(s.tag, LocMarker);
    DedupSnoc(ps, w);
    DedupSnoc(os, w);
    DedupSnoc(ls, w);
    assert ps + [] == ps && os + [] == os && ls + [] == ls;
  }

  /** The buckets are the deduplicated routing streams. */
  lemma {:induction false} GroupIsReference(t: seq<Span>)
    ensures Group(t) == Reference(t)
    decreases |t|
  {
    if t != [] {
      var front, s := t[..|t| - 1], t[|t| - 1];
      GroupIsReference(front);
      StepOnReference(Filter(front, PerMarker), OrgStream(front), LocStream(front), s);
    }
  }

  /**
   * When no tag carries two markers, the routing reduces to plain filtering:
   * each bucket is the words whose tag contains its marker, in input order,
   * with later repeats removed.
   */
  lemma {:induction false} GroupSingleMarker(t: seq<Span>)
    requires forall j :: 0 <= j < |t| ==> SingleMarker(t[j].tag)
    ensures Group(t) == Grouped(Dedup(Filter(t, PerMarker)),
                                Dedup(Filter(t, OrgMarker)),
                                Dedup(Filter(t, LocMarker)))
  {
    StreamsSingleMarker(t);
    GroupIsReference(t);
  }

  lemma {:induction false} StreamsSingleMarker(t: seq<Span>)
    requires forall j :: 0 <= j < |t| ==> SingleMarker(t[j].tag)
    ensures OrgStream(t) == Filter(t, OrgMarker)
    ensures LocStream(t) == Filter(t, LocMarker)
    decreases |t|
  {
    if t != [] {
      StreamsSingleMarker(t[..|t| - 1]);
      assert SingleMarker(t[|t| - 1].tag);
    }
  }

  /**
   * When no tag carries two markers, each bucket holds exactly the words of
   * the spans whose tag contains its marker.
   */
  lemma SingleMarkerMembers(t: seq<Span>, w: string)
    requires forall j :: 0 <= j < |t| ==> SingleMarker(t[j].tag)
    ensures w in Group(t).orgs <==>
      exists j :: 0 <= j < |t| && t[j].word == w && Contains(t[j].tag, OrgMarker)
    ensures w in Group(t).locs <==>
      exists j :: 0 <= j < |t| && t[j].word == w && Contains(t[j].tag, LocMarker)
  {
    GroupSingleMarker(t);
    FilterMembers(t, OrgMarker);
    FilterMembers(t, LocMarker);
  }

  /** The persons bucket holds exactly the words some span tagged with a person marker. */
  lemma PersMembers(t: seq<Span>, w: string)
    ensures w in Group(t).pers <==>
      exists j :: 0 <= j < |t| && t[j].word == w && Contains(t[j].tag, PerMarker)
  {
    GroupIsReference(t);
    FilterMembers(t, PerMarker);
  }

  lemma {:induction false} OrgStreamProvenance(t: seq<Span>, w: string)
    requires w in OrgStream(t)
    ensures exists j :: 0 <= j < |t| && t[j].word == w && Contains(t[j].tag, OrgMarker)
    decreases |t|
  {
    var front, s := t[..|t| - 1], t[|t| - 1];
    if w in OrgStream(front) {
      OrgStreamProvenance(front, w);
      var j :| 0 <= j < |front| && front[j].word == w && Contains(front[j].tag, OrgMarker);
      assert t[j] == front[j];
    } else {
      assert t[|t| - 1].word == w && Contains(t[|t| - 1].tag, OrgMarker);
    }
  }

  lemma {:induction false} LocStreamProvenance(t: seq<Span>, w: string)
    requires w in LocStream(t)
    ensures exists j :: 0 <= j < |t| && t[j].word == w && Contains(t[j].tag, LocMarker)
    decreases |t|
  {
    var front, s := t[..|t| - 1], t[|t| - 1];
    if w in LocStream(front) {
      LocStreamProvenance(front, w);
      var j :| 0 <= j < |front| && front[j].word == w && Contains(front[j].tag, LocMarker);
      assert t[j] == front[j];
    } else {
      assert t[|t| - 1].word == w && Contains(t[|t| - 1].tag, LocMarker);
    }
  }

  /** Every word in a bucket comes from a span whose tag contains that bucket's marker. */
  lemma Provenance(t: seq<Span>, w: string)
    ensures w in Group(t).orgs ==>
      exists j :: 0 <= j < |t| && t[j].word == w && Contains(t[j].tag, OrgMarker)
    ensures w in Group(t).locs ==>
      exists j :: 0 <= j < |t| && t[j].word == w && Contains(t[j].tag, LocMarker)
  {
    GroupIsReference(t);
    if w in OrgStream(t) { OrgStreamProvenance(t, w); }
    if w in LocStream(t) { LocStreamProvenance(t, w); }
  }

  /** Later spans only append: each bucket after `t` is a prefix of the bucket after `t + u`. */
  lemma {:induction false} GroupGrows(t: seq<Span>, u: seq<Span>)
    ensures Group(t).pers <= Group(t + u).pers
    ensures Group(t).orgs <= Group(t + u).orgs
    ensures Group(t).locs <= Group(t + u).locs
    decreases |u|
  {
    if u == [] {
      assert t + u == t;
    } else {
      var u', s := u[..|u| - 1], u[|u| - 1];
      GroupGrows(t, u');
      assert (t + u)[..|t + u| - 1] == t + u';
      assert (t + u)[|t + u| - 1] == s;
      var g := Group(t + u');
      assert Group(t + u) == Step(g, s);
      assert g.pers <= g.pers + [s.word] && g.orgs <= g.orgs + [s.word] && g.locs <= g.locs + [s.word];
    }
  }

  // ---------------------------------------------------------------------------
  // The whole operation on the tagger's records

  /** Each bucket keeps, in first-seen order, one copy of each word routed to it. */
  lemma AggregateIsReference(es: seq<Entity>)
    requires forall i :: 0 <= i < |es| ==> HasLabel(es[i])
    ensures Aggregate(es) == Ok(Reference(ResolveAll(es).value))
  {
    GroupIsReference(ResolveAll(es).value);
  }

  /** The persons bucket, stated on the tagger's records and their resolved labels. */
  lemma AggregatePersMembers(es: seq<Entity>, w: string)
    requires forall i :: 0 <= i < |es| ==> HasLabel(es[i])
    ensures w in Aggregate(es).value.pers <==>
      exists i :: 0 <= i < |es| && es[i].word == w && Contains(ResolveLabel(es[i]).value, PerMarker)
  {
    var t := ResolveAll(es).value;
    PersMembers(t, w);
    if w in Aggregate(es).value.pers {
      var j :| 0 <= j < |t| && t[j].word == w && Contains(t[j].tag, PerMarker);
      assert es[j].word == w && Contains(ResolveLabel(es[j]).value, PerMarker);
    }
  }

  /**
   * Where the organization and location words come from, stated on the
   * tagger's records: each was the word of a record whose resolved label
   * contains that bucket's marker. With single-marker labels the converse
   * holds too.
   */
  lemma AggregateProvenance(es: seq<Entity>, w: string)
    requires forall i :: 0 <= i < |es| ==> HasLabel(es[i])
    ensures w in Aggregate(es).value.orgs ==>
      exists i :: 0 <= i < |es| && es[i].word == w && Contains(ResolveLabel(es[i]).value, OrgMarker)
    ensures w in Aggregate(es).value.locs ==>
      exists i :: 0 <= i < |es| && es[i].word == w && Contains(ResolveLabel(es[i]).value, LocMarker)
    ensures (forall i :: 0 <= i < |es| ==> SingleMarker(ResolveLabel(es[i]).value)) ==>
      ((w in Aggregate(es).value.orgs <==>
          exists i :: 0 <= i < |es| && es[i].word == w && Contains(ResolveLabel(es[i]).value, OrgMarker))
       && (w in Aggregate(es).value.locs <==>
          exists i :: 0 <= i < |es| && es[i].word == w && Contains(ResolveLabel(es[i]).value, LocMarker)))
  {
    var t := ResolveAll(es).value;
    Provenance(t, w);
    if w in Aggregate(es).value.orgs {
      var j :| 0 <= j < |t| && t[j].word == w && Contains(t[j].tag, OrgMarker);
      assert es[j].word == w && Contains(ResolveLabel(es[j]).value, OrgMarker);
    }
    if w in Aggregate(es).value.locs {
      var j :| 0 <= j < |t| && t[j].word == w && Contains(t[j].tag, LocMarker);
      assert es[j].word == w && Contains(ResolveLabel(es[j]).value, LocMarker);
    }
    if forall i :: 0 <= i < |es| ==> SingleMarker(ResolveLabel(es[i]).value) {
      assert forall j :: 0 <= j < |t| ==> SingleMarker(t[j].tag);
      SingleMarkerMembers(t, w);
      if exists i :: 0 <= i < |es| && es[i].word == w && Contains(ResolveLabel(es[i]).value, OrgMarker) {
        var i :| 0 <= i < |es| && es[i].word == w && Contains(ResolveLabel(es[i]).value, OrgMarker);
        assert t[i].word == w && Contains(t[i].tag, OrgMarker);
      }
      if exists i :: 0 <= i < |es| && es[i].word == w && Contains(ResolveLabel(es[i]).value, LocMarker) {
        var i :| 0 <= i < |es| && es[i].word == w && Contains(ResolveLabel(es[i]).value, LocMarker);
        assert t[i].word == w && Contains(t[i].tag, LocMarker);
      }
    }
  }

  /** No records, no entities. */
  lemma AggregateEmpty()
    ensures Aggregate([]) == Ok(NoEntities)
  {
  }

  /** A string shorter than `sub` does not contain it. */
  lemma ShorterNotContains(s: string, sub: string)
    requires |s| < |sub|
    ensures !Contains(s, sub)
  {
  }

  /** How the three markers are found in a tag of exactly three characters. */
  lemma ThreeLetterTag(tag: string)
    requires |tag| == 3
    ensures Contains(tag, PerMarker) <==> tag == PerMarker
    ensures Contains(tag, OrgMarker) <==> tag == OrgMarker
    ensures Contains(tag, LocMarker) <==> tag == LocMarker
  {
    ShorterNotContains(tag[1..], PerMarker);
    ShorterNotContains(tag[1..], OrgMarker);
    ShorterNotContains(tag[1..], LocMarker);
  }

  /**
   * A repeated person is listed once, and the `entity` key is used when
   * `entity_group` is absent.
   */
  lemma AggregateExample()
    ensures Aggregate([Entity("Alice", Some("PER"), None), Entity("Alice", None, Some("PER"))])
         == Ok(Grouped(["Alice"], [], []))
  {
    var es := [Entity("Alice", Some("PER"), None), Entity("Alice", None, Some("PER"))];
    var t := [Span("Alice", "PER"), Span("Alice", "PER")];
    assert ResolveAll(es).Ok?;
    assert ResolveAll(es).value == t;
    ThreeLetterTag("PER");
    assert t[..1] == [Span("Alice", "PER")];
    assert Group(t[..1]) == Grouped(["Alice"], [], []);
  }

  /**
   * The fall-through: a tag carrying two markers sends a repeated word on to
   * the next bucket, so one word can end up in two buckets.
   */
  lemma FallThroughExample()
    ensures Aggregate([Entity("Jordan", Some("PER+ORG"), None), Entity("Jordan", Some("PER+ORG"), None)])
         == Ok(Grouped(["Jordan"], ["Jordan"], []))
  {
    var es := [Entity("Jordan", Some("PER+ORG"), None), Entity("Jordan", Some("PER+ORG"), None)];
    var t := [Span("Jordan", "PER+ORG"), Span("Jordan", "PER+ORG")];
    assert ResolveAll(es).Ok?;
    assert ResolveAll(es).value == t;
    assert StartsWith("PER+ORG", PerMarker);
    assert StartsWith("PER+ORG"[4..], OrgMarker);
    assert Contains("PER+ORG"[4..], OrgMarker);
    assert Contains("PER+ORG"[3..], OrgMarker);
    assert Contains("PER+ORG"[2..], OrgMarker);
    assert Contains("PER+ORG"[1..], OrgMarker);
    assert Contains("PER+ORG", OrgMarker);
    assert t[..1] == [Span("Jordan", "PER+ORG")];
    assert Group(t[..1]) == Grouped(["Jordan"], [], []);
  }

  /** A record with neither label key makes the whole call fail at that record. */
  lemma MissingLabelExample()
    ensures Aggregate([Entity("Alice", Some("PER"), None), Entity("Acme", None, None),
                       Entity("Bob", None, None)]) == Err(MissingLabel(1))
  {
  }
}
