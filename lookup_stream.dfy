/**
 * The per-record step of the admin-lookup stream: gate on the centroid,
 * issue one lookup, drop on error or on an empty result when unmapped
 * records are dropped, merge candidate 0 of every parent field, set the
 * zip. The lookup's outcome is an input; `query` says whether (and with
 * what) the lookup is issued.
 */
module LookupStream {
  import opened Wrappers
  import opened Resolution
  import opened Document
  import opened Merge

  /** The arguments of the one lookup: the record's centroid and its layer (which selects the admin layers). */
  datatype Query = Query(centroid: Point, layer: string)

  /**
   * The try block for one placetype: `addParent` for each of candidate
   * 0's names with its id and abbreviation, stopping at the first call
   * that throws. `completed` is false iff that happened.
   */
  method MergeCandidate(rec: Record, placetype: string, c: Candidate) returns (completed: bool)
    modifies rec
    ensures rec.parents == old(rec.parents) + CandidateParents(placetype, c)
    ensures rec.address == old(rec.address)
    ensures completed <==> Completes(c)
  {
    match c.name {
      case Single(s) =>
        completed := rec.AddParent(placetype, s, c.id, c.abbr);
      case Multi(ns) =>
        var i := 0;
        completed := true;
        while completed && i < |ns|
          invariant 0 <= i <= |ns|
          invariant forall j | 0 <= j < i :: ns[j] != ""
          invariant !completed ==> i < |ns| && ns[i] == ""
          invariant rec.parents == old(rec.parents) + Tagged(placetype, ns[..i], c.id, c.abbr)
          invariant rec.address == old(rec.address)
        {
          var ok := rec.AddParent(placetype, ns[i], c.id, c.abbr);
          if ok {
            assert Tagged(placetype, ns[..i + 1], c.id, c.abbr) ==
                   Tagged(placetype, ns[..i], c.id, c.abbr) + [Parent(placetype, ns[i], c.id, c.abbr)];
            i := i + 1;
          } else {
            completed := false;
          }
        }
        assert AcceptedCount(ns) == i;
    }
    CandidateParentsSpec(placetype, c);
  }

  /**
   * The `filter`/`forEach` over the record's parent fields: each field
   * with candidates gets candidate 0 merged; a field whose try block
   * throws does not stop the others.
   */
  method MergeParents(rec: Record, r: ResolverResult)
    modifies rec
    ensures rec.parents == old(rec.parents) + MergeAll(rec.parentFields, r)
    ensures rec.address == old(rec.address)
  {
    var fields := rec.parentFields;
    var i := 0;
    while i < |fields|
      invariant 0 <= i <= |fields|
      invariant rec.parents == old(rec.parents) + MergeAll(fields[..i], r)
      invariant rec.address == old(rec.address)
    {
      var placetype := fields[i];
      ghost var before := rec.parents;
      if HasCandidates(r, placetype) {
        var _ := MergeCandidate(rec, placetype, r[placetype][0]);
      }
      assert rec.parents == before + Contribution(placetype, r);
      MergeAllExtend(fields, i, r);
      i := i + 1;
    }
    assert fields[..i] == fields;
  }

  lemma MergeAllExtend(fields: seq<string>, i: nat, r: ResolverResult)
    requires i < |fields|
    ensures MergeAll(fields[..i + 1], r) == MergeAll(fields[..i], r) + Contribution(fields[i], r)
  {
    assert fields[..i + 1][..i] == fields[..i];
  }

  /** The postal step: zip := first postal candidate's name, when it is non-empty. */
  method SetZip(rec: Record, r: ResolverResult)
    requires PostalReadable(r)
    modifies rec
    ensures rec.address == WithZip(old(rec.address), r)
    ensures rec.parents == old(rec.parents)
  {
    if "postalcode" in r {
      var postalcode := r["postalcode"][0].name.text;
      if postalcode != "" {
        rec.SetAddress("zip", postalcode);
      }
    }
  }

  /** The lookup is issued and its result is merged into an emitted record. */
  predicate Enriches(hasCentroid: bool, dropUnmapped: bool, outcome: LookupOutcome)
  {
    hasCentroid && outcome.Found? && !(dropUnmapped && |outcome.result| == 0)
  }

  /**
   * One record through the stage. Without a centroid no lookup is made and
   * the record is emitted untouched unless unmapped records are dropped.
   * A lookup error always drops it. An empty result drops it when unmapped
   * records are dropped. Otherwise it is emitted with the merged parents and
   * the zip. A dropped record is never modified.
   */
  method Process(rec: Record, dropUnmapped: bool, outcome: LookupOutcome) returns (query: Option<Query>, emitted: bool)
    requires rec.centroid.Some? && outcome.Found? ==> PostalReadable(outcome.result)
    modifies rec
    ensures query == if rec.centroid.Some? then Some(Query(rec.centroid.value, rec.layer)) else None
    ensures rec.centroid.None? ==> emitted == !dropUnmapped
    ensures rec.centroid.Some? && outcome.LookupError? ==> !emitted
    ensures rec.centroid.Some? && outcome.Found? ==> (emitted <==> !(dropUnmapped && |outcome.result| == 0))
    ensures Enriches(rec.centroid.Some?, dropUnmapped, outcome) ==>
              rec.parents == old(rec.parents) + MergeAll(rec.parentFields, outcome.result) &&
              rec.address == WithZip(old(rec.address), outcome.result)
    ensures !Enriches(rec.centroid.Some?, dropUnmapped, outcome) ==>
              rec.parents == old(rec.parents) && rec.address == old(rec.address)
  {
    if rec.centroid.None? {
      return None, !dropUnmapped;
    }
    query := Some(Query(rec.centroid.value, rec.layer));
    match outcome {
      case LookupError(_) =>
        emitted := false;
      case Found(r) =>
        if dropUnmapped && |r| == 0 {
          emitted := false;
        } else {
          MergeParents(rec, r);
          SetZip(rec, r);
          emitted := true;
        }
    }
  }
}
