/**
 * The hierarchy merge as a specification: which parents the per-record
 * step adds for a resolver result, and which zip it sets. The imperative
 * step in module LookupStream is proved to do exactly this.
 */
module Merge {
  import opened Wrappers
  import opened Resolution
  import opened Document

  /** The names `addParent` is called with, in order: one for a single string, each element for a list. */
  function NameList(n: Name): seq<string>
  {
    match n
    case Single(s) => [s]
    case Multi(ns) => ns
  }

  /**
   * How many names of `ns` are accepted by successive `addParent` calls:
   * every name up to the first empty one, whose call throws and ends the
   * loop.
   */
  function AcceptedCount(ns: seq<string>): (k: nat)
    ensures k <= |ns|
    ensures forall i | 0 <= i < k :: ns[i] != ""
    ensures k < |ns| ==> ns[k] == ""
  {
    if ns == [] || ns[0] == "" then 0 else 1 + AcceptedCount(ns[1..])
  }

  /** The parents `addParent(placetype, n, id, abbr)` adds for each name n of `ns`, in order. */
  function Tagged(placetype: string, ns: seq<string>, id: string, abbr: Option<string>): (ps: seq<Parent>)
  {
    seq(|ns|, i requires 0 <= i < |ns| => Parent(placetype, ns[i], id, abbr))
  }

  /** The names of a list of parents, in order. */
  function Names(ps: seq<Parent>): (ns: seq<string>)
  {
    seq(|ps|, i requires 0 <= i < |ps| => ps[i].name)
  }

  /** The try block for one candidate runs to its end without a rejected name. */
  predicate Completes(c: Candidate)
  {
    forall i | 0 <= i < |NameList(c.name)| :: NameList(c.name)[i] != ""
  }

  /** The parents one candidate contributes under `placetype` (see `CandidateParentsSpec`). */
  function CandidateParents(placetype: string, c: Candidate): (ps: seq<Parent>)
  {
    var ns := NameList(c.name);
    Tagged(placetype, ns[..AcceptedCount(ns)], c.id, c.abbr)
  }

  /**
   * What one candidate contributes under `placetype`: each parent carries
   * the placetype, the candidate's id and abbreviation and a non-empty
   * name; their names are the candidate's names in order, up to (not
   * including) the first empty one; all of them are added iff the
   * candidate completes.
   */
  lemma CandidateParentsSpec(placetype: string, c: Candidate)
    ensures var ps := CandidateParents(placetype, c);
            (forall p | p in ps :: p.placetype == placetype && p.id == c.id && p.abbr == c.abbr && p.name != "") &&
            |ps| <= |NameList(c.name)| && Names(ps) == NameList(c.name)[..|ps|] &&
            (|ps| < |NameList(c.name)| ==> NameList(c.name)[|ps|] == "") &&
            (|ps| == |NameList(c.name)| <==> Completes(c))
  {
    var ns := NameList(c.name);
    var k := AcceptedCount(ns);
    var ps := CandidateParents(placetype, c);
    assert Names(ps) == ns[..k];
    forall p | p in ps
      ensures p.placetype == placetype && p.id == c.id && p.abbr == c.abbr && p.name != ""
    {
      var i :| 0 <= i < |ps| && ps[i] == p;
    }
  }

  /** What one entry of the record's parent fields contributes: candidate 0's parents, if it has candidates. */
  function Contribution(placetype: string, r: ResolverResult): seq<Parent>
  {
    if HasCandidates(r, placetype) then CandidateParents(placetype, r[placetype][0]) else []
  }

  /** The parents the merge adds, walking the record's parent fields in order. */
  function MergeAll(fields: seq<string>, r: ResolverResult): (ps: seq<Parent>)
  {
    if fields == [] then []
    else MergeAll(fields[..|fields| - 1], r) + Contribution(fields[|fields| - 1], r)
  }

  /**
   * Every merged parent belongs to a listed placetype that has
   * candidates, and comes from that placetype's first candidate.
   */
  lemma {:induction false} MergedFromFirstCandidates(fields: seq<string>, r: ResolverResult)
    ensures forall p | p in MergeAll(fields, r) ::
              p.placetype in fields && HasCandidates(r, p.placetype) &&
              p.id == r[p.placetype][0].id && p.abbr == r[p.placetype][0].abbr && p.name != ""
  {
    if fields != [] {
      var init, last := fields[..|fields| - 1], fields[|fields| - 1];
      MergedFromFirstCandidates(init, r);
      if HasCandidates(r, last) {
        CandidateParentsSpec(last, r[last][0]);
      }
      assert forall f | f in init :: f in fields;
    }
  }

  /** The parents of placetype `q`, in order. */
  function ParentsOf(ps: seq<Parent>, q: string): seq<Parent>
  {
    if ps == [] then []
    else (if ps[0].placetype == q then [ps[0]] else []) + ParentsOf(ps[1..], q)
  }

  /** `s` concatenated `n` times. */
  function Repeat(s: seq<Parent>, n: nat): seq<Parent>
  {
    if n == 0 then [] else Repeat(s, n - 1) + s
  }

  lemma {:induction false} ParentsOfConcat(a: seq<Parent>, b: seq<Parent>, q: string)
    ensures ParentsOf(a + b, q) == ParentsOf(a, q) + ParentsOf(b, q)
  {
    if a != [] {
      assert (a + b)[1..] == a[1..] + b;
      ParentsOfConcat(a[1..], b, q);
    } else {
      assert a + b == b;
    }
  }

  lemma {:induction false} ParentsOfUniform(ps: seq<Parent>, pt: string, q: string)
    requires forall p | p in ps :: p.placetype == pt
    ensures ParentsOf(ps, q) == if pt == q then ps else []
  {
    if ps != [] {
      assert ps[0] in ps;
      assert forall p | p in ps[1..] :: p in ps;
      ParentsOfUniform(ps[1..], pt, q);
    }
  }

  /**
   * Per placetype, the merge is the placetype's own contribution repeated
   * once per occurrence in the parent fields: no other key of the result
   * and no other field has any say in it.
   */
  lemma {:induction false} MergePerPlacetype(fields: seq<string>, r: ResolverResult, q: string)
    ensures ParentsOf(MergeAll(fields, r), q) == Repeat(Contribution(q, r), multiset(fields)[q])
  {
    if fields != [] {
      var init, last := fields[..|fields| - 1], fields[|fields| - 1];
      MergePerPlacetype(init, r, q);
      ParentsOfConcat(MergeAll(init, r), Contribution(last, r), q);
      ParentsOfContribution(last, r, q);
      CountLast(fields, q);
    }
  }

  lemma ParentsOfContribution(placetype: string, r: ResolverResult, q: string)
    ensures ParentsOf(Contribution(placetype, r), q) == if placetype == q then Contribution(placetype, r) else []
  {
    if HasCandidates(r, placetype) {
      CandidateParentsSpec(placetype, r[placetype][0]);
    }
    ParentsOfUniform(Contribution(placetype, r), placetype, q);
  }

  lemma CountLast(fields: seq<string>, q: string)
    requires fields != []
    ensures multiset(fields)[q] ==
            multiset(fields[..|fields| - 1])[q] + if fields[|fields| - 1] == q then 1 else 0
  {
    assert fields == fields[..|fields| - 1] + [fields[|fields| - 1]];
  }

  /** A placetype that is not among the parent fields gets no parents, whatever the result holds for it. */
  lemma UnlistedPlacetypeGetsNothing(fields: seq<string>, r: ResolverResult, q: string)
    requires q !in fields
    ensures ParentsOf(MergeAll(fields, r), q) == []
  {
    MergePerPlacetype(fields, r, q);
  }

  /** A placetype listed once gets exactly its first candidate's parents. */
  lemma ListedOnceGetsFirstCandidate(fields: seq<string>, r: ResolverResult, q: string)
    requires multiset(fields)[q] == 1
    ensures ParentsOf(MergeAll(fields, r), q) ==
            if HasCandidates(r, q) then CandidateParents(q, r[q][0]) else []
  {
    MergePerPlacetype(fields, r, q);
    RepeatOnce(Contribution(q, r));
  }

  lemma RepeatOnce(s: seq<Parent>)
    ensures Repeat(s, 1) == s
  {
    assert Repeat(s, 1) == [] + s;
  }

  /**
   * Failure is per placetype: replacing the candidates of placetype `f`
   * by anything (for instance a candidate with an empty name, which makes
   * `addParent` throw) leaves the parents of every other placetype as
   * they were.
   */
  lemma OtherPlacetypesUnaffected(fields: seq<string>, r: ResolverResult, f: string, v: seq<Candidate>, q: string)
    requires q != f
    ensures ParentsOf(MergeAll(fields, r[f := v]), q) == ParentsOf(MergeAll(fields, r), q)
  {
    MergePerPlacetype(fields, r[f := v], q);
    MergePerPlacetype(fields, r, q);
  }

  /** An empty result adds no parents. */
  lemma {:induction false} MergeEmptyResult(fields: seq<string>)
    ensures MergeAll(fields, map[]) == []
  {
    if fields != [] {
      MergeEmptyResult(fields[..|fields| - 1]);
    }
  }

  /** Only candidate 0 is used: dropping every later candidate changes nothing. */
  lemma {:induction false} MergeUsesFirstCandidateOnly(fields: seq<string>, r: ResolverResult)
    ensures MergeAll(fields, FirstOnly(r)) == MergeAll(fields, r)
  {
    if fields != [] {
      var last := fields[|fields| - 1];
      MergeUsesFirstCandidateOnly(fields[..|fields| - 1], r);
      if HasCandidates(r, last) {
        assert FirstOnly(r)[last][0] == r[last][0];
      }
    }
  }

  /** Ambiguous results (`hasAnyMultiples`) merge exactly as their first-candidate-only version. */
  lemma MultiplesDoNotChangeMerge(fields: seq<string>, r: ResolverResult)
    requires HasAnyMultiples(r)
    ensures FirstOnly(r) != r && MergeAll(fields, FirstOnly(r)) == MergeAll(fields, r)
  {
    MultiplesIffTruncationMatters(r);
    MergeUsesFirstCandidateOnly(fields, r);
  }

  /**
   * A list of k non-empty names gives k parents, in list order, each with
   * the candidate's id and abbreviation.
   */
  lemma MultiNameAddsEach(placetype: string, c: Candidate)
    requires c.name.Multi? && forall i | 0 <= i < |c.name.texts| :: c.name.texts[i] != ""
    ensures |CandidateParents(placetype, c)| == |c.name.texts|
    ensures forall i | 0 <= i < |c.name.texts| ::
              CandidateParents(placetype, c)[i] == Parent(placetype, c.name.texts[i], c.id, c.abbr)
  {
    var ps := CandidateParents(placetype, c);
    CandidateParentsSpec(placetype, c);
    forall i | 0 <= i < |c.name.texts|
      ensures ps[i] == Parent(placetype, c.name.texts[i], c.id, c.abbr)
    {
      assert ps[i] in ps;
      assert Names(ps)[i] == ps[i].name;
    }
  }

  /** A single non-empty name gives exactly one parent; an empty one gives none. */
  lemma SingleNameAddsOne(placetype: string, c: Candidate)
    requires c.name.Single?
    ensures CandidateParents(placetype, c) ==
            if c.name.text != "" then [Parent(placetype, c.name.text, c.id, c.abbr)] else []
  {
    var ps := CandidateParents(placetype, c);
    CandidateParentsSpec(placetype, c);
    if c.name.text != "" {
      assert ps[0] in ps;
      assert Names(ps)[0] == ps[0].name;
    }
  }

  /**
   * When name k of a list is the first empty one, the k names before it
   * stay added and nothing after it is.
   */
  lemma InvalidNameKeepsEarlierNames(placetype: string, c: Candidate, k: nat)
    requires c.name.Multi? && k < |c.name.texts| && c.name.texts[k] == ""
    requires forall i | 0 <= i < k :: c.name.texts[i] != ""
    ensures |CandidateParents(placetype, c)| == k
    ensures Names(CandidateParents(placetype, c)) == c.name.texts[..k]
    ensures !Completes(c)
  {
    var ps := CandidateParents(placetype, c);
    CandidateParentsSpec(placetype, c);
    assert NameList(c.name) == c.name.texts;
    assert Names(ps) == c.name.texts[..|ps|];
  }

  /**
   * A venue with parent fields country, region, locality and postalcode,
   * resolved to one country, one locality and one postal code: it gains
   * those three parents in parent-field order (region has no candidates)
   * and the zip becomes the postal code.
   */
  lemma VenueScenario()
    ensures MergeAll(VenueFields(), VenueResult()) ==
              [Parent("country", "USA", "1", Some("US")), Parent("locality", "SF", "2", None),
               Parent("postalcode", "94103", "3", None)]
    ensures WithZip(map[], VenueResult()) == map["zip" := "94103"]
  {
    var r, fields := VenueResult(), VenueFields();
    var p1, p2, p3 := Parent("country", "USA", "1", Some("US")), Parent("locality", "SF", "2", None),
                      Parent("postalcode", "94103", "3", None);
    VenueContributions();
    assert ["country"][..0] == [];
    assert MergeAll(["country"], r) == [p1];
    assert ["country", "region"][..1] == ["country"];
    assert MergeAll(["country", "region"], r) == [p1];
    assert ["country", "region", "locality"][..2] == ["country", "region"];
    assert MergeAll(["country", "region", "locality"], r) == [p1, p2];
    assert fields[..3] == ["country", "region", "locality"];
  }

  function VenueFields(): seq<string>
  {
    ["country", "region", "locality", "postalcode"]
  }

  function VenueResult(): ResolverResult
  {
    map["country" := [Candidate(Single("USA"), "1", Some("US"))],
        "locality" := [Candidate(Single("SF"), "2", None)],
        "postalcode" := [Candidate(Single("94103"), "3", None)]]
  }

  lemma VenueContributions()
    ensures Contribution("country", VenueResult()) == [Parent("country", "USA", "1", Some("US"))]
    ensures Contribution("region", VenueResult()) == []
    ensures Contribution("locality", VenueResult()) == [Parent("locality", "SF", "2", None)]
    ensures Contribution("postalcode", VenueResult()) == [Parent("postalcode", "94103", "3", None)]
  {
    var r := VenueResult();
    assert "region" !in r;
    SingleNameAddsOne("country", r["country"][0]);
    SingleNameAddsOne("locality", r["locality"][0]);
    SingleNameAddsOne("postalcode", r["postalcode"][0]);
  }

  /**
   * The postal list is readable where the step reads it: present means
   * non-empty (an empty list throws outside the try block) with a single
   * string as its first name (a list would be handed to `setAddress`).
   */
  predicate PostalReadable(r: ResolverResult)
  {
    "postalcode" in r ==> |r["postalcode"]| > 0 && r["postalcode"][0].name.Single?
  }

  /** The result carries a first postal candidate with a non-empty name. */
  predicate HasZip(r: ResolverResult)
    requires PostalReadable(r)
  {
    "postalcode" in r && r["postalcode"][0].name.text != ""
  }

  /**
   * The address after the postal step: the zip part becomes the first
   * postal candidate's name iff that name is non-empty; every other part
   * is untouched, and without such a name nothing changes.
   */
  function WithZip(address: map<string, string>, r: ResolverResult): (a: map<string, string>)
    requires PostalReadable(r)
    ensures forall key | key != "zip" :: (key in a <==> key in address) && (key in a ==> a[key] == address[key])
    ensures HasZip(r) ==> "zip" in a && a["zip"] == r["postalcode"][0].name.text
    ensures !HasZip(r) ==> a == address
  {
    if "postalcode" in r then
      var postalcode := r["postalcode"][0].name.text;
      if postalcode != "" then address["zip" := postalcode] else address
    else address
  }
}
