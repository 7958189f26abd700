/**
 * What one point-in-polygon lookup hands back: for every placetype the
 * resolver found, the ordered list of candidate polygons containing the
 * point. The resolver's spatial algorithm itself is not modelled.
 */
module Resolution {
  import opened Wrappers

  /** A candidate's name: one string, or several simultaneous (e.g. multilingual) names. */
  datatype Name = Single(text: string) | Multi(texts: seq<string>)

  /** One candidate polygon; `id` is taken as already stringified. */
  datatype Candidate = Candidate(name: Name, id: string, abbr: Option<string>)

  /** Placetype name to its ordered candidates. */
  type ResolverResult = map<string, seq<Candidate>>

  /** The single callback of a lookup: an error, or a result. */
  datatype LookupOutcome = LookupError(message: string) | Found(result: ResolverResult)

  /** The placetype is present with a non-empty candidate list (`!_.isEmpty(result[placetype])`). */
  predicate HasCandidates(r: ResolverResult, placetype: string)
  {
    placetype in r && |r[placetype]| > 0
  }

  /** Some placetype key maps to more than one candidate (`hasAnyMultiples`). */
  predicate HasAnyMultiples(r: ResolverResult)
  {
    exists placetype | placetype in r :: |r[placetype]| > 1
  }

  /** The result with every candidate list cut down to its first candidate. */
  function FirstOnly(r: ResolverResult): (t: ResolverResult)
    ensures t.Keys == r.Keys
    ensures forall placetype | placetype in r ::
              |t[placetype]| <= 1 && |t[placetype]| <= |r[placetype]| &&
              t[placetype] == r[placetype][..|t[placetype]|]
    ensures forall placetype | placetype in r :: HasCandidates(t, placetype) == HasCandidates(r, placetype)
  {
    map placetype | placetype in r :: if |r[placetype]| == 0 then [] else r[placetype][..1]
  }

  /**
   * `hasAnyMultiples` detects exactly the results that hold candidates
   * beyond the first one: it holds iff cutting every list to its first
   * candidate changes the result.
   */
  lemma MultiplesIffTruncationMatters(r: ResolverResult)
    ensures HasAnyMultiples(r) <==> FirstOnly(r) != r
  {
    var t := FirstOnly(r);
    if HasAnyMultiples(r) {
      var placetype :| placetype in r && |r[placetype]| > 1;
      assert |t[placetype]| != |r[placetype]|;
    } else {
      forall placetype | placetype in r
        ensures t[placetype] == r[placetype]
      {
        assert |r[placetype]| <= 1;
      }
      assert t == r;
    }
  }
}
