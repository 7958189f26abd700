/**
 * Building the stage and shutting it down: the factory refuses a missing
 * resolver and defaults the concurrency limit to 1; at the end of the
 * stream the resolver's `end` hook is called if it has one.
 */
module Lifecycle {
  import opened Wrappers

  /** The resolver as the stage sees it: whether it offers `end`, and how often `end` has run. */
  class Resolver {
    const providesEnd: bool
    var endCalls: nat

    constructor (providesEnd: bool)
      ensures this.providesEnd == providesEnd && endCalls == 0
    {
      this.providesEnd := providesEnd;
      endCalls := 0;
    }

    /** Releases the resolver's resources. */
    method End()
      requires providesEnd
      modifies this
      ensures endCalls == old(endCalls) + 1
    {
      endCalls := endCalls + 1;
    }
  }

  const MissingResolverMessage := "valid pipResolver required to be passed in as the first parameter"

  /** The stage as built: its resolver and its concurrency limit. */
  datatype Stage = Stage(resolver: Resolver, concurrency: int)

  /**
   * `maxConcurrentReqs || 1`: an absent or zero argument gives 1, any other
   * value is kept as it is.
   */
  function ConcurrencyLimit(maxConcurrentReqs: Option<int>): (n: int)
    ensures n != 0
    ensures maxConcurrentReqs.None? ==> n == 1
    ensures maxConcurrentReqs.Some? ==> n == if maxConcurrentReqs.value == 0 then 1 else maxConcurrentReqs.value
  {
    match maxConcurrentReqs
    case None => 1
    case Some(m) => if m == 0 then 1 else m
  }

  /** The exported factory: fails iff the resolver is missing, and otherwise keeps it with the limit. */
  function Create(resolver: Resolver?, maxConcurrentReqs: Option<int>): (r: Result<Stage, string>)
    ensures r.Failure? <==> resolver == null
    ensures r.Failure? ==> r.error == MissingResolverMessage
    ensures r.Success? ==> r.value.resolver == resolver && r.value.concurrency == ConcurrencyLimit(maxConcurrentReqs)
  {
    if resolver == null then Failure(MissingResolverMessage)
    else Success(Stage(resolver, ConcurrencyLimit(maxConcurrentReqs)))
  }

  /** The end hook: `end` runs once if the resolver provides it, and nothing happens otherwise. */
  method Finish(stage: Stage)
    modifies stage.resolver
    ensures stage.resolver.endCalls == old(stage.resolver.endCalls) + if stage.resolver.providesEnd then 1 else 0
  {
    if stage.resolver.providesEnd {
      stage.resolver.End();
    }
  }
}
