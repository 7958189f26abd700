# Admin lookup stream: per-record enrichment, in Dafny

This project models the core of the admin-lookup stage of a geographic
import pipeline (`src/lookupStream.js`). For each place record the stage:

- checks whether the record has a centroid;
- asks a point-in-polygon resolver which administrative polygons contain
  that centroid;
- drops the record, or merges the resolver's hierarchy (country, region,
  locality, ...) into it and passes it on.

What is modelled:

- `Resolution` (`resolution.dfy`): the resolver's answer. A result maps each
  placetype to its ordered candidates. Each candidate has a name (one
  string or a list of strings), an id and an optional abbreviation. Also
  `hasAnyMultiples`.
- `Document` (`document.dfy`): the record as the stage uses it. It has a
  centroid, layer, gid and parent fields, which are never changed, and
  parents and address parts, which change only through `AddParent` (which
  rejects an empty name) and `SetAddress`.
- `Merge` (`merge.dfy`): a pure set of functions saying which parents the
  merge adds and what the zip becomes, with the lemmas about them.
- `LookupStream` (`lookup_stream.dfy`): the per-record function, written
  imperatively, as the source does it:
  - `Process` is the centroid gate, the error drop and the empty-result
    drop;
  - `MergeParents` is the `filter`/`forEach` over the parent fields;
  - `MergeCandidate` is the `try` block with its inner loop over a list of
    names;
  - `SetZip` is the postal step.

  Each is proved to match the functions in `Merge`.
- `Lifecycle` (`lifecycle.dfy`): the exported factory and the end hook.
  The factory refuses a missing resolver and defaults the concurrency
  limit to 1. The end hook calls the resolver's `end` only if the resolver
  has one.

The resolver lookup is not performed. `Process` takes the lookup's outcome
(an error or a result) as a parameter. It returns `query`, which says
whether the lookup is issued and with which centroid and layer. The
`dropUnmapped` setting is a parameter too.

Where the design description and the code differ, the model follows the
code. Two cases matter:

- Design: a placetype that fails validation has its hierarchy slot left
  unset. Code: the names of a list that were added before the failing name
  stay on the record (`InvalidNameKeepsEarlierNames`).
- Design: a missing country may be replaced by a configured default
  country. Code: `src/lookupStream.js` only logs a missing country.

## Model

| member | source | states |
|---|---|---|
| `Resolution.MultiplesIffTruncationMatters` | src/lookupStream.js:23-27 | `hasAnyMultiples(result)` holds iff some placetype has more than one candidate. Equivalently, iff cutting every list to its first candidate changes the result. |
| `Document.Record.AddParent` | src/lookupStream.js:84-90 | An `addParent` call succeeds iff the name is non-empty. On success it appends exactly that parent. On failure it changes nothing. The address is untouched either way. |
| `Document.Record.SetAddress` | src/lookupStream.js:109 | Sets one address part and leaves the parents alone. |
| `Merge.AcceptedCount` | src/lookupStream.js:85-88 | The inner loop gets through exactly the names before the first empty one. All of those are non-empty. The loop stops at an empty name or at the end of the list. |
| `Merge.CandidateParentsSpec` | src/lookupStream.js:82-92 | For one candidate, every added parent carries the placetype, the candidate's id and abbr, and a non-empty name. The names are the candidate's names in order, up to but not including the first empty one. Every name is added iff the try block completes. |
| `Merge.MergedFromFirstCandidates` | src/lookupStream.js:75-104 | Every merged parent belongs to a placetype that is in the parent fields and has candidates. Its id and abbr come from that placetype's first candidate, and its name is non-empty. |
| `Merge.MergePerPlacetype` | src/lookupStream.js:75-104 | The parents of each placetype are its own first-candidate contribution, repeated once per occurrence of the placetype in the parent fields. |
| `Merge.UnlistedPlacetypeGetsNothing` | src/lookupStream.js:75-80 | A result key that is not among the record's parent fields contributes no parents. |
| `Merge.ListedOnceGetsFirstCandidate` | src/lookupStream.js:75-91 | A placetype listed once gets exactly candidate 0's parents when it has candidates, and none otherwise. |
| `Merge.OtherPlacetypesUnaffected` | src/lookupStream.js:82-104 | Replacing one placetype's candidates with anything, including a candidate whose `addParent` throws, leaves every other placetype's parents unchanged. |
| `Merge.MergeEmptyResult` | src/lookupStream.js:75-80 | An empty result adds no parents. |
| `Merge.MergeUsesFirstCandidateOnly` | src/lookupStream.js:80-90 | Only candidate 0 is used: dropping every later candidate gives the same merge. |
| `Merge.MultiplesDoNotChangeMerge` | src/lookupStream.js:68-73 | When `hasAnyMultiples` holds, the result holds extra candidates, yet it merges exactly like its first-candidate-only version. The check only triggers a log. |
| `Merge.MultiNameAddsEach` | src/lookupStream.js:85-88 | A list of k non-empty names gives k parents, in list order, each with the same id and abbr. |
| `Merge.SingleNameAddsOne` | src/lookupStream.js:89-91 | A single non-empty name gives exactly one parent. An empty one gives none. |
| `Merge.InvalidNameKeepsEarlierNames` | src/lookupStream.js:82-101 | When name k of a list is the first empty one, the k names before it stay added, nothing after it is added, and the try block does not complete. |
| `Merge.VenueScenario` | src/lookupStream.js:75-111 | Worked example: a venue resolved to one country, one locality and one postal code gains those three parents in parent-field order, and its zip becomes the postal code. |
| `Merge.WithZip` | src/lookupStream.js:106-111 | The zip becomes the first postal candidate's name iff a postal result exists and that name is non-empty. Every other address part is untouched. Otherwise the address is unchanged. |
| `LookupStream.MergeCandidate` | src/lookupStream.js:82-101 | The try block appends exactly `CandidateParents` to the record's parents and leaves the address alone. It completes iff no name was rejected. |
| `LookupStream.MergeParents` | src/lookupStream.js:75-104 | The loop over the parent fields appends exactly `MergeAll(parentFields, result)` and leaves the address alone. |
| `LookupStream.SetZip` | src/lookupStream.js:106-111 | The address becomes `WithZip(address, result)`. The parents are untouched. This happens whatever the parent fields are. |
| `LookupStream.Process` | src/lookupStream.js:30-116 | No centroid: no lookup is made, and the record is emitted unchanged iff `dropUnmapped` is false. Otherwise one lookup is issued with the centroid and layer. A lookup error drops the record whatever `dropUnmapped` is. An empty result drops it iff `dropUnmapped`. Any other result emits it with exactly the merged parents and the zip applied. A dropped record is not modified. |
| `Lifecycle.Resolver.End` | src/lookupStream.js:122 | Calling the resolver's `end` counts one release. |
| `Lifecycle.ConcurrencyLimit` | src/lookupStream.js:135 | `maxConcurrentReqs \|\| 1`: an absent or zero argument gives 1. Any other value is kept. The limit is never 0. |
| `Lifecycle.Create` | src/lookupStream.js:127-135 | The factory fails, with its message, iff the resolver is missing. Otherwise the stage keeps the resolver and `ConcurrencyLimit(maxConcurrentReqs)`. |
| `Lifecycle.Finish` | src/lookupStream.js:119-125 | The end hook invokes `end` exactly once if the resolver provides it, and never otherwise. |

## Left out

- Logging: the suspect-records file transport and every `logger` call (pip failure, zero admins, no country, multiple values, invalid value). They are output only and do not change what is emitted.
- Configuration loading: `dropUnmapped` is a parameter instead of being read from the pipeline configuration.
- `getAdminLayers` is not part of this model. `Query` records the layer that the layer filter is computed from.
- The resolver's spatial lookup and its asynchronous callback: the outcome is an input of `Process`.
- Bounded parallelism (`pelias-parallel-stream`), in-flight counting and output order: concurrency is modelled only as the limit value `ConcurrencyLimit`. What a negative limit would do in the parallel stream is not modelled.
- Lifecycle.ConcurrencyLimit: JavaScript falsiness is reduced to "absent or 0". Other falsy values such as `NaN` or `''` are not represented.
- Lifecycle.Create: a falsy resolver is modelled as `null`.
- The record's document class is not part of this model. `Document.Record.AddParent` reduces its validation to "the name is non-empty" and treats a rejected call as changing nothing. `Document.Record.SetAddress` performs no validation.
- `id.toString()`: ids are already strings, so a missing id, whose `toString` would throw inside the try block, is not represented.
- Candidate names that are missing or not strings are not represented. A name is one string or a list of strings.
- LookupStream.Process: requires that, when the lookup is reached with a result holding `postalcode`, that list is non-empty and its first name is a single string. An empty list makes line 107, outside the try block, throw and crash the stream. A list-valued name would be handed to `setAddress`, whose behaviour is not part of this model.
- Default-country substitution and the postal-city policy: `src/lookupStream.js` has neither. A missing country is only logged.
