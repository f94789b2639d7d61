# Snapshot provenance for an RDF store, in Dafny

This project models the version-history engine of rdflib-ocdm. The library wraps an
RDF graph and records, for every entity (subject), a chain of provenance snapshots:

- `<entity>/prov/se/1`, `<entity>/prov/se/2`, …
- each snapshot carries a generation time and, once superseded, an invalidation time;
- a successor snapshot derives from its predecessor and stores the SPARQL update that
  turns the previous version of the entity into the current one.

The model covers four pieces:

- **`ProvIds`** (support.py): the identifier pattern `^(.+)/prov/([a-z][a-z])/([1-9][0-9]*)$`
  under Python's `re.match`, group extraction, `get_count` and `get_prov_count`.
  `Decimal` supplies `str(n)` / `int(s)` for counts.
- **`QueryUtils`** (query_utils.py): the diff between an entity's baseline and current
  statements, rendered as `DELETE DATA` / `INSERT DATA` blocks with their counts.
- **`Provenance`** (prov/provenance.py): the per-subject counter (`Counters`), the
  snapshot registry `res_to_entity`, `add_se`, `_add_prov`, `_create_snapshot`,
  `_retrieve_last_snapshot`, `get_entity`, and the per-subject step of
  `generate_provenance`. `RunPass` runs the step over a set of subjects in an
  arbitrary order. It proves that every subject ends exactly as its own step from the
  initial state would leave it, so the unspecified iteration order of the subjects
  does not matter.
- **`OcdmGraph`** (ocdm_graph.py): the store with its baseline copy, merge index and
  entity index; `preexisting_finished`, `merge`, and `generate_provenance` as a whole
  (the generation pass followed by the checkpoint).

Statements are `Triple(s, p, o)` over string terms, and a graph is a `set<Triple>`.
The N-Triples serialiser is a function parameter `Serializer`. Times are opaque
strings: the generation pass takes `time`, and the checkpoint takes a `clock` that
gives the time stamped on each subject's creation snapshot.

## Model

| member | source | states |
|---|---|---|
| `Decimal.ToText` | prov/provenance.py:73-77 | `str(n)` is a non-empty run of digits; `ValueOfToText`, `ToTextIsCountText` and `ToTextInjective` state what it means |
| `Decimal.ValueOf` | prov/provenance.py:105 | `int(s)` on digit text; its meaning is stated by `ValueOfToText`, `ToTextOfValueOf` and `ValueOfCountTextPositive` |
| `Decimal.ValueOfToText` | prov/provenance.py:73-74 | `int(str(n)) == n` for every count |
| `Decimal.ToTextOfValueOf` | prov/provenance.py:105-108 | `str(int(s)) == s` for every count text `[1-9][0-9]*`, so a count read from an identifier is written back unchanged |
| `Decimal.ToTextIsCountText` | support.py:27 | the text of a positive count has no leading zero and fits the count group |
| `Decimal.ToTextInjective` | prov/provenance.py:100 | distinct counts have distinct texts |
| `ProvIds.Parse` | support.py:27 | anything the pattern accepts renders a well-formed identifier (non-empty newline-free base, two lower-case letters, count without leading zero), with at most one final newline after it |
| `ProvIds.ParseIff` | support.py:27 | the pattern accepts `s` with groups `p` exactly when `p` is well formed and `s` is its rendering, optionally followed by one newline (Python's `$`) |
| `ProvIds.ParseComplete` | support.py:27 | every well-formed identifier is accepted, with or without one final newline, and its groups are read back |
| `ProvIds.GetMatch` | support.py:29-34 | `_get_match` is `""` exactly when the pattern does not match; group 3 of a match is a count text |
| `ProvIds.GetMatchGroups` | support.py:29-34 | on a string of the pattern's shape, group 0 is the matched text without the final newline and groups 1-3 are its base, type and count |
| `ProvIds.GetCount` | support.py:36-39 | `get_count` returns nothing exactly when `"/prov/"` does not occur; otherwise it is only defined on strings the pattern rejects, and then yields `""` |
| `ProvIds.GetCountRejectsEveryIdentifier` | support.py:27-39 | every string the pattern accepts contains `"/prov/"` and so violates `get_count`'s requirement (group 6 of a three-group pattern) |
| `ProvIds.GetCountCorrected` | support.py:36-39 | with group 3, `get_count` returns the count group of every matching identifier, nothing exactly when `"/prov/"` is absent, and `""` only for non-matching strings |
| `ProvIds.GetProvCount` | prov/provenance.py:105 | `get_prov_count` is the count group of a matching identifier and `""` otherwise |
| `ProvIds.GetCountCorrectedIsProvCount` | support.py:36-39 | the corrected `get_count` agrees with `get_prov_count` wherever `"/prov/"` occurs |
| `ProvIds.SnapshotIriRoundTrip` | prov/provenance.py:77 | a minted `subject/prov/se/n` matches the pattern with base `subject`, type `se` and count `str(n)`, and `int(get_prov_count(..)) == n` |
| `ProvIds.SnapshotIri` | prov/provenance.py:77 | the identifier `subject/prov/se/n`; its contract is carried by `SnapshotIriRoundTrip`, `OwnerOfSnapshotIri`, `SnapshotIriInjective` and `SnapshotIriDistinct` |
| `ProvIds.OwnerOfSnapshotIri` | prov/provenance.py:100 | the identifier minted for any subject, even one the pattern rejects, splits back into that subject (what precedes `/prov/se/` and the final digits) |
| `ProvIds.SnapshotIriInjective` | prov/provenance.py:100 | two snapshot identifiers coincide only for the same subject and count, for every subject |
| `ProvIds.SnapshotIriDistinct` | prov/provenance.py:100 | one subject's snapshots with different counts have different identifiers |
| `Triples.Subjects` | prov/provenance.py:52 | the store's subjects are exactly the subjects of its statements |
| `Triples.SubjectGraph` | prov/provenance.py:79-87 | `_generate_subj_graph` keeps exactly the statements whose subject is `subj` |
| `Triples.SubjectGraphNonEmpty` | prov/provenance.py:79-87 | an entity's subgraph is non-empty exactly when it is a subject of the store |
| `Counters.Increment` | prov/provenance.py:109 | `increment_counter` returns the old value plus one, stores it, and leaves every other counter as it was |
| `Counters.SetCounter` | prov/provenance.py:106-107 | `set_counter` stores the value for that identifier only |
| `QueryUtils.RemoveNewlines` | query_utils.py:35 | the serialised statements carry no newline after `.replace('\n', '')` |
| `QueryUtils.RemoveNewlinesKeepsOtherText` | query_utils.py:35 | text without newlines is left unchanged |
| `QueryUtils.RemoveNewlinesAppend` | query_utils.py:35 | `.replace('\n', '')` distributes over concatenation, deletes a lone newline and keeps every other character, which fixes its result on every input |
| `QueryUtils.DataBlock` | query_utils.py:36-51 | the `DELETE DATA` / `INSERT DATA` text; its contract is carried by `DeleteQuery` and `InsertQuery` |
| `QueryUtils.DeleteQuery` | query_utils.py:30-40 | `("", 0)` exactly for an empty set; otherwise the `DELETE DATA` block (wrapped in `GRAPH <iri>` when an IRI is given) and the set's size |
| `QueryUtils.InsertQuery` | query_utils.py:42-52 | `("", 0)` exactly for an empty set; otherwise the `INSERT DATA` block and the set's size |
| `QueryUtils.Diff` | query_utils.py:66 | removed ⊆ pre, added disjoint from pre and from removed, applying them to pre gives cur, and the diff is empty exactly when pre == cur |
| `QueryUtils.DiffUnique` | query_utils.py:66 | the diff is the only update that removes only present statements, adds only absent ones, and turns pre into cur |
| `QueryUtils.UpdateQuery` | query_utils.py:54-76 | counts are the sizes of added and removed; the query is empty exactly when pre == cur and exactly when both counts are 0; it is delete `"; "` insert, delete alone, or insert alone according to which side of the diff is non-empty |
| `Provenance.GetEntity` | prov/provenance.py:111-113 | `get_entity` returns the registered record exactly when the key is registered |
| `Provenance.RetrieveLastSnapshot` | prov/provenance.py:72-77 | for every subject, nothing exactly when the counter is 0 and otherwise `subject + "/prov/se/" + str(counter)`; for a non-empty newline-free subject that identifier parses back to the subject, type `se` and the counter's value |
| `Provenance.AddProv` | prov/provenance.py:103-109 | without `res`: counter plus one, stored, and returned; with `res`: returns `res`'s count and leaves the counter at the larger of the old value and that count, never lowering it; registry and other subjects untouched, and the state unchanged when `res`'s count does not exceed the counter |
| `Provenance.RegisterNew` | prov/provenance.py:98-100 | after a missed lookup: a new record with count `n >= 1` under `subject/prov/se/n`, `n` being the incremented counter or `res`'s count, with the counter handled as in `_add_prov` |
| `Provenance.AddSe` | prov/provenance.py:95-101 | a registered `res` comes back unchanged with no other effect; otherwise a new record with count `n >= 1` is registered under `subject/prov/se/n`, with the counter handled as in `_add_prov`; only an unregistered `res` must parse |
| `Provenance.AddSeIdempotent` | prov/provenance.py:95-101 | registering a minted identifier twice returns the same key and the second call changes nothing; `get_entity` then finds it |
| `Provenance.CreateSnapshot` | prov/provenance.py:89-93 | one counter bump to `n`, and one new record under `subject/prov/se/n` with the entity and the generation time |
| `Provenance.Create` | prov/provenance.py:56-57 | the creation branch; its contract is `CreateEffect` |
| `Provenance.CreateEffect` | prov/provenance.py:54-57 | the creation branch bumps the counter to `n` and registers, under snapshot `n`, a record with the generation time, no derivation and the creation description |
| `Provenance.AddSeLatest` | prov/provenance.py:64 | `add_se` with the latest snapshot's identifier returns that identifier, leaves the counter alone and keeps or creates its record |
| `Provenance.RegisterLatest` | prov/provenance.py:64 | the modification branch's `add_se` registers snapshot `k` under its own identifier without touching the counter |
| `Provenance.Invalidate` | prov/provenance.py:65 | `has_invalidation_time`; its contract is carried by `InvalidateRegistered` and `InvalidateLatest` |
| `Provenance.DescribeModification` | prov/provenance.py:67-69 | `derives_from`, `has_description`, `has_update_action`; its contract is `DescribeFreshModification` |
| `Provenance.InvalidateRegistered` | prov/provenance.py:65 | invalidation replaces the freshly registered record by the same record with its invalidation time |
| `Provenance.InvalidateLatest` | prov/provenance.py:64-65 | after registration and invalidation, snapshot `k` is the previously known (or a fresh) record with the invalidation time set, and nothing else changed |
| `Provenance.DescribeFreshModification` | prov/provenance.py:67-69 | describing a fresh snapshot `k+1` gives it the derivation from `k`, the modification description and the update query |
| `Provenance.CreateSuccessor` | prov/provenance.py:66-69 | creating and describing the successor bumps the counter to `k+1` and registers the modification record under snapshot `k+1` |
| `Provenance.Modify` | prov/provenance.py:63-69 | the modification branch; its contract is carried by `ModifyEffect` and `ModifyKeepsLatest` |
| `Provenance.ModifyEffect` | prov/provenance.py:63-69 | the modification branch bumps the counter to `k+1`, invalidates snapshot `k` at `time`, and registers snapshot `k+1` generated at `time`, deriving from `k`, with the update query |
| `Provenance.ModifyKeepsLatest` | prov/provenance.py:64-65 | a registered latest snapshot keeps its whole record through a modification and only gains the invalidation time |
| `Provenance.ModifyAsWritten` | prov/provenance.py:96-101 | the modification branch with the line-96 lookup missing; its contract is `ModifyAsWrittenResetsLatest` |
| `Provenance.ModifyAsWrittenResetsLatest` | prov/provenance.py:96-101 | as written, the latest snapshot is replaced by a fresh record carrying only subject, count and the invalidation time |
| `Provenance.CreatedThenModifiedAsWritten` | prov/provenance.py:56-69 | a subject created at `t1` and modified: the corrected branch keeps snapshot 1's generation time `t1`, the as-written one drops it |
| `Provenance.SubjectQuery` | prov/provenance.py:59-61 | the subject's update query; `GenerationClassified` states it is non-empty exactly when the subject's statements differ from its baseline ones |
| `Provenance.GenerationStep` | prov/provenance.py:52-69 | the loop body of the generation pass; its contract is `StepOutcome` with `GenerationClassified` |
| `Provenance.Step` | prov/provenance.py:52-69 | the loop body of either pass; its contract is `StepOutcome` |
| `Provenance.GenerationClassified` | prov/provenance.py:53-69 | a subject at count 0 gets snapshot 1 with the creation record; a subject at count `k > 0` whose statements differ from the baseline gets snapshot `k` invalidated and `k+1` as the modification record (the update query is non-empty exactly then); any other subject is left unchanged |
| `Provenance.StepOutcome` | prov/provenance.py:52-69 | the loop body for one subject has exactly the creation, modification or no effect that its classification names, in both passes |
| `Provenance.OutcomeChanges` | prov/provenance.py:52-69 | a step changes only its subject's counter and the subject's snapshot identifiers `k` and `k+1` |
| `Provenance.WrittenOwned` | prov/provenance.py:77 | every identifier a step writes belongs to the step's subject |
| `Provenance.OutcomeFrame` | prov/provenance.py:52-69 | a step leaves every other subject's counter and every identifier of other subjects untouched |
| `Provenance.CreationReadsOwnState` | prov/provenance.py:54-57 | a creation depends only on its own subject's counter and records |
| `Provenance.ModificationReadsOwnState` | prov/provenance.py:58-69 | a modification depends only on its own subject's counter and records |
| `Provenance.OutcomeReadsOwnState` | prov/provenance.py:52-69 | a step depends only on its own subject's counter and records |
| `Provenance.CreationPreservesConsistent` | prov/provenance.py:89-101 | a creation keeps every record under the identifier of its own subject and count, with the counter at least that count |
| `Provenance.LatestRecord` | prov/provenance.py:72-77 | in a consistent registry, the record under a subject's latest identifier belongs to that subject and count |
| `Provenance.ModificationPreservesConsistent` | prov/provenance.py:63-69 | a modification keeps the registry consistent with the counter |
| `Provenance.OutcomePreservesConsistent` | prov/provenance.py:52-69 | every step keeps the registry consistent with the counter |
| `Provenance.StepDefinedOwnState` | prov/provenance.py:105 | whether a subject can be processed without `ValueError` depends only on its own counter and records |
| `Provenance.PassStep` | prov/provenance.py:52 | one more processed subject keeps all the loop invariants of the pass |
| `Provenance.RunPass` | prov/provenance.py:52-69 | in any iteration order, each subject ends exactly as its own step from the initial state leaves it; other subjects and their identifiers are untouched; consistency is preserved; if every step is a no-op the state is unchanged |
| `OcdmGraph.CheckpointOutcome` | ocdm_graph.py:46-53 | the checkpoint gives a subject at count 0 snapshot 1 with the creation record and leaves any subject at count >= 1 alone |
| `OcdmGraph.GenerationOutcome` | prov/provenance.py:53-57 | after generation every subject has a snapshot, and a new subject has snapshot 1 |
| `OcdmGraph.GenerationUnchanged` | prov/provenance.py:59-62 | a subject with a snapshot whose statements equal the baseline is left alone |
| `OcdmGraph.PreexistingFinished` | ocdm_graph.py:42-53 | the baseline becomes the current statements; every current subject is indexed as not to be deleted, other index entries are kept; every subject ends with count >= 1; subjects at 0 get snapshot 1 stamped by the clock; subjects already counted and everything outside the subjects are untouched; any subject is accepted, as in the source |
| `OcdmGraph.GenerateProvenance` | prov/provenance.py:47-70 | every current subject ends indexed as not to be deleted, other index entries are kept; for subjects the source processes without `ValueError`, each subject ends as its classification against the baseline says; afterwards every subject has a snapshot and the baseline is the current statements; with no edit since the last checkpoint nothing changes |
| `OcdmGraph.GenerateTwice` | prov/provenance.py:62-70 | a second generation with no edit in between leaves the provenance exactly as the first left it |
| `OcdmGraph.Pointing` | ocdm_graph.py:56 | the statements whose object is `other`, and only those |
| `OcdmGraph.Retarget` | ocdm_graph.py:59 | each selected statement reappears with `res` as object, and every produced statement is a selected one with its object replaced by `res` |
| `OcdmGraph.RetargetStep` | ocdm_graph.py:57-60 | redirecting one more statement keeps the first loop's graph equal to "unvisited statements plus the redirected ones" |
| `OcdmGraph.MergedIff` | ocdm_graph.py:56-63 | after both loops a statement is present exactly when its subject is not `other` and it was present with an object other than `other`, or it is a statement that pointed at `other` now pointing at `res` |
| `OcdmGraph.Merge` | ocdm_graph.py:55-65 | statements are redirected and `other`'s own are dropped as `MergedIff` says, so `other` is no longer a subject and predicates are never rewritten; `merge_index[res]` gains `other` and keeps its members; `other` is flagged for deletion, or `KeyError` is raised when it is not indexed; baseline and provenance are untouched |

## Left out

- N-Triples serialisation is the opaque `Serializer` parameter.
- rdflib's canonicalisation (`to_isomorphic`, `graph_diff`) is left out. Terms are assumed canonical, and plain set equality and difference stand in for them.
- Only the map-backed counter is modelled. The filesystem and SQLite counter backends (prov/provenance.py:40-45) do I/O, and their files are not part of this model.
- `SnapshotEntity` and `ProvEntity` are not part of this model. A snapshot is a plain record of subject, count, entity, generation and invalidation times, derivations, description and update action.
- Wall-clock time and timestamp formatting (prov/provenance.py:48-51, ocdm_graph.py:47-51) are not modelled. The generation pass takes an opaque `time`, and the checkpoint takes a `clock` function.
- ConjunctiveGraph contexts are not modelled. That covers the graph IRI taken from the first context (query_utils.py:55-58), the quad path of `_generate_subj_graph`, and context handling in `merge`. The generation pass uses the single-graph case (no graph IRI); `UpdateQuery` still takes the IRI as a parameter.
- Terms are strings. The IRI, literal and blank-node distinction is not modelled.
- The root-level provenance.py and test/provenance_test.py belong to an older, printing version and are not modelled.
- `get_entity` on the store only delegates to the provenance object and is covered by `Provenance.GetEntity`.
- `get_prov_count` is not part of this model's source text. It is modelled as group 3 of the identifier pattern.
- ProvIds.GetCount: the source would raise `IndexError` on every identifier the pattern accepts. This is modelled as a requirement on the caller, not as a value.
- Provenance.AddProv, Provenance.RegisterNew: require that `res` match the identifier pattern. Otherwise `int(get_prov_count(res))` (prov/provenance.py:105) raises `ValueError`; the error is a requirement, not a value.
- Provenance.AddSe: requires the same of an unregistered `res` only, since a registered one is returned before `_add_prov` runs.
- Provenance.Modify, Provenance.RegisterLatest, Provenance.GenerationStep, Provenance.Step, Provenance.RunPass: require `LatestReadable`/`StepDefined`, that is, the latest snapshot is registered or its subject is non-empty and newline-free. For any other subject whose statements changed, the source raises `ValueError` at prov/provenance.py:105.
- OcdmGraph.GenerateProvenance: requires `StepDefined` for every subject for the same reason. `PreexistingFinished` only creates snapshots and accepts every subject.
- Provenance.ModifyAsWritten: requires a non-empty newline-free subject, since as written the latest identifier is always parsed and any other subject raises `ValueError` at prov/provenance.py:105.
- OcdmGraph.PreexistingFinished: the counter is keyed by one string per subject. The source reads it with the rdflib term itself (ocdm_graph.py:46) but reads and increments it with `str(...)` elsewhere (prov/provenance.py:73, :109). The model assumes the counter handler, which is not part of this model, keys both by the identifier's text; `GenerateTwice` and "no new snapshot for a counted subject" rest on that.
- Provenance.RegisterLatest: the lookup at prov/provenance.py:96 is modelled as the evidently intended comparison of identifier strings. The behaviour as written is under Findings.
- `GenerateProvenance` requires a baseline whenever some subject already has a snapshot. The source reads `preexisting_graph`, which exists only after the first checkpoint, and otherwise raises `AttributeError`.
- Several steps are stated at the level of their records and do not track object identity. This covers `has_description`, `is_snapshot_of`, `has_generation_time`, `has_invalidation_time`, `derives_from` and `has_update_action`, each mutating the Python record in place.

## Findings

| source | as written | input that shows it | evidently intended | confidence | as-written member | corrected member |
|---|---|---|---|---|---|---|
| prov/provenance.py:96 | the modification branch passes the `URIRef` built at line 77 to `add_se`, whose `res in self.res_to_entity` compares it with the plain `str` keys built at line 100; a `URIRef` hashes like the equal `str`, but rdflib's `Identifier.__eq__` is false for an operand of another type, and as the subclass's method it decides the comparison either way round, so the lookup misses | a subject created at `t1`, then edited and processed at `t2`: snapshot 1 is replaced by a fresh `SnapshotEntity` with only its invalidation time, and generation time `t1`, `is_snapshot_of` and the description are lost | return the registered snapshot and only stamp its invalidation time | not executed; depends on rdflib's `Identifier.__eq__`, which is not part of this model | `Provenance.CreatedThenModifiedAsWritten` | `Provenance.ModifyKeepsLatest` |
| support.py:39 | `get_count` asks `_get_match` for group 6 of a pattern with three groups | `"http://x/br/1/prov/se/1"`: the pattern matches, and `match.group(6)` raises `IndexError` | return the count group, group 3 | not executed | `ProvIds.GetCountRejectsEveryIdentifier` | `ProvIds.GetCountCorrected` |
