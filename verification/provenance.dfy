/**
 The snapshot registry and the generation pass of prov/provenance.py.

 The state is the per-subject counter and the registry that maps snapshot identifiers
 to snapshot records (`res_to_entity`). Each subject is processed by one `Step`; the pass
 is a loop over the subjects in an unspecified order, and `RunPass` proves the outcome
 does not depend on that order: every subject ends as its own step alone would leave it.
 */
module Provenance {
  import opened Optional
  import opened Decimal
  import opened ProvIds
  import opened Triples
  import opened QueryUtils
  import opened Counters

  /**
   A snapshot record: the subject it was minted for, its count, the entity it is a
   snapshot of, generation and invalidation times, the snapshots it derives from,
   its description and its update action.
   */
  datatype Snapshot = Snapshot(
    subject: string,
    count: nat,
    snapshotOf: Option<string>,
    generatedAt: Option<string>,
    invalidatedAt: Option<string>,
    derivesFrom: seq<string>,
    description: Option<string>,
    updateAction: Option<string>)

  /** `SnapshotEntity(subject, self, count)` before any property is set. */
  function NewSnapshot(subject: string, count: nat): Snapshot {
    Snapshot(subject, count, None, None, None, [], None, None)
  }

  datatype State = State(counter: Counter, registry: map<string, Snapshot>)

  function CreatedText(subject: string): string {
    "The entity '" + subject + "' has been created."
  }

  function ModifiedText(subject: string): string {
    "The entity '" + subject + "' was modified."
  }

  /** `get_entity`: the record registered under `key`, if any. */
  function GetEntity(st: State, key: string): (r: Option<Snapshot>)
    ensures r.Some? <==> key in st.registry
    ensures r.Some? ==> r.value == st.registry[key]
  {
    if key in st.registry then Some(st.registry[key]) else None
  }

  /**
   A record fits under `key` when it sits under the identifier minted from its own
   subject and count, that count is positive, and the counter has reached it.
   */
  predicate Fits(counter: Counter, key: string, se: Snapshot) {
    && 1 <= se.count <= Read(counter, se.subject)
    && key == SnapshotIri(se.subject, se.count)
  }

  /** Registry consistency: every record fits under its key. */
  ghost predicate Consistent(st: State) {
    forall key | key in st.registry :: Fits(st.counter, key, st.registry[key])
  }

  /** `_retrieve_last_snapshot`: the identifier of the subject's latest snapshot. */
  function RetrieveLastSnapshot(st: State, subject: string): (r: Option<string>)
    ensures r.None? <==> Read(st.counter, subject) == 0
    ensures r.Some? ==> r.value == SnapshotIri(subject, Read(st.counter, subject))
    ensures r.Some? && IsBase(subject) ==>
      Parse(r.value) == Some(ProvId(subject, SnapshotKind, ToText(Read(st.counter, subject))))
    ensures r.Some? && IsBase(subject) ==> ValueOf(GetProvCount(r.value)) == Read(st.counter, subject)
  {
    var count := Read(st.counter, subject);
    if count <= 0 then None
    else if IsBase(subject) then
      SnapshotIriRoundTrip(subject, count);
      Some(SnapshotIri(subject, count))
    else
      Some(SnapshotIri(subject, count))
  }

  /**
   `_add_prov`: without `res`, increments the counter and returns the new value; with
   `res`, returns its count and raises the counter to it, never lowering it.
   */
  function AddProv(st: State, subject: string, res: Option<string>): (r: (State, nat))
    requires res.Some? ==> Parse(res.value).Some?
    ensures r.0.registry == st.registry
    ensures forall other | other != subject :: Read(r.0.counter, other) == Read(st.counter, other)
    ensures res.None? ==> r.1 == Read(st.counter, subject) + 1 && r.0.counter == SetCounter(st.counter, subject, r.1)
    ensures res.Some? ==> r.1 >= 1 && ToText(r.1) == Parse(res.value).value.count
    ensures res.Some? ==> Read(r.0.counter, subject) == if r.1 > Read(st.counter, subject) then r.1 else Read(st.counter, subject)
    ensures res.Some? && r.1 <= Read(st.counter, subject) ==> r.0 == st
  {
    if res.Some? then
      var text := GetProvCount(res.value);
      var resCount := ValueOf(text);
      ValueOfCountTextPositive(text);
      ToTextOfValueOf(text);
      if resCount > Read(st.counter, subject) then
        (st.(counter := SetCounter(st.counter, subject, resCount)), resCount)
      else
        (st, resCount)
    else
      var (c, v) := Increment(st.counter, subject);
      (st.(counter := c), v)
  }

  /**
   The part of `add_se` after its lookup: `_add_prov`, then a new record registered under
   the identifier minted from the count it returns.
   */
  function RegisterNew(st: State, subject: string, res: Option<string>): (r: (State, string))
    requires res.Some? ==> Parse(res.value).Some?
    ensures r.1 in r.0.registry
    ensures
      var n := r.0.registry[r.1].count;
      && r.1 == SnapshotIri(subject, n)
      && r.0.registry == st.registry[r.1 := NewSnapshot(subject, n)]
      && n >= 1
      && (res.None? ==> n == Read(st.counter, subject) + 1 && r.0.counter == SetCounter(st.counter, subject, n))
      && (res.Some? ==> ToText(n) == Parse(res.value).value.count)
      && (res.Some? ==> Read(r.0.counter, subject) == if n > Read(st.counter, subject) then n else Read(st.counter, subject))
      && (res.Some? && n <= Read(st.counter, subject) ==> r.0.counter == st.counter)
    ensures forall other | other != subject :: Read(r.0.counter, other) == Read(st.counter, other)
  {
    var (st', count) := AddProv(st, subject, res);
    var key := SnapshotIri(subject, count);
    (st'.(registry := st'.registry[key := NewSnapshot(subject, count)]), key)
  }

  /**
   `add_se`: a `res` already registered is returned as is; otherwise a new record is
   registered under the identifier minted from the count `_add_prov` returns.
   */
  function AddSe(st: State, subject: string, res: Option<string>): (r: (State, string))
    requires res.Some? && res.value !in st.registry ==> Parse(res.value).Some?
    ensures r.1 in r.0.registry
    ensures res.Some? && res.value in st.registry ==> r == (st, res.value)
    ensures !(res.Some? && res.value in st.registry) ==>
      var n := r.0.registry[r.1].count;
      && r.1 == SnapshotIri(subject, n)
      && r.0.registry == st.registry[r.1 := NewSnapshot(subject, n)]
      && n >= 1
      && (res.None? ==> n == Read(st.counter, subject) + 1 && r.0.counter == SetCounter(st.counter, subject, n))
      && (res.Some? ==> ToText(n) == Parse(res.value).value.count)
      && (res.Some? ==> Read(r.0.counter, subject) == if n > Read(st.counter, subject) then n else Read(st.counter, subject))
    ensures forall other | other != subject :: Read(r.0.counter, other) == Read(st.counter, other)
  {
    if res.Some? && res.value in st.registry then (st, res.value)
    else RegisterNew(st, subject, res)
  }

  /** Registering a minted identifier twice returns the same record and changes nothing the second time. */
  lemma AddSeIdempotent(st: State, subject: string, n: nat)
    requires IsBase(subject) && n >= 1
    ensures Parse(SnapshotIri(subject, n)).Some?
    ensures AddSe(st, subject, Some(SnapshotIri(subject, n))).1 == SnapshotIri(subject, n)
    ensures
      var first := AddSe(st, subject, Some(SnapshotIri(subject, n)));
      AddSe(first.0, subject, Some(SnapshotIri(subject, n))) == first
    ensures GetEntity(AddSe(st, subject, Some(SnapshotIri(subject, n))).0, SnapshotIri(subject, n)).Some?
  {
    var res := SnapshotIri(subject, n);
    SnapshotIriRoundTrip(subject, n);
    if res !in st.registry {
      var first := AddSe(st, subject, Some(res));
      var m := first.0.registry[first.1].count;
      ToTextInjective(m, n);
    }
  }

  /** `_create_snapshot`: a fresh record with the next count, its entity and generation time. */
  function CreateSnapshot(st: State, subject: string, time: string): (r: (State, string))
    ensures
      var n := Read(st.counter, subject) + 1;
      && r.1 == SnapshotIri(subject, n)
      && r.0.counter == SetCounter(st.counter, subject, n)
      && r.0.registry == st.registry[r.1 := NewSnapshot(subject, n).(snapshotOf := Some(subject), generatedAt := Some(time))]
  {
    var added := AddSe(st, subject, None);
    var se := added.0.registry[added.1];
    (added.0.(registry := added.0.registry[added.1 := se.(snapshotOf := Some(subject), generatedAt := Some(time))]), added.1)
  }

  /** The record a creation leaves at count `n`. */
  function CreationSnapshot(subject: string, n: nat, time: string): Snapshot {
    Snapshot(subject, n, Some(subject), Some(time), None, [], Some(CreatedText(subject)), None)
  }

  /** The record a modification from count `k` leaves at count `k + 1`. */
  function ModificationSnapshot(subject: string, k: nat, time: string, query: string): Snapshot {
    Snapshot(subject, k + 1, Some(subject), Some(time), None, [SnapshotIri(subject, k)],
      Some(ModifiedText(subject)), Some(query))
  }

  /** The superseded record: the registered one if any, otherwise a fresh one, now invalidated. */
  function Invalidated(previous: Option<Snapshot>, subject: string, k: nat, time: string): Snapshot {
    previous.GetOr(NewSnapshot(subject, k)).(invalidatedAt := Some(time))
  }

  /** Reference effect of a creation: one counter bump and one new record. */
  function CreationEffect(st: State, subject: string, time: string): State {
    var n := Read(st.counter, subject) + 1;
    State(SetCounter(st.counter, subject, n),
          st.registry[SnapshotIri(subject, n) := CreationSnapshot(subject, n, time)])
  }

  /** Reference effect of a modification: one counter bump, the old record invalidated, one new record. */
  function ModificationEffect(st: State, subject: string, time: string, query: string): State {
    var k := Read(st.counter, subject);
    State(SetCounter(st.counter, subject, k + 1),
          st.registry[SnapshotIri(subject, k) := Invalidated(GetEntity(st, SnapshotIri(subject, k)), subject, k, time)]
                     [SnapshotIri(subject, k + 1) := ModificationSnapshot(subject, k, time, query)])
  }

  /** The creation branch: `_create_snapshot` followed by `has_description`. */
  function Create(st: State, subject: string, time: string): State {
    var created := CreateSnapshot(st, subject, time);
    var se := created.0.registry[created.1];
    created.0.(registry := created.0.registry[created.1 := se.(description := Some(CreatedText(subject)))])
  }

  /** The creation branch has exactly the reference effect. */
  lemma CreateEffect(st: State, subject: string, time: string)
    ensures Create(st, subject, time) == CreationEffect(st, subject, time)
  {
  }

  /**
   The modification branch can obtain the latest snapshot: its identifier is registered,
   or it parses back, which needs a non-empty subject without newlines.
   */
  predicate LatestReadable(st: State, subject: string) {
    IsBase(subject) || SnapshotIri(subject, Read(st.counter, subject)) in st.registry
  }

  /** `add_se` on the latest snapshot's identifier registers it under that same identifier, counter untouched. */
  lemma AddSeLatest(st: State, subject: string)
    requires Read(st.counter, subject) > 0 && LatestReadable(st, subject)
    ensures
      var k := Read(st.counter, subject);
      var last := SnapshotIri(subject, k);
      && (last !in st.registry ==> Parse(last).Some?)
      && AddSe(st, subject, Some(last)).1 == last
      && AddSe(st, subject, Some(last)).0.counter == st.counter
      && AddSe(st, subject, Some(last)).0.registry ==
         st.registry[last := GetEntity(st, last).GetOr(NewSnapshot(subject, k))]
  {
    var k := Read(st.counter, subject);
    var last := SnapshotIri(subject, k);
    if last !in st.registry {
      SnapshotIriRoundTrip(subject, k);
      var r := AddSe(st, subject, Some(last));
      ToTextInjective(r.0.registry[r.1].count, k);
    } else {
      assert st.registry[last := st.registry[last]] == st.registry;
    }
  }

  /** `self.add_se(prov_subject=cur_subj, res=last_snapshot_res)` in the modification branch. */
  function RegisterLatest(st: State, subject: string): (r: (State, string))
    requires Read(st.counter, subject) > 0 && LatestReadable(st, subject)
    ensures
      var k := Read(st.counter, subject);
      && r.1 == SnapshotIri(subject, k)
      && r.0.counter == st.counter
      && r.0.registry == st.registry[r.1 := GetEntity(st, r.1).GetOr(NewSnapshot(subject, k))]
  {
    AddSeLatest(st, subject);
    AddSe(st, subject, Some(RetrieveLastSnapshot(st, subject).value))
  }

  /** `has_invalidation_time` on the record under `key`. */
  function Invalidate(st: State, key: string, time: string): State
    requires key in st.registry
  {
    st.(registry := st.registry[key := st.registry[key].(invalidatedAt := Some(time))])
  }

  /** `derives_from`, `has_description` and `has_update_action` on the new record under `key`. */
  function DescribeModification(st: State, key: string, last: string, subject: string, query: string): State
    requires key in st.registry
  {
    var se := st.registry[key];
    st.(registry := st.registry[key := se.(derivesFrom := se.derivesFrom + [last],
                                           description := Some(ModifiedText(subject)),
                                           updateAction := Some(query))])
  }

  /**
   The modification branch: invalidate the latest snapshot `k`, then create its
   successor deriving from it, described as a modification and carrying the query.
   */
  function Modify(st: State, subject: string, time: string, query: string): State
    requires Read(st.counter, subject) > 0 && LatestReadable(st, subject)
  {
    var registered := RegisterLatest(st, subject);
    var invalidated := Invalidate(registered.0, registered.1, time);
    var created := CreateSnapshot(invalidated, subject, time);
    DescribeModification(created.0, created.1, registered.1, subject, query)
  }

  /** Invalidating a record just registered under `key` replaces it by its invalidated form. */
  lemma InvalidateRegistered(st: State, registered: State, key: string, previous: Snapshot, time: string)
    requires registered == st.(registry := st.registry[key := previous])
    ensures Invalidate(registered, key, time) == st.(registry := st.registry[key := previous.(invalidatedAt := Some(time))])
  {
    assert st.registry[key := previous][key := previous.(invalidatedAt := Some(time))] ==
      st.registry[key := previous.(invalidatedAt := Some(time))];
  }

  /** Registering and invalidating the latest snapshot `k` leaves one invalidated record under its identifier. */
  lemma InvalidateLatest(st: State, subject: string, time: string)
    requires Read(st.counter, subject) > 0 && LatestReadable(st, subject)
    ensures
      var k := Read(st.counter, subject);
      var registered := RegisterLatest(st, subject);
      Invalidate(registered.0, registered.1, time) ==
        st.(registry := st.registry[SnapshotIri(subject, k) := Invalidated(GetEntity(st, SnapshotIri(subject, k)), subject, k, time)])
  {
    var k := Read(st.counter, subject);
    var registered := RegisterLatest(st, subject);
    InvalidateRegistered(st, registered.0, registered.1, GetEntity(st, registered.1).GetOr(NewSnapshot(subject, k)), time);
  }

  /** Describing a freshly created snapshot `k + 1` yields the modification record. */
  lemma DescribeFreshModification(st: State, subject: string, k: nat, time: string, query: string)
    requires SnapshotIri(subject, k + 1) in st.registry
    requires st.registry[SnapshotIri(subject, k + 1)] ==
      NewSnapshot(subject, k + 1).(snapshotOf := Some(subject), generatedAt := Some(time))
    ensures DescribeModification(st, SnapshotIri(subject, k + 1), SnapshotIri(subject, k), subject, query) ==
      st.(registry := st.registry[SnapshotIri(subject, k + 1) := ModificationSnapshot(subject, k, time, query)])
  {
    assert [] + [SnapshotIri(subject, k)] == [SnapshotIri(subject, k)];
  }

  /** Creating and describing the successor of snapshot `k` on any state whose counter is at `k`. */
  lemma CreateSuccessor(st: State, subject: string, k: nat, time: string, query: string)
    requires Read(st.counter, subject) == k
    ensures
      var created := CreateSnapshot(st, subject, time);
      && created.1 == SnapshotIri(subject, k + 1)
      && DescribeModification(created.0, created.1, SnapshotIri(subject, k), subject, query) ==
         State(SetCounter(st.counter, subject, k + 1),
               st.registry[SnapshotIri(subject, k + 1) := ModificationSnapshot(subject, k, time, query)])
  {
    var created := CreateSnapshot(st, subject, time);
    DescribeFreshModification(created.0, subject, k, time, query);
  }

  /** The modification branch has exactly the reference effect. */
  lemma ModifyEffect(st: State, subject: string, time: string, query: string)
    requires Read(st.counter, subject) > 0 && LatestReadable(st, subject)
    ensures Modify(st, subject, time, query) == ModificationEffect(st, subject, time, query)
  {
    var k := Read(st.counter, subject);
    var registered := RegisterLatest(st, subject);
    InvalidateLatest(st, subject, time);
    var invalidated := Invalidate(registered.0, registered.1, time);
    CreateSuccessor(invalidated, subject, k, time, query);
  }

  /** The corrected modification keeps the latest record's history and only stamps its invalidation time. */
  lemma ModifyKeepsLatest(st: State, subject: string, time: string, query: string)
    requires Read(st.counter, subject) > 0 && LatestReadable(st, subject)
    ensures
      var key := SnapshotIri(subject, Read(st.counter, subject));
      GetEntity(st, key).Some? ==>
        GetEntity(Modify(st, subject, time, query), key) == Some(st.registry[key].(invalidatedAt := Some(time)))
  {
    var k := Read(st.counter, subject);
    ModifyEffect(st, subject, time, query);
    SnapshotIriDistinct(subject, k, k + 1);
  }

  /**
   The modification branch as written. The test `res in self.res_to_entity` compares the
   `URIRef` built by `_retrieve_last_snapshot` with the plain `str` keys `add_se` stores,
   and rdflib's `Identifier.__eq__` is false for any operand of another type: the lookup misses,
   so the latest identifier is parsed and a fresh record replaces the registered one.
   */
  function ModifyAsWritten(st: State, subject: string, time: string, query: string): State
    requires IsBase(subject) && Read(st.counter, subject) > 0
  {
    var last := RetrieveLastSnapshot(st, subject).value;
    var registered := RegisterNew(st, subject, Some(last));
    var invalidated := Invalidate(registered.0, registered.1, time);
    var created := CreateSnapshot(invalidated, subject, time);
    DescribeModification(created.0, created.1, registered.1, subject, query)
  }

  /**
   As written, the latest record loses everything but its subject, count and new
   invalidation time: its generation time, `is_snapshot_of`, description and update query.
   */
  lemma ModifyAsWrittenResetsLatest(st: State, subject: string, time: string, query: string)
    requires IsBase(subject) && Read(st.counter, subject) > 0
    ensures
      var k := Read(st.counter, subject);
      GetEntity(ModifyAsWritten(st, subject, time, query), SnapshotIri(subject, k)) ==
        Some(NewSnapshot(subject, k).(invalidatedAt := Some(time)))
  {
    var k := Read(st.counter, subject);
    var last := SnapshotIri(subject, k);
    SnapshotIriRoundTrip(subject, k);
    var registered := RegisterNew(st, subject, Some(last));
    ToTextInjective(registered.0.registry[registered.1].count, k);
    SnapshotIriDistinct(subject, k, k + 1);
  }

  /** A subject created at `t1` and modified at `t2`: as written, snapshot 1 forgets `t1`. */
  lemma CreatedThenModifiedAsWritten(st: State, subject: string, t1: string, t2: string, query: string)
    requires IsBase(subject) && Read(st.counter, subject) == 0
    ensures
      var created := Create(st, subject, t1);
      var first := SnapshotIri(subject, 1);
      && GetEntity(created, first).value.generatedAt == Some(t1)
      && GetEntity(Modify(created, subject, t2, query), first).value.generatedAt == Some(t1)
      && GetEntity(ModifyAsWritten(created, subject, t2, query), first).value.generatedAt == None
  {
    var created := Create(st, subject, t1);
    CreateEffect(st, subject, t1);
    ModifyKeepsLatest(created, subject, t2, query);
    ModifyAsWrittenResetsLatest(created, subject, t2, query);
  }

  /** The update query of one subject: its baseline statements against its current ones. */
  function SubjectQuery(baseline: set<Triple>, current: set<Triple>, subject: string, ser: Serializer): string {
    UpdateQuery(SubjectGraph(baseline, subject), SubjectGraph(current, subject), None, ser).query
  }

  /** The body of the loop in `generate_provenance` for one subject. */
  function GenerationStep(st: State, subject: string, time: string,
                          baseline: set<Triple>, current: set<Triple>, ser: Serializer): State
    requires Read(st.counter, subject) == 0 || SubjectQuery(baseline, current, subject, ser) == "" ||
             LatestReadable(st, subject)
  {
    match RetrieveLastSnapshot(st, subject)
    case None => Create(st, subject, time)
    case Some(_) =>
      var query := SubjectQuery(baseline, current, subject, ser);
      if query != "" then Modify(st, subject, time, query) else st
  }

  /** The two passes over the store's subjects: provenance generation, and the checkpoint. */
  datatype Pass =
    | Generation(time: string, baseline: set<Triple>, current: set<Triple>, ser: Serializer)
    | Checkpoint(clock: string -> string)

  /**
   Whether a pass can process a subject: a modification must obtain the latest snapshot,
   and otherwise `int(get_prov_count(...))` raises `ValueError`. The checkpoint only creates.
   */
  predicate StepDefined(st: State, subject: string, pass: Pass) {
    match pass
    case Generation(_, baseline, current, ser) =>
      Read(st.counter, subject) == 0 || SubjectQuery(baseline, current, subject, ser) == "" ||
      LatestReadable(st, subject)
    case Checkpoint(_) => true
  }

  /** What one pass does to one subject. */
  function Step(st: State, subject: string, pass: Pass): State
    requires StepDefined(st, subject, pass)
  {
    match pass
    case Generation(time, baseline, current, ser) => GenerationStep(st, subject, time, baseline, current, ser)
    case Checkpoint(clock) => if Read(st.counter, subject) == 0 then Create(st, subject, clock(subject)) else st
  }

  /**
   The classification of one subject: no snapshot yet means creation; a snapshot and a
   non-empty update query mean modification; otherwise nothing happens. The checkpoint
   only creates, and only for subjects without a snapshot.
   */
  function Outcome(st: State, subject: string, pass: Pass): State {
    var k := Read(st.counter, subject);
    match pass
    case Generation(time, baseline, current, ser) =>
      var query := SubjectQuery(baseline, current, subject, ser);
      if k == 0 then CreationEffect(st, subject, time)
      else if query != "" then ModificationEffect(st, subject, time, query)
      else st
    case Checkpoint(clock) =>
      if k == 0 then CreationEffect(st, subject, clock(subject)) else st
  }

  /**
   The generation pass in terms of records: a subject without a snapshot gets snapshot 1;
   a subject at count `k` whose statements differ from its baseline ones gets snapshot
   `k` invalidated and snapshot `k + 1` deriving from it with the update query; any
   other subject is left alone.
   */
  lemma GenerationClassified(st: State, subject: string, time: string,
                             baseline: set<Triple>, current: set<Triple>, ser: Serializer)
    ensures
      var after := Outcome(st, subject, Generation(time, baseline, current, ser));
      var k := Read(st.counter, subject);
      var query := SubjectQuery(baseline, current, subject, ser);
      var changed := SubjectGraph(baseline, subject) != SubjectGraph(current, subject);
      && (query != "" <==> changed)
      && (k == 0 ==>
            && Read(after.counter, subject) == 1
            && GetEntity(after, SnapshotIri(subject, 1)) == Some(CreationSnapshot(subject, 1, time)))
      && (k > 0 && changed ==>
            && Read(after.counter, subject) == k + 1
            && GetEntity(after, SnapshotIri(subject, k + 1)) == Some(ModificationSnapshot(subject, k, time, query))
            && GetEntity(after, SnapshotIri(subject, k)).Some?
            && GetEntity(after, SnapshotIri(subject, k)).value.invalidatedAt == Some(time))
      && (k > 0 && !changed ==> after == st)
  {
    var k := Read(st.counter, subject);
    SnapshotIriDistinct(subject, k, k + 1);
  }

  /** Each step has exactly the effect its classification names. */
  lemma StepOutcome(st: State, subject: string, pass: Pass)
    requires StepDefined(st, subject, pass)
    ensures Step(st, subject, pass) == Outcome(st, subject, pass)
  {
    var k := Read(st.counter, subject);
    match pass
    case Generation(time, baseline, current, ser) =>
      var query := SubjectQuery(baseline, current, subject, ser);
      if k == 0 {
        CreateEffect(st, subject, time);
      } else if query != "" {
        ModifyEffect(st, subject, time, query);
      }
    case Checkpoint(clock) =>
      CreateEffect(st, subject, clock(subject));
  }

  /** The keys a step may write: the subject's identifiers for counts `k` (when positive) and `k + 1`. */
  predicate Written(st: State, subject: string, key: string) {
    var k := Read(st.counter, subject);
    key == SnapshotIri(subject, k + 1) || (k > 0 && key == SnapshotIri(subject, k))
  }

  /** A step changes only its subject's counter and the identifiers `Written` names. */
  lemma OutcomeChanges(st: State, subject: string, pass: Pass)
    ensures forall other | other != subject :: Read(Outcome(st, subject, pass).counter, other) == Read(st.counter, other)
    ensures forall key | !Written(st, subject, key) :: GetEntity(Outcome(st, subject, pass), key) == GetEntity(st, key)
  {
  }

  /** Whether the entries a step owns are the same in two states. */
  ghost predicate SameOwnState(st1: State, st2: State, subject: string) {
    && Read(st1.counter, subject) == Read(st2.counter, subject)
    && forall key | Owner(key) == Some(subject) :: GetEntity(st1, key) == GetEntity(st2, key)
  }

  /** Every key a step may write belongs to the step's subject. */
  lemma WrittenOwned(st: State, subject: string, key: string)
    ensures Written(st, subject, key) ==> Owner(key) == Some(subject)
  {
    if Written(st, subject, key) {
      var k := Read(st.counter, subject);
      var n := if key == SnapshotIri(subject, k + 1) then k + 1 else k;
      assert key == SnapshotIri(subject, n);
      OwnerOfSnapshotIri(subject, n);
    }
  }

  /** A step touches only its own subject's counter and registry entries. */
  lemma OutcomeFrame(st: State, subject: string, pass: Pass)
    ensures forall other | other != subject :: Read(Outcome(st, subject, pass).counter, other) == Read(st.counter, other)
    ensures forall key | Owner(key) != Some(subject) :: GetEntity(Outcome(st, subject, pass), key) == GetEntity(st, key)
  {
    OutcomeChanges(st, subject, pass);
    forall key | Owner(key) != Some(subject)
      ensures GetEntity(Outcome(st, subject, pass), key) == GetEntity(st, key)
    {
      WrittenOwned(st, subject, key);
    }
  }

  /** A creation reads only its own subject's entries. */
  lemma CreationReadsOwnState(st1: State, st2: State, subject: string, time: string)
    requires SameOwnState(st1, st2, subject)
    ensures SameOwnState(CreationEffect(st1, subject, time), CreationEffect(st2, subject, time), subject)
  {
  }

  /** A modification reads only its own subject's entries. */
  lemma ModificationReadsOwnState(st1: State, st2: State, subject: string, time: string, query: string)
    requires Read(st1.counter, subject) > 0
    requires SameOwnState(st1, st2, subject)
    ensures SameOwnState(ModificationEffect(st1, subject, time, query), ModificationEffect(st2, subject, time, query), subject)
  {
    OwnerOfSnapshotIri(subject, Read(st1.counter, subject));
  }

  /** A step reads only its own subject's counter and registry entries. */
  lemma OutcomeReadsOwnState(st1: State, st2: State, subject: string, pass: Pass)
    requires SameOwnState(st1, st2, subject)
    ensures SameOwnState(Outcome(st1, subject, pass), Outcome(st2, subject, pass), subject)
  {
    var k := Read(st1.counter, subject);
    match pass
    case Generation(time, baseline, current, ser) =>
      var query := SubjectQuery(baseline, current, subject, ser);
      if k == 0 {
        CreationReadsOwnState(st1, st2, subject, time);
      } else if query != "" {
        ModificationReadsOwnState(st1, st2, subject, time, query);
      }
    case Checkpoint(clock) =>
      CreationReadsOwnState(st1, st2, subject, clock(subject));
  }

  /** A creation keeps the registry consistent with the counter. */
  lemma CreationPreservesConsistent(st: State, subject: string, time: string)
    requires Consistent(st)
    ensures Consistent(CreationEffect(st, subject, time))
  {
    var r := CreationEffect(st, subject, time);
    forall key | key in r.registry
      ensures Fits(r.counter, key, r.registry[key])
    {
      if key != SnapshotIri(subject, Read(st.counter, subject) + 1) {
        assert Fits(st.counter, key, st.registry[key]);
      }
    }
  }

  /** The record under the latest identifier of a subject belongs to that subject and count. */
  lemma LatestRecord(st: State, subject: string)
    requires Read(st.counter, subject) > 0 && Consistent(st)
    ensures
      var k := Read(st.counter, subject);
      var se := GetEntity(st, SnapshotIri(subject, k));
      se.Some? ==> se.value.subject == subject && se.value.count == k
  {
    var k := Read(st.counter, subject);
    var key := SnapshotIri(subject, k);
    if key in st.registry {
      var se := st.registry[key];
      assert Fits(st.counter, key, se);
      SnapshotIriInjective(se.subject, se.count, subject, k);
    }
  }

  /** A modification keeps the registry consistent with the counter. */
  lemma ModificationPreservesConsistent(st: State, subject: string, time: string, query: string)
    requires Read(st.counter, subject) > 0 && Consistent(st)
    ensures Consistent(ModificationEffect(st, subject, time, query))
  {
    var r := ModificationEffect(st, subject, time, query);
    var k := Read(st.counter, subject);
    LatestRecord(st, subject);
    forall key | key in r.registry
      ensures Fits(r.counter, key, r.registry[key])
    {
      if key != SnapshotIri(subject, k + 1) && key != SnapshotIri(subject, k) {
        assert Fits(st.counter, key, st.registry[key]);
      }
    }
  }

  /** Every step keeps the registry consistent with the counter. */
  lemma OutcomePreservesConsistent(st: State, subject: string, pass: Pass)
    requires Consistent(st)
    ensures Consistent(Outcome(st, subject, pass))
  {
    var k := Read(st.counter, subject);
    match pass
    case Generation(time, baseline, current, ser) =>
      var query := SubjectQuery(baseline, current, subject, ser);
      if k == 0 {
        CreationPreservesConsistent(st, subject, time);
      } else if query != "" {
        ModificationPreservesConsistent(st, subject, time, query);
      }
    case Checkpoint(clock) =>
      CreationPreservesConsistent(st, subject, clock(subject));
  }

  /** Whether a subject can be processed depends only on its own entries. */
  lemma StepDefinedOwnState(st1: State, st2: State, subject: string, pass: Pass)
    requires SameOwnState(st1, st2, subject)
    ensures StepDefined(st1, subject, pass) <==> StepDefined(st2, subject, pass)
  {
    OwnerOfSnapshotIri(subject, Read(st1.counter, subject));
  }

  /** One iteration of the pass keeps every loop invariant of `RunPass`. */
  lemma PassStep(st0: State, st: State, subjects: set<string>, todo: set<string>, s: string, pass: Pass)
    requires forall s' | s' in subjects :: StepDefined(st0, s', pass)
    requires todo <= subjects && s in todo
    requires forall s' | s' in subjects - todo :: SameOwnState(st, Outcome(st0, s', pass), s')
    requires forall s' | s' in todo :: SameOwnState(st, st0, s')
    requires forall s' | s' !in subjects :: Read(st.counter, s') == Read(st0.counter, s')
    requires forall key | Owner(key).None? || Owner(key).value !in subjects :: GetEntity(st, key) == GetEntity(st0, key)
    requires Consistent(st0) ==> Consistent(st)
    requires (forall s' | s' in subjects :: Outcome(st0, s', pass) == st0) ==> st == st0
    ensures StepDefined(st, s, pass)
    ensures
      var next := Outcome(st, s, pass);
      && (forall s' | s' in subjects - (todo - {s}) :: SameOwnState(next, Outcome(st0, s', pass), s'))
      && (forall s' | s' in todo - {s} :: SameOwnState(next, st0, s'))
      && (forall s' | s' !in subjects :: Read(next.counter, s') == Read(st0.counter, s'))
      && (forall key | Owner(key).None? || Owner(key).value !in subjects :: GetEntity(next, key) == GetEntity(st0, key))
      && (Consistent(st0) ==> Consistent(next))
      && ((forall s' | s' in subjects :: Outcome(st0, s', pass) == st0) ==> next == st0)
  {
    var next := Outcome(st, s, pass);
    StepDefinedOwnState(st, st0, s, pass);
    OutcomeFrame(st, s, pass);
    OutcomeReadsOwnState(st, st0, s, pass);
    if Consistent(st0) {
      OutcomePreservesConsistent(st, s, pass);
    }
  }

  /**
   One pass over `subjects`, in whatever order the set yields them. Every subject ends
   exactly as its own step from the initial state would leave it, and nothing outside
   the subjects changes.
   */
  method RunPass(st0: State, subjects: set<string>, pass: Pass) returns (st: State)
    requires forall s | s in subjects :: StepDefined(st0, s, pass)
    ensures forall s | s in subjects :: SameOwnState(st, Outcome(st0, s, pass), s)
    ensures forall s | s !in subjects :: Read(st.counter, s) == Read(st0.counter, s)
    ensures forall key | Owner(key).None? || Owner(key).value !in subjects :: GetEntity(st, key) == GetEntity(st0, key)
    ensures Consistent(st0) ==> Consistent(st)
    ensures (forall s | s in subjects :: Outcome(st0, s, pass) == st0) ==> st == st0
  {
    st := st0;
    var todo := subjects;
    while todo != {}
      invariant todo <= subjects
      invariant forall s | s in subjects - todo :: SameOwnState(st, Outcome(st0, s, pass), s)
      invariant forall s | s in todo :: SameOwnState(st, st0, s)
      invariant forall s | s !in subjects :: Read(st.counter, s) == Read(st0.counter, s)
      invariant forall key | Owner(key).None? || Owner(key).value !in subjects :: GetEntity(st, key) == GetEntity(st0, key)
      invariant Consistent(st0) ==> Consistent(st)
      invariant (forall s | s in subjects :: Outcome(st0, s, pass) == st0) ==> st == st0
      decreases todo
    {
      var s :| s in todo;
      PassStep(st0, st, subjects, todo, s, pass);
      StepOutcome(st, s, pass);
      st := Step(st, s, pass);
      todo := todo - {s};
    }
  }
}
