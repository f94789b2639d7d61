/**
 The provenance-tracking store of ocdm_graph.py: the statements, the baseline copy
 taken at each checkpoint, the merge index, the entity index and the provenance state.
 */
module OcdmGraph {
  import opened Optional
  import opened ProvIds
  import opened Triples
  import opened QueryUtils
  import opened Counters
  import opened Provenance

  /**
   The store. `baseline` is `preexisting_graph`, absent until the first checkpoint;
   `mergeIndex` maps a surviving entity to the entities merged into it; `entityIndex`
   holds each entity's `to_be_deleted` flag.
   */
  datatype Store = Store(
    triples: set<Triple>,
    baseline: Option<set<Triple>>,
    mergeIndex: map<string, set<string>>,
    entityIndex: map<string, bool>,
    prov: State)

  /** Whether every subject already has a snapshot. */
  predicate AllSnapshotted(st: State, subjects: set<string>) {
    forall s | s in subjects :: Read(st.counter, s) >= 1
  }

  /** The checkpoint creates a snapshot for a subject that has none and leaves every other subject alone. */
  lemma CheckpointOutcome(st: State, subject: string, clock: string -> string)
    ensures Read(Outcome(st, subject, Checkpoint(clock)).counter, subject) >= 1
    ensures Read(st.counter, subject) == 0 ==>
      && Read(Outcome(st, subject, Checkpoint(clock)).counter, subject) == 1
      && GetEntity(Outcome(st, subject, Checkpoint(clock)), SnapshotIri(subject, 1)) ==
         Some(CreationSnapshot(subject, 1, clock(subject)))
    ensures Read(st.counter, subject) >= 1 ==> Outcome(st, subject, Checkpoint(clock)) == st
  {
  }

  /** After generation every subject has a snapshot. */
  lemma GenerationOutcome(st: State, subject: string, time: string, baseline: set<Triple>,
                          current: set<Triple>, ser: Serializer)
    ensures
      var after := Outcome(st, subject, Generation(time, baseline, current, ser));
      var k := Read(st.counter, subject);
      && Read(after.counter, subject) >= 1
      && (k == 0 ==> Read(after.counter, subject) == 1 &&
                     GetEntity(after, SnapshotIri(subject, 1)) == Some(CreationSnapshot(subject, 1, time)))
  {
  }

  /** A subject whose statements equal its baseline ones is left alone once it has a snapshot. */
  lemma GenerationUnchanged(st: State, subject: string, time: string, triples: set<Triple>, ser: Serializer)
    requires Read(st.counter, subject) >= 1
    ensures Outcome(st, subject, Generation(time, triples, triples, ser)) == st
  {
  }

  /**
   `preexisting_finished`: the current statements become the baseline, every subject is
   indexed as not to be deleted, and every subject without a snapshot gets a creation
   snapshot stamped by `clock`.
   */
  method PreexistingFinished(store: Store, clock: string -> string) returns (r: Store)
    ensures r.triples == store.triples && r.mergeIndex == store.mergeIndex
    ensures r.baseline == Some(store.triples)
    ensures forall s | s in Subjects(store.triples) :: s in r.entityIndex && !r.entityIndex[s]
    ensures forall s | s !in Subjects(store.triples) ::
      (s in r.entityIndex <==> s in store.entityIndex) &&
      (s in store.entityIndex ==> r.entityIndex[s] == store.entityIndex[s])
    ensures AllSnapshotted(r.prov, Subjects(store.triples))
    ensures forall s | s in Subjects(store.triples) && Read(store.prov.counter, s) == 0 ::
      && Read(r.prov.counter, s) == 1
      && GetEntity(r.prov, SnapshotIri(s, 1)) == Some(CreationSnapshot(s, 1, clock(s)))
    ensures forall s | s in Subjects(store.triples) && Read(store.prov.counter, s) >= 1 ::
      SameOwnState(r.prov, store.prov, s)
    ensures forall s | s !in Subjects(store.triples) :: Read(r.prov.counter, s) == Read(store.prov.counter, s)
    ensures forall key | Owner(key).None? || Owner(key).value !in Subjects(store.triples) ::
      GetEntity(r.prov, key) == GetEntity(store.prov, key)
    ensures Consistent(store.prov) ==> Consistent(r.prov)
    ensures AllSnapshotted(store.prov, Subjects(store.triples)) ==> r.prov == store.prov
  {
    var subjects := Subjects(store.triples);
    var pass := Checkpoint(clock);
    var prov := RunPass(store.prov, subjects, pass);
    forall s | s in subjects
      ensures Read(prov.counter, s) >= 1
      ensures Read(store.prov.counter, s) == 0 ==>
        Read(prov.counter, s) == 1 && GetEntity(prov, SnapshotIri(s, 1)) == Some(CreationSnapshot(s, 1, clock(s)))
      ensures Read(store.prov.counter, s) >= 1 ==> SameOwnState(prov, store.prov, s)
    {
      CheckpointOutcome(store.prov, s, clock);
      if Read(store.prov.counter, s) == 0 {
        OwnerOfSnapshotIri(s, 1);
      }
    }
    if AllSnapshotted(store.prov, subjects) {
      forall s | s in subjects
        ensures Outcome(store.prov, s, pass) == store.prov
      {
        CheckpointOutcome(store.prov, s, clock);
      }
    }
    var index := map s | s in store.entityIndex.Keys + subjects ::
      if s in subjects then false else store.entityIndex[s];
    r := Store(store.triples, Some(store.triples), store.mergeIndex, index, prov);
  }

  /**
   `generate_provenance`: one pass classifying every subject against the baseline,
   then the checkpoint. Without a baseline the pass may only meet subjects that have
   no snapshot yet, since any other would need to read it.
   */
  method GenerateProvenance(store: Store, time: string, ser: Serializer, clock: string -> string)
    returns (r: Store)
    requires forall s | s in Subjects(store.triples) ::
      StepDefined(store.prov, s, Generation(time, store.baseline.GetOr({}), store.triples, ser))
    requires store.baseline.None? ==> forall s | s in Subjects(store.triples) :: Read(store.prov.counter, s) == 0
    ensures r.triples == store.triples && r.mergeIndex == store.mergeIndex
    ensures r.baseline == Some(store.triples)
    ensures forall s | s in Subjects(store.triples) :: s in r.entityIndex && !r.entityIndex[s]
    ensures forall s | s !in Subjects(store.triples) ::
      (s in r.entityIndex <==> s in store.entityIndex) &&
      (s in store.entityIndex ==> r.entityIndex[s] == store.entityIndex[s])
    ensures AllSnapshotted(r.prov, Subjects(store.triples))
    ensures forall s | s in Subjects(store.triples) ::
      SameOwnState(r.prov, Outcome(store.prov, s,
        Generation(time, store.baseline.GetOr({}), store.triples, ser)), s)
    ensures forall s | s !in Subjects(store.triples) :: Read(r.prov.counter, s) == Read(store.prov.counter, s)
    ensures forall key | Owner(key).None? || Owner(key).value !in Subjects(store.triples) ::
      GetEntity(r.prov, key) == GetEntity(store.prov, key)
    ensures Consistent(store.prov) ==> Consistent(r.prov)
    ensures store.baseline == Some(store.triples) && AllSnapshotted(store.prov, Subjects(store.triples)) ==>
      r.prov == store.prov
  {
    var subjects := Subjects(store.triples);
    var pass := Generation(time, store.baseline.GetOr({}), store.triples, ser);
    var prov := RunPass(store.prov, subjects, pass);
    forall s | s in subjects
      ensures Read(prov.counter, s) >= 1
    {
      GenerationOutcome(store.prov, s, time, store.baseline.GetOr({}), store.triples, ser);
    }
    if store.baseline == Some(store.triples) && AllSnapshotted(store.prov, subjects) {
      forall s | s in subjects
        ensures Outcome(store.prov, s, pass) == store.prov
      {
        GenerationUnchanged(store.prov, s, time, store.triples, ser);
      }
    }
    r := PreexistingFinished(store.(prov := prov), clock);
  }

  /** Generating provenance again with no edit in between adds nothing. */
  method GenerateTwice(store: Store, time1: string, time2: string, ser: Serializer, clock: string -> string)
    returns (first: Store, second: Store)
    requires forall s | s in Subjects(store.triples) ::
      StepDefined(store.prov, s, Generation(time1, store.baseline.GetOr({}), store.triples, ser))
    requires store.baseline.None? ==> forall s | s in Subjects(store.triples) :: Read(store.prov.counter, s) == 0
    ensures second.prov == first.prov
    ensures second.triples == first.triples == store.triples
  {
    first := GenerateProvenance(store, time1, ser, clock);
    forall s | s in Subjects(first.triples)
      ensures StepDefined(first.prov, s, Generation(time2, first.baseline.GetOr({}), first.triples, ser))
    {
      GenerationClassified(first.prov, s, time2, first.triples, first.triples, ser);
    }
    second := GenerateProvenance(first, time2, ser, clock);
  }

  /** The entities already merged into `res`. */
  function MergedInto(mergeIndex: map<string, set<string>>, res: string): set<string> {
    if res in mergeIndex then mergeIndex[res] else {}
  }

  /** The statements whose object is `other`. */
  function Pointing(g: set<Triple>, other: string): (r: set<Triple>)
    ensures forall t | t in g :: t in r <==> t.o == other
    ensures r <= g
  {
    set t | t in g && t.o == other
  }

  /** The same statements with their object replaced by `res`. */
  function Retarget(ts: set<Triple>, res: string): (r: set<Triple>)
    ensures forall t | t in ts :: Triple(t.s, t.p, res) in r
    ensures forall u | u in r :: exists t | t in ts :: u == Triple(t.s, t.p, res)
  {
    set t | t in ts :: Triple(t.s, t.p, res)
  }

  /** Replacing one more statement `t` keeps the first loop's running graph in step. */
  lemma RetargetStep(g: set<Triple>, start: set<Triple>, done: set<Triple>, t: Triple, res: string, other: string)
    requires t.o == other && t !in done && t in start
    requires forall u | u in done :: u.o == other
    requires g == (start - done) + Retarget(done, res)
    ensures (g - {t}) + {Triple(t.s, t.p, res)} == (start - (done + {t})) + Retarget(done + {t}, res)
  {
    var lhs := (g - {t}) + {Triple(t.s, t.p, res)};
    var rhs := (start - (done + {t})) + Retarget(done + {t}, res);
    forall u | u in lhs ensures u in rhs {
      if u != Triple(t.s, t.p, res) && u in Retarget(done, res) {
        var v :| v in done && u == Triple(v.s, v.p, res);
        assert u in Retarget(done + {t}, res);
      }
    }
    forall u | u in rhs ensures u in lhs {
      if u in Retarget(done + {t}, res) && u != Triple(t.s, t.p, res) {
        var v :| v in done + {t} && u == Triple(v.s, v.p, res);
        assert u in Retarget(done, res);
      }
    }
  }

  /** A statement survives a merge of `other` into `res` in one of two ways. */
  predicate Merged(t: Triple, g: set<Triple>, res: string, other: string) {
    t.s != other && ((t in g && t.o != other) || (t.o == res && Triple(t.s, t.p, other) in g))
  }

  /** Membership in the graph after both loops of `merge`. */
  lemma MergedIff(g: set<Triple>, after: set<Triple>, res: string, other: string)
    requires after == set u | u in (g - Pointing(g, other)) + Retarget(Pointing(g, other), res) && u.s != other
    ensures forall t :: t in after <==> Merged(t, g, res, other)
  {
    forall t
      ensures t in after <==> Merged(t, g, res, other)
    {
      if t.o == res && Triple(t.s, t.p, other) in g && t.s != other {
        assert Triple(t.s, t.p, other) in Pointing(g, other);
        assert t in Retarget(Pointing(g, other), res);
      }
      if t in Retarget(Pointing(g, other), res) {
        var v :| v in Pointing(g, other) && t == Triple(v.s, v.p, res);
        assert v == Triple(t.s, t.p, other);
      }
    }
  }

  /**
   `merge`: every statement pointing at `other` is redirected to `res`, every statement
   about `other` is dropped, `other` is recorded as merged into `res` and flagged for
   deletion. An `other` missing from the entity index raises `KeyError` after the
   statements and the merge index have already changed.
   */
  method Merge(store: Store, res: string, other: string) returns (r: Store, keyError: bool)
    ensures forall t :: t in r.triples <==> Merged(t, store.triples, res, other)
    ensures other !in Subjects(r.triples)
    ensures r.mergeIndex == store.mergeIndex[res := MergedInto(store.mergeIndex, res) + {other}]
    ensures keyError <==> other !in store.entityIndex
    ensures !keyError ==> r.entityIndex == store.entityIndex[other := true]
    ensures keyError ==> r.entityIndex == store.entityIndex
    ensures r.baseline == store.baseline && r.prov == store.prov
  {
    var g := store.triples;
    var pointing := Pointing(g, other);
    var todo := pointing;
    while todo != {}
      invariant todo <= pointing
      invariant g == (store.triples - (pointing - todo)) + Retarget(pointing - todo, res)
      decreases todo
    {
      var t :| t in todo;
      RetargetStep(g, store.triples, pointing - todo, t, res, other);
      assert pointing - (todo - {t}) == (pointing - todo) + {t};
      g := (g - {t}) + {Triple(t.s, t.p, res)};
      todo := todo - {t};
    }
    var redirected := g;
    var about := set t | t in g && t.s == other;
    todo := about;
    while todo != {}
      invariant todo <= about
      invariant g == redirected - (about - todo)
      decreases todo
    {
      var t :| t in todo;
      g := g - {t};
      todo := todo - {t};
    }
    assert g == set u | u in redirected && u.s != other;
    MergedIff(store.triples, g, res, other);
    var merged := MergedInto(store.mergeIndex, res) + {other};
    keyError := other !in store.entityIndex;
    var index := if keyError then store.entityIndex else store.entityIndex[other := true];
    r := Store(g, store.baseline, store.mergeIndex[res := merged], index, store.prov);
  }
}
