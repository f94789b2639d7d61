/**
 The statement store: a finite set of subject–predicate–object statements. Terms are
 identified by their string form.
 */
module Triples {

  datatype Triple = Triple(s: string, p: string, o: string)

  /** `graph.subjects(unique=True)`. */
  function Subjects(g: set<Triple>): (r: set<string>)
    ensures forall t | t in g :: t.s in r
    ensures forall x | x in r :: exists t | t in g :: t.s == x
  {
    set t | t in g :: t.s
  }

  /** `_generate_subj_graph`: the statements of `g` whose subject is `subj`. */
  function SubjectGraph(g: set<Triple>, subj: string): (r: set<Triple>)
    ensures r <= g
    ensures forall t | t in g :: t in r <==> t.s == subj
  {
    set t | t in g && t.s == subj
  }

  /** An entity has statements exactly when it is one of the store's subjects. */
  lemma SubjectGraphNonEmpty(g: set<Triple>, subj: string)
    ensures SubjectGraph(g, subj) != {} <==> subj in Subjects(g)
  {
    if subj in Subjects(g) {
      var t :| t in g && t.s == subj;
      assert t in SubjectGraph(g, subj);
    }
  }
}
