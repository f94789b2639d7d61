/**
 The update-query builder of query_utils.py: the set difference between the baseline
 and the current statements of an entity, rendered as `DELETE DATA` / `INSERT DATA`
 blocks. The N-Triples serialiser is an opaque parameter.
 */
module QueryUtils {
  import opened Optional
  import opened Triples

  /** `data.serialize(format="nt11")`. */
  type Serializer = set<Triple> -> string

  /** `.replace('\n', '')`. */
  function RemoveNewlines(s: string): (r: string)
    ensures |r| <= |s|
    ensures forall i | 0 <= i < |r| :: r[i] != '\n'
  {
    if |s| == 0 then ""
    else if s[0] == '\n' then RemoveNewlines(s[1..])
    else [s[0]] + RemoveNewlines(s[1..])
  }

  /** Text without newlines passes through unchanged. */
  lemma {:induction false} RemoveNewlinesKeepsOtherText(s: string)
    requires forall i | 0 <= i < |s| :: s[i] != '\n'
    ensures RemoveNewlines(s) == s
  {
    if |s| > 0 {
      RemoveNewlinesKeepsOtherText(s[1..]);
    }
  }

  /**
   Removing newlines distributes over concatenation, deletes a lone newline and keeps
   any other character: together these fix the result on every input.
   */
  lemma {:induction false} RemoveNewlinesAppend(a: string, b: string, c: char)
    ensures RemoveNewlines(a + b) == RemoveNewlines(a) + RemoveNewlines(b)
    ensures RemoveNewlines([c]) == if c == '\n' then "" else [c]
  {
    if |a| == 0 {
      assert a + b == b;
    } else {
      assert (a + b)[0] == a[0];
      assert (a + b)[1..] == a[1..] + b;
      RemoveNewlinesAppend(a[1..], b, c);
    }
  }

  /** Python truthiness of `graph_iri`: absent and empty both mean "no graph". */
  predicate UsesGraph(graphIri: Option<string>) {
    graphIri.Some? && graphIri.value != ""
  }

  /** `<keyword> DATA { ... }`, wrapped in `GRAPH <iri> { ... }` when a graph is named. */
  function DataBlock(keyword: string, data: set<Triple>, graphIri: Option<string>, ser: Serializer): string {
    var statements := RemoveNewlines(ser(data));
    if UsesGraph(graphIri) then
      keyword + " DATA { GRAPH <" + graphIri.value + "> { " + statements + " } }"
    else
      keyword + " DATA { " + statements + " }"
  }

  /** A rendered block and the number of statements it carries. */
  datatype Block = Block(text: string, count: nat)

  /** `get_delete_query`. */
  function DeleteQuery(data: set<Triple>, graphIri: Option<string>, ser: Serializer): (r: Block)
    ensures r.text == "" <==> data == {}
    ensures r.count == |data|
    ensures data != {} ==> r.text == DataBlock("DELETE", data, graphIri, ser)
  {
    if |data| <= 0 then Block("", 0)
    else Block(DataBlock("DELETE", data, graphIri, ser), |data|)
  }

  /** `get_insert_query`. */
  function InsertQuery(data: set<Triple>, graphIri: Option<string>, ser: Serializer): (r: Block)
    ensures r.text == "" <==> data == {}
    ensures r.count == |data|
    ensures data != {} ==> r.text == DataBlock("INSERT", data, graphIri, ser)
  {
    if |data| <= 0 then Block("", 0)
    else Block(DataBlock("INSERT", data, graphIri, ser), |data|)
  }

  /** The statements an update removes and the ones it adds. */
  datatype Delta = Delta(removed: set<Triple>, added: set<Triple>)

  /** Applies an update: drop the removed statements, then add the added ones. */
  function Apply(g: set<Triple>, d: Delta): set<Triple> {
    (g - d.removed) + d.added
  }

  /** `graph_diff` on canonical graphs: the minimal update from `pre` to `cur`. */
  function Diff(pre: set<Triple>, cur: set<Triple>): (d: Delta)
    ensures Apply(pre, d) == cur
    ensures d.removed <= pre && d.added !! pre
    ensures d.removed !! d.added
    ensures d == Delta({}, {}) <==> pre == cur
  {
    Delta(pre - cur, cur - pre)
  }

  /** The diff is the only update that removes only present and adds only absent statements. */
  lemma DiffUnique(pre: set<Triple>, cur: set<Triple>, d: Delta)
    requires d.removed <= pre && d.added !! pre
    requires Apply(pre, d) == cur
    ensures d == Diff(pre, cur)
  {
    assert d.removed == pre - cur by {
      forall t | t in pre
        ensures t in d.removed <==> t !in cur
      {
        assert t !in d.added;
      }
    }
    assert d.added == cur - pre;
  }

  /** The result of `get_update_query`: the query text, then the added and removed counts. */
  datatype Update = Update(query: string, added: nat, removed: nat)

  /** `get_update_query` for one entity's baseline and current statements. */
  function UpdateQuery(pre: set<Triple>, cur: set<Triple>, graphIri: Option<string>, ser: Serializer): (r: Update)
    ensures r.added == |Diff(pre, cur).added| && r.removed == |Diff(pre, cur).removed|
    ensures r.query == "" <==> pre == cur
    ensures r.query == "" <==> r.added == 0 && r.removed == 0
    ensures Diff(pre, cur).removed != {} && Diff(pre, cur).added != {} ==>
      r.query == DeleteQuery(pre - cur, graphIri, ser).text + "; " + InsertQuery(cur - pre, graphIri, ser).text
    ensures Diff(pre, cur).added == {} ==> r.query == DeleteQuery(pre - cur, graphIri, ser).text
    ensures Diff(pre, cur).removed == {} ==> r.query == InsertQuery(cur - pre, graphIri, ser).text
  {
    if pre == cur then Update("", 0, 0)
    else
      var delete := DeleteQuery(pre - cur, graphIri, ser);
      var insert := InsertQuery(cur - pre, graphIri, ser);
      if delete.text != "" && insert.text != "" then
        Update(delete.text + "; " + insert.text, insert.count, delete.count)
      else if delete.text != "" then
        Update(delete.text, 0, delete.count)
      else if insert.text != "" then
        Update(insert.text, insert.count, 0)
      else
        Update("", 0, 0)
  }
}
