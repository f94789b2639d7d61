/**
 The per-subject snapshot counter, in its map-backed form. Every backend offers the
 same three operations: read (0 when unknown), increment, and set.
 */
module Counters {

  type Counter = map<string, nat>

  /** `read_counter`: 0 for an identifier never counted. */
  function Read(c: Counter, id: string): nat {
    if id in c then c[id] else 0
  }

  /** `increment_counter`: bumps the counter and returns the new value. */
  function Increment(c: Counter, id: string): (r: (Counter, nat))
    ensures r.1 == Read(c, id) + 1
    ensures r.0 == SetCounter(c, id, r.1)
    ensures Read(r.0, id) == r.1
    ensures forall other | other != id :: Read(r.0, other) == Read(c, other)
  {
    var v := Read(c, id) + 1;
    (c[id := v], v)
  }

  /** `set_counter`: forces the counter of `id` to `v`. */
  function SetCounter(c: Counter, id: string, v: nat): (r: Counter)
    ensures Read(r, id) == v
    ensures forall other | other != id :: Read(r, other) == Read(c, other)
  {
    c[id := v]
  }
}
