/** A `collections.Counter`: keys in the order first counted, each with its count. */
module Counters {
  type Counter = seq<(string, nat)>

  function Get(c: Counter, k: string): nat {
    if c == [] then 0 else if c[0].0 == k then c[0].1 else Get(c[1..], k)
  }

  /** Count one more of `k`. */
  function Add(c: Counter, k: string): Counter {
    if c == [] then [(k, 1)]
    else if c[0].0 == k then [(k, c[0].1 + 1)] + c[1..]
    else [c[0]] + Add(c[1..], k)
  }

  ghost function Total(c: Counter): nat {
    if c == [] then 0 else c[0].1 + Total(c[1..])
  }

  /** Distinct keys, each counted at least once. */
  ghost predicate Valid(c: Counter) {
    c != [] ==> c[0].1 > 0 && Get(c[1..], c[0].0) == 0 && Valid(c[1..])
  }

  lemma {:induction false} AddCountsOne(c: Counter, k: string)
    requires Valid(c)
    ensures Valid(Add(c, k)) && Total(Add(c, k)) == Total(c) + 1
    ensures forall j :: Get(Add(c, k), j) == Get(c, j) + (if j == k then 1 else 0)
  {
    if c != [] && c[0].0 != k {
      AddCountsOne(c[1..], k);
    }
  }

  lemma {:induction false} EntriesAreCounts(c: Counter)
    requires Valid(c)
    ensures forall i :: 0 <= i < |c| ==> c[i].1 == Get(c, c[i].0) > 0
    ensures forall k :: Get(c, k) > 0 ==> (k, Get(c, k)) in c
  {
    if c != [] {
      var rest := c[1..];
      EntriesAreCounts(rest);
      forall i | 0 <= i < |c| ensures c[i].1 == Get(c, c[i].0) > 0 {
        if i > 0 {
          assert c[i] == rest[i - 1];
        }
      }
      forall k | Get(c, k) > 0 ensures (k, Get(c, k)) in c {
        if c[0].0 == k {
          assert c[0] == (k, Get(c, k));
        } else {
          assert (k, Get(rest, k)) in rest;
        }
      }
    }
  }
}
