/** Python's `collections.Counter`, restricted to what the experiments use:
    reading a key (a missing key counts as zero) and incrementing it. */
module Counters {

  type Counter = map<string, nat>

  function Tally(c: Counter, key: string): nat {
    if key in c then c[key] else 0
  }

  /** `c[key] += 1` */
  function Bump(c: Counter, key: string): (d: Counter)
    ensures Tally(d, key) == Tally(c, key) + 1
    ensures forall k :: k != key ==> Tally(d, k) == Tally(c, k)
    ensures d.Keys == c.Keys + {key}
  {
    c[key := Tally(c, key) + 1]
  }
}
