/** Counting by name in a map, as the tallies do it. */
module Counters {

  function Count(counts: map<string, nat>, name: string): nat {
    if name in counts then counts[name] else 0
  }

  function Increment(counts: map<string, nat>, name: string): map<string, nat> {
    counts[name := Count(counts, name) + 1]
  }
}
