/** `collections.Counter` as the core uses it: created empty and grown with `update(iterable)`. */
module Counters {

  class Counter {
    /** The multiset of counted strings: `counter[t]` is `counts[t]`. */
    var counts: multiset<string>

    constructor ()
      ensures counts == multiset{}
    {
      counts := multiset{};
    }

    /** `Counter.update(tokens)`: each token's count grows by its number of occurrences. */
    method Update(tokens: seq<string>)
      modifies this
      ensures counts == old(counts) + multiset(tokens)
    {
      counts := counts + multiset(tokens);
    }
  }
}
