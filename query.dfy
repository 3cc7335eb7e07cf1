/**
  The read side of both in-memory indexes: the document sets of `get_paths`
  and `get_paths_op` (`set.intersection` / `set.union` over the tokens'
  postings), the summed term-frequency scores, and the listing of results as
  (path, score) pairs.

  The indexes list results in the iteration order of Python dicts and sets;
  this model lists them by ascending document id. Only the sorted searches
  built on top are independent of that order.
*/
module Query {
  import opened Wrappers
  import opened PyErrors
  import opened Paths
  import opened Postings

  /** The `setop` passed to `get_paths_op`: AND or OR over the tokens. */
  datatype SetOp = Intersection | Union

  /** `setop(*sets)` over the tokens' document sets, for at least one token. */
  function OpDocs(index: Postings, tokens: seq<string>, op: SetOp): set<nat>
    requires |tokens| > 0
    decreases |tokens|
  {
    var last := GetDocs(index, tokens[|tokens| - 1]).Keys;
    if |tokens| == 1 then last
    else
      var prev := OpDocs(index, tokens[..|tokens| - 1], op);
      if op == Intersection then prev * last else prev + last
  }

  /** AND finds the documents holding every token; OR those holding at least one. */
  lemma {:induction false} OpDocsMembers(index: Postings, tokens: seq<string>, op: SetOp, id: nat)
    requires |tokens| > 0
    ensures op == Intersection ==> (id in OpDocs(index, tokens, op) <==> forall k :: 0 <= k < |tokens| ==> id in GetDocs(index, tokens[k]))
    ensures op == Union ==> (id in OpDocs(index, tokens, op) <==> exists k :: 0 <= k < |tokens| && id in GetDocs(index, tokens[k]))
    decreases |tokens|
  {
    if |tokens| > 1 {
      var init := tokens[..|tokens| - 1];
      OpDocsMembers(index, init, op, id);
      assert forall k :: 0 <= k < |init| ==> init[k] == tokens[k];
      if op == Union && id in GetDocs(index, tokens[|tokens| - 1]) {
        assert 0 <= |tokens| - 1 < |tokens|;
      }
    }
  }

  /** The frequency of a document summed over the query tokens (a repeated token counts again). */
  function TermFreq(index: Postings, tokens: seq<string>, id: nat): nat
    decreases |tokens|
  {
    if |tokens| == 0 then 0
    else
      var docs := GetDocs(index, tokens[|tokens| - 1]);
      TermFreq(index, tokens[..|tokens| - 1], id) + (if id in docs then docs[id] else 0)
  }

  /** The documents holding at least one of the tokens. */
  function AnyDocs(index: Postings, tokens: seq<string>): set<nat>
    decreases |tokens|
  {
    if |tokens| == 0 then {}
    else AnyDocs(index, tokens[..|tokens| - 1]) + GetDocs(index, tokens[|tokens| - 1]).Keys
  }

  /** A document holding one of the tokens is among `AnyDocs`. */
  lemma {:induction false} AnyDocsMembers(index: Postings, tokens: seq<string>, id: nat)
    ensures id in AnyDocs(index, tokens) <==> exists k :: 0 <= k < |tokens| && id in GetDocs(index, tokens[k])
    decreases |tokens|
  {
    if |tokens| > 0 {
      var init := tokens[..|tokens| - 1];
      AnyDocsMembers(index, init, id);
      assert forall k :: 0 <= k < |init| ==> init[k] == tokens[k];
      if id in GetDocs(index, tokens[|tokens| - 1]) {
        assert 0 <= |tokens| - 1 < |tokens|;
      }
    }
  }

  /** The `term_freqs` accumulator once filled: every document holding a query token, with its summed frequency. */
  function TermFreqs(index: Postings, tokens: seq<string>): map<nat, nat>
  {
    map id | id in AnyDocs(index, tokens) :: TermFreq(index, tokens, id)
  }

  /** `d[id]` on a `defaultdict(int)`. */
  function Get0(d: map<nat, nat>, id: nat): nat
  {
    if id in d then d[id] else 0
  }

  /** A document holding none of the tokens scores 0. */
  lemma {:induction false} TermFreqOutside(index: Postings, tokens: seq<string>, id: nat)
    requires forall k :: 0 <= k < |tokens| ==> id !in GetDocs(index, tokens[k])
    ensures TermFreq(index, tokens, id) == 0
    decreases |tokens|
  {
    if |tokens| > 0 {
      TermFreqOutside(index, tokens[..|tokens| - 1], id);
    }
  }

  /** One more query token: its documents' frequencies are added. */
  lemma PrefixStep(index: Postings, tokens: seq<string>, i: nat)
    requires i < |tokens|
    ensures forall id :: TermFreq(index, tokens[..i + 1], id) == TermFreq(index, tokens[..i], id) + Get0(GetDocs(index, tokens[i]), id)
    ensures AnyDocs(index, tokens[..i + 1]) == AnyDocs(index, tokens[..i]) + GetDocs(index, tokens[i]).Keys
  {
    assert tokens[..i + 1][..i] == tokens[..i];
  }

  /** The accumulator agrees with the scores of the tokens exactly when it is their map. */
  lemma AccumulatorIsMap(freqs: map<nat, nat>, index: Postings, tokens: seq<string>)
    requires forall id :: Get0(freqs, id) == TermFreq(index, tokens, id)
    requires freqs.Keys == AnyDocs(index, tokens)
    ensures freqs == TermFreqs(index, tokens)
  {
    forall id | id in freqs ensures freqs[id] == TermFreqs(index, tokens)[id] {
      assert Get0(freqs, id) == freqs[id];
    }
  }

  /** The inner loop: `for doc_id, term_freq in docs.items(): term_freqs[doc_id] += term_freq`. */
  method AddScores(freqs: map<nat, nat>, docs: Docs) returns (r: map<nat, nat>)
    ensures forall id :: Get0(r, id) == Get0(freqs, id) + Get0(docs, id)
    ensures r.Keys == freqs.Keys + docs.Keys
  {
    r := freqs;
    var rest := docs.Keys;
    ghost var done: set<nat> := {};
    while rest != {}
      invariant done + rest == docs.Keys && done !! rest
      invariant forall id :: Get0(r, id) == Get0(freqs, id) + (if id in done then docs[id] else 0)
      invariant r.Keys == freqs.Keys + done
    {
      var id :| id in rest;
      r := r[id := Get0(r, id) + docs[id]];
      rest := rest - {id};
      done := done + {id};
    }
  }

  /**
    The accumulation loop of `get_paths_op`'s term_freq scoring: for each
    query token, each of its documents' frequency is added to that document's
    score.
  */
  method SumTermFreqs(index: Postings, tokens: seq<string>) returns (freqs: map<nat, nat>)
    ensures freqs == TermFreqs(index, tokens)
  {
    freqs := map[];
    for i := 0 to |tokens|
      invariant forall id :: Get0(freqs, id) == TermFreq(index, tokens[..i], id)
      invariant freqs.Keys == AnyDocs(index, tokens[..i])
    {
      PrefixStep(index, tokens, i);
      freqs := AddScores(freqs, GetDocs(index, tokens[i]));
    }
    assert tokens[..|tokens|] == tokens;
    AccumulatorIsMap(freqs, index, tokens);
  }

  /**
    The results for the documents `ids`, by ascending id below `n`, each as its
    path and its score in `score` (0 where absent); ids without a live path
    are not listed.
  */
  function Listing(ids2docs: map<nat, Option<Path>>, ids: set<nat>, score: map<nat, nat>, n: nat): seq<(Path, nat)>
    decreases n
  {
    if n == 0 then []
    else
      var id := n - 1;
      Listing(ids2docs, ids, score, id)
        + (if id in ids && id in ids2docs && ids2docs[id].Some? then [(ids2docs[id].value, Get0(score, id))] else [])
  }

  /** The "unscored" results: each listed path with its position in the listing as its score. */
  function Enumerated(results: seq<(Path, nat)>): (r: seq<(Path, nat)>)
    ensures |r| == |results|
    ensures forall i :: 0 <= i < |r| ==> r[i] == (results[i].0, i)
  {
    seq(|results|, i requires 0 <= i < |results| => (results[i].0, i))
  }

  /** Every id below `n` is a live document, and distinct ids have distinct paths. */
  ghost predicate LiveIds(ids2docs: map<nat, Option<Path>>, ids: set<nat>, n: nat)
  {
    && (forall id :: id in ids ==> id < n && id in ids2docs && ids2docs[id].Some?)
    && (forall i, j :: i in ids2docs && j in ids2docs && i != j && ids2docs[i].Some? ==> ids2docs[i] != ids2docs[j])
  }

  /**
    Over live documents the listing has one entry per id: a pair occurs exactly
    when some id of `ids` has that path and that score, and no path occurs twice.
  */
  lemma ListingMembers(ids2docs: map<nat, Option<Path>>, ids: set<nat>, score: map<nat, nat>, n: nat)
    requires LiveIds(ids2docs, ids, n)
    ensures |Listing(ids2docs, ids, score, n)| == |ids|
    ensures forall e :: e in Listing(ids2docs, ids, score, n) <==>
      exists id :: id in ids && id in ids2docs && ids2docs[id] == Some(e.0) && e.1 == Get0(score, id)
    ensures forall i, j :: 0 <= i < j < |Listing(ids2docs, ids, score, n)| ==>
      Listing(ids2docs, ids, score, n)[i].0 != Listing(ids2docs, ids, score, n)[j].0
  {
    ListingLength(ids2docs, ids, score, n);
    ListingHas(ids2docs, ids, score, n);
    ListingDistinct(ids2docs, ids, score, n);
  }

  /** The ids below the last one, and the listing below it. */
  lemma ListingBelow(ids2docs: map<nat, Option<Path>>, ids: set<nat>, score: map<nat, nat>, n: nat) returns (below: set<nat>)
    requires n > 0 && LiveIds(ids2docs, ids, n)
    ensures below == set i | i in ids && i < n - 1
    ensures LiveIds(ids2docs, below, n - 1)
    ensures ids == if n - 1 in ids then below + {n - 1} else below
    ensures Listing(ids2docs, ids, score, n - 1) == Listing(ids2docs, below, score, n - 1)
  {
    below := set i | i in ids && i < n - 1;
    ListingIgnoresAbove(ids2docs, ids, below, score, n - 1);
  }

  /** One entry per live id. */
  lemma {:induction false} ListingLength(ids2docs: map<nat, Option<Path>>, ids: set<nat>, score: map<nat, nat>, n: nat)
    requires LiveIds(ids2docs, ids, n)
    ensures |Listing(ids2docs, ids, score, n)| == |ids|
    decreases n
  {
    if n > 0 {
      var below := ListingBelow(ids2docs, ids, score, n);
      ListingLength(ids2docs, below, score, n - 1);
    } else {
      assert ids == {};
    }
  }

  /** A pair is listed exactly when some id has that path and score. */
  lemma {:induction false} ListingHas(ids2docs: map<nat, Option<Path>>, ids: set<nat>, score: map<nat, nat>, n: nat)
    requires LiveIds(ids2docs, ids, n)
    ensures forall e :: e in Listing(ids2docs, ids, score, n) <==>
      exists id :: id in ids && id in ids2docs && ids2docs[id] == Some(e.0) && e.1 == Get0(score, id)
    decreases n
  {
    if n > 0 {
      var below := ListingBelow(ids2docs, ids, score, n);
      ListingHas(ids2docs, below, score, n - 1);
    } else {
      assert ids == {};
    }
  }

  /** No path is listed twice. */
  lemma {:induction false} ListingDistinct(ids2docs: map<nat, Option<Path>>, ids: set<nat>, score: map<nat, nat>, n: nat)
    requires LiveIds(ids2docs, ids, n)
    ensures forall i, j :: 0 <= i < j < |Listing(ids2docs, ids, score, n)| ==>
      Listing(ids2docs, ids, score, n)[i].0 != Listing(ids2docs, ids, score, n)[j].0
    decreases n
  {
    if n > 0 {
      var id := n - 1;
      var below := ListingBelow(ids2docs, ids, score, n);
      ListingDistinct(ids2docs, below, score, id);
      if id in ids {
        ListingHas(ids2docs, below, score, id);
        var prev := Listing(ids2docs, ids, score, id);
        var e := (ids2docs[id].value, Get0(score, id));
        forall i | 0 <= i < |prev| ensures prev[i].0 != e.0 {
          assert prev[i] in prev;
        }
      }
    }
  }

  /** Ids at or above `n` play no part in a listing below `n`. */
  lemma {:induction false} ListingIgnoresAbove(ids2docs: map<nat, Option<Path>>, ids: set<nat>, below: set<nat>, score: map<nat, nat>, n: nat)
    requires forall i :: i < n ==> (i in ids <==> i in below)
    ensures Listing(ids2docs, ids, score, n) == Listing(ids2docs, below, score, n)
    decreases n
  {
    if n > 0 {
      ListingIgnoresAbove(ids2docs, ids, below, score, n - 1);
    }
  }
}
