/**
  Postings of an inverted index: for each token, the documents (by id) that
  contain it, with the token's frequency in each. Both in-memory indexes keep
  such a table (one for utils.py's `InvertedIndex`, one per field for
  desktopsearch/backends/memory.py's `InvertedIndexMemory`) and update it in
  place with the loops modelled here.

  The tables are `defaultdict(dict)`s: reading a missing token through
  `index[token]` inserts an empty dict. Such empty entries are invisible to
  every reader (`get_docs` answers `{}` either way), so `GetDocs` is the view
  the properties are stated in.
*/
module Postings {
  import opened Wrappers
  import opened PyErrors

  /** A token's postings: document id to frequency. */
  type Docs = map<nat, nat>

  /** The table: token to postings. */
  type Postings = map<string, Docs>

  /** A document's token frequencies, as its analyser returns them. */
  type Freqs = map<string, nat>

  /** `index.get(token, {})`: never inserts the token. */
  function GetDocs(index: Postings, token: string): Docs
  {
    if token in index then index[token] else map[]
  }

  /** One document's column of the table: every token whose postings hold `id`, with its frequency. */
  function DocColumn(index: Postings, id: nat): Freqs
  {
    map t | t in index && id in index[t] :: index[t][id]
  }

  /** `index[token][doc_id] = freq` for every token of `freqs`. */
  function AddDoc(index: Postings, freqs: Freqs, id: nat): Postings
  {
    map t | t in index.Keys + freqs.Keys :: if t in freqs then GetDocs(index, t)[id := freqs[t]] else index[t]
  }

  /** `del index[token][doc_id]` for each of `tokens` (each assumed to hold `id`). */
  function DropTokens(index: Postings, tokens: set<string>, id: nat): Postings
  {
    map t | t in index :: if t in tokens then index[t] - {id} else index[t]
  }

  /** `freqs.pop(doc_id, None)` for every token of the table. */
  function DropDoc(index: Postings, id: nat): Postings
  {
    map t | t in index :: index[t] - {id}
  }

  /** `freqs` restricted to the tokens in `keys`. */
  function Restrict(freqs: Freqs, keys: set<string>): Freqs
  {
    map t | t in freqs && t in keys :: freqs[t]
  }

  /** A document's column and the tokens' postings describe the same entries. */
  lemma ColumnTranspose(index: Postings, id: nat, t: string)
    ensures t in DocColumn(index, id) <==> id in GetDocs(index, t)
    ensures t in DocColumn(index, id) ==> DocColumn(index, id)[t] == GetDocs(index, t)[id]
  {
  }

  /**
    Adding a document that the table does not mention makes its column exactly
    its frequencies, and leaves every other document's column alone.
  */
  lemma AddDocColumns(index: Postings, freqs: Freqs, id: nat, other: nat)
    requires DocColumn(index, id) == map[]
    ensures DocColumn(AddDoc(index, freqs, id), id) == freqs
    ensures other != id ==> DocColumn(AddDoc(index, freqs, id), other) == DocColumn(index, other)
  {
    AddDocOwnColumn(index, freqs, id);
    if other != id {
      AddDocOtherColumn(index, freqs, id, other);
    }
  }

  lemma AddDocOwnColumn(index: Postings, freqs: Freqs, id: nat)
    requires DocColumn(index, id) == map[]
    ensures DocColumn(AddDoc(index, freqs, id), id) == freqs
  {
    var after := AddDoc(index, freqs, id);
    forall t | t in index ensures id !in index[t] {
      assert t !in DocColumn(index, id);
    }
    forall t ensures t in DocColumn(after, id) <==> t in freqs {
      if t in freqs { assert id in after[t]; }
    }
  }

  lemma AddDocOtherColumn(index: Postings, freqs: Freqs, id: nat, other: nat)
    requires other != id
    ensures DocColumn(AddDoc(index, freqs, id), other) == DocColumn(index, other)
  {
    var after := AddDoc(index, freqs, id);
    forall t ensures t in DocColumn(after, other) <==> t in DocColumn(index, other) {
      if t in after && t !in index {
        assert after[t] == map[id := freqs[t]];
      }
    }
  }

  /** Dropping a document empties its column and leaves every other column alone. */
  lemma DropDocColumns(index: Postings, id: nat, other: nat)
    ensures DocColumn(DropDoc(index, id), id) == map[]
    ensures other != id ==> DocColumn(DropDoc(index, id), other) == DocColumn(index, other)
  {
    if other != id {
      assert DocColumn(DropDoc(index, id), other).Keys == DocColumn(index, other).Keys;
    }
  }

  /**
    The two removal strategies agree: deleting `id` from the postings of the
    tokens it was stored under gives the same table as popping it from every
    token's postings.
  */
  lemma DropTokensIsDropDoc(index: Postings, tokens: set<string>, id: nat)
    requires DocColumn(index, id).Keys <= tokens
    ensures DropTokens(index, tokens, id) == DropDoc(index, id)
  {
    forall t | t in index && t !in tokens ensures index[t] - {id} == index[t] {
      assert t !in DocColumn(index, id);
    }
  }

  /** Deleting a document the table does not mention changes nothing, whichever tokens are visited. */
  lemma DropAbsent(index: Postings, tokens: set<string>, id: nat)
    requires DocColumn(index, id) == map[]
    ensures DropTokens(index, tokens, id) == index
    ensures DropDoc(index, id) == index
  {
    forall t | t in index ensures index[t] - {id} == index[t] {
      assert t !in DocColumn(index, id);
    }
  }

  /** Adding a document the table does not mention and dropping it again restores every token's postings. */
  lemma DropAfterAdd(index: Postings, freqs: Freqs, id: nat, t: string)
    requires DocColumn(index, id) == map[]
    ensures GetDocs(DropDoc(AddDoc(index, freqs, id), id), t) == GetDocs(index, t)
  {
    if t in index {
      assert t !in DocColumn(index, id);
      assert id !in index[t];
    }
  }

  /** One more token of `freqs` stored: the step of the loop in `AddDocInPlace`. */
  lemma AddDocStep(index: Postings, freqs: Freqs, done: set<string>, t: string, id: nat)
    requires t in freqs && t !in done
    ensures AddDoc(index, Restrict(freqs, done + {t}), id) ==
      var prev := AddDoc(index, Restrict(freqs, done), id);
      prev[t := GetDocs(prev, t)[id := freqs[t]]]
  {
    assert Restrict(freqs, done + {t}) == Restrict(freqs, done)[t := freqs[t]];
    AddDocOneMore(index, Restrict(freqs, done), t, freqs[t], id);
  }

  lemma AddDocOneMore(index: Postings, part: Freqs, t: string, f: nat, id: nat)
    requires t !in part
    ensures AddDoc(index, part[t := f], id) ==
      var prev := AddDoc(index, part, id);
      prev[t := GetDocs(prev, t)[id := f]]
  {
    var prev := AddDoc(index, part, id);
    assert GetDocs(prev, t) == GetDocs(index, t);
  }

  /** Nothing stored yet, and everything stored. */
  lemma AddDocEnds(index: Postings, freqs: Freqs, id: nat)
    ensures AddDoc(index, Restrict(freqs, {}), id) == index
    ensures Restrict(freqs, freqs.Keys) == freqs
  {
    assert Restrict(freqs, {}) == map[];
  }

  /** The `for token, freq in freqs.items(): index[token][doc_id] = freq` loop. */
  method AddDocInPlace(index: Postings, freqs: Freqs, id: nat) returns (r: Postings)
    ensures r == AddDoc(index, freqs, id)
  {
    r := index;
    var rest := freqs.Keys;
    ghost var done: set<string> := {};
    AddDocEnds(index, freqs, id);
    while rest != {}
      invariant done + rest == freqs.Keys && done !! rest
      invariant r == AddDoc(index, Restrict(freqs, done), id)
    {
      var t :| t in rest;
      AddDocStep(index, freqs, done, t, id);
      r := r[t := GetDocs(r, t)[id := freqs[t]]];
      rest := rest - {t};
      done := done + {t};
    }
  }

  /**
    The `for token in doc_freqs[doc_id]: del index[token][doc_id]` loop: it
    raises KeyError as soon as a token's postings lack `id` (the deletions
    before it stay done), and otherwise deletes `id` under every token.
  */
  method DropTokensInPlace(index: Postings, tokens: set<string>, id: nat) returns (r: Postings, err: Option<ExcType>)
    ensures err.None? <==> forall t :: t in tokens ==> id in GetDocs(index, t)
    ensures err.None? ==> r == DropTokens(index, tokens, id)
    ensures err.Some? ==> err == Some(KeyError) && exists done :: done <= tokens && r == DropTokens(index, done, id)
  {
    r := index;
    var rest := tokens;
    assert DropTokens(index, {}, id) == index;
    while rest != {}
      invariant rest <= tokens
      invariant r == DropTokens(index, tokens - rest, id)
      invariant forall t :: t in tokens - rest ==> id in GetDocs(index, t)
    {
      var t :| t in rest;
      if id !in GetDocs(r, t) {
        assert GetDocs(r, t) == GetDocs(index, t);
        return r, Some(KeyError);
      }
      assert DropTokens(index, (tokens - rest) + {t}, id) == r[t := r[t] - {id}];
      assert tokens - (rest - {t}) == (tokens - rest) + {t};
      r := r[t := r[t] - {id}];
      rest := rest - {t};
    }
    assert tokens - rest == tokens;
    err := None;
  }

  /** The `for token, freqs in index.items(): freqs.pop(doc_id, None)` loop. */
  method DropDocInPlace(index: Postings, id: nat) returns (r: Postings)
    ensures r == DropDoc(index, id)
  {
    r := index;
    var rest := index.Keys;
    assert DropTokens(index, {}, id) == index;
    while rest != {}
      invariant rest <= index.Keys
      invariant r == DropTokens(index, index.Keys - rest, id)
    {
      var t :| t in rest;
      assert DropTokens(index, (index.Keys - rest) + {t}, id) == r[t := r[t] - {id}];
      assert index.Keys - (rest - {t}) == (index.Keys - rest) + {t};
      r := r[t := r[t] - {id}];
      rest := rest - {t};
    }
    assert index.Keys - rest == index.Keys;
  }
}
