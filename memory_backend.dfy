/**
  The objects of desktopsearch/backends/memory.py: `InvertedIndexMemory`,
  which holds the four dictionaries of `MemoryIndex.MemState` and updates
  them in place, `RetrieverMemory`, which searches it within a group of
  directories, and `IndexerMemory`, which guards full and partial index
  runs. The analyzer (`CodeAnalyzer`) is not part of this model: its
  `analyze` result is a parameter of `AddDocument`, its `query` a parameter
  of `SearchText`, and its configuration a field of the index.
*/
module MemoryBackend {
  import opened Wrappers
  import opened PyErrors
  import opened Paths
  import opened Postings
  import opened Query
  import opened Ranking
  import opened Retrieval
  import opened MemoryIndex
  import Nlp

  /** An `InvertedIndexMemory` object. */
  class InvertedIndexMemory {
    const keepDocs: bool
    /** `analyzer.config`: the analyzer's configuration, if it has one. */
    var config: Option<Nlp.Config>
    var docs2ids: map<Path, nat>
    var ids2docs: map<nat, Option<Path>>
    var table: map<string, Postings>
    var docFreqs: map<string, map<nat, Freqs>>

    function State(): MemState
      reads this
    {
      MemState(docs2ids, ids2docs, table, docFreqs)
    }

    ghost predicate Valid()
      reads this
    {
      MemoryIndex.Valid(State())
    }

    ghost predicate Consistent()
      reads this
    {
      MemoryIndex.Consistent(keepDocs, State())
    }

    /** `InvertedIndexMemory(analyzer, keep_docs)`: `__init__` ends with `clear()`. */
    constructor(config: Option<Nlp.Config>, keepDocs: bool)
      ensures this.keepDocs == keepDocs && this.config == config
      ensures State() == Empty() && Valid() && Consistent()
    {
      this.keepDocs := keepDocs;
      this.config := config;
      docs2ids, ids2docs := map[], map[];
      table := map["code" := map[], "text" := map[]];
      docFreqs := map["code" := map[], "text" := map[]];
      new;
      EmptyValid(keepDocs);
    }

    /** `clear()`: the two fields, with nothing indexed; the analyzer is kept. */
    method Clear()
      modifies this
      ensures State() == Empty() && Valid() && Consistent()
      ensures config == old(config)
    {
      docs2ids, ids2docs := map[], map[];
      table := map["code" := map[], "text" := map[]];
      docFreqs := map["code" := map[], "text" := map[]];
      EmptyValid(keepDocs);
    }

    /** `add_document(path)`, with the analyzer's `analyze` as a parameter. */
    method AddDocument(path: Path, analyze: Analyze) returns (r: Result<bool, ExcType>)
      requires Valid()
      modifies this
      ensures (State(), r) == AddSpec(keepDocs, analyze, old(State()), path)
      ensures Valid() && config == old(config)
      ensures old(Consistent()) && (analyze(path).Success? ==> Complete(analyze(path).value)) ==> Consistent()
    {
      match analyze(path) {
        case Failure(e) =>
          r := if IsInstance(e, NotAnalyzable) then Success(false) else Failure(e);
        case Success(fd) =>
          r := AddDocumentFreqs(path, fd);
      }
    }

    /** `add_document_freqs(path, freqs_dict)`. */
    method AddDocumentFreqs(path: Path, fd: FreqsDict) returns (r: Result<bool, ExcType>)
      requires Valid()
      modifies this
      ensures (State(), r) == AddFreqsSpec(keepDocs, old(State()), path, fd)
      ensures Valid() && config == old(config)
      ensures old(Consistent()) && Complete(fd) ==> Consistent()
    {
      ghost var st := State();
      AddFreqsKeepsValid(keepDocs, st, path, fd);
      if path in docs2ids && docs2ids[path] !in ids2docs {
        return Failure(KeyError);
      }
      if path in docs2ids && ids2docs[docs2ids[path]].Some? {
        return Success(false);
      }
      if MemoryIndex.Consistent(keepDocs, st) && Complete(fd) {
        AddFreqsConsistent(keepDocs, st, path, fd);
      }
      var id := MarkPath(path);
      r := StoreFields(fd, id);
    }

    /** `doc_id = self.docs2ids[path] = len(self.docs2ids)` for a new path, then `self.ids2docs[doc_id] = path`. */
    method MarkPath(path: Path) returns (id: nat)
      requires path in docs2ids ==> docs2ids[path] in ids2docs && ids2docs[docs2ids[path]].None?
      modifies this
      ensures State() == Mark(old(State()), path) && id == IdFor(old(State()), path)
      ensures config == old(config)
    {
      id := if path in docs2ids then docs2ids[path] else |docs2ids|;
      if path !in docs2ids {
        docs2ids := docs2ids[path := id];
      } else {
        assert docs2ids[path := id] == docs2ids;
      }
      ids2docs := ids2docs[id := Some(path)];
    }

    /** The two loops of `add_document_freqs` once `path` resolves to `id`. */
    method StoreFields(fd: FreqsDict, id: nat) returns (r: Result<bool, ExcType>)
      modifies this
      ensures (State(), r) == StoreAll(keepDocs, old(State()), fd, id)
      ensures config == old(config)
    {
      if keepDocs {
        var err;
        docFreqs, err := StoreFreqsInPlace(docFreqs, fd, id);
        if err.Some? {
          return Failure(err.value);
        }
      }
      var err;
      table, err := StorePostingsInPlace(table, fd, id);
      r := if err.Some? then Failure(err.value) else Success(true);
    }

    /** `remove_document(path)`. */
    method RemoveDocument(path: Path) returns (err: Option<ExcType>)
      requires Valid()
      modifies this
      ensures RemoveOutcome(keepDocs, old(State()), path, State(), err)
      ensures Valid() && config == old(config)
      ensures old(Consistent()) ==> Consistent()
      ensures old(Consistent()) && path in old(docs2ids) ==> Cleared(table, old(docs2ids)[path])
    {
      ghost var st := State();
      if path !in docs2ids {
        return Some(InvalidDocument);
      }
      var id := docs2ids[path];
      ids2docs := ids2docs[id := None];
      err := DropFields(id);
      RemoveKeepsValid(keepDocs, st, path, State(), err);
      if MemoryIndex.Consistent(keepDocs, st) {
        RemoveKeepsConsistent(keepDocs, st, path, State(), err);
      }
    }

    /** The loop of `remove_document` over the fields: `id` deleted from the postings. */
    method DropFields(id: nat) returns (err: Option<ExcType>)
      requires table.Keys == {"code", "text"} && docFreqs.Keys == {"code", "text"}
      modifies this
      ensures DropOutcome(keepDocs, old(table), docFreqs, id, table, err)
      ensures docs2ids == old(docs2ids) && ids2docs == old(ids2docs) && docFreqs == old(docFreqs) && config == old(config)
    {
      if keepDocs {
        table, err := DropStoredInPlace(table, docFreqs, id);
      } else {
        table := DropEverywhereInPlace(table, id);
        err := None;
      }
    }

    /** `get_docs(field, token)`. */
    function DocsFor(field: string, token: string): Result<Docs, ExcType>
      reads this
    {
      FieldDocs(State(), field, token)
    }

    /** `get_paths(field, token, scoring)`, as a list. */
    function GetPaths(field: string, token: string, scoring: Scoring): Result<seq<Hit>, ExcType>
      reads this
    {
      PathsSpec(State(), field, token, scoring)
    }

    /** `get_paths_op(field, tokens, setop, scoring)`, as a list. */
    method GetPathsOp(field: string, tokens: seq<string>, op: SetOp, scoring: Scoring) returns (r: Result<seq<Hit>, ExcType>)
      ensures r == OpPathsSpec(State(), field, tokens, op, scoring)
    {
      if |tokens| == 0 {
        return Failure(TypeError);
      }
      if field !in table {
        return Failure(KeyError);
      }
      var docs := OpDocs(table[field], tokens, op);
      if scoring == Unscored {
        r := Success(Enumerated(Listing(ids2docs, docs, map[], |docs2ids|)));
      } else {
        var freqs := SumTermFreqs(table[field], tokens);
        r := Success(Listing(ids2docs, docs, freqs, |docs2ids|));
      }
    }
  }

  /** The "and" and "or" of `search_text`, the only `op` strings it accepts. */
  function OpNamed(op: string): Option<SetOp>
  {
    if op == "and" then Some(Intersection) else if op == "or" then Some(Union) else None
  }

  /** A `RetrieverMemory` object. */
  class RetrieverMemory {
    const invindex: InvertedIndexMemory
    var groups: Groups

    /** `RetrieverMemory(invindex)`: no groups yet. */
    constructor(invindex: InvertedIndexMemory)
      ensures this.invindex == invindex && groups == map[]
    {
      this.invindex := invindex;
      groups := map[];
    }

    /**
      `search_token(groupname, field, token, sortby, scoring)`: KeyError for
      an unknown field or group; otherwise the found hits inside the group,
      sorted.
    */
    method SearchToken(name: string, field: string, token: string, order: SortBy, scoring: Scoring)
        returns (r: Result<seq<Hit>, ExcType>)
      ensures r == Searched(groups, name, invindex.GetPaths(field, token, scoring), order)
      ensures r.Failure? <==> field !in invindex.table || name !in groups
      ensures r.Failure? ==> r.error == KeyError
      ensures r.Success? ==> SortedBy(order, r.value)
      ensures r.Success? ==> forall e :: e in r.value <==>
        e in invindex.GetPaths(field, token, scoring).value && InGroup(groups[name], e.0)
    {
      var found := invindex.GetPaths(field, token, scoring);
      r := Sorted(name, found, order);
    }

    /** `search_tokens_and` (`op == Intersection`) and `search_tokens_or` (`op == Union`). */
    method SearchTokens(name: string, field: string, tokens: seq<string>, op: SetOp, order: SortBy, scoring: Scoring)
        returns (r: Result<seq<Hit>, ExcType>)
      ensures r == Searched(groups, name, OpPathsSpec(invindex.State(), field, tokens, op, scoring), order)
      ensures |tokens| == 0 ==> r == Failure(TypeError)
      ensures |tokens| > 0 ==> (r.Failure? <==> field !in invindex.table || name !in groups)
      ensures r.Success? ==> SortedBy(order, r.value)
    {
      var found := invindex.GetPathsOp(field, tokens, op, scoring);
      r := Sorted(name, found, order);
    }

    /** `_sorted` applied to a lookup's result, whose exception passes through. */
    method Sorted(name: string, found: Result<seq<Hit>, ExcType>, order: SortBy) returns (r: Result<seq<Hit>, ExcType>)
      ensures r == Searched(groups, name, found, order)
      ensures r.Failure? <==> found.Failure? || name !in groups
      ensures r.Failure? && found.Success? ==> r.error == KeyError
      ensures r.Success? ==> SortedBy(order, r.value)
      ensures r.Success? ==> forall e :: e in r.value <==> e in found.value && InGroup(groups[name], e.0)
    {
      if found.Failure? {
        return Failure(found.error);
      }
      SortedHitsSpec(groups, name, found.value, order);
      r := SortedHits(groups, name, found.value, order);
      if r.Success? {
        forall e ensures e in r.value <==> e in found.value && InGroup(groups[name], e.0) {
          assert e in r.value <==> multiset(r.value)[e] > 0;
        }
      }
    }

    /**
      `search_text(groupname, field, text, op, sortby, scoring)`, with the
      analyzer's `query` as a parameter: ValueError for an `op` other than
      "and" and "or"; otherwise the search of the query's tokens with that
      set operation, which for a single token `search_token` gives as well.
    */
    method SearchText(name: string, field: string, text: string, op: string, order: SortBy, scoring: Scoring,
                      query: (string, string) -> seq<string>)
        returns (r: Result<seq<Hit>, ExcType>)
      ensures OpNamed(op).None? ==> r == Failure(ValueError)
      ensures OpNamed(op).Some? ==>
        r == Searched(groups, name, OpPathsSpec(invindex.State(), field, query(field, text), OpNamed(op).value, scoring), order)
    {
      if op != "and" && op != "or" {
        return Failure(ValueError);
      }
      var tokens := query(field, text);
      if |tokens| == 1 {
        SingleTokenOp(invindex.State(), field, tokens[0], OpNamed(op).value, scoring);
        assert tokens == [tokens[0]];
        r := SearchToken(name, field, tokens[0], order, scoring);
      } else if op == "and" {
        r := SearchTokens(name, field, tokens, Intersection, order, scoring);
      } else {
        r := SearchTokens(name, field, tokens, Union, order, scoring);
      }
    }
  }

  /** An `IndexerMemory` object. */
  class IndexerMemory {
    const invindex: InvertedIndexMemory

    /** `IndexerMemory(invindex)`. */
    constructor(invindex: InvertedIndexMemory)
      ensures this.invindex == invindex
    {
      this.invindex := invindex;
    }

    /** `self.invindex.analyzer.config != config`: dictionaries compared by contents; no configuration equals none. */
    predicate ConfigDiffers(current: Option<Nlp.Config>, config: Nlp.Config)
    {
      current.None? || !Nlp.SameConfig(current.value, config)
    }

    /**
      The checks of `index(suffixes, partial, gitignore, config,
      progressfunc)` before the indexing pass: a partial run with a
      configuration other than the analyzer's raises IndexerError and
      changes nothing; a full run empties the index and gives the analyzer
      the new configuration.
    */
    method Index(partial: bool, config: Option<Nlp.Config>) returns (err: Option<ExcType>)
      requires invindex.Valid()
      modifies invindex
      ensures partial ==> invindex.State() == old(invindex.State()) && invindex.config == old(invindex.config)
      ensures partial ==> (err == Some(IndexerError) <==> config.Some? && ConfigDiffers(old(invindex.config), config.value))
      ensures partial ==> err == None || err == Some(IndexerError)
      ensures !partial ==> err == None && invindex.State() == Empty() && invindex.config == config
      ensures invindex.Valid() && (old(invindex.Consistent()) ==> invindex.Consistent())
    {
      if partial {
        if config.Some? && ConfigDiffers(invindex.config, config.value) {
          return Some(IndexerError);
        }
      } else {
        invindex.Clear();
        invindex.config := config;
      }
      err := None;
    }

    /**
      `update_document(filename)`: the removal, and, unless it raised, the
      addition (for a path that was never indexed, InvalidDocument and no
      change).
    */
    method UpdateDocument(path: Path, analyze: Analyze) returns (r: Result<bool, ExcType>)
      requires invindex.Valid()
      modifies invindex
      ensures exists mid: MemState, e: Option<ExcType> ::
        && RemoveOutcome(invindex.keepDocs, old(invindex.State()), path, mid, e)
        && (e.Some? ==> invindex.State() == mid && r == Failure(e.value))
        && (e.None? ==> (invindex.State(), r) == AddSpec(invindex.keepDocs, analyze, mid, path))
      ensures path !in old(invindex.docs2ids) ==> r == Failure(InvalidDocument) && invindex.State() == old(invindex.State())
      ensures invindex.Valid()
      ensures (&& old(invindex.Consistent()) && path in old(invindex.docs2ids) && Live(old(invindex.State()), old(invindex.docs2ids)[path])
               && analyze(path).Success? && Complete(analyze(path).value)) ==>
        r == Success(true) && invindex.docs2ids == old(invindex.docs2ids) && invindex.Consistent()
    {
      ghost var st := invindex.State();
      var err := invindex.RemoveDocument(path);
      ghost var mid := invindex.State();
      if MemoryIndex.Consistent(invindex.keepDocs, st) && path in st.docs2ids && Live(st, st.docs2ids[path])
        && analyze(path).Success? && Complete(analyze(path).value) {
        UpdateLive(invindex.keepDocs, st, path, mid, err, analyze(path).value);
      }
      if err.Some? {
        return Failure(err.value);
      }
      r := invindex.AddDocument(path, analyze);
    }
  }
}
