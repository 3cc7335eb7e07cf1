/**
  The state of desktopsearch/backends/memory.py's `InvertedIndexMemory` and
  what its operations do to it. Unlike utils.py's index, a document's
  frequencies come in fields, and every field has its own postings table
  (`table[field]`) and, with `keep_docs`, its own stored frequencies
  (`doc_freqs[field]`). `clear()` creates both dictionaries with the keys
  "code" and "text" and nothing ever adds a key: any other field name raises
  KeyError where it is looked up.
*/
module MemoryIndex {
  import opened Wrappers
  import opened PyErrors
  import opened Paths
  import opened Postings
  import opened Query

  /** The fields, in the order of the dict literals of `clear()`. */
  const FieldOrder: seq<string> := ["code", "text"]

  /** A document's frequencies per field: `freqs_dict.items()`, in dict order. */
  type FreqsDict = seq<(string, Freqs)>

  /** `analyzer.analyze(path)`: the frequencies per field, or the exception it raises. */
  type Analyze = Path -> Result<FreqsDict, ExcType>

  /** The `scoring` choice; "tfidf" is not part of this model. */
  datatype Scoring = Unscored | TermFreqScore

  /** The four dictionaries of an `InvertedIndexMemory`. */
  datatype MemState = MemState(
    docs2ids: map<Path, nat>,
    ids2docs: map<nat, Option<Path>>,
    table: map<string, Postings>,
    docFreqs: map<string, map<nat, Freqs>>)

  /** The state `clear()` leaves. */
  function Empty(): MemState
  {
    MemState(map[], map[], map["code" := map[], "text" := map[]], map["code" := map[], "text" := map[]])
  }

  /** `id` belongs to an indexed (not removed) document. */
  ghost predicate Live(st: MemState, id: nat)
  {
    id in st.ids2docs && st.ids2docs[id].Some?
  }

  /** Both per-field dictionaries have exactly the two fields. */
  ghost predicate FieldsFixed(st: MemState)
  {
    st.table.Keys == {"code", "text"} && st.docFreqs.Keys == {"code", "text"}
  }

  /** Ids are allocated from 0 up, one per path, and every id with an `ids2docs` entry has been allocated. */
  ghost predicate IdsAllocated(st: MemState)
  {
    && (forall p :: p in st.docs2ids ==> st.docs2ids[p] < |st.docs2ids|)
    && (forall p, q :: p in st.docs2ids && q in st.docs2ids && st.docs2ids[p] == st.docs2ids[q] ==> p == q)
    && (forall id :: id in st.ids2docs ==> id < |st.docs2ids|)
  }

  /** A path's id resolves to the path itself or, once removed, to None. */
  ghost predicate IdsResolve(st: MemState)
  {
    forall p :: p in st.docs2ids ==>
      st.docs2ids[p] in st.ids2docs && (st.ids2docs[st.docs2ids[p]] == Some(p) || st.ids2docs[st.docs2ids[p]] == None)
  }

  /** A live id's path maps back to it. */
  ghost predicate LiveMapsBack(st: MemState)
  {
    forall id :: Live(st, id) ==> st.ids2docs[id].value in st.docs2ids && st.docs2ids[st.ids2docs[id].value] == id
  }

  /** What every operation keeps true, whatever its input. */
  ghost predicate Valid(st: MemState)
  {
    FieldsFixed(st) && IdsAllocated(st) && IdsResolve(st) && LiveMapsBack(st)
  }

  /** The postings of every field mention live ids only. */
  ghost predicate PostingsLive(st: MemState)
  {
    forall f, t, id :: f in st.table && t in st.table[f] && id in st.table[f][t] ==> Live(st, id)
  }

  /** With `keep_docs`, a live document's stored frequencies in each field are exactly its column of that field's postings. */
  ghost predicate ColumnsStored(keepDocs: bool, st: MemState)
  {
    keepDocs ==> forall f, id :: f in st.docFreqs && Live(st, id) ==>
      f in st.table && id in st.docFreqs[f] && DocColumn(st.table[f], id) == st.docFreqs[f][id]
  }

  /** What adding complete frequency dictionaries and removing keep true. */
  ghost predicate Consistent(keepDocs: bool, st: MemState)
  {
    PostingsLive(st) && ColumnsStored(keepDocs, st)
  }

  lemma EmptyValid(keepDocs: bool)
    ensures Valid(Empty()) && Consistent(keepDocs, Empty())
  {
  }

  // ----- add_document_freqs -----

  /** The field names of a frequency dictionary. */
  function Names(fd: FreqsDict): set<string>
  {
    set k | 0 <= k < |fd| :: fd[k].0
  }

  /** No field is named twice, as in a Python dict. */
  predicate DistinctNames(fd: FreqsDict)
  {
    forall j, k :: 0 <= j < k < |fd| ==> fd[j].0 != fd[k].0
  }

  /** A frequency dictionary with each of the two fields once: what the analyzer is meant to return. */
  predicate Complete(fd: FreqsDict)
  {
    DistinctNames(fd) && Names(fd) == {"code", "text"}
  }

  /** `freqs_dict[field]`, none for an absent field. */
  function FreqsOf(fd: FreqsDict, field: string): Freqs
    decreases |fd|
  {
    if |fd| == 0 then map[]
    else if fd[0].0 == field then fd[0].1
    else FreqsOf(fd[1..], field)
  }

  /** `self.doc_freqs[name][doc_id] = freqs`. */
  function StoreOne(docFreqs: map<string, map<nat, Freqs>>, name: string, id: nat, freqs: Freqs): map<string, map<nat, Freqs>>
    requires name in docFreqs
  {
    var column: map<nat, Freqs> := docFreqs[name][id := freqs];
    docFreqs[name := column]
  }

  /**
    `for name, freqs in freqs_dict.items(): self.doc_freqs[name][doc_id] = freqs`:
    each field's frequencies stored under `id`, until a field that
    `doc_freqs` lacks raises KeyError.
  */
  function StoreFreqs(docFreqs: map<string, map<nat, Freqs>>, fd: FreqsDict, id: nat): (r: (map<string, map<nat, Freqs>>, Option<ExcType>))
    ensures r.0.Keys == docFreqs.Keys
    decreases |fd|
  {
    if |fd| == 0 then (docFreqs, None)
    else if fd[0].0 !in docFreqs then (docFreqs, Some(KeyError))
    else StoreFreqs(StoreOne(docFreqs, fd[0].0, id, fd[0].1), fd[1..], id)
  }

  /**
    `for name, freqs in freqs_dict.items(): index = self.table[name]; ...`:
    each field's frequencies added to its postings under `id`, until a field
    that `table` lacks raises KeyError.
  */
  function StorePostings(table: map<string, Postings>, fd: FreqsDict, id: nat): (r: (map<string, Postings>, Option<ExcType>))
    ensures r.0.Keys == table.Keys
    decreases |fd|
  {
    if |fd| == 0 then (table, None)
    else if fd[0].0 !in table then (table, Some(KeyError))
    else StorePostings(table[fd[0].0 := AddDoc(table[fd[0].0], fd[0].1, id)], fd[1..], id)
  }

  /** The id `add_document_freqs` uses: the path's own, or `len(docs2ids)` for a new path. */
  function IdFor(st: MemState, path: Path): nat
  {
    if path in st.docs2ids then st.docs2ids[path] else |st.docs2ids|
  }

  /**
    `add_document_freqs(path, freqs_dict)`: a path whose id is live is ignored
    with False; otherwise the path is registered and its id resolves to it,
    then (with `keep_docs`) the frequencies are stored and added to the
    postings, field by field; an unknown field raises KeyError with the
    stores before it done. Reading the id's `ids2docs` entry raises KeyError
    when there is none.
  */
  function AddFreqsSpec(keepDocs: bool, st: MemState, path: Path, fd: FreqsDict): (MemState, Result<bool, ExcType>)
  {
    if path in st.docs2ids && st.docs2ids[path] !in st.ids2docs then (st, Failure(KeyError))
    else if path in st.docs2ids && st.ids2docs[st.docs2ids[path]].Some? then (st, Success(false))
    else StoreAll(keepDocs, Mark(st, path), fd, IdFor(st, path))
  }

  /** `self.docs2ids[path] = doc_id` (a new path) and `self.ids2docs[doc_id] = path`. */
  function Mark(st: MemState, path: Path): MemState
  {
    var id := IdFor(st, path);
    st.(docs2ids := st.docs2ids[path := id], ids2docs := st.ids2docs[id := Some(path)])
  }

  /** The two loops of `add_document_freqs`, the first one only with `keep_docs`. */
  function StoreAll(keepDocs: bool, st: MemState, fd: FreqsDict, id: nat): (r: (MemState, Result<bool, ExcType>))
    ensures r.0.docs2ids == st.docs2ids && r.0.ids2docs == st.ids2docs
    ensures r.0.table.Keys == st.table.Keys && r.0.docFreqs.Keys == st.docFreqs.Keys
  {
    var stored := if keepDocs then StoreFreqs(st.docFreqs, fd, id) else (st.docFreqs, None);
    if stored.1.Some? then (st.(docFreqs := stored.0), Failure(stored.1.value))
    else
      var posted := StorePostings(st.table, fd, id);
      (st.(docFreqs := stored.0, table := posted.0), if posted.1.Some? then Failure(posted.1.value) else Success(true))
  }

  /** `add_document(path)`: NotAnalyzable from the analyzer answers False, any other exception propagates. */
  function AddSpec(keepDocs: bool, analyze: Analyze, st: MemState, path: Path): (MemState, Result<bool, ExcType>)
  {
    match analyze(path)
    case Failure(e) => if IsInstance(e, NotAnalyzable) then (st, Success(false)) else (st, Failure(e))
    case Success(fd) => AddFreqsSpec(keepDocs, st, path, fd)
  }

  /** The stores raise KeyError exactly for a field name outside the fields. */
  lemma {:induction false} StoreFreqsOutcome(docFreqs: map<string, map<nat, Freqs>>, fd: FreqsDict, id: nat)
    ensures StoreFreqs(docFreqs, fd, id).1 == if Names(fd) <= docFreqs.Keys then None else Some(KeyError)
    decreases |fd|
  {
    if |fd| > 0 {
      NamesCons(fd);
      if fd[0].0 in docFreqs {
        StoreFreqsOutcome(StoreOne(docFreqs, fd[0].0, id, fd[0].1), fd[1..], id);
      }
    }
  }

  lemma NamesCons(fd: FreqsDict)
    requires |fd| > 0
    ensures Names(fd) == {fd[0].0} + Names(fd[1..])
  {
    forall n | n in Names(fd) ensures n in {fd[0].0} + Names(fd[1..]) {
      var k :| 0 <= k < |fd| && fd[k].0 == n;
      if k > 0 { assert fd[1..][k - 1] == fd[k]; }
    }
    forall n | n in Names(fd[1..]) ensures n in Names(fd) {
      var k :| 0 <= k < |fd[1..]| && fd[1..][k].0 == n;
      assert fd[k + 1] == fd[1..][k];
    }
  }

  /** The postings loop raises KeyError exactly for a field name outside the fields. */
  lemma {:induction false} StorePostingsOutcome(table: map<string, Postings>, fd: FreqsDict, id: nat)
    ensures StorePostings(table, fd, id).1 == if Names(fd) <= table.Keys then None else Some(KeyError)
    decreases |fd|
  {
    if |fd| > 0 {
      NamesCons(fd);
      if fd[0].0 in table {
        StorePostingsOutcome(table[fd[0].0 := AddDoc(table[fd[0].0], fd[0].1, id)], fd[1..], id);
      }
    }
  }

  /** The postings gain entries for `id` only, whether or not the loop raised. */
  lemma {:induction false} StorePostingsMentions(table: map<string, Postings>, fd: FreqsDict, id: nat, f: string, t: string, j: nat)
    requires f in StorePostings(table, fd, id).0 && j in GetDocs(StorePostings(table, fd, id).0[f], t)
    ensures j == id || (f in table && j in GetDocs(table[f], t))
    decreases |fd|
  {
    if |fd| > 0 && fd[0].0 in table {
      var next := table[fd[0].0 := AddDoc(table[fd[0].0], fd[0].1, id)];
      StorePostingsMentions(next, fd[1..], id, f, t, j);
    }
  }

  /** Without a repeated field, the loop adds each field's own frequencies to its postings. */
  lemma {:induction false} StorePostingsFields(table: map<string, Postings>, fd: FreqsDict, id: nat)
    requires DistinctNames(fd) && Names(fd) <= table.Keys
    ensures forall f :: f in table ==> StorePostings(table, fd, id).0[f] == AddDoc(table[f], FreqsOf(fd, f), id)
    decreases |fd|
  {
    if |fd| == 0 {
      forall f | f in table ensures table[f] == AddDoc(table[f], map[], id) {
        AddNothing(table[f], id);
      }
    } else {
      NamesCons(fd);
      var rest := fd[1..];
      assert DistinctNames(rest) by {
        forall j, k | 0 <= j < k < |rest| ensures rest[j].0 != rest[k].0 {
          assert rest[j] == fd[j + 1] && rest[k] == fd[k + 1];
        }
      }
      var name := fd[0].0;
      var next := table[name := AddDoc(table[name], fd[0].1, id)];
      StorePostingsFields(next, rest, id);
      FreqsOfAbsent(fd, name);
      AddNothing(AddDoc(table[name], fd[0].1, id), id);
    }
  }

  /** A field named first is named nowhere after, so the rest adds nothing to it. */
  lemma FreqsOfAbsent(fd: FreqsDict, name: string)
    requires |fd| > 0 && DistinctNames(fd) && fd[0].0 == name
    ensures FreqsOf(fd[1..], name) == map[]
  {
    assert forall k :: 0 <= k < |fd[1..]| ==> fd[1..][k] == fd[k + 1];
    FreqsOfMissing(fd[1..], name);
  }

  lemma {:induction false} FreqsOfMissing(fd: FreqsDict, name: string)
    requires forall k :: 0 <= k < |fd| ==> fd[k].0 != name
    ensures FreqsOf(fd, name) == map[]
    decreases |fd|
  {
    if |fd| > 0 {
      assert forall k :: 0 <= k < |fd[1..]| ==> fd[1..][k] == fd[k + 1];
      FreqsOfMissing(fd[1..], name);
    }
  }

  lemma AddNothing(index: Postings, id: nat)
    ensures AddDoc(index, map[], id) == index
  {
  }

  /** Without a repeated field, storing the frequencies leaves each named field's entry for `id` as its own frequencies. */
  lemma {:induction false} StoreFreqsFields(docFreqs: map<string, map<nat, Freqs>>, fd: FreqsDict, id: nat)
    requires DistinctNames(fd) && Names(fd) <= docFreqs.Keys
    ensures forall f :: f in docFreqs ==>
      StoreFreqs(docFreqs, fd, id).0[f] == if f in Names(fd) then docFreqs[f][id := FreqsOf(fd, f)] else docFreqs[f]
    decreases |fd|
  {
    if |fd| > 0 {
      NamesCons(fd);
      var rest := fd[1..];
      assert DistinctNames(rest) by {
        forall j, k | 0 <= j < k < |rest| ensures rest[j].0 != rest[k].0 {
          assert rest[j] == fd[j + 1] && rest[k] == fd[k + 1];
        }
      }
      var name := fd[0].0;
      var next := StoreOne(docFreqs, name, id, fd[0].1);
      StoreFreqsFields(next, rest, id);
      assert name !in Names(rest) by {
        forall k | 0 <= k < |rest| ensures rest[k].0 != name {
          assert rest[k] == fd[k + 1];
        }
      }
    }
  }

  /** `add_document_freqs` keeps the state valid, whatever the dictionary holds. */
  lemma AddFreqsKeepsValid(keepDocs: bool, st: MemState, path: Path, fd: FreqsDict)
    requires Valid(st)
    ensures Valid(AddFreqsSpec(keepDocs, st, path, fd).0)
  {
    if !(path in st.docs2ids && st.ids2docs[st.docs2ids[path]].Some?) {
      MarkKeepsIds(st, path);
    }
  }

  /** Registering a path that is not live under its id, with the id resolving to it, keeps the ids valid. */
  lemma MarkKeepsIds(st: MemState, path: Path)
    requires Valid(st) && !(path in st.docs2ids && st.ids2docs[st.docs2ids[path]].Some?)
    ensures Valid(Mark(st, path))
  {
    if path in st.docs2ids {
      MarkRemoved(st, path);
    } else {
      MarkNew(st, path);
    }
  }

  /** A removed path's id resolves to it again. */
  lemma MarkRemoved(st: MemState, path: Path)
    requires Valid(st) && path in st.docs2ids && st.ids2docs[st.docs2ids[path]].None?
    ensures Valid(Mark(st, path))
  {
    var id := st.docs2ids[path];
    var marked := Mark(st, path);
    assert marked.docs2ids == st.docs2ids;
    assert IdsResolve(marked) by {
      forall p | p in marked.docs2ids
        ensures marked.docs2ids[p] in marked.ids2docs
        ensures marked.ids2docs[marked.docs2ids[p]] == Some(p) || marked.ids2docs[marked.docs2ids[p]] == None
      {
        if p != path {
          assert st.docs2ids[p] != id;
        }
      }
    }
    assert LiveMapsBack(marked) by {
      forall j | Live(marked, j)
        ensures marked.ids2docs[j].value in marked.docs2ids && marked.docs2ids[marked.ids2docs[j].value] == j
      {
        if j != id {
          assert Live(st, j);
        }
      }
    }
  }

  /** A new path gets the next id, which resolves to it. */
  lemma MarkNew(st: MemState, path: Path)
    requires Valid(st) && path !in st.docs2ids
    ensures Valid(Mark(st, path))
  {
    var id := |st.docs2ids|;
    var marked := Mark(st, path);
    assert |marked.docs2ids| == |st.docs2ids| + 1;
    assert id !in st.ids2docs;
    assert IdsAllocated(marked);
    assert IdsResolve(marked) by {
      forall p | p in marked.docs2ids
        ensures marked.docs2ids[p] in marked.ids2docs
        ensures marked.ids2docs[marked.docs2ids[p]] == Some(p) || marked.ids2docs[marked.docs2ids[p]] == None
      {
        if p != path {
          assert st.docs2ids[p] != id;
        }
      }
    }
    assert LiveMapsBack(marked) by {
      forall j | Live(marked, j)
        ensures marked.ids2docs[j].value in marked.docs2ids && marked.docs2ids[marked.ids2docs[j].value] == j
      {
        if j != id {
          assert Live(st, j);
          assert st.ids2docs[j].value != path;
        }
      }
    }
  }

  /** A path whose id is live is ignored: False, and nothing changes. */
  lemma AddFreqsIgnoresLive(keepDocs: bool, st: MemState, path: Path, fd: FreqsDict)
    requires Valid(st) && path in st.docs2ids && Live(st, st.docs2ids[path])
    ensures AddFreqsSpec(keepDocs, st, path, fd) == (st, Success(false))
  {
  }

  /**
    A path that is not live gets its id whatever the dictionary holds: a new
    path `len(docs2ids)`, a removed one its old id, and the id resolves to
    the path. The add raises exactly when the dictionary names a field other
    than "code" and "text", and then raises KeyError.
  */
  lemma AddFreqsRegisters(keepDocs: bool, st: MemState, path: Path, fd: FreqsDict)
    requires Valid(st) && !(path in st.docs2ids && Live(st, st.docs2ids[path]))
    ensures var (st', r) := AddFreqsSpec(keepDocs, st, path, fd);
      && (path !in st.docs2ids ==> st'.docs2ids == st.docs2ids[path := |st.docs2ids|])
      && (path in st.docs2ids ==> st'.docs2ids == st.docs2ids)
      && st'.ids2docs == st.ids2docs[st'.docs2ids[path] := Some(path)]
      && (r.Failure? <==> !(Names(fd) <= {"code", "text"}))
      && (r.Failure? ==> r.error == KeyError)
      && (r.Success? ==> r.value)
  {
    var id := IdFor(st, path);
    StoreFreqsOutcome(st.docFreqs, fd, id);
    StorePostingsOutcome(st.table, fd, id);
    if path in st.docs2ids {
      assert st.docs2ids[path := id] == st.docs2ids;
    }
  }

  /** The id a path that is not live gets is not live either. */
  lemma IdForNotLive(st: MemState, path: Path)
    requires Valid(st) && !(path in st.docs2ids && Live(st, st.docs2ids[path]))
    ensures !Live(st, IdFor(st, path))
  {
  }

  /** A document that is not live has an empty column in every field. */
  lemma NotLiveColumn(st: MemState, f: string, id: nat)
    requires PostingsLive(st) && f in st.table && !Live(st, id)
    ensures DocColumn(st.table[f], id) == map[]
  {
    forall t | t in st.table[f] ensures id !in st.table[f][t] {
    }
  }

  /**
    A complete dictionary for a path that is not live is accepted (True):
    the path keeps or gets its id, and each field's postings (and, with
    `keep_docs`, its stored frequencies) gain exactly that field's
    frequencies under the id.
  */
  lemma AddFreqsComplete(keepDocs: bool, st: MemState, path: Path, fd: FreqsDict)
    requires Valid(st) && Complete(fd) && !(path in st.docs2ids && Live(st, st.docs2ids[path]))
    ensures AddFreqsSpec(keepDocs, st, path, fd).1 == Success(true)
    ensures AddFreqsSpec(keepDocs, st, path, fd).0.docs2ids[path] == IdFor(st, path)
    ensures forall f :: f in st.table ==>
      AddFreqsSpec(keepDocs, st, path, fd).0.table[f] == AddDoc(st.table[f], FreqsOf(fd, f), IdFor(st, path))
    ensures keepDocs ==> forall f :: f in st.docFreqs ==>
      AddFreqsSpec(keepDocs, st, path, fd).0.docFreqs[f] == st.docFreqs[f][IdFor(st, path) := FreqsOf(fd, f)]
  {
    var id := IdFor(st, path);
    StorePostingsOutcome(st.table, fd, id);
    StorePostingsFields(st.table, fd, id);
    if keepDocs {
      StoreFreqsOutcome(st.docFreqs, fd, id);
      StoreFreqsFields(st.docFreqs, fd, id);
    }
  }

  /**
    After a complete add for a path that is not live, each field's column of
    the postings is exactly that field's frequencies (`get_docs(field,
    token)[id]` is the token's frequency), and every other document's columns
    are unchanged.
  */
  lemma AddFreqsColumns(keepDocs: bool, st: MemState, path: Path, fd: FreqsDict)
    requires Valid(st) && PostingsLive(st) && Complete(fd)
    requires !(path in st.docs2ids && Live(st, st.docs2ids[path]))
    ensures var st' := AddFreqsSpec(keepDocs, st, path, fd).0;
      && (forall f :: f in st.table ==> DocColumn(st'.table[f], IdFor(st, path)) == FreqsOf(fd, f))
      && (forall f, other: nat :: f in st.table && other != IdFor(st, path) ==>
            DocColumn(st'.table[f], other) == DocColumn(st.table[f], other))
  {
    var id := IdFor(st, path);
    var st' := AddFreqsSpec(keepDocs, st, path, fd).0;
    AddFreqsComplete(keepDocs, st, path, fd);
    IdForNotLive(st, path);
    forall f, other: nat | f in st.table
      ensures DocColumn(st'.table[f], id) == FreqsOf(fd, f)
      ensures other != id ==> DocColumn(st'.table[f], other) == DocColumn(st.table[f], other)
    {
      NotLiveColumn(st, f, id);
      AddDocColumns(st.table[f], FreqsOf(fd, f), id, other);
    }
  }

  /** A complete add for a path that is not live keeps a consistent state consistent. */
  lemma {:induction false} AddFreqsConsistent(keepDocs: bool, st: MemState, path: Path, fd: FreqsDict)
    requires Valid(st) && Consistent(keepDocs, st) && Complete(fd)
    requires !(path in st.docs2ids && Live(st, st.docs2ids[path]))
    ensures Consistent(keepDocs, AddFreqsSpec(keepDocs, st, path, fd).0)
  {
    var id := IdFor(st, path);
    var st' := AddFreqsSpec(keepDocs, st, path, fd).0;
    AddedPostingsLive(keepDocs, st, path, fd);
    if keepDocs {
      AddFreqsComplete(keepDocs, st, path, fd);
      AddFreqsColumns(keepDocs, st, path, fd);
      assert st'.ids2docs == st.ids2docs[id := Some(path)];
      forall f, j | f in st'.docFreqs && Live(st', j)
        ensures f in st'.table && j in st'.docFreqs[f] && DocColumn(st'.table[f], j) == st'.docFreqs[f][j]
      {
        if j != id {
          assert Live(st, j);
        }
      }
    }
  }

  /** After an add, the postings mention live ids only. */
  lemma AddedPostingsLive(keepDocs: bool, st: MemState, path: Path, fd: FreqsDict)
    requires Valid(st) && PostingsLive(st) && !(path in st.docs2ids && Live(st, st.docs2ids[path]))
    ensures PostingsLive(AddFreqsSpec(keepDocs, st, path, fd).0)
  {
    var id := IdFor(st, path);
    var marked := Mark(st, path);
    var st' := AddFreqsSpec(keepDocs, st, path, fd).0;
    assert st' == StoreAll(keepDocs, marked, fd, id).0;
    forall f, t, j | f in st'.table && t in st'.table[f] && j in st'.table[f][t] ensures Live(st', j) {
      assert j in GetDocs(st'.table[f], t);
      StoreAllMentions(keepDocs, marked, fd, id, f, t, j);
      if j != id {
        assert Live(st, j);
      }
    }
  }

  /** The loops of an add list no id but `id` anywhere that was not listed before. */
  lemma StoreAllMentions(keepDocs: bool, st: MemState, fd: FreqsDict, id: nat, f: string, t: string, j: nat)
    requires f in StoreAll(keepDocs, st, fd, id).0.table && j in GetDocs(StoreAll(keepDocs, st, fd, id).0.table[f], t)
    ensures j == id || (f in st.table && j in GetDocs(st.table[f], t))
  {
    if StoreAll(keepDocs, st, fd, id).0.table != st.table {
      StorePostingsMentions(st.table, fd, id, f, t, j);
    }
  }

  // ----- remove_document -----

  /** The tokens `doc_freqs[field][id]` names, none when nothing is stored. */
  function StoredTokens(docFreqs: map<string, map<nat, Freqs>>, f: string, id: nat): set<string>
  {
    if f in docFreqs && id in docFreqs[f] then docFreqs[f][id].Keys else {}
  }

  /** The `keep_docs` loop gets through field `f`: it has frequencies stored for `id`, and each of their tokens still lists it. */
  ghost predicate FieldRemovable(table: map<string, Postings>, docFreqs: map<string, map<nat, Freqs>>, id: nat, f: string)
  {
    f in table && f in docFreqs && id in docFreqs[f] && (forall t :: t in docFreqs[f][id] ==> id in GetDocs(table[f], t))
  }

  /** The `keep_docs` loop runs to the end. */
  ghost predicate StoredRemovable(table: map<string, Postings>, docFreqs: map<string, map<nat, Freqs>>, id: nat)
  {
    forall f :: f in docFreqs ==> FieldRemovable(table, docFreqs, id, f)
  }

  /** The tables once the `keep_docs` loop has run to the end. */
  function DropStored(table: map<string, Postings>, docFreqs: map<string, map<nat, Freqs>>, id: nat): (r: map<string, Postings>)
    ensures r.Keys == table.Keys
  {
    map f | f in table :: DropTokens(table[f], StoredTokens(docFreqs, f, id), id)
  }

  /** The tables once the loop without `keep_docs` has popped `id` everywhere. */
  function DropEverywhere(table: map<string, Postings>, id: nat): (r: map<string, Postings>)
    ensures r.Keys == table.Keys
  {
    map f | f in table :: DropDoc(table[f], id)
  }

  /** Each posting of `after` is that of `before`, with `id` deleted or not. */
  ghost predicate OnlyDropped(before: map<string, Postings>, after: map<string, Postings>, id: nat)
  {
    && after.Keys == before.Keys
    && forall f, t :: f in before ==>
         GetDocs(after[f], t) == GetDocs(before[f], t) || GetDocs(after[f], t) == GetDocs(before[f], t) - {id}
  }

  /**
    `remove_document(path)`: an unknown path raises InvalidDocument and
    changes nothing. Otherwise the id is marked removed (None); with
    `keep_docs` each field's stored tokens are deleted from its postings,
    raising KeyError (with some deletions done and nothing else changed)
    when a field has nothing stored for the id or a token no longer lists
    it; without `keep_docs` the id is popped from every posting.
  */
  ghost predicate RemoveOutcome(keepDocs: bool, st: MemState, path: Path, st': MemState, err: Option<ExcType>)
  {
    if path !in st.docs2ids then st' == st && err == Some(InvalidDocument)
    else
      && st'.docs2ids == st.docs2ids
      && st'.ids2docs == st.ids2docs[st.docs2ids[path] := None]
      && st'.docFreqs == st.docFreqs
      && DropOutcome(keepDocs, st.table, st.docFreqs, st.docs2ids[path], st'.table, err)
  }

  /** The loops of `remove_document` over the tables, which deletes `id` from them. */
  ghost predicate DropOutcome(keepDocs: bool, table: map<string, Postings>, docFreqs: map<string, map<nat, Freqs>>, id: nat,
                              table': map<string, Postings>, err: Option<ExcType>)
  {
    && (err.None? <==> !keepDocs || StoredRemovable(table, docFreqs, id))
    && (err.None? && keepDocs ==> table' == DropStored(table, docFreqs, id))
    && (err.None? && !keepDocs ==> table' == DropEverywhere(table, id))
    && (err.Some? ==> err == Some(KeyError) && OnlyDropped(table, table', id))
  }

  /** Deleting `id` from some tokens' postings only ever deletes `id`. */
  lemma DropTokensOnly(index: Postings, done: set<string>, id: nat, t: string)
    ensures GetDocs(DropTokens(index, done, id), t) == GetDocs(index, t)
      || GetDocs(DropTokens(index, done, id), t) == GetDocs(index, t) - {id}
  {
  }

  /** Whatever the outcome, a removal only deletes the id from postings. */
  lemma RemoveOnlyDrops(keepDocs: bool, st: MemState, path: Path, st': MemState, err: Option<ExcType>)
    requires RemoveOutcome(keepDocs, st, path, st', err) && path in st.docs2ids
    ensures OnlyDropped(st.table, st'.table, st.docs2ids[path])
  {
    var id := st.docs2ids[path];
    if err.None? {
      forall f, t | f in st.table
        ensures GetDocs(st'.table[f], t) == GetDocs(st.table[f], t) || GetDocs(st'.table[f], t) == GetDocs(st.table[f], t) - {id}
      {
        DropTokensOnly(st.table[f], StoredTokens(st.docFreqs, f, id), id, t);
        DropTokensOnly(st.table[f], st.table[f].Keys, id, t);
        assert DropDoc(st.table[f], id) == DropTokens(st.table[f], st.table[f].Keys, id);
      }
    }
  }

  /** A removal keeps the state valid, whatever it raises. */
  lemma RemoveKeepsValid(keepDocs: bool, st: MemState, path: Path, st': MemState, err: Option<ExcType>)
    requires Valid(st) && RemoveOutcome(keepDocs, st, path, st', err)
    ensures Valid(st')
  {
    if path in st.docs2ids {
      RemoveOnlyDrops(keepDocs, st, path, st', err);
      var id := st.docs2ids[path];
      assert LiveMapsBack(st') by {
        forall j | Live(st', j) ensures st'.ids2docs[j].value in st'.docs2ids && st'.docs2ids[st'.ids2docs[j].value] == j {
          assert Live(st, j);
        }
      }
    }
  }

  /** No posting of any field lists `id`. */
  ghost predicate Cleared(table: map<string, Postings>, id: nat)
  {
    forall f, t :: f in table ==> id !in GetDocs(table[f], t)
  }

  /**
    On a consistent index a live document is always removable, and walking
    its stored tokens deletes it from exactly the postings that popping it
    everywhere does: afterwards no posting lists it.
  */
  lemma {:induction false} RemoveLiveClears(keepDocs: bool, st: MemState, id: nat)
    requires Valid(st) && Consistent(keepDocs, st) && Live(st, id)
    ensures keepDocs ==> StoredRemovable(st.table, st.docFreqs, id)
    ensures keepDocs ==> DropStored(st.table, st.docFreqs, id) == DropEverywhere(st.table, id)
    ensures Cleared(DropEverywhere(st.table, id), id)
  {
    if keepDocs {
      forall f | f in st.docFreqs
        ensures f in st.table && id in st.docFreqs[f] && (forall t :: t in st.docFreqs[f][id] ==> id in GetDocs(st.table[f], t))
      {
        forall t | t in st.docFreqs[f][id] ensures id in GetDocs(st.table[f], t) {
          ColumnTranspose(st.table[f], id, t);
        }
      }
      forall f | f in st.table ensures DropTokens(st.table[f], StoredTokens(st.docFreqs, f, id), id) == DropDoc(st.table[f], id) {
        DropTokensIsDropDoc(st.table[f], StoredTokens(st.docFreqs, f, id), id);
      }
    }
  }

  /** A dropped-only table over a posting set that did not list the removed id changes no other document's column. */
  lemma OnlyDroppedColumns(before: map<string, Postings>, after: map<string, Postings>, id: nat, f: string, j: nat)
    requires OnlyDropped(before, after, id) && f in before && j != id
    ensures DocColumn(after[f], j) == DocColumn(before[f], j)
  {
    forall t ensures (t in DocColumn(after[f], j)) == (t in DocColumn(before[f], j)) {
      ColumnTranspose(after[f], j, t);
      ColumnTranspose(before[f], j, t);
    }
    forall t | t in DocColumn(after[f], j) ensures DocColumn(after[f], j)[t] == DocColumn(before[f], j)[t] {
      ColumnTranspose(after[f], j, t);
      ColumnTranspose(before[f], j, t);
    }
  }

  /** After a removal, whatever it raises, no posting lists the removed id. */
  lemma RemoveClears(keepDocs: bool, st: MemState, path: Path, st': MemState, err: Option<ExcType>)
    requires Valid(st) && Consistent(keepDocs, st) && RemoveOutcome(keepDocs, st, path, st', err) && path in st.docs2ids
    ensures Cleared(st'.table, st.docs2ids[path])
  {
    var id := st.docs2ids[path];
    RemoveOnlyDrops(keepDocs, st, path, st', err);
    if Live(st, id) {
      RemoveLiveClears(keepDocs, st, id);
    } else {
      forall f, t | f in st.table ensures id !in GetDocs(st.table[f], t) {
      }
    }
  }

  /** Deleting a now removed id leaves postings that mention live ids only. */
  lemma DroppedPostingsLive(st: MemState, st': MemState, id: nat)
    requires PostingsLive(st) && OnlyDropped(st.table, st'.table, id) && Cleared(st'.table, id)
    requires st'.ids2docs == st.ids2docs[id := None]
    ensures PostingsLive(st')
  {
    forall f, t, j | f in st'.table && t in st'.table[f] && j in st'.table[f][t] ensures Live(st', j) {
      assert f in st.table && j in GetDocs(st'.table[f], t);
      assert j != id && j in GetDocs(st.table[f], t);
      assert Live(st, j);
    }
  }

  /** Deleting a now removed id leaves every live document's stored frequencies equal to its columns. */
  lemma DroppedColumnsStored(keepDocs: bool, st: MemState, st': MemState, id: nat)
    requires ColumnsStored(keepDocs, st) && OnlyDropped(st.table, st'.table, id)
    requires st'.ids2docs == st.ids2docs[id := None] && st'.docFreqs == st.docFreqs
    ensures ColumnsStored(keepDocs, st')
  {
    forall f, j | keepDocs && f in st'.docFreqs && Live(st', j)
      ensures f in st'.table && j in st'.docFreqs[f] && DocColumn(st'.table[f], j) == st'.docFreqs[f][j]
    {
      assert Live(st, j);
      OnlyDroppedColumns(st.table, st'.table, id, f, j);
    }
  }

  /**
    A removal keeps a consistent state consistent, whatever it raises:
    afterwards no posting lists the removed id.
  */
  lemma RemoveKeepsConsistent(keepDocs: bool, st: MemState, path: Path, st': MemState, err: Option<ExcType>)
    requires Valid(st) && Consistent(keepDocs, st) && RemoveOutcome(keepDocs, st, path, st', err)
    ensures Consistent(keepDocs, st')
    ensures path in st.docs2ids ==> Cleared(st'.table, st.docs2ids[path])
  {
    if path in st.docs2ids {
      var id := st.docs2ids[path];
      RemoveOnlyDrops(keepDocs, st, path, st', err);
      RemoveClears(keepDocs, st, path, st', err);
      DroppedPostingsLive(st, st', id);
      DroppedColumnsStored(keepDocs, st, st', id);
    }
  }

  // ----- get_docs, get_paths, get_paths_op -----

  /** `get_docs(field, token)`: KeyError for an unknown field; otherwise the token's postings, nothing inserted. */
  function FieldDocs(st: MemState, field: string, token: string): Result<Docs, ExcType>
  {
    if field !in st.table then Failure(KeyError) else Success(GetDocs(st.table[field], token))
  }

  /** The paths of a listing. */
  function PathsOf(hits: seq<(Path, nat)>): set<Path>
  {
    set k | 0 <= k < |hits| :: hits[k].0
  }

  /**
    `get_paths(field, token, scoring)`: the documents holding the token, each as
    its path with the token's frequency ("term_freq") or its position in the
    listing ("unscored").
  */
  function PathsSpec(st: MemState, field: string, token: string, scoring: Scoring): Result<seq<(Path, nat)>, ExcType>
  {
    if field !in st.table then Failure(KeyError)
    else
      var docs := GetDocs(st.table[field], token);
      var listing := Listing(st.ids2docs, docs.Keys, docs, |st.docs2ids|);
      Success(if scoring == Unscored then Enumerated(listing) else listing)
  }

  /**
    `get_paths_op(field, tokens, setop, scoring)`: `setop` with no sets (no
    tokens) raises TypeError before the field is looked up; otherwise the
    documents `setop` selects, with their frequencies summed over the tokens
    ("term_freq") or numbered ("unscored").
  */
  function OpPathsSpec(st: MemState, field: string, tokens: seq<string>, op: SetOp, scoring: Scoring): Result<seq<(Path, nat)>, ExcType>
  {
    if |tokens| == 0 then Failure(TypeError)
    else if field !in st.table then Failure(KeyError)
    else
      var docs := OpDocs(st.table[field], tokens, op);
      if scoring == Unscored then Success(Enumerated(Listing(st.ids2docs, docs, map[], |st.docs2ids|)))
      else Success(Listing(st.ids2docs, docs, TermFreqs(st.table[field], tokens), |st.docs2ids|))
  }

  /** Live ids of a valid state can be listed: they are allocated and their paths differ. */
  lemma ValidIdsListable(st: MemState, ids: set<nat>)
    requires Valid(st)
    requires forall id :: id in ids ==> Live(st, id)
    ensures LiveIds(st.ids2docs, ids, |st.docs2ids|)
  {
    forall i, j | i in st.ids2docs && j in st.ids2docs && i != j && st.ids2docs[i].Some?
      ensures st.ids2docs[i] != st.ids2docs[j]
    {
      assert Live(st, i);
      if st.ids2docs[j].Some? {
        assert Live(st, j);
      }
    }
  }

  /** A path is listed exactly when it is paired with some score. */
  lemma PathsOfHas(l: seq<(Path, nat)>, p: Path)
    ensures p in PathsOf(l) <==> exists n :: (p, n) in l
  {
    if p in PathsOf(l) {
      var k :| 0 <= k < |l| && l[k].0 == p;
      assert (p, l[k].1) == l[k];
    }
    if exists n :: (p, n) in l {
      var n :| (p, n) in l;
      var k :| 0 <= k < |l| && l[k] == (p, n);
    }
  }

  /** Numbering a listing keeps its paths. */
  lemma EnumeratedPaths(l: seq<(Path, nat)>)
    ensures PathsOf(Enumerated(l)) == PathsOf(l)
  {
    assert forall k :: 0 <= k < |l| ==> Enumerated(l)[k].0 == l[k].0;
  }

  /**
    A listing over live ids of a valid state has one entry per id, pairs each
    id's path with its score, lists each id's path, and numbering it keeps
    the paths.
  */
  lemma LiveListing(st: MemState, ids: set<nat>, score: map<nat, nat>)
    requires Valid(st) && forall id :: id in ids ==> Live(st, id)
    ensures var l := Listing(st.ids2docs, ids, score, |st.docs2ids|);
      && |l| == |ids|
      && (forall e :: e in l <==> exists id :: id in ids && st.ids2docs[id] == Some(e.0) && e.1 == Get0(score, id))
      && (forall p :: p in PathsOf(l) <==> exists id :: id in ids && st.ids2docs[id] == Some(p))
      && PathsOf(Enumerated(l)) == PathsOf(l)
  {
    var l := Listing(st.ids2docs, ids, score, |st.docs2ids|);
    ValidIdsListable(st, ids);
    ListingMembers(st.ids2docs, ids, score, |st.docs2ids|);
    forall p ensures p in PathsOf(l) <==> exists id :: id in ids && st.ids2docs[id] == Some(p) {
      ListedPaths(st.ids2docs, ids, score, |st.docs2ids|, p);
    }
    EnumeratedPaths(l);
  }

  /** Over live ids, a path is listed exactly when one of the ids has it. */
  lemma ListedPaths(ids2docs: map<nat, Option<Path>>, ids: set<nat>, score: map<nat, nat>, n: nat, p: Path)
    requires LiveIds(ids2docs, ids, n)
    ensures p in PathsOf(Listing(ids2docs, ids, score, n)) <==> exists id :: id in ids && ids2docs[id] == Some(p)
  {
    var l := Listing(ids2docs, ids, score, n);
    ListingMembers(ids2docs, ids, score, n);
    PathsOfHas(l, p);
    if exists id :: id in ids && ids2docs[id] == Some(p) {
      var id :| id in ids && ids2docs[id] == Some(p);
      var e := (p, Get0(score, id));
      assert id in ids && id in ids2docs && ids2docs[id] == Some(e.0) && e.1 == Get0(score, id);
      assert e in l;
    }
  }

  /** On a state whose postings mention live ids only, a token's documents are live. */
  lemma TokenDocsLive(st: MemState, field: string, token: string)
    requires PostingsLive(st) && field in st.table
    ensures forall id :: id in GetDocs(st.table[field], token) ==> Live(st, id)
  {
    forall id | id in GetDocs(st.table[field], token) ensures Live(st, id) {
      assert token in st.table[field] && id in st.table[field][token];
    }
  }

  /**
    On a consistent state `get_paths` over a known field lists each document
    holding the token once, by its path; scored by "term_freq" each entry is
    its path with the token's frequency there, and "unscored" numbers the
    entries from 0.
  */
  lemma PathsMembers(st: MemState, field: string, token: string, scoring: Scoring)
    requires Valid(st) && PostingsLive(st) && field in st.table
    ensures PathsSpec(st, field, token, scoring).Success?
    ensures var r := PathsSpec(st, field, token, scoring).value;
      var docs := GetDocs(st.table[field], token);
      && |r| == |docs|
      && (forall p :: p in PathsOf(r) <==> exists id :: id in docs && id in st.ids2docs && st.ids2docs[id] == Some(p))
      && (scoring == TermFreqScore ==> forall e :: e in r <==>
            exists id :: id in docs && id in st.ids2docs && st.ids2docs[id] == Some(e.0) && e.1 == docs[id])
      && (scoring == Unscored ==> forall k :: 0 <= k < |r| ==> r[k].1 == k)
  {
    var docs := GetDocs(st.table[field], token);
    TokenDocsLive(st, field, token);
    LiveListing(st, docs.Keys, docs);
    assert |docs.Keys| == |docs|;
  }

  /**
    On a consistent state `get_paths_op` over a known field and at least one
    token lists each document `setop` selects once (AND: holding every token;
    OR: holding one), by path; "term_freq" scores it with its frequencies
    summed over the tokens.
  */
  lemma OpPathsMembers(st: MemState, field: string, tokens: seq<string>, op: SetOp, scoring: Scoring)
    requires Valid(st) && PostingsLive(st) && field in st.table && |tokens| > 0
    ensures OpPathsSpec(st, field, tokens, op, scoring).Success?
    ensures var r := OpPathsSpec(st, field, tokens, op, scoring).value;
      var docs := OpDocs(st.table[field], tokens, op);
      && |r| == |docs|
      && (forall p :: p in PathsOf(r) <==> exists id :: id in docs && id in st.ids2docs && st.ids2docs[id] == Some(p))
      && (scoring == TermFreqScore ==> forall e :: e in r <==>
            exists id :: id in docs && id in st.ids2docs && st.ids2docs[id] == Some(e.0) && e.1 == TermFreq(st.table[field], tokens, id))
  {
    var index := st.table[field];
    var docs := OpDocs(index, tokens, op);
    OpDocsLive(st, field, tokens, op);
    if scoring == Unscored {
      LiveListing(st, docs, map[]);
    } else {
      LiveListing(st, docs, TermFreqs(index, tokens));
    }
  }

  /** The documents `setop` selects are live, and their summed frequency is the stored score. */
  lemma OpDocsLive(st: MemState, field: string, tokens: seq<string>, op: SetOp)
    requires PostingsLive(st) && field in st.table && |tokens| > 0
    ensures forall id :: id in OpDocs(st.table[field], tokens, op) ==>
      Live(st, id) && Get0(TermFreqs(st.table[field], tokens), id) == TermFreq(st.table[field], tokens, id)
  {
    var index := st.table[field];
    forall id | id in OpDocs(index, tokens, op)
      ensures Live(st, id) && Get0(TermFreqs(index, tokens), id) == TermFreq(index, tokens, id)
    {
      OpDocsMembers(index, tokens, op, id);
      var k: nat :| k < |tokens| && id in GetDocs(index, tokens[k]);
      TokenDocsLive(st, field, tokens[k]);
      AnyDocsMembers(index, tokens, id);
    }
  }

  // ----- the loops, on values -----

  /** The `keep_docs` loop of `add_document_freqs`. */
  method StoreFreqsInPlace(docFreqs: map<string, map<nat, Freqs>>, fd: FreqsDict, id: nat)
      returns (r: map<string, map<nat, Freqs>>, err: Option<ExcType>)
    ensures (r, err) == StoreFreqs(docFreqs, fd, id)
  {
    r := docFreqs;
    var i := 0;
    while i < |fd|
      invariant 0 <= i <= |fd|
      invariant StoreFreqs(r, fd[i..], id) == StoreFreqs(docFreqs, fd, id)
    {
      var (name, freqs) := fd[i];
      assert fd[i..][1..] == fd[i + 1..];
      if name !in r {
        return r, Some(KeyError);
      }
      r := StoreOne(r, name, id, freqs);
      i := i + 1;
    }
    assert fd[i..] == [];
    err := None;
  }

  /** The postings loop of `add_document_freqs`: each field's tokens stored under the id by the inner loop. */
  method StorePostingsInPlace(table: map<string, Postings>, fd: FreqsDict, id: nat)
      returns (r: map<string, Postings>, err: Option<ExcType>)
    ensures (r, err) == StorePostings(table, fd, id)
  {
    r := table;
    var i := 0;
    while i < |fd|
      invariant 0 <= i <= |fd|
      invariant StorePostings(r, fd[i..], id) == StorePostings(table, fd, id)
    {
      var (name, freqs) := fd[i];
      assert fd[i..][1..] == fd[i + 1..];
      if name !in r {
        return r, Some(KeyError);
      }
      var index := AddDocInPlace(r[name], freqs, id);
      r := r[name := index];
      i := i + 1;
    }
    assert fd[i..] == [];
    err := None;
  }

  /** One field of the `keep_docs` loop of `remove_document`: `field_freqs[doc_id]`, then the deletions. */
  method DropStoredField(index: Postings, stored: map<nat, Freqs>, id: nat) returns (r: Postings, err: Option<ExcType>)
    ensures err.None? <==> id in stored && forall t :: t in stored[id] ==> id in GetDocs(index, t)
    ensures err.None? ==> r == DropTokens(index, stored[id].Keys, id)
    ensures err.Some? ==> err == Some(KeyError) && forall t :: GetDocs(r, t) == GetDocs(index, t) || GetDocs(r, t) == GetDocs(index, t) - {id}
  {
    if id !in stored {
      return index, Some(KeyError);
    }
    r, err := DropTokensInPlace(index, stored[id].Keys, id);
    if err.Some? {
      ghost var done :| done <= stored[id].Keys && r == DropTokens(index, done, id);
      forall t ensures GetDocs(r, t) == GetDocs(index, t) || GetDocs(r, t) == GetDocs(index, t) - {id} {
        DropTokensOnly(index, done, id, t);
      }
    }
  }

  /** A field's position in `FieldOrder` ("text" and any unknown name after "code"). */
  function FieldPos(f: string): nat
  {
    if f == FieldOrder[0] then 0 else 1
  }

  /** The tables once a loop over the fields has visited the first `n`: these as in `target`, the others untouched. */
  function Partly(table: map<string, Postings>, target: map<string, Postings>, n: nat): (r: map<string, Postings>)
    requires target.Keys == table.Keys
    ensures r.Keys == table.Keys
  {
    map f | f in table :: if FieldPos(f) < n then target[f] else table[f]
  }

  lemma PartlyStep(table: map<string, Postings>, target: map<string, Postings>, i: nat)
    requires target.Keys == table.Keys == {"code", "text"} && i < |FieldOrder|
    ensures Partly(table, target, i + 1) == Partly(table, target, i)[FieldOrder[i] := target[FieldOrder[i]]]
  {
  }

  lemma PartlyEnds(table: map<string, Postings>, target: map<string, Postings>)
    requires target.Keys == table.Keys
    ensures Partly(table, target, 0) == table
    ensures Partly(table, target, |FieldOrder|) == target
  {
  }

  /** The `keep_docs` loop gets through the first `n` fields. */
  ghost predicate RemovableBelow(table: map<string, Postings>, docFreqs: map<string, map<nat, Freqs>>, id: nat, n: nat)
  {
    forall k :: 0 <= k < n && k < |FieldOrder| ==> FieldRemovable(table, docFreqs, id, FieldOrder[k])
  }

  lemma RemovableAll(table: map<string, Postings>, docFreqs: map<string, map<nat, Freqs>>, id: nat)
    requires docFreqs.Keys == {"code", "text"} && RemovableBelow(table, docFreqs, id, |FieldOrder|)
    ensures StoredRemovable(table, docFreqs, id)
  {
    assert FieldRemovable(table, docFreqs, id, FieldOrder[0]) && FieldRemovable(table, docFreqs, id, FieldOrder[1]);
  }

  /**
    The `keep_docs` loop of `remove_document` over `doc_freqs.items()`: each
    field's stored tokens deleted from its postings, until a KeyError.
  */
  method DropStoredInPlace(table: map<string, Postings>, docFreqs: map<string, map<nat, Freqs>>, id: nat)
      returns (r: map<string, Postings>, err: Option<ExcType>)
    requires table.Keys == {"code", "text"} && docFreqs.Keys == {"code", "text"}
    ensures err.None? <==> StoredRemovable(table, docFreqs, id)
    ensures err.None? ==> r == DropStored(table, docFreqs, id)
    ensures err.Some? ==> err == Some(KeyError) && OnlyDropped(table, r, id)
  {
    ghost var target := DropStored(table, docFreqs, id);
    PartlyEnds(table, target);
    r, err := table, None;
    for i := 0 to |FieldOrder|
      invariant err == None
      invariant r == Partly(table, target, i)
      invariant RemovableBelow(table, docFreqs, id, i)
    {
      r, err := DropStoredNext(table, docFreqs, id, i, r);
      if err.Some? {
        return;
      }
    }
    RemovableAll(table, docFreqs, id);
  }

  /** Field `i` of the `keep_docs` loop. */
  method DropStoredNext(table: map<string, Postings>, docFreqs: map<string, map<nat, Freqs>>, id: nat,
                        i: nat, r: map<string, Postings>)
      returns (r': map<string, Postings>, err: Option<ExcType>)
    requires table.Keys == {"code", "text"} && docFreqs.Keys == {"code", "text"} && i < |FieldOrder|
    requires r == Partly(table, DropStored(table, docFreqs, id), i) && RemovableBelow(table, docFreqs, id, i)
    ensures err.None? ==> r' == Partly(table, DropStored(table, docFreqs, id), i + 1) && RemovableBelow(table, docFreqs, id, i + 1)
    ensures err.Some? ==> err == Some(KeyError) && OnlyDropped(table, r', id) && !StoredRemovable(table, docFreqs, id)
  {
    var f := FieldOrder[i];
    assert f in table && r[f] == table[f];
    var dropped;
    dropped, err := DropStoredField(r[f], docFreqs[f], id);
    if err.Some? {
      DropStoredPartial(table, docFreqs, id, i, f, dropped);
    } else {
      assert dropped == DropStored(table, docFreqs, id)[f];
      PartlyStep(table, DropStored(table, docFreqs, id), i);
    }
    r' := r[f := dropped];
  }

  /** After a KeyError in one field, the fields done, that field and the fields not reached only lost `id`. */
  lemma DropStoredPartial(table: map<string, Postings>, docFreqs: map<string, map<nat, Freqs>>, id: nat,
                          n: nat, f: string, dropped: Postings)
    requires f in table
    requires forall t :: GetDocs(dropped, t) == GetDocs(table[f], t) || GetDocs(dropped, t) == GetDocs(table[f], t) - {id}
    ensures OnlyDropped(table, Partly(table, DropStored(table, docFreqs, id), n)[f := dropped], id)
  {
    var target := DropStored(table, docFreqs, id);
    var after := Partly(table, target, n)[f := dropped];
    forall g, t | g in table
      ensures GetDocs(after[g], t) == GetDocs(table[g], t) || GetDocs(after[g], t) == GetDocs(table[g], t) - {id}
    {
      if g != f {
        DropTokensOnly(table[g], StoredTokens(docFreqs, g, id), id, t);
        assert after[g] == target[g] || after[g] == table[g];
      }
    }
  }

  /** The loop of `remove_document` without `keep_docs`: `freqs.pop(doc_id, None)` in every field's postings. */
  method DropEverywhereInPlace(table: map<string, Postings>, id: nat) returns (r: map<string, Postings>)
    requires table.Keys == {"code", "text"}
    ensures r == DropEverywhere(table, id)
  {
    ghost var target := DropEverywhere(table, id);
    PartlyEnds(table, target);
    r := table;
    for i := 0 to |FieldOrder|
      invariant r == Partly(table, target, i)
    {
      var f := FieldOrder[i];
      var dropped := DropDocInPlace(r[f], id);
      PartlyStep(table, target, i);
      r := r[f := dropped];
    }
  }

  /** The paths of a listing do not depend on the scores. */
  lemma {:induction false} ListingScoreFree(ids2docs: map<nat, Option<Path>>, ids: set<nat>, s1: map<nat, nat>, s2: map<nat, nat>, n: nat)
    ensures |Listing(ids2docs, ids, s1, n)| == |Listing(ids2docs, ids, s2, n)|
    ensures forall k :: 0 <= k < |Listing(ids2docs, ids, s1, n)| ==>
      Listing(ids2docs, ids, s1, n)[k].0 == Listing(ids2docs, ids, s2, n)[k].0
    decreases n
  {
    if n > 0 {
      ListingScoreFree(ids2docs, ids, s1, s2, n - 1);
    }
  }

  /**
    `search_text` sends a single token to `get_paths` and several to
    `get_paths_op`: with one token both give the same listing, whatever the
    set operation and the scoring.
  */
  lemma SingleTokenOp(st: MemState, field: string, t: string, op: SetOp, scoring: Scoring)
    ensures OpPathsSpec(st, field, [t], op, scoring) == PathsSpec(st, field, t, scoring)
  {
    if field in st.table {
      var index := st.table[field];
      var docs := GetDocs(index, t);
      assert [t][..0] == [];
      assert OpDocs(index, [t], op) == docs.Keys;
      assert AnyDocs(index, [t]) == docs.Keys;
      forall id | id in docs ensures TermFreq(index, [t], id) == docs[id] {
      }
      assert TermFreqs(index, [t]) == docs;
      var n := |st.docs2ids|;
      ListingScoreFree(st.ids2docs, docs.Keys, map[], docs, n);
      var unscored, scored := Listing(st.ids2docs, docs.Keys, map[], n), Listing(st.ids2docs, docs.Keys, docs, n);
      assert Enumerated(unscored) == Enumerated(scored);
    }
  }

  // ----- remove_document followed by add_document_freqs -----

  /** After a complete add for a path that is not live, the state is valid and consistent and the path is live under its id. */
  lemma AddedLive(keepDocs: bool, st: MemState, path: Path, fd: FreqsDict)
    requires Valid(st) && Consistent(keepDocs, st) && Complete(fd)
    requires !(path in st.docs2ids && Live(st, st.docs2ids[path]))
    ensures var st1 := AddFreqsSpec(keepDocs, st, path, fd).0;
      && Valid(st1) && Consistent(keepDocs, st1)
      && path in st1.docs2ids && st1.docs2ids[path] == IdFor(st, path) && Live(st1, IdFor(st, path))
  {
    AddFreqsComplete(keepDocs, st, path, fd);
    AddFreqsKeepsValid(keepDocs, st, path, fd);
    AddFreqsConsistent(keepDocs, st, path, fd);
    assert AddFreqsSpec(keepDocs, st, path, fd).0 == StoreAll(keepDocs, Mark(st, path), fd, IdFor(st, path)).0;
  }

  /** A posting that gained `id` and lost it again is as before. */
  lemma RestoredPosting(index: Postings, freqs: Freqs, id: nat, after: Postings, t: string)
    requires DocColumn(index, id) == map[] && id !in GetDocs(after, t)
    requires GetDocs(after, t) == GetDocs(AddDoc(index, freqs, id), t) || GetDocs(after, t) == GetDocs(AddDoc(index, freqs, id), t) - {id}
    ensures GetDocs(after, t) == GetDocs(index, t)
  {
    DropAfterAdd(index, freqs, id, t);
    assert GetDocs(after, t) == GetDocs(AddDoc(index, freqs, id), t) - {id};
  }

  /**
    Adding a complete dictionary for a path that is not live and then
    removing the path succeeds, and gives every field back exactly the
    postings it had before the add.
  */
  lemma AddThenRemove(keepDocs: bool, st: MemState, path: Path, fd: FreqsDict, st2: MemState, err: Option<ExcType>)
    requires Valid(st) && Consistent(keepDocs, st) && Complete(fd)
    requires !(path in st.docs2ids && Live(st, st.docs2ids[path]))
    requires RemoveOutcome(keepDocs, AddFreqsSpec(keepDocs, st, path, fd).0, path, st2, err)
    ensures err == None
    ensures st2.table.Keys == st.table.Keys
    ensures forall f, t :: f in st.table ==> GetDocs(st2.table[f], t) == GetDocs(st.table[f], t)
  {
    var st1 := AddFreqsSpec(keepDocs, st, path, fd).0;
    var id := IdFor(st, path);
    AddedLive(keepDocs, st, path, fd);
    AddFreqsComplete(keepDocs, st, path, fd);
    RemoveLiveClears(keepDocs, st1, id);
    RemoveClears(keepDocs, st1, path, st2, err);
    RemoveOnlyDrops(keepDocs, st1, path, st2, err);
    IdForNotLive(st, path);
    forall f, t | f in st.table ensures GetDocs(st2.table[f], t) == GetDocs(st.table[f], t) {
      NotLiveColumn(st, f, id);
      RestoredPosting(st.table[f], FreqsOf(fd, f), id, st2.table[f], t);
    }
  }

  /**
    `update_document` on a consistent state: removing a live path succeeds,
    and a complete dictionary added for it afterwards is accepted (True)
    under the same id; each field's column of the postings then holds
    exactly the new frequencies.
  */
  lemma UpdateLive(keepDocs: bool, st: MemState, path: Path, st2: MemState, err: Option<ExcType>, fd: FreqsDict)
    requires Valid(st) && Consistent(keepDocs, st) && Complete(fd)
    requires path in st.docs2ids && Live(st, st.docs2ids[path])
    requires RemoveOutcome(keepDocs, st, path, st2, err)
    ensures err == None
    ensures var (st3, r) := AddFreqsSpec(keepDocs, st2, path, fd);
      && r == Success(true) && st3.docs2ids == st.docs2ids
      && forall f :: f in st.table ==> DocColumn(st3.table[f], st.docs2ids[path]) == FreqsOf(fd, f)
  {
    var id := st.docs2ids[path];
    RemoveLiveClears(keepDocs, st, id);
    RemoveKeepsValid(keepDocs, st, path, st2, err);
    RemoveKeepsConsistent(keepDocs, st, path, st2, err);
    AddFreqsRegisters(keepDocs, st2, path, fd);
    AddFreqsComplete(keepDocs, st2, path, fd);
    AddFreqsColumns(keepDocs, st2, path, fd);
  }

  /** The document of tests/test_backends.py: no code tokens, the text tokens "hello" and "world" once each. */
  function TestDoc(): FreqsDict
  {
    [("code", map[]), ("text", map["hello" := 1, "world" := 1])]
  }

  lemma TestDocComplete()
    ensures Complete(TestDoc())
  {
    var fd := TestDoc();
    assert fd[0].0 == "code" && fd[1].0 == "text";
    assert Names(fd) == {"code", "text"};
  }

  /**
    tests/test_backends.py: adding the test document as "test.py" to an
    empty index answers True and gives `get_docs("text", "hello") == {0: 1}`.
  */
  lemma BackendTestAdd(keepDocs: bool)
    ensures AddFreqsSpec(keepDocs, Empty(), "test.py", TestDoc()).1 == Success(true)
    ensures FieldDocs(AddFreqsSpec(keepDocs, Empty(), "test.py", TestDoc()).0, "text", "hello") == Success(map[0 := 1])
  {
    TestDocComplete();
    EmptyValid(keepDocs);
    AddFreqsComplete(keepDocs, Empty(), "test.py", TestDoc());
    assert FreqsOf(TestDoc(), "text") == map["hello" := 1, "world" := 1];
  }

  /** tests/test_backends.py: removing "test.py" again succeeds and leaves `get_docs("text", "hello") == {}`, with or without `keep_docs`. */
  lemma BackendTest(keepDocs: bool, st2: MemState, err: Option<ExcType>)
    requires RemoveOutcome(keepDocs, AddFreqsSpec(keepDocs, Empty(), "test.py", TestDoc()).0, "test.py", st2, err)
    ensures err == None && FieldDocs(st2, "text", "hello") == Success(map[])
  {
    TestDocComplete();
    EmptyValid(keepDocs);
    AddThenRemove(keepDocs, Empty(), "test.py", TestDoc(), st2, err);
  }
}
