/**
  utils.py's `InvertedIndex`: paths get document ids (kept after removal for
  reuse), each added document's token frequencies go into the postings table,
  and removal either walks the document's own frequencies (`keep_docs`) or the
  whole table.

  The tokenizer plugins are reached through `Analyze`, the plugin object's
  `tokenize(path)` as seen from here: given the class name registered for the
  path's suffix and the path, it returns the frequencies or the exception it
  raises.
*/
module Index {
  import opened Wrappers
  import opened PyErrors
  import opened Paths
  import opened Postings
  import opened Query
  import Registry

  /** `self.tokenizers[suffix].tokenize(path)`: the frequencies, or the exception raised. */
  type Analyze = (string, Path) -> Result<Freqs, ExcType>

  /** The four dictionaries of an `InvertedIndex`. */
  datatype IndexState = IndexState(
    docs2ids: map<Path, nat>,
    ids2docs: map<nat, Option<Path>>,
    index: Postings,
    docFreqs: map<nat, Freqs>)

  /** The state `clear()` leaves. */
  function Empty(): IndexState
  {
    IndexState(map[], map[], map[], map[])
  }

  /** `id` belongs to an indexed (not removed) document. */
  ghost predicate Live(st: IndexState, id: nat)
  {
    id in st.ids2docs && st.ids2docs[id].Some?
  }

  /** Ids are allocated from 0 up, one per path, and every id with an `ids2docs` entry has been allocated. */
  ghost predicate IdsAllocated(st: IndexState)
  {
    && (forall p :: p in st.docs2ids ==> st.docs2ids[p] < |st.docs2ids|)
    && (forall p, q :: p in st.docs2ids && q in st.docs2ids && st.docs2ids[p] == st.docs2ids[q] ==> p == q)
    && (forall id :: id in st.ids2docs ==> id < |st.docs2ids|)
  }

  /** A live id's path maps back to it. */
  ghost predicate LiveMapsBack(st: IndexState)
  {
    forall id :: Live(st, id) ==> st.ids2docs[id].value in st.docs2ids && st.docs2ids[st.ids2docs[id].value] == id
  }

  /** The postings mention live ids only. */
  ghost predicate PostingsLive(st: IndexState)
  {
    forall t, id :: t in st.index && id in st.index[t] ==> Live(st, id)
  }

  /** With `keep_docs`, a live document's stored frequencies are exactly its column of the postings. */
  ghost predicate ColumnsStored(keepDocs: bool, st: IndexState)
  {
    keepDocs ==> forall id :: Live(st, id) ==> id in st.docFreqs && DocColumn(st.index, id) == st.docFreqs[id]
  }

  /** What add, remove and clear keep true. */
  ghost predicate IndexValid(keepDocs: bool, st: IndexState)
  {
    IdsAllocated(st) && LiveMapsBack(st) && PostingsLive(st) && ColumnsStored(keepDocs, st)
  }

  /**
    `add_document(path)`: a path whose suffix has no tokenizer, or whose id is
    live, is ignored with 0; a path seen before keeps its id, a new one gets
    `len(docs2ids)`, registered before the tokenizer runs. An exception from
    the tokenizer propagates with only that registration done; otherwise the
    frequencies are stored under the id and their count is returned.
  */
  function AddSpec(keepDocs: bool, tokenizers: map<string, string>, analyze: Analyze, st: IndexState, path: Path): (IndexState, Result<nat, ExcType>)
  {
    var suffix := Suffix(path);
    if suffix !in tokenizers then (st, Success(0))
    else if path in st.docs2ids && st.docs2ids[path] !in st.ids2docs then (st, Failure(KeyError))
    else if path in st.docs2ids && st.ids2docs[st.docs2ids[path]].Some? then (st, Success(0))
    else
      var id := if path in st.docs2ids then st.docs2ids[path] else |st.docs2ids|;
      var registered := Register(st, path, id);
      match analyze(tokenizers[suffix], path)
      case Failure(e) => (registered, Failure(e))
      case Success(freqs) => (Stored(keepDocs, registered, path, id, freqs), Success(|freqs|))
  }

  /** `docs2ids[path] = id`. */
  function Register(st: IndexState, path: Path, id: nat): IndexState
  {
    st.(docs2ids := st.docs2ids[path := id])
  }

  /** The stores of `add_document` for the path registered under `id`. */
  function Stored(keepDocs: bool, st: IndexState, path: Path, id: nat, freqs: Freqs): IndexState
  {
    st.(ids2docs := st.ids2docs[id := Some(path)], index := AddDoc(st.index, freqs, id),
        docFreqs := if keepDocs then st.docFreqs[id := freqs] else st.docFreqs)
  }

  /**
    `remove_document(path)`: an unknown path raises InvalidDocument; otherwise
    the id is marked removed and leaves every posting. With `keep_docs` the
    document's stored frequencies drive the deletion, so a document without
    stored frequencies, or one already removed that had tokens, raises
    KeyError after the marking.
  */
  function RemoveSpec(keepDocs: bool, st: IndexState, path: Path): (IndexState, Option<ExcType>)
  {
    if path !in st.docs2ids then (st, Some(InvalidDocument))
    else
      var id := st.docs2ids[path];
      var marked := st.(ids2docs := st.ids2docs[id := None]);
      if keepDocs && id !in st.docFreqs then (marked, Some(KeyError))
      else if keepDocs && !(forall t :: t in st.docFreqs[id] ==> id in GetDocs(st.index, t)) then (marked, Some(KeyError))
      else (marked.(index := DropDoc(st.index, id)), None)
  }

  /** `get_paths(token)`: each document holding the token, as its path and the token's frequency there. */
  function TokenPaths(st: IndexState, token: string): seq<(Path, nat)>
  {
    var docs := GetDocs(st.index, token);
    Listing(st.ids2docs, docs.Keys, docs, |st.docs2ids|)
  }

  /**
    `get_paths_op(tokens, setop)`: the documents `setop` selects, each with its
    frequencies summed over the tokens. `setop` called with no sets raises
    TypeError.
  */
  function OpPaths(st: IndexState, tokens: seq<string>, op: SetOp): Result<seq<(Path, nat)>, ExcType>
  {
    if |tokens| == 0 then Failure(TypeError)
    else Success(Listing(st.ids2docs, OpDocs(st.index, tokens, op), TermFreqs(st.index, tokens), |st.docs2ids|))
  }

  /** The id `add_document` registers a non-live path under: its own id, or `len(docs2ids)` for a new path. */
  ghost predicate Registrable(st: IndexState, path: Path, id: nat)
  {
    && (path in st.docs2ids ==> st.docs2ids[path] == id)
    && (path !in st.docs2ids ==> id == |st.docs2ids|)
  }

  /** Registering a path keeps the index valid and leaves its id not live. */
  lemma {:induction false} RegisterKeepsValid(keepDocs: bool, st: IndexState, path: Path, id: nat)
    requires IndexValid(keepDocs, st)
    requires Registrable(st, path, id)
    ensures IndexValid(keepDocs, Register(st, path, id))
    ensures Live(Register(st, path, id), id) == Live(st, id)
  {
    var st' := Register(st, path, id);
    if path in st.docs2ids {
      assert st'.docs2ids == st.docs2ids;
    } else {
      assert |st'.docs2ids| == |st.docs2ids| + 1;
    }
    assert IdsAllocated(st');
    assert LiveMapsBack(st') by {
      forall j | Live(st', j) ensures st'.ids2docs[j].value in st'.docs2ids && st'.docs2ids[st'.ids2docs[j].value] == j {
        assert Live(st, j);
        assert st'.ids2docs[j].value != path || path in st.docs2ids;
      }
    }
    assert PostingsLive(st') by {
      forall t, j | t in st'.index && j in st'.index[t] ensures Live(st', j) {
        assert Live(st, j);
      }
    }
    assert ColumnsStored(keepDocs, st') by {
      forall j | keepDocs && Live(st', j) ensures j in st'.docFreqs && DocColumn(st'.index, j) == st'.docFreqs[j] {
        assert Live(st, j);
      }
    }
  }

  lemma {:induction false} StoredMapsBack(keepDocs: bool, st: IndexState, path: Path, id: nat, freqs: Freqs)
    requires LiveMapsBack(st) && path in st.docs2ids && st.docs2ids[path] == id
    ensures LiveMapsBack(Stored(keepDocs, st, path, id, freqs))
  {
    var st' := Stored(keepDocs, st, path, id, freqs);
    forall j | Live(st', j) ensures st'.ids2docs[j].value in st'.docs2ids && st'.docs2ids[st'.ids2docs[j].value] == j {
      if j != id {
        assert Live(st, j);
      }
    }
  }

  lemma {:induction false} StoredPostingsLive(keepDocs: bool, st: IndexState, path: Path, id: nat, freqs: Freqs)
    requires PostingsLive(st)
    ensures PostingsLive(Stored(keepDocs, st, path, id, freqs))
  {
    var st' := Stored(keepDocs, st, path, id, freqs);
    assert st'.ids2docs == st.ids2docs[id := Some(path)];
    forall t, j | t in st'.index && j in st'.index[t] ensures Live(st', j) {
      if j != id {
        assert st'.index[t] == if t in freqs then GetDocs(st.index, t)[id := freqs[t]] else st.index[t];
        assert j in GetDocs(st.index, t);
        assert Live(st, j);
      }
    }
  }

  lemma {:induction false} StoredColumns(keepDocs: bool, st: IndexState, path: Path, id: nat, freqs: Freqs)
    requires PostingsLive(st) && ColumnsStored(keepDocs, st) && !Live(st, id)
    ensures ColumnsStored(keepDocs, Stored(keepDocs, st, path, id, freqs))
  {
    var st' := Stored(keepDocs, st, path, id, freqs);
    assert DocColumn(st.index, id) == map[] by {
      forall t | t in st.index ensures id !in st.index[t] {
      }
    }
    forall j | keepDocs && Live(st', j) ensures j in st'.docFreqs && DocColumn(st'.index, j) == st'.docFreqs[j] {
      AddDocColumns(st.index, freqs, id, j);
      if j != id {
        assert Live(st, j);
      }
    }
  }

  /** Storing frequencies under the registered, not live, id of a path keeps the index valid. */
  lemma StoredKeepsValid(keepDocs: bool, st: IndexState, path: Path, id: nat, freqs: Freqs)
    requires IndexValid(keepDocs, st)
    requires path in st.docs2ids && st.docs2ids[path] == id && !Live(st, id)
    ensures IndexValid(keepDocs, Stored(keepDocs, st, path, id, freqs))
  {
    StoredMapsBack(keepDocs, st, path, id, freqs);
    StoredPostingsLive(keepDocs, st, path, id, freqs);
    StoredColumns(keepDocs, st, path, id, freqs);
  }

  /** `add_document` keeps the index valid, whatever the tokenizer does. */
  lemma {:induction false} AddKeepsValid(keepDocs: bool, tokenizers: map<string, string>, analyze: Analyze, st: IndexState, path: Path)
    requires IndexValid(keepDocs, st)
    ensures IndexValid(keepDocs, AddSpec(keepDocs, tokenizers, analyze, st, path).0)
  {
    var suffix := Suffix(path);
    if suffix in tokenizers && !(path in st.docs2ids && st.docs2ids[path] !in st.ids2docs)
      && !(path in st.docs2ids && st.ids2docs[st.docs2ids[path]].Some?) {
      var id := if path in st.docs2ids then st.docs2ids[path] else |st.docs2ids|;
      assert !Live(st, id);
      RegisterKeepsValid(keepDocs, st, path, id);
      match analyze(tokenizers[suffix], path)
      case Failure(e) =>
      case Success(freqs) =>
        StoredKeepsValid(keepDocs, Register(st, path, id), path, id, freqs);
    }
  }

  /** Marking an id removed keeps the index valid when the postings no longer mention it. */
  lemma {:induction false} MarkedKeepsValid(keepDocs: bool, st: IndexState, id: nat, index: Postings)
    requires IndexValid(keepDocs, st)
    requires forall t, j :: t in index && j in index[t] ==> j != id && t in st.index && j in st.index[t]
    requires forall j :: j != id ==> DocColumn(index, j) == DocColumn(st.index, j)
    requires id in st.ids2docs || id < |st.docs2ids|
    ensures IndexValid(keepDocs, st.(ids2docs := st.ids2docs[id := None], index := index))
  {
    var st' := st.(ids2docs := st.ids2docs[id := None], index := index);
    assert IdsAllocated(st');
    assert LiveMapsBack(st') by {
      forall j | Live(st', j) ensures st'.ids2docs[j].value in st'.docs2ids && st'.docs2ids[st'.ids2docs[j].value] == j {
        assert Live(st, j);
      }
    }
    assert PostingsLive(st') by {
      forall t, j | t in st'.index && j in st'.index[t] ensures Live(st', j) {
        assert Live(st, j);
      }
    }
    assert ColumnsStored(keepDocs, st') by {
      forall j | keepDocs && Live(st', j) ensures j in st'.docFreqs && DocColumn(st'.index, j) == st'.docFreqs[j] {
        assert Live(st, j);
      }
    }
  }

  lemma {:induction false} RemoveKeepsValid(keepDocs: bool, st: IndexState, path: Path)
    requires IndexValid(keepDocs, st)
    ensures IndexValid(keepDocs, RemoveSpec(keepDocs, st, path).0)
  {
    if path in st.docs2ids {
      var id := st.docs2ids[path];
      if keepDocs && id !in st.docFreqs {
        assert !Live(st, id);
        MarkedKeepsValid(keepDocs, st, id, st.index);
      } else if keepDocs && !(forall t :: t in st.docFreqs[id] ==> id in GetDocs(st.index, t)) {
        assert !Live(st, id);
        MarkedKeepsValid(keepDocs, st, id, st.index);
      } else {
        forall j: nat {
          DropDocColumns(st.index, id, j);
        }
        MarkedKeepsValid(keepDocs, st, id, DropDoc(st.index, id));
      }
    }
  }

  /**
    A successful add of a path that is not live stores its frequencies as its
    column of the postings: `get_docs(token)[id]` is the token's frequency, the
    id resolves to the path, and no other document's column changes. A path
    seen before keeps its id; a new one gets `len(docs2ids)`.
  */
  lemma {:induction false} AddStores(keepDocs: bool, tokenizers: map<string, string>, analyze: Analyze, st: IndexState, path: Path, freqs: Freqs)
    requires IndexValid(keepDocs, st)
    requires Suffix(path) in tokenizers && analyze(tokenizers[Suffix(path)], path) == Success(freqs)
    requires path !in st.docs2ids || (st.docs2ids[path] in st.ids2docs && st.ids2docs[st.docs2ids[path]] == None)
    ensures var (st', r) := AddSpec(keepDocs, tokenizers, analyze, st, path);
      && r == Success(|freqs|)
      && (path in st.docs2ids ==> st'.docs2ids == st.docs2ids)
      && (path !in st.docs2ids ==> st'.docs2ids == st.docs2ids[path := |st.docs2ids|])
      && st'.ids2docs[st'.docs2ids[path]] == Some(path)
      && DocColumn(st'.index, st'.docs2ids[path]) == freqs
      && (forall t :: t in freqs ==> GetDocs(st'.index, t)[st'.docs2ids[path]] == freqs[t])
      && (forall other: nat :: other != st'.docs2ids[path] ==> DocColumn(st'.index, other) == DocColumn(st.index, other))
  {
    var id := if path in st.docs2ids then st.docs2ids[path] else |st.docs2ids|;
    if path in st.docs2ids {
      assert st.docs2ids[path := id] == st.docs2ids;
    }
    assert !Live(st, id);
    assert DocColumn(st.index, id) == map[] by {
      forall t | t in st.index ensures id !in st.index[t] {
      }
    }
    var st' := AddSpec(keepDocs, tokenizers, analyze, st, path).0;
    assert st' == Stored(keepDocs, Register(st, path, id), path, id, freqs);
    forall other: nat {
      AddDocColumns(st.index, freqs, id, other);
    }
    forall t | t in freqs ensures GetDocs(st'.index, t)[id] == freqs[t] {
      ColumnTranspose(st'.index, id, t);
    }
  }

  /**
    A path whose suffix has no tokenizer, or that is indexed already, is
    ignored: `add_document` returns 0 and the index does not change.
  */
  lemma AddIgnores(keepDocs: bool, tokenizers: map<string, string>, analyze: Analyze, st: IndexState, path: Path)
    requires Suffix(path) !in tokenizers || (path in st.docs2ids && Live(st, st.docs2ids[path]))
    ensures AddSpec(keepDocs, tokenizers, analyze, st, path) == (st, Success(0))
  {
  }

  /**
    When the tokenizer raised while a path was first added, the path keeps its
    id but has no `ids2docs` entry, and every later add of it raises KeyError.
  */
  lemma AddAfterRaiseFails(keepDocs: bool, tokenizers: map<string, string>, analyze: Analyze, later: Analyze, st: IndexState, path: Path)
    requires Suffix(path) in tokenizers && path !in st.docs2ids
    requires IndexValid(keepDocs, st)
    requires analyze(tokenizers[Suffix(path)], path).Failure?
    ensures var st' := AddSpec(keepDocs, tokenizers, analyze, st, path).0;
      AddSpec(keepDocs, tokenizers, later, st', path) == (st', Failure(KeyError))
  {
  }

  /**
    Removing an indexed document marks its id removed and takes it out of
    every posting, keeping every other column.
  */
  lemma {:induction false} RemoveLive(keepDocs: bool, st: IndexState, path: Path)
    requires IndexValid(keepDocs, st)
    requires path in st.docs2ids && Live(st, st.docs2ids[path])
    ensures var (st', err) := RemoveSpec(keepDocs, st, path);
      && err == None
      && st'.docs2ids == st.docs2ids
      && st'.ids2docs == st.ids2docs[st.docs2ids[path] := None]
      && DocColumn(st'.index, st.docs2ids[path]) == map[]
      && (forall other: nat :: other != st.docs2ids[path] ==> DocColumn(st'.index, other) == DocColumn(st.index, other))
  {
    var id := st.docs2ids[path];
    if keepDocs {
      assert id in st.docFreqs && DocColumn(st.index, id) == st.docFreqs[id];
      forall t | t in st.docFreqs[id] ensures id in GetDocs(st.index, t) {
        ColumnTranspose(st.index, id, t);
      }
    }
    assert RemoveSpec(keepDocs, st, path).0.index == DropDoc(st.index, id);
    forall other: nat {
      DropDocColumns(st.index, id, other);
    }
  }

  /**
    On an index kept with `keep_docs`, walking the document's stored
    frequencies and walking the whole table remove an indexed document, or
    reject an unknown path, alike.
  */
  lemma {:induction false} StrategiesAgree(st: IndexState, path: Path)
    requires IndexValid(true, st)
    requires path in st.docs2ids ==> Live(st, st.docs2ids[path])
    ensures RemoveSpec(true, st, path) == RemoveSpec(false, st, path)
  {
    if path in st.docs2ids {
      var id := st.docs2ids[path];
      assert id in st.docFreqs && DocColumn(st.index, id) == st.docFreqs[id];
      forall t | t in st.docFreqs[id] ensures id in GetDocs(st.index, t) {
        ColumnTranspose(st.index, id, t);
      }
    }
  }

  /**
    With `keep_docs`, removing a document a second time raises KeyError when it
    had tokens (the stale frequencies name postings it has left); without it
    the second removal succeeds. Either way the table is unchanged.
  */
  lemma {:induction false} RemoveTwice(keepDocs: bool, st: IndexState, path: Path)
    requires IndexValid(keepDocs, st)
    requires path in st.docs2ids && Live(st, st.docs2ids[path])
    ensures var once := RemoveSpec(keepDocs, st, path).0;
      var (twice, err) := RemoveSpec(keepDocs, once, path);
      && twice == once
      && (err == None <==> !keepDocs || st.docFreqs[st.docs2ids[path]] == map[])
      && (err != None ==> err == Some(KeyError))
  {
    var id := st.docs2ids[path];
    RemoveLive(keepDocs, st, path);
    var once := RemoveSpec(keepDocs, st, path).0;
    RemoveKeepsValid(keepDocs, st, path);
    assert forall t :: t in once.index ==> id !in once.index[t] by {
      forall t | t in once.index ensures id !in once.index[t] {
        ColumnTranspose(once.index, id, t);
      }
    }
    assert DropDoc(once.index, id) == once.index by {
      forall t | t in once.index ensures once.index[t] - {id} == once.index[t] {
      }
    }
    assert once.ids2docs[id := None] == once.ids2docs;
    if keepDocs && st.docFreqs[id] != map[] {
      var t :| t in st.docFreqs[id];
      assert id !in GetDocs(once.index, t);
    }
  }

  /** Re-adding a removed path reuses its id and stores the new frequencies as its column. */
  lemma {:induction false} ReAddReusesId(keepDocs: bool, tokenizers: map<string, string>, analyze: Analyze, st: IndexState, path: Path, freqs: Freqs)
    requires IndexValid(keepDocs, st)
    requires path in st.docs2ids && Live(st, st.docs2ids[path])
    requires Suffix(path) in tokenizers && analyze(tokenizers[Suffix(path)], path) == Success(freqs)
    ensures var removed := RemoveSpec(keepDocs, st, path).0;
      var (st', r) := AddSpec(keepDocs, tokenizers, analyze, removed, path);
      && r == Success(|freqs|)
      && st'.docs2ids == st.docs2ids
      && st'.ids2docs == st.ids2docs
      && DocColumn(st'.index, st.docs2ids[path]) == freqs
  {
    var id := st.docs2ids[path];
    RemoveLive(keepDocs, st, path);
    RemoveKeepsValid(keepDocs, st, path);
    var removed := RemoveSpec(keepDocs, st, path).0;
    AddStores(keepDocs, tokenizers, analyze, removed, path, freqs);
    assert st.ids2docs[id] == Some(path) by {
      var q := st.ids2docs[id].value;
      assert q in st.docs2ids && st.docs2ids[q] == id;
    }
    assert st.ids2docs[id := None][id := Some(path)] == st.ids2docs;
  }

  /**
    `get_paths(token)` lists each document holding the token once, with its
    path and the token's frequency there.
  */
  lemma {:induction false} TokenPathsMembers(keepDocs: bool, st: IndexState, token: string)
    requires IndexValid(keepDocs, st)
    ensures |TokenPaths(st, token)| == |GetDocs(st.index, token)|
    ensures forall e :: e in TokenPaths(st, token) <==>
      exists id :: id in GetDocs(st.index, token) && id in st.ids2docs && st.ids2docs[id] == Some(e.0) && e.1 == GetDocs(st.index, token)[id]
  {
    var docs := GetDocs(st.index, token);
    forall id | id in docs.Keys ensures Live(st, id) {
      assert token in st.index && id in st.index[token];
    }
    ValidIdsListable(keepDocs, st, docs.Keys);
    ListingMembers(st.ids2docs, docs.Keys, docs, |st.docs2ids|);
    assert |docs.Keys| == |docs|;
  }

  /**
    `get_paths_op(tokens, setop)` over at least one token lists each document
    `setop` selects once, with its path and its frequencies summed over the
    tokens (a repeated token counts again).
  */
  lemma {:induction false} OpPathsMembers(keepDocs: bool, st: IndexState, tokens: seq<string>, op: SetOp)
    requires IndexValid(keepDocs, st)
    requires |tokens| > 0
    ensures OpPaths(st, tokens, op).Success?
    ensures |OpPaths(st, tokens, op).value| == |OpDocs(st.index, tokens, op)|
    ensures forall e :: e in OpPaths(st, tokens, op).value <==>
      exists id :: id in OpDocs(st.index, tokens, op) && id in st.ids2docs && st.ids2docs[id] == Some(e.0) && e.1 == TermFreq(st.index, tokens, id)
  {
    var docs := OpDocs(st.index, tokens, op);
    var scores := TermFreqs(st.index, tokens);
    forall id | id in docs ensures Live(st, id) && Get0(scores, id) == TermFreq(st.index, tokens, id) {
      OpDocsMembers(st.index, tokens, op, id);
      var k: nat :| k < |tokens| && id in GetDocs(st.index, tokens[k]);
      assert tokens[k] in st.index && id in st.index[tokens[k]];
      AnyDocsMembers(st.index, tokens, id);
    }
    ValidIdsListable(keepDocs, st, docs);
    ListingMembers(st.ids2docs, docs, scores, |st.docs2ids|);
  }

  /** Live ids of a valid index can be listed: they are allocated and their paths differ. */
  lemma ValidIdsListable(keepDocs: bool, st: IndexState, ids: set<nat>)
    requires IndexValid(keepDocs, st)
    requires forall id :: id in ids ==> Live(st, id)
    ensures LiveIds(st.ids2docs, ids, |st.docs2ids|)
  {
    forall i, j | i in st.ids2docs && j in st.ids2docs && i != j && st.ids2docs[i].Some?
      ensures st.ids2docs[i] != st.ids2docs[j]
    {
      assert Live(st, i);
      if st.ids2docs[j].Some? {
        assert Live(st, j);
      }
    }
  }

  /**
    On a valid index with `keep_docs`, the deletion loop over a document's
    stored tokens either gets through them, leaving the postings with the
    document popped everywhere, or (only for a removed document) stops with
    the postings unchanged.
  */
  lemma StoredTokensDropped(st: IndexState, id: nat, r: Postings, err: Option<ExcType>)
    requires IndexValid(true, st) && id in st.docFreqs
    requires err.None? <==> forall t :: t in st.docFreqs[id].Keys ==> id in GetDocs(st.index, t)
    requires err.None? ==> r == DropTokens(st.index, st.docFreqs[id].Keys, id)
    requires err.Some? ==> exists done :: done <= st.docFreqs[id].Keys && r == DropTokens(st.index, done, id)
    ensures err.None? ==> r == DropDoc(st.index, id)
    ensures err.Some? ==> r == st.index
  {
    var tokens := st.docFreqs[id].Keys;
    if Live(st, id) {
      assert DocColumn(st.index, id) == st.docFreqs[id];
      forall t | t in tokens ensures id in GetDocs(st.index, t) {
        ColumnTranspose(st.index, id, t);
      }
      DropTokensIsDropDoc(st.index, tokens, id);
    } else {
      assert DocColumn(st.index, id) == map[] by {
        forall t | t in st.index ensures id !in st.index[t] {
        }
      }
      DropAbsent(st.index, tokens, id);
      if err.Some? {
        var done :| done <= tokens && r == DropTokens(st.index, done, id);
        DropAbsent(st.index, done, id);
      }
    }
  }

  /** An `InvertedIndex` object. */
  class InvertedIndex {
    const keepDocs: bool
    /** Suffix to the class name of the plugin registered for it. */
    const tokenizers: map<string, string>
    var docs2ids: map<Path, nat>
    var ids2docs: map<nat, Option<Path>>
    var index: Postings
    var docFreqs: map<nat, Freqs>

    function State(): IndexState
      reads this
    {
      IndexState(docs2ids, ids2docs, index, docFreqs)
    }

    ghost predicate Valid()
      reads this
    {
      IndexValid(keepDocs, State())
    }

    /** `InvertedIndex(keep_docs)`: the plugin modules in `importable` register their suffixes; the index starts empty. */
    constructor(keepDocs: bool, importable: set<string>)
      ensures this.keepDocs == keepDocs
      ensures tokenizers == Registry.Registered(Registry.ShippedPlugins, importable)
      ensures State() == Empty() && Valid()
    {
      this.keepDocs := keepDocs;
      tokenizers := Registry.Registered(Registry.ShippedPlugins, importable);
      docs2ids, ids2docs, index, docFreqs := map[], map[], map[], map[];
    }

    /** `clear()`. */
    method Clear()
      modifies this
      ensures State() == Empty() && Valid()
    {
      docs2ids, ids2docs, index, docFreqs := map[], map[], map[], map[];
    }

    /** `add_document(path)`. */
    method AddDocument(path: Path, analyze: Analyze) returns (r: Result<nat, ExcType>)
      requires Valid()
      modifies this
      ensures (State(), r) == AddSpec(keepDocs, tokenizers, analyze, old(State()), path)
      ensures Valid()
    {
      ghost var st := State();
      var suffix := Suffix(path);
      if suffix !in tokenizers {
        r := Success(0);
      } else if path in docs2ids && docs2ids[path] !in ids2docs {
        r := Failure(KeyError);
      } else if path in docs2ids && ids2docs[docs2ids[path]].Some? {
        r := Success(0);
      } else {
        var id: nat := if path in docs2ids then docs2ids[path] else |docs2ids|;
        assert !Live(st, id);
        RegisterPath(path, id);
        match analyze(tokenizers[suffix], path) {
          case Failure(e) =>
            r := Failure(e);
          case Success(freqs) =>
            Store(path, id, freqs);
            r := Success(|freqs|);
        }
      }
    }

    /** `doc_id = self.docs2ids[path] = len(self.docs2ids)` for a new path; nothing for a known one. */
    method RegisterPath(path: Path, id: nat)
      requires Valid() && Registrable(State(), path, id)
      modifies this
      ensures State() == Register(old(State()), path, id)
      ensures Valid() && Live(State(), id) == Live(old(State()), id)
    {
      RegisterKeepsValid(keepDocs, State(), path, id);
      if path !in docs2ids {
        docs2ids := docs2ids[path := id];
      } else {
        assert docs2ids[path := id] == docs2ids;
      }
    }

    /** The stores of `add_document` once the path is registered under the non-live `id`. */
    method Store(path: Path, id: nat, freqs: Freqs)
      requires Valid() && path in docs2ids && docs2ids[path] == id && !Live(State(), id)
      modifies this
      ensures State() == Stored(keepDocs, old(State()), path, id, freqs)
      ensures Valid()
    {
      StoredKeepsValid(keepDocs, State(), path, id, freqs);
      ids2docs := ids2docs[id := Some(path)];
      if keepDocs {
        docFreqs := docFreqs[id := freqs];
      }
      index := AddDocInPlace(index, freqs, id);
    }

    /** `remove_document(path)`. */
    method RemoveDocument(path: Path) returns (err: Option<ExcType>)
      requires Valid()
      modifies this
      ensures (State(), err) == RemoveSpec(keepDocs, old(State()), path)
      ensures Valid()
    {
      ghost var st := State();
      RemoveKeepsValid(keepDocs, st, path);
      if path !in docs2ids {
        err := Some(InvalidDocument);
      } else {
        var id := docs2ids[path];
        ids2docs := ids2docs[id := None];
        if keepDocs && id !in docFreqs {
          err := Some(KeyError);
        } else if keepDocs {
          var r;
          r, err := DropTokensInPlace(index, docFreqs[id].Keys, id);
          StoredTokensDropped(st, id, r, err);
          index := r;
        } else {
          index := DropDocInPlace(index, id);
          err := None;
        }
      }
    }

    /** `get_docs(token)`: the token's postings; a token never indexed has none, and nothing is inserted. */
    function DocsFor(token: string): (r: Docs)
      reads this
      ensures forall id :: id in r <==> token in DocColumn(index, id)
      ensures Valid() ==> forall id :: id in r ==> Live(State(), id)
    {
      GetDocs(index, token)
    }

    /** `get_paths(token)`, as a list. */
    function GetPaths(token: string): (r: seq<(Path, nat)>)
      reads this
      requires Valid()
      ensures r == TokenPaths(State(), token)
      ensures forall e :: e in r <==> exists id :: id in DocsFor(token) && id in ids2docs && ids2docs[id] == Some(e.0) && e.1 == DocsFor(token)[id]
    {
      TokenPathsMembers(keepDocs, State(), token);
      TokenPaths(State(), token)
    }

    /** `get_paths_op(tokens, setop)`, as a list. */
    method GetPathsOp(tokens: seq<string>, op: SetOp) returns (r: Result<seq<(Path, nat)>, ExcType>)
      requires Valid()
      ensures r == OpPaths(State(), tokens, op)
    {
      var freqs := SumTermFreqs(index, tokens);
      if |tokens| == 0 {
        return Failure(TypeError);
      }
      var docs := OpDocs(index, tokens, op);
      r := Success(Listing(ids2docs, docs, freqs, |docs2ids|));
    }
  }
}
