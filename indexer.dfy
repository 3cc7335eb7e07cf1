/**
  utils.py's `Indexer.index`: one indexing pass over the files found under
  the groups' directories. A full pass clears the index and adds every file;
  a partial pass compares each file's modification time with the one
  recorded, re-adds files that changed, and finally removes from the index
  the recorded files the walk did not find again.

  The directory walk (`rglob` or the `.gitignore`-aware one) and `stat` are
  outside the model: a pass is given the files in walk order, each with its
  `st_mtime_ns`.
*/
module Indexing {
  import opened Wrappers
  import opened PyErrors
  import opened Paths
  import opened Postings
  import opened Index

  /**
    What a pass runs with: the index's `add_document` and `remove_document`
    as functions of its state (each giving the new state and the outcome),
    and `index()`'s arguments.
  */
  datatype Setup = Setup(
    keepDocs: bool,
    add: (IndexState, Path) -> (IndexState, Result<nat, ExcType>),
    remove: (IndexState, Path) -> (IndexState, Option<ExcType>),
    partial: bool,
    admitted: Path -> bool)

  /** The setup of an `InvertedIndex` with these settings and plugins. */
  function IndexOps(keepDocs: bool, tokenizers: map<string, string>, analyze: Analyze, partial: bool, suffixes: set<string>): Setup
  {
    Setup(keepDocs,
      (st: IndexState, path: Path) => AddSpec(keepDocs, tokenizers, analyze, st, path),
      (st: IndexState, path: Path) => RemoveSpec(keepDocs, st, path),
      partial,
      (path: Path) => Admitted(suffixes, path))
  }

  /** Both operations keep the index consistent. */
  ghost predicate KeepsValid(setup: Setup)
  {
    && (forall st, path :: IndexValid(setup.keepDocs, st) ==> IndexValid(setup.keepDocs, setup.add(st, path).0))
    && (forall st, path :: IndexValid(setup.keepDocs, st) ==> IndexValid(setup.keepDocs, setup.remove(st, path).0))
  }

  lemma IndexOpsKeepValid(keepDocs: bool, tokenizers: map<string, string>, analyze: Analyze, partial: bool, suffixes: set<string>)
    ensures KeepsValid(IndexOps(keepDocs, tokenizers, analyze, partial, suffixes))
  {
    var setup := IndexOps(keepDocs, tokenizers, analyze, partial, suffixes);
    forall st, path | IndexValid(keepDocs, st) ensures IndexValid(keepDocs, setup.add(st, path).0) {
      AddKeepsValid(keepDocs, tokenizers, analyze, st, path);
    }
    forall st, path | IndexValid(keepDocs, st) ensures IndexValid(keepDocs, setup.remove(st, path).0) {
      RemoveKeepsValid(keepDocs, st, path);
    }
  }

  /** The pass so far: the index, `self.mtimes`, `touched`, the two counters, and the exception raised, if any. */
  datatype Pass = Pass(
    st: IndexState,
    mtimes: map<Path, int>,
    touched: set<Path>,
    added: nat,
    removed: nat,
    err: Option<ExcType>)

  /** `if suffixes: if filename.suffix not in suffixes: continue` (None and an empty set both admit every file). */
  predicate Admitted(suffixes: set<string>, path: Path)
  {
    |suffixes| == 0 || Suffix(path) in suffixes
  }

  /** The state a pass starts from: a full pass clears the index and the recorded times. */
  function Start(partial: bool, st: IndexState, mtimes: map<Path, int>): Pass
  {
    if partial then Pass(st, mtimes, {}, 0, 0, None) else Pass(Empty(), map[], {}, 0, 0, None)
  }

  /**
    The `if add:` block: the new time is recorded before `add_document` runs;
    a document counts as added when `add_document` returns a non-zero token
    count, and its exceptions propagate.
  */
  function Added(setup: Setup, p: Pass, path: Path, mtime: int): Pass
  {
    var out := setup.add(p.st, path);
    p.(st := out.0, mtimes := p.mtimes[path := mtime], added := p.added + Counted(out.1), err := Raised(out.1))
  }

  /** `Added` once the outcome of `add_document` is known. */
  lemma AddedFrom(setup: Setup, p: Pass, path: Path, mtime: int, st: IndexState, r: Result<nat, ExcType>)
    requires setup.add(p.st, path) == (st, r)
    ensures Added(setup, p, path, mtime) == p.(st := st, mtimes := p.mtimes[path := mtime], added := p.added + Counted(r), err := Raised(r))
  {
  }

  /** `if self.invindex.add_document(filename): docs_added += 1`. */
  function Counted(r: Result<nat, ExcType>): nat
  {
    if r.Success? && r.value > 0 then 1 else 0
  }

  /** The exception of an outcome, if any. */
  function Raised(r: Result<nat, ExcType>): Option<ExcType>
  {
    if r.Failure? then Some(r.error) else None
  }

  /**
    One file of the walk. A partial pass marks it touched; an unrecorded file
    is added, an unchanged one skipped, and a changed one re-added.
  */
  function Visit(setup: Setup, p: Pass, file: (Path, int)): Pass
  {
    var path := file.0;
    var mtime := file.1;
    if p.err.Some? || !setup.admitted(path) then p
    else if !setup.partial then Added(setup, p, path, mtime)
    else
      var p1 := p.(touched := p.touched + {path});
      if path !in p.mtimes then Added(setup, p1, path, mtime)
      else if p.mtimes[path] == mtime then p1
      else Changed(setup, p1, path, mtime)
  }

  /**
    The removal that starts a file whose recorded time differs: only
    InvalidDocument is caught, and only a completed removal is counted.
  */
  function Unindexed(setup: Setup, p: Pass, path: Path): Pass
  {
    var (st1, e) := setup.remove(p.st, path);
    if e == Some(InvalidDocument) then p
    else if e.Some? then p.(st := st1, err := e)
    else p.(st := st1, removed := p.removed + 1)
  }

  /** A file whose recorded time differs: it is removed first, then added unless the removal raised. */
  function Changed(setup: Setup, p: Pass, path: Path, mtime: int): Pass
  {
    var q := Unindexed(setup, p, path);
    if q.err.Some? then q else Added(setup, q, path, mtime)
  }

  /** `Visit` case by case, for every case that does not remove the file first. */
  lemma VisitCases(setup: Setup, p: Pass, file: (Path, int))
    requires p.err.None?
    ensures !setup.admitted(file.0) ==> Visit(setup, p, file) == p
    ensures setup.admitted(file.0) && !setup.partial ==> Visit(setup, p, file) == Added(setup, p, file.0, file.1)
    ensures setup.admitted(file.0) && setup.partial && file.0 !in p.mtimes ==>
      Visit(setup, p, file) == Added(setup, p.(touched := p.touched + {file.0}), file.0, file.1)
    ensures setup.admitted(file.0) && setup.partial && file.0 in p.mtimes && p.mtimes[file.0] == file.1 ==>
      Visit(setup, p, file) == p.(touched := p.touched + {file.0})
    ensures setup.admitted(file.0) && setup.partial && file.0 in p.mtimes && p.mtimes[file.0] != file.1 ==>
      Visit(setup, p, file) == Changed(setup, p.(touched := p.touched + {file.0}), file.0, file.1)
  {
  }

  /** `Unindexed` once the outcome of the removal is known. */
  lemma UnindexedFrom(setup: Setup, p: Pass, path: Path, st: IndexState, e: Option<ExcType>)
    requires setup.remove(p.st, path) == (st, e)
    ensures Unindexed(setup, p, path) ==
      if e == Some(InvalidDocument) then p
      else if e.Some? then p.(st := st, err := e)
      else p.(st := st, removed := p.removed + 1)
  {
  }

  /** The walk over `files`, stopping at the first exception. */
  function Walk(setup: Setup, start: Pass, files: seq<(Path, int)>): Pass
    decreases |files|
  {
    if |files| == 0 then start
    else Visit(setup, Walk(setup, start, files[..|files| - 1]), files[|files| - 1])
  }

  /** The admitted files of `files`, in order. */
  function AdmittedFiles(admitted: Path -> bool, files: seq<(Path, int)>): (r: seq<(Path, int)>)
    ensures forall f :: f in r <==> f in files && admitted(f.0)
    decreases |files|
  {
    if |files| == 0 then []
    else
      var init := files[..|files| - 1];
      var last := files[|files| - 1];
      assert files == init + [last];
      AdmittedFiles(admitted, init) + (if admitted(last.0) then [last] else [])
  }

  /** The filter keeps the walk's order: the admitted files of two runs of files are those of the first, then those of the second. */
  lemma {:induction false} AdmittedFilesAppend(admitted: Path -> bool, a: seq<(Path, int)>, b: seq<(Path, int)>)
    ensures AdmittedFiles(admitted, a + b) == AdmittedFiles(admitted, a) + AdmittedFiles(admitted, b)
    decreases |b|
  {
    if |b| == 0 {
      assert a + b == a;
    } else {
      var init := b[..|b| - 1];
      var last := b[|b| - 1];
      var tail := if admitted(last.0) then [last] else [];
      assert (a + b)[..|a + b| - 1] == a + init;
      assert (a + b)[|a + b| - 1] == last;
      assert AdmittedFiles(admitted, a + b) == AdmittedFiles(admitted, a + init) + tail;
      assert AdmittedFiles(admitted, b) == AdmittedFiles(admitted, init) + tail;
      AdmittedFilesAppend(admitted, a, init);
    }
  }

  /** The paths of the admitted files. */
  function AdmittedPaths(admitted: Path -> bool, files: seq<(Path, int)>): set<Path>
  {
    set f | f in files && admitted(f.0) :: f.0
  }

  /** `stat` gives a file one modification time however often the walk lists it. */
  predicate OneTimeEach(files: seq<(Path, int)>)
  {
    forall i, j :: 0 <= i < |files| && 0 <= j < |files| && files[i].0 == files[j].0 ==> files[i].1 == files[j].1
  }

  /** Every admitted file's time is the one recorded for it. */
  predicate Recorded(admitted: Path -> bool, mtimes: map<Path, int>, files: seq<(Path, int)>)
  {
    forall f :: f in files && admitted(f.0) ==> f.0 in mtimes && mtimes[f.0] == f.1
  }

  /** Once an exception has been raised the rest of the walk does nothing. */
  lemma {:induction false} WalkAfterError(setup: Setup, start: Pass, files: seq<(Path, int)>, i: nat)
    requires i <= |files| && Walk(setup, start, files[..i]).err.Some?
    ensures Walk(setup, start, files) == Walk(setup, start, files[..i])
    decreases |files| - i
  {
    if i < |files| {
      assert files[..i + 1][..i] == files[..i];
      WalkAfterError(setup, start, files, i + 1);
    } else {
      assert files[..i] == files;
    }
  }

  /** Every step of a pass keeps the index consistent. */
  lemma {:induction false} WalkKeepsValid(setup: Setup, start: Pass, files: seq<(Path, int)>)
    requires KeepsValid(setup) && IndexValid(setup.keepDocs, start.st)
    ensures IndexValid(setup.keepDocs, Walk(setup, start, files).st)
    decreases |files|
  {
    if |files| > 0 {
      var p := Walk(setup, start, files[..|files| - 1]);
      WalkKeepsValid(setup, start, files[..|files| - 1]);
      var path := files[|files| - 1].0;
      assert IndexValid(setup.keepDocs, setup.add(p.st, path).0);
      assert IndexValid(setup.keepDocs, setup.remove(p.st, path).0);
      assert IndexValid(setup.keepDocs, setup.add(setup.remove(p.st, path).0, path).0);
    }
  }

  /** The suffix filter acts before anything else: a pass over only the admitted files is the same pass. */
  lemma {:induction false} WalkSkipsUnadmitted(setup: Setup, start: Pass, files: seq<(Path, int)>)
    ensures Walk(setup, start, files) == Walk(setup, start, AdmittedFiles(setup.admitted, files))
    decreases |files|
  {
    if |files| > 0 {
      var init := files[..|files| - 1];
      var last := files[|files| - 1];
      WalkSkipsUnadmitted(setup, start, init);
      var kept := AdmittedFiles(setup.admitted, init);
      var w := Walk(setup, start, init);
      assert Walk(setup, start, files) == Visit(setup, w, last);
      if setup.admitted(last.0) {
        var all := kept + [last];
        assert AdmittedFiles(setup.admitted, files) == all;
        assert all[..|all| - 1] == kept;
        assert Walk(setup, start, all) == Visit(setup, Walk(setup, start, kept), last);
      } else {
        assert AdmittedFiles(setup.admitted, files) == kept;
        assert Visit(setup, w, last) == w;
      }
    }
  }

  /**
    One step that raises nothing records the file's time (when admitted),
    keeps every other recorded time, and touches the file only in a partial
    pass that admits it.
  */
  lemma VisitRecords(setup: Setup, p: Pass, file: (Path, int))
    requires p.err.None?
    ensures var q := Visit(setup, p, file);
      q.err.None? ==>
        && (setup.admitted(file.0) ==> file.0 in q.mtimes && (file.0 in p.mtimes && p.mtimes[file.0] == file.1 ==> q.mtimes[file.0] == file.1))
        && (setup.admitted(file.0) && (file.0 !in p.mtimes || p.mtimes[file.0] != file.1) ==> q.mtimes[file.0] == file.1)
        && (forall x :: x in p.mtimes && x != file.0 ==> x in q.mtimes && q.mtimes[x] == p.mtimes[x])
        && q.touched == (if setup.partial && setup.admitted(file.0) then p.touched + {file.0} else p.touched)
  {
  }

  /**
    A pass that raises nothing records, for every admitted file, the time the
    walk saw, and a partial pass marks exactly the admitted files touched.
  */
  lemma {:induction false} WalkRecords(setup: Setup, start: Pass, files: seq<(Path, int)>)
    requires start.err.None? && OneTimeEach(files)
    ensures var w := Walk(setup, start, files);
      w.err.None? ==>
        && Recorded(setup.admitted, w.mtimes, files)
        && (setup.partial ==> w.touched == start.touched + AdmittedPaths(setup.admitted, files))
    decreases |files|
  {
    if |files| > 0 {
      var init := files[..|files| - 1];
      var last := files[|files| - 1];
      assert files == init + [last];
      assert OneTimeEach(init) by {
        forall i, j | 0 <= i < |init| && 0 <= j < |init| && init[i].0 == init[j].0 ensures init[i].1 == init[j].1 {
          assert init[i] == files[i] && init[j] == files[j];
        }
      }
      var p := Walk(setup, start, init);
      var w := Walk(setup, start, files);
      assert w == Visit(setup, p, last);
      if w.err.None? {
        assert p.err.None?;
        WalkRecords(setup, start, init);
        VisitRecords(setup, p, last);
        forall f | f in files && setup.admitted(f.0) ensures f.0 in w.mtimes && w.mtimes[f.0] == f.1 {
          var k :| 0 <= k < |files| && files[k] == f;
          if f.0 == last.0 {
            assert files[|files| - 1] == last;
            assert f.1 == last.1;
            if k < |files| - 1 {
              assert init[k] == f;
            }
          } else {
            assert init[k] == f;
          }
        }
        assert AdmittedPaths(setup.admitted, files) ==
          AdmittedPaths(setup.admitted, init) + (if setup.admitted(last.0) then {last.0} else {});
      }
    }
  }

  /** In a partial pass, a file whose time is recorded as the walk sees it is only touched. */
  lemma VisitRescan(setup: Setup, p: Pass, file: (Path, int))
    requires setup.partial && p.err.None?
    requires setup.admitted(file.0) ==> file.0 in p.mtimes && p.mtimes[file.0] == file.1
    ensures Visit(setup, p, file) == p.(touched := p.touched + (if setup.admitted(file.0) then {file.0} else {}))
  {
    if !setup.admitted(file.0) {
      assert p.touched + {} == p.touched;
    }
  }

  /**
    A partial pass over files whose times are all recorded as the walk sees
    them changes nothing: no document is added or removed, and only the
    touched set grows.
  */
  lemma {:induction false} RescanChangesNothing(setup: Setup, p: Pass, files: seq<(Path, int)>)
    requires setup.partial && p.err.None? && Recorded(setup.admitted, p.mtimes, files)
    ensures Walk(setup, p, files) == p.(touched := p.touched + AdmittedPaths(setup.admitted, files))
    decreases |files|
  {
    if |files| == 0 {
      assert AdmittedPaths(setup.admitted, files) == {};
      assert p.touched + {} == p.touched;
    } else {
      var init := files[..|files| - 1];
      var last := files[|files| - 1];
      assert files == init + [last];
      assert Recorded(setup.admitted, p.mtimes, init) by {
        forall f | f in init ensures f in files {
        }
      }
      RescanChangesNothing(setup, p, init);
      var q := Walk(setup, p, init);
      assert Walk(setup, p, files) == Visit(setup, q, last);
      VisitRescan(setup, q, last);
      assert AdmittedPaths(setup.admitted, files) ==
        AdmittedPaths(setup.admitted, init) + (if setup.admitted(last.0) then {last.0} else {});
    }
  }

  /**
    Re-running a successful partial pass over the same files finds nothing to
    do: the recorded paths after the deletion loop are exactly the touched
    ones, so the second walk changes nothing and leaves nothing to delete.
  */
  lemma PartialPassIdempotent(setup: Setup, st: IndexState, mtimes: map<Path, int>, files: seq<(Path, int)>)
    requires setup.partial && OneTimeEach(files)
    requires Walk(setup, Start(true, st, mtimes), files).err.None?
    ensures var w := Walk(setup, Start(true, st, mtimes), files);
      var kept := w.mtimes - (w.mtimes.Keys - w.touched);
      var again := Walk(setup, Start(true, w.st, kept), files);
      && kept.Keys == w.touched
      && again == Start(true, w.st, kept).(touched := w.touched)
      && again.mtimes.Keys - again.touched == {}
  {
    var w := Walk(setup, Start(true, st, mtimes), files);
    WalkRecords(setup, Start(true, st, mtimes), files);
    var kept := w.mtimes - (w.mtimes.Keys - w.touched);
    assert Recorded(setup.admitted, kept, files) by {
      forall f | f in files && setup.admitted(f.0) ensures f.0 in kept && kept[f.0] == f.1 {
        assert f.0 in AdmittedPaths(setup.admitted, files);
      }
    }
    RescanChangesNothing(setup, Start(true, w.st, kept), files);
  }

  /** `remove_document(path)` would succeed: the path is known and, with `keep_docs`, its stored tokens all hold its id. */
  ghost predicate Removable(keepDocs: bool, st: IndexState, path: Path)
  {
    && path in st.docs2ids
    && (keepDocs ==>
          && st.docs2ids[path] in st.docFreqs
          && forall t :: t in st.docFreqs[st.docs2ids[path]] ==> st.docs2ids[path] in GetDocs(st.index, t))
  }

  /** The ids of the known paths among `paths`. */
  function IdsOf(st: IndexState, paths: set<Path>): set<nat>
  {
    set p | p in paths && p in st.docs2ids :: st.docs2ids[p]
  }

  /** Every id of `ids` marked removed. */
  function MarkRemoved(ids2docs: map<nat, Option<Path>>, ids: set<nat>): map<nat, Option<Path>>
  {
    map i | i in ids2docs.Keys + ids :: if i in ids then None else ids2docs[i]
  }

  /** The state after removing the documents `ids`, in any order. */
  function RemovedIds(st: IndexState, ids: set<nat>): IndexState
  {
    st.(ids2docs := MarkRemoved(st.ids2docs, ids), index := map t | t in st.index :: st.index[t] - ids)
  }

  /** The deletion loop as written: every vanished path must be removable. */
  ghost predicate DeletionSucceedsAsWritten(keepDocs: bool, st: IndexState, vanished: set<Path>)
  {
    forall p :: p in vanished ==> Removable(keepDocs, st, p)
  }

  /** The deletion loop catching InvalidDocument: every vanished path that was indexed must be removable. */
  ghost predicate DeletionSucceeds(keepDocs: bool, st: IndexState, vanished: set<Path>)
  {
    forall p :: p in vanished && p in st.docs2ids ==> Removable(keepDocs, st, p)
  }

  /** Removing no ids changes nothing. */
  lemma RemovedNone(st: IndexState)
    ensures RemovedIds(st, IdsOf(st, {})) == st
  {
    assert IdsOf(st, {}) == {};
    assert MarkRemoved(st.ids2docs, {}) == st.ids2docs;
    forall t | t in st.index ensures st.index[t] - {} == st.index[t] {
    }
  }

  /** After removing `ids`, a token's postings are its original ones without them. */
  lemma RemovedPostings(st: IndexState, ids: set<nat>, t: string)
    ensures GetDocs(RemovedIds(st, ids).index, t) == GetDocs(st.index, t) - ids
  {
  }

  /** Marking one more id removed after marking `ids` is marking `ids + {id}`. */
  lemma MarkedOneMore(ids2docs: map<nat, Option<Path>>, ids: set<nat>, id: nat)
    ensures MarkRemoved(ids2docs, ids)[id := None] == MarkRemoved(ids2docs, ids + {id})
  {
    var a := MarkRemoved(ids2docs, ids)[id := None];
    var b := MarkRemoved(ids2docs, ids + {id});
    assert a.Keys == b.Keys;
    forall i | i in a.Keys ensures a[i] == b[i] {
    }
  }

  /** Dropping one more id from postings with `ids` dropped drops `ids + {id}`. */
  lemma DroppedOneMore(index: Postings, ids: set<nat>, id: nat)
    ensures DropDoc(map t | t in index :: index[t] - ids, id) == map t | t in index :: index[t] - (ids + {id})
  {
    var a := DropDoc(map t | t in index :: index[t] - ids, id);
    var b := map t | t in index :: index[t] - (ids + {id});
    assert a.Keys == b.Keys;
    forall t | t in index ensures a[t] == b[t] {
      assert a[t] == (index[t] - ids) - {id};
    }
  }

  /** Removing one more live-or-dead id from a state with `ids` removed is removing `ids + {id}`. */
  lemma RemovedOneMore(st: IndexState, ids: set<nat>, id: nat)
    ensures var s := RemovedIds(st, ids);
      s.(ids2docs := s.ids2docs[id := None], index := DropDoc(s.index, id)) == RemovedIds(st, ids + {id})
  {
    MarkedOneMore(st.ids2docs, ids, id);
    DroppedOneMore(st.index, ids, id);
  }

  /** After removals, the stored frequencies are untouched and an id's postings are as at the start unless it was removed. */
  lemma RemovalsKeepOthers(st: IndexState, ids: set<nat>, id: nat)
    requires id !in ids
    ensures RemovedIds(st, ids).docFreqs == st.docFreqs
    ensures forall t :: (id in GetDocs(RemovedIds(st, ids).index, t)) == (id in GetDocs(st.index, t))
  {
    forall t ensures (id in GetDocs(RemovedIds(st, ids).index, t)) == (id in GetDocs(st.index, t)) {
      RemovedPostings(st, ids, t);
    }
  }

  /** The ids of `done + {path}` for a known `path` outside `done`. */
  lemma IdsOfOneMore(st: IndexState, done: set<Path>, path: Path)
    requires Index.IdsAllocated(st) && path !in done && path in st.docs2ids
    ensures st.docs2ids[path] !in IdsOf(st, done)
    ensures IdsOf(st, done + {path}) == IdsOf(st, done) + {st.docs2ids[path]}
  {
  }

  /**
    Removing documents one after another does not interfere: after removing
    the paths `done`, removing another path fails or succeeds as it would have
    at the start, and success extends the removed set by its id.
  */
  lemma RemoveAfterRemovals(keepDocs: bool, st: IndexState, done: set<Path>, path: Path)
    requires IndexValid(keepDocs, st) && path !in done
    ensures var (st', e) := RemoveSpec(keepDocs, RemovedIds(st, IdsOf(st, done)), path);
      && (path !in st.docs2ids ==> e == Some(InvalidDocument) && st' == RemovedIds(st, IdsOf(st, done + {path})))
      && (path in st.docs2ids && !Removable(keepDocs, st, path) ==> e == Some(KeyError))
      && (Removable(keepDocs, st, path) ==> e == None && st' == RemovedIds(st, IdsOf(st, done + {path})))
  {
    var ids := IdsOf(st, done);
    if path !in st.docs2ids {
      assert IdsOf(st, done + {path}) == ids;
    } else {
      var id := st.docs2ids[path];
      IdsOfOneMore(st, done, path);
      RemovalsKeepOthers(st, ids, id);
      if Removable(keepDocs, st, path) {
        RemovedOneMore(st, ids, id);
      }
    }
  }

  /** Forgetting the recorded times of `done` and then of `path` forgets those of `done + {path}`. */
  lemma ForgetOneMore(mt0: map<Path, int>, done: set<Path>, path: Path)
    ensures (mt0 - done) - {path} == mt0 - (done + {path})
  {
    assert ((mt0 - done) - {path}).Keys == (mt0 - (done + {path})).Keys;
  }

  /** One more removed path adds one to the count when it was indexed. */
  lemma CountedOneMore(done: set<Path>, known: set<Path>, path: Path)
    requires path !in done
    ensures |(done + {path}) * known| == |done * known| + (if path in known then 1 else 0)
  {
    if path in known {
      assert (done + {path}) * known == done * known + {path};
    } else {
      assert (done + {path}) * known == done * known;
    }
  }

  /** The deletion loop so far: the index, `self.mtimes`, `docs_removed` from zero, and the exception raised, if any. */
  datatype Deletion = Deletion(st: IndexState, mtimes: map<Path, int>, count: nat, err: Option<ExcType>)

  /**
    One vanished path: `remove_document`, then `del self.mtimes[path]` and one
    more removal counted. With `catchInvalid`, InvalidDocument is caught and
    the time forgotten without counting; any other exception stops the loop.
  */
  function DeleteOne(catchInvalid: bool, keepDocs: bool, d: Deletion, path: Path): Deletion
  {
    if d.err.Some? then d
    else
      var (st1, e) := RemoveSpec(keepDocs, d.st, path);
      if e.None? then Deletion(st1, d.mtimes - {path}, d.count + 1, None)
      else if catchInvalid && e == Some(InvalidDocument) then Deletion(st1, d.mtimes - {path}, d.count, None)
      else d.(st := st1, err := e)
  }

  /** The deletion loop over the vanished paths in the order `order`. */
  function DeleteInOrder(catchInvalid: bool, keepDocs: bool, d: Deletion, order: seq<Path>): Deletion
    decreases |order|
  {
    if |order| == 0 then d
    else DeleteOne(catchInvalid, keepDocs, DeleteInOrder(catchInvalid, keepDocs, d, order[..|order| - 1]), order[|order| - 1])
  }

  /** Deleting in `order` and then `path`. */
  lemma DeleteInOrderSnoc(catchInvalid: bool, keepDocs: bool, d: Deletion, order: seq<Path>, path: Path)
    ensures DeleteInOrder(catchInvalid, keepDocs, d, order + [path])
      == DeleteOne(catchInvalid, keepDocs, DeleteInOrder(catchInvalid, keepDocs, d, order), path)
  {
    assert (order + [path])[..|order|] == order;
  }

  /** The paths of an order. */
  function Elems(order: seq<Path>): set<Path>
  {
    set p | p in order
  }

  /** Each path appears once. */
  predicate NoDup(order: seq<Path>)
  {
    forall i, j :: 0 <= i < j < |order| ==> order[i] != order[j]
  }

  /** A path the loop must be able to remove: with `catchInvalid`, only an indexed one. */
  ghost predicate MustRemove(catchInvalid: bool, keepDocs: bool, st: IndexState, p: Path)
  {
    (catchInvalid ==> p in st.docs2ids) ==> Removable(keepDocs, st, p)
  }

  /** What `DeleteOne` does after the paths `done` were removed without an exception. */
  lemma DeleteOneAfter(catchInvalid: bool, keepDocs: bool, st: IndexState, mt: map<Path, int>, done: set<Path>, count: nat, path: Path)
    requires IndexValid(keepDocs, st) && path !in done
    ensures var d := DeleteOne(catchInvalid, keepDocs, Deletion(RemovedIds(st, IdsOf(st, done)), mt - done, count, None), path);
      && (d.err.None? <==> MustRemove(catchInvalid, keepDocs, st, path))
      && (d.err.Some? ==> d.err == Some(if path in st.docs2ids then KeyError else InvalidDocument))
      && (d.err.None? ==>
            && d.st == RemovedIds(st, IdsOf(st, done + {path}))
            && d.mtimes == mt - (done + {path})
            && d.count == count + (if path in st.docs2ids || !catchInvalid then 1 else 0))
  {
    RemoveAfterRemovals(keepDocs, st, done, path);
    ForgetOneMore(mt, done, path);
  }

  /** Appending a new path keeps an order free of duplicates. */
  lemma AppendNew(order: seq<Path>, path: Path)
    requires NoDup(order) && path !in order
    ensures NoDup(order + [path]) && Elems(order + [path]) == Elems(order) + {path}
  {
  }

  /**
    `d` is the deletion loop's outcome over the distinct paths `paths` from
    `st` and `mt`: it raises exactly when some path it must remove cannot be
    removed (with `catchInvalid` that is KeyError); otherwise every path's id
    has left the index, every path's time is forgotten, and the count is the
    number of paths (with `catchInvalid`, of indexed paths).
  */
  ghost predicate DeletedAll(catchInvalid: bool, keepDocs: bool, st: IndexState, mt: map<Path, int>, paths: set<Path>, d: Deletion)
  {
    && (d.err.None? <==> forall p :: p in paths ==> MustRemove(catchInvalid, keepDocs, st, p))
    && (d.err.Some? ==> d.err == Some(KeyError) || (!catchInvalid && d.err == Some(InvalidDocument)))
    && (d.err.None? ==>
          && d.st == RemovedIds(st, IdsOf(st, paths))
          && d.mtimes == mt - paths
          && d.count == |if catchInvalid then paths * st.docs2ids.Keys else paths|)
  }

  /** Nothing deleted yet. */
  lemma DeletedNone(catchInvalid: bool, keepDocs: bool, st: IndexState, mt: map<Path, int>)
    ensures DeletedAll(catchInvalid, keepDocs, st, mt, {}, Deletion(st, mt, 0, None))
  {
    RemovedNone(st);
    assert mt - {} == mt;
    assert {} * st.docs2ids.Keys == {};
  }

  /** Once the loop has raised, the next path changes nothing. */
  lemma DeletedAfterError(catchInvalid: bool, keepDocs: bool, st: IndexState, mt: map<Path, int>, done: set<Path>, d: Deletion, path: Path)
    requires DeletedAll(catchInvalid, keepDocs, st, mt, done, d) && d.err.Some?
    ensures DeletedAll(catchInvalid, keepDocs, st, mt, done + {path}, DeleteOne(catchInvalid, keepDocs, d, path))
  {
    var p :| p in done && !MustRemove(catchInvalid, keepDocs, st, p);
    assert p in done + {path};
  }

  /** While the loop has not raised, one more path extends the outcome by that path. */
  lemma DeletedOneMore(catchInvalid: bool, keepDocs: bool, st: IndexState, mt: map<Path, int>, done: set<Path>, d: Deletion, path: Path)
    requires IndexValid(keepDocs, st) && path !in done
    requires DeletedAll(catchInvalid, keepDocs, st, mt, done, d) && d.err.None?
    ensures DeletedAll(catchInvalid, keepDocs, st, mt, done + {path}, DeleteOne(catchInvalid, keepDocs, d, path))
  {
    assert d == Deletion(RemovedIds(st, IdsOf(st, done)), mt - done, d.count, None);
    DeleteOneAfter(catchInvalid, keepDocs, st, mt, done, d.count, path);
    if MustRemove(catchInvalid, keepDocs, st, path) {
      CountedOneMore(done, st.docs2ids.Keys, path);
      assert |done + {path}| == |done| + 1;
    } else {
      assert path in done + {path};
    }
  }

  /** A loop that raised on part of `all`, or went through all of it, has the outcome over `all`. */
  lemma DeletedWithin(catchInvalid: bool, keepDocs: bool, st: IndexState, mt: map<Path, int>, done: set<Path>, all: set<Path>, d: Deletion)
    requires DeletedAll(catchInvalid, keepDocs, st, mt, done, d) && done <= all && (d.err.None? ==> done == all)
    ensures DeletedAll(catchInvalid, keepDocs, st, mt, all, d)
  {
    if d.err.Some? {
      var p :| p in done && !MustRemove(catchInvalid, keepDocs, st, p);
      assert p in all;
    }
  }

  /**
    The corrected loop's outcome: it raises KeyError exactly when some
    indexed vanished file cannot be removed; otherwise the ids of the indexed
    vanished files are removed, all their times forgotten, and the indexed
    ones counted.
  */
  lemma CaughtDeletion(keepDocs: bool, st: IndexState, mt: map<Path, int>, vanished: set<Path>, d: Deletion)
    requires DeletedAll(true, keepDocs, st, mt, vanished, d)
    ensures d.err.None? <==> DeletionSucceeds(keepDocs, st, vanished)
    ensures d.err.Some? ==> d.err == Some(KeyError)
    ensures d.err.None? ==>
      && d.st == RemovedIds(st, IdsOf(st, vanished))
      && d.mtimes == mt - vanished
      && d.count == |vanished * st.docs2ids.Keys|
  {
  }

  /**
    The loop as written: it raises exactly when some vanished file cannot be
    removed, a never-indexed one included (InvalidDocument); otherwise every
    vanished file is counted.
  */
  lemma UncaughtDeletion(keepDocs: bool, st: IndexState, mt: map<Path, int>, vanished: set<Path>, d: Deletion)
    requires DeletedAll(false, keepDocs, st, mt, vanished, d)
    ensures d.err.None? <==> DeletionSucceedsAsWritten(keepDocs, st, vanished)
    ensures d.err.Some? ==> d.err == Some(KeyError) || d.err == Some(InvalidDocument)
    ensures d.err.None? ==>
      && d.st == RemovedIds(st, IdsOf(st, vanished))
      && d.mtimes == mt - vanished
      && d.count == |vanished|
  {
  }

  /** The deletion loop in any order of distinct paths. */
  lemma {:induction false} DeleteInAnyOrder(catchInvalid: bool, keepDocs: bool, st: IndexState, mt: map<Path, int>, order: seq<Path>)
    requires IndexValid(keepDocs, st) && NoDup(order)
    ensures DeletedAll(catchInvalid, keepDocs, st, mt, Elems(order), DeleteInOrder(catchInvalid, keepDocs, Deletion(st, mt, 0, None), order))
    decreases |order|
  {
    var start := Deletion(st, mt, 0, None);
    if |order| == 0 {
      assert Elems(order) == {};
      DeletedNone(catchInvalid, keepDocs, st, mt);
    } else {
      var init := order[..|order| - 1];
      var last := order[|order| - 1];
      assert order == init + [last];
      assert NoDup(init);
      assert last !in init by {
        forall i | 0 <= i < |init| ensures init[i] != last {
          assert order[i] == init[i];
        }
      }
      DeleteInAnyOrder(catchInvalid, keepDocs, st, mt, init);
      AppendNew(init, last);
      var w := DeleteInOrder(catchInvalid, keepDocs, start, init);
      DeleteInOrderSnoc(catchInvalid, keepDocs, start, init, last);
      if w.err.None? {
        DeletedOneMore(catchInvalid, keepDocs, st, mt, Elems(init), w, last);
      } else {
        DeletedAfterError(catchInvalid, keepDocs, st, mt, Elems(init), w, last);
      }
    }
  }

  /**
    The deletion loop as written raises for a recorded file that was never
    indexed: a file whose suffix has no tokenizer is recorded by a partial
    pass (its time is stored before `add_document` ignores it), and once it
    is deleted from disk the next partial pass raises InvalidDocument. With
    InvalidDocument caught, as the changed-file branch does, that pass
    completes.
  */
  lemma VanishedUnindexedFileAborts(keepDocs: bool, tokenizers: map<string, string>, analyze: Analyze, file: Path, mtime: int)
    requires Suffix(file) !in tokenizers
    ensures var setup := IndexOps(keepDocs, tokenizers, analyze, true, {});
      var first := Walk(setup, Start(true, Empty(), map[]), [(file, mtime)]);
      var kept := first.mtimes - (first.mtimes.Keys - first.touched);
      var second := Walk(setup, Start(true, first.st, kept), []);
      var vanished := second.mtimes.Keys - second.touched;
      && first.err.None? && first.st == Empty() && kept == map[file := mtime]
      && vanished == {file}
      && !DeletionSucceedsAsWritten(keepDocs, first.st, vanished)
      && DeletionSucceeds(keepDocs, first.st, vanished)
  {
    var setup := IndexOps(keepDocs, tokenizers, analyze, true, {});
    var files := [(file, mtime)];
    assert files[..0] == [];
    assert setup.admitted(file);
    assert setup.add(Empty(), file) == (Empty(), Success(0));
    var start := Start(true, Empty(), map[]);
    var first := Walk(setup, start, files);
    assert Walk(setup, start, files[..0]) == start;
    assert first == Visit(setup, start, files[0]);
    assert first.touched == {file};
    assert first.mtimes == map[file := mtime];
  }

  /**
    The end of a partial pass whose walk ended with the index `st0`, the
    recorded times `mt0`, the files `touched` and the counts `added` and
    `removed`: the deletion loop over the recorded files the walk did not see
    succeeds exactly when every such file it must remove can be removed (as
    written every such file; with `catchInvalid` every such indexed file),
    raises KeyError, or as written also InvalidDocument, otherwise, and on
    success leaves their ids removed (`st`), their records forgotten (`mt`)
    and the removal count raised by the number of them (with `catchInvalid`,
    of those that were indexed).
  */
  ghost predicate PartialOutcome(catchInvalid: bool, keepDocs: bool, st0: IndexState, mt0: map<Path, int>, touched: set<Path>,
                                 added: nat, removed: nat, st: IndexState, mt: map<Path, int>, r: Result<(nat, nat), ExcType>)
  {
    var vanished := mt0.Keys - touched;
    && (r.Success? <==> if catchInvalid then DeletionSucceeds(keepDocs, st0, vanished)
                        else DeletionSucceedsAsWritten(keepDocs, st0, vanished))
    && (r.Failure? ==> r.error == KeyError || (!catchInvalid && r.error == InvalidDocument))
    && (r.Success? ==>
          && st == RemovedIds(st0, IdsOf(st0, vanished))
          && mt == mt0 - vanished
          && r.value.0 == added
          && r.value.1 == removed + |if catchInvalid then vanished * st0.docs2ids.Keys else vanished|)
  }

  /** The deletion loop's outcome, as written or corrected, reported as `index()` reports it. */
  lemma PartialOutcomeFrom(catchInvalid: bool, keepDocs: bool, st0: IndexState, mt0: map<Path, int>, touched: set<Path>,
                           added: nat, removed: nat, d: Deletion, r: Result<(nat, nat), ExcType>)
    requires DeletedAll(catchInvalid, keepDocs, st0, mt0, mt0.Keys - touched, d)
    requires d.err.Some? ==> r == Failure(d.err.value)
    requires d.err.None? ==> r.Success? && r.value.0 == added && r.value.1 == removed + d.count
    ensures PartialOutcome(catchInvalid, keepDocs, st0, mt0, touched, added, removed, d.st, d.mtimes, r)
  {
    if catchInvalid {
      CaughtDeletion(keepDocs, st0, mt0, mt0.Keys - touched, d);
    } else {
      UncaughtDeletion(keepDocs, st0, mt0, mt0.Keys - touched, d);
    }
  }
}
