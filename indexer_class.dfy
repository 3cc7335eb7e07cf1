/**
  utils.py's `Indexer` object: the state a pass updates in place (the
  inverted index and the recorded modification times), proved against the
  pass of the `Indexing` module.
*/
module Indexers {
  import opened Wrappers
  import opened PyErrors
  import opened Paths
  import opened Postings
  import opened Index
  import opened Indexing

  /** utils.py's `Indexer`. */
  class Indexer {
    const invindex: InvertedIndex
    var mtimes: map<Path, int>

    /** `Indexer(invindex)`: nothing recorded yet. */
    constructor(invindex: InvertedIndex)
      ensures this.invindex == invindex && mtimes == map[]
    {
      this.invindex := invindex;
      mtimes := map[];
    }

    /**
      `index(suffixes, partial)` over the walked `files`: the walk's outcome,
      then for a partial pass the deletion loop. With `catchInvalid == false`
      this is the source as written, whose deletion loop lets InvalidDocument
      out for a recorded file that was never indexed; with `true` it is the
      corrected loop, which catches it as the changed-file branch does. It
      returns `(docs_added, docs_removed)` or the exception raised.
    */
    method IndexFiles(files: seq<(Path, int)>, suffixes: set<string>, partial: bool, analyze: Analyze, catchInvalid: bool)
      returns (r: Result<(nat, nat), ExcType>)
      requires invindex.Valid()
      modifies this, invindex
      ensures invindex.Valid()
      ensures Outcome(Walk(IndexOps(invindex.keepDocs, invindex.tokenizers, analyze, partial, suffixes),
                           Start(partial, old(invindex.State()), old(mtimes)), files), partial, catchInvalid, r)
    {
      ghost var setup := IndexOps(invindex.keepDocs, invindex.tokenizers, analyze, partial, suffixes);
      ghost var start := Start(partial, invindex.State(), mtimes);
      if !partial {
        invindex.Clear();
        mtimes := map[];
      }
      assert Pass(invindex.State(), mtimes, {}, 0, 0, None) == start;
      var touched, added, removed, err := Scan(setup, analyze, partial, suffixes, files);
      r := Finish(Walk(setup, start, files), partial, catchInvalid, touched, added, removed, err);
    }

    /**
      What `index()` returns and leaves after the walk `w`: the walk's
      exception; for a full pass the walk's counts and state; for a partial
      pass the deletion loop's outcome over the recorded paths the walk did
      not touch, raising InvalidDocument or not as `catchInvalid` says.
    */
    ghost predicate Outcome(w: Pass, partial: bool, catchInvalid: bool, r: Result<(nat, nat), ExcType>)
      reads this, invindex
    {
      && (w.err.Some? ==> r == Failure(w.err.value) && invindex.State() == w.st && mtimes == w.mtimes)
      && (w.err.None? && !partial ==> r == Success((w.added, w.removed)) && invindex.State() == w.st && mtimes == w.mtimes)
      && (w.err.None? && partial ==> PartialOutcome(catchInvalid, invindex.keepDocs, w.st, w.mtimes, w.touched, w.added, w.removed, invindex.State(), mtimes, r))
    }

    /** The end of `index()` once the walk `w` is done: the deletion loop for a partial pass, then the counts. */
    method Finish(ghost w: Pass, partial: bool, catchInvalid: bool, touched: set<Path>, added: nat, removed: nat, err: Option<ExcType>)
      returns (r: Result<(nat, nat), ExcType>)
      requires invindex.Valid() && Pass(invindex.State(), mtimes, touched, added, removed, err) == w
      modifies this, invindex
      ensures invindex.Valid()
      ensures Outcome(w, partial, catchInvalid, r)
    {
      if err.Some? {
        r := Failure(err.value);
      } else if !partial {
        r := Success((added, removed));
      } else {
        r := FinishPartial(catchInvalid, touched, added, removed);
      }
    }

    /** The deletion loop of a partial pass whose walk raised nothing, as written or corrected. */
    method FinishPartial(catchInvalid: bool, touched: set<Path>, added: nat, removed: nat) returns (r: Result<(nat, nat), ExcType>)
      requires invindex.Valid()
      modifies this, invindex
      ensures invindex.Valid()
      ensures PartialOutcome(catchInvalid, invindex.keepDocs, old(invindex.State()), old(mtimes), touched, added, removed, invindex.State(), mtimes, r)
    {
      var count, e := DeleteAll(catchInvalid, mtimes.Keys - touched);
      r := if e.Some? then Failure(e.value) else Success((added, removed + count));
      PartialOutcomeFrom(catchInvalid, invindex.keepDocs, old(invindex.State()), old(mtimes), touched, added, removed, Deletion(invindex.State(), mtimes, count, e), r);
    }

    /** The walk of `index()`: every file in turn until one raises. */
    method Scan(ghost setup: Setup, analyze: Analyze, partial: bool, suffixes: set<string>, files: seq<(Path, int)>)
      returns (touched: set<Path>, added: nat, removed: nat, err: Option<ExcType>)
      requires invindex.Valid() && setup == IndexOps(invindex.keepDocs, invindex.tokenizers, analyze, partial, suffixes)
      modifies this, invindex
      ensures invindex.Valid()
      ensures Pass(invindex.State(), mtimes, touched, added, removed, err)
        == Walk(setup, Pass(old(invindex.State()), old(mtimes), {}, 0, 0, None), files)
    {
      ghost var start := Pass(invindex.State(), mtimes, {}, 0, 0, None);
      touched, added, removed, err := {}, 0, 0, None;
      var i := 0;
      while i < |files| && err.None?
        invariant 0 <= i <= |files|
        invariant invindex.Valid()
        invariant Pass(invindex.State(), mtimes, touched, added, removed, err) == Walk(setup, start, files[..i])
      {
        assert files[..i + 1][..i] == files[..i];
        touched, added, removed, err := VisitFile(setup, analyze, partial, suffixes, touched, added, removed, files[i]);
        i := i + 1;
      }
      if i < |files| {
        WalkAfterError(setup, start, files, i);
      } else {
        assert files[..i] == files;
      }
    }

    /** One file of the walk. */
    method VisitFile(ghost setup: Setup, analyze: Analyze, partial: bool, suffixes: set<string>,
                     touched: set<Path>, added: nat, removed: nat, file: (Path, int))
      returns (touched': set<Path>, added': nat, removed': nat, err': Option<ExcType>)
      requires invindex.Valid() && setup == IndexOps(invindex.keepDocs, invindex.tokenizers, analyze, partial, suffixes)
      modifies this, invindex
      ensures invindex.Valid()
      ensures Pass(invindex.State(), mtimes, touched', added', removed', err')
        == Visit(setup, Pass(old(invindex.State()), old(mtimes), touched, added, removed, None), file)
    {
      ghost var p := Pass(invindex.State(), mtimes, touched, added, removed, None);
      var path := file.0;
      var mtime := file.1;
      assert setup.admitted(path) == Admitted(suffixes, path);
      VisitCases(setup, p, file);
      touched', added', removed', err' := touched, added, removed, None;
      if !Admitted(suffixes, path) {
      } else if !partial {
        added', err' := AddFile(setup, analyze, partial, suffixes, touched, added, removed, path, mtime);
      } else if path !in mtimes {
        touched' := touched + {path};
        added', err' := AddFile(setup, analyze, partial, suffixes, touched', added, removed, path, mtime);
      } else if mtimes[path] == mtime {
        touched' := touched + {path};
      } else {
        touched' := touched + {path};
        added', removed', err' := ChangedFile(setup, analyze, partial, suffixes, touched', added, removed, path, mtime);
      }
    }

    /** A file whose recorded time differs: `remove_document`, then the `if add:` block. */
    method ChangedFile(ghost setup: Setup, analyze: Analyze, ghost partial: bool, ghost suffixes: set<string>,
                       ghost touched: set<Path>, added: nat, removed: nat, path: Path, mtime: int)
      returns (added': nat, removed': nat, err': Option<ExcType>)
      requires invindex.Valid() && setup == IndexOps(invindex.keepDocs, invindex.tokenizers, analyze, partial, suffixes)
      modifies this, invindex
      ensures invindex.Valid()
      ensures Pass(invindex.State(), mtimes, touched, added', removed', err')
        == Changed(setup, Pass(old(invindex.State()), old(mtimes), touched, added, removed, None), path, mtime)
    {
      removed', err' := UnindexFile(setup, analyze, partial, suffixes, touched, added, removed, path);
      if err'.None? {
        added', err' := AddFile(setup, analyze, partial, suffixes, touched, added, removed', path, mtime);
      } else {
        added' := added;
      }
    }

    /** `try: remove_document(path)` for a changed file, catching InvalidDocument. */
    method UnindexFile(ghost setup: Setup, ghost analyze: Analyze, ghost partial: bool, ghost suffixes: set<string>,
                       ghost touched: set<Path>, ghost added: nat, removed: nat, path: Path)
      returns (removed': nat, err': Option<ExcType>)
      requires invindex.Valid() && setup == IndexOps(invindex.keepDocs, invindex.tokenizers, analyze, partial, suffixes)
      modifies invindex
      ensures invindex.Valid()
      ensures Pass(invindex.State(), mtimes, touched, added, removed', err')
        == Unindexed(setup, Pass(old(invindex.State()), mtimes, touched, added, removed, None), path)
    {
      ghost var p0 := Pass(invindex.State(), mtimes, touched, added, removed, None);
      var e := invindex.RemoveDocument(path);
      UnindexedFrom(setup, p0, path, invindex.State(), e);
      if e == Some(InvalidDocument) {
        removed', err' := removed, None;
      } else if e.Some? {
        removed', err' := removed, e;
      } else {
        removed', err' := removed + 1, None;
      }
    }

    /** The `if add:` block for `path`. */
    method AddFile(ghost setup: Setup, analyze: Analyze, ghost partial: bool, ghost suffixes: set<string>, ghost touched: set<Path>, added: nat, ghost removed: nat, path: Path, mtime: int)
      returns (added': nat, err': Option<ExcType>)
      requires invindex.Valid() && setup == IndexOps(invindex.keepDocs, invindex.tokenizers, analyze, partial, suffixes)
      modifies this, invindex
      ensures invindex.Valid()
      ensures Pass(invindex.State(), mtimes, touched, added', removed, err')
        == Added(setup, Pass(old(invindex.State()), old(mtimes), touched, added, removed, None), path, mtime)
    {
      ghost var st := invindex.State();
      mtimes := mtimes[path := mtime];
      var r := invindex.AddDocument(path, analyze);
      AddedFrom(setup, Pass(st, old(mtimes), touched, added, removed, None), path, mtime, invindex.State(), r);
      added', err' := added + Counted(r), Raised(r);
    }

    /**
      The deletion loop `for filename in deleted:` in Python's set order, so
      in any order of the vanished paths. The source does not catch
      InvalidDocument there (`catchInvalid == false`); the corrected loop
      does, as the changed-file branch does.
    */
    method DeleteAll(catchInvalid: bool, vanished: set<Path>) returns (count: nat, err: Option<ExcType>)
      requires invindex.Valid()
      modifies this, invindex
      ensures invindex.Valid()
      ensures DeletedAll(catchInvalid, invindex.keepDocs, old(invindex.State()), old(mtimes), vanished, Deletion(invindex.State(), mtimes, count, err))
    {
      ghost var order;
      count, err, order := DeleteInSomeOrder(catchInvalid, vanished);
      DeleteInAnyOrder(catchInvalid, invindex.keepDocs, old(invindex.State()), old(mtimes), order);
      DeletedWithin(catchInvalid, invindex.keepDocs, old(invindex.State()), old(mtimes), Elems(order), vanished,
        Deletion(invindex.State(), mtimes, count, err));
    }

    /** One pass of the deletion loop: `remove_document(path)`, then forgetting its recorded time and counting it. */
    method DeleteVanishedFile(catchInvalid: bool, count: nat, path: Path) returns (count': nat, err: Option<ExcType>)
      requires invindex.Valid()
      modifies this, invindex
      ensures invindex.Valid()
      ensures Deletion(invindex.State(), mtimes, count', err)
        == DeleteOne(catchInvalid, invindex.keepDocs, Deletion(old(invindex.State()), old(mtimes), count, None), path)
    {
      count' := count;
      err := invindex.RemoveDocument(path);
      if err.None? || (catchInvalid && err == Some(InvalidDocument)) {
        mtimes := mtimes - {path};
        count' := count + (if err.None? then 1 else 0);
        err := None;
      }
    }

    /** The loop itself: Python's set order is some order of the vanished paths without repeats. */
    method DeleteInSomeOrder(catchInvalid: bool, vanished: set<Path>) returns (count: nat, err: Option<ExcType>, ghost order: seq<Path>)
      requires invindex.Valid()
      modifies this, invindex
      ensures invindex.Valid()
      ensures NoDup(order) && Elems(order) <= vanished && (err.None? ==> Elems(order) == vanished)
      ensures Deletion(invindex.State(), mtimes, count, err)
        == DeleteInOrder(catchInvalid, invindex.keepDocs, Deletion(old(invindex.State()), old(mtimes), 0, None), order)
    {
      ghost var start := Deletion(invindex.State(), mtimes, 0, None);
      var rest := vanished;
      order := [];
      count, err := 0, None;
      while rest != {} && err.None?
        invariant rest !! Elems(order) && rest + Elems(order) == vanished && NoDup(order)
        invariant invindex.Valid()
        invariant Deletion(invindex.State(), mtimes, count, err) == DeleteInOrder(catchInvalid, invindex.keepDocs, start, order)
      {
        var path :| path in rest;
        AppendNew(order, path);
        DeleteInOrderSnoc(catchInvalid, invindex.keepDocs, start, order, path);
        count, err := DeleteVanishedFile(catchInvalid, count, path);
        rest := rest - {path};
        order := order + [path];
      }
    }
  }
}
