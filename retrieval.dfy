/**
  Search over an index restricted to a group of directories, shared by
  utils.py's `Retriever` and desktopsearch/backends/memory.py's
  `RetrieverMemory`: `valid_groups` turns the configured directory strings
  into paths, `_sorted` keeps the hits whose path starts with (as a string)
  one of the group's directories and sorts them.

  The `sortby` strings are the `SortBy` choice, so the `assert_choice` checks
  have nothing left to reject.
*/
module Retrieval {
  import opened Wrappers
  import opened PyErrors
  import opened Paths
  import opened TextOps
  import opened Query
  import opened Ranking
  import Index

  /** Group name to the directories (as `Path`s) it covers. */
  type Groups = map<string, set<Path>>

  /** `set(map(Path, paths))`. */
  function NormalizeAll(paths: set<string>): set<Path>
  {
    set p | p in paths :: Normalize(p)
  }

  /** `valid_groups(groups)`: every group's directories converted to `Path`. */
  function ValidGroups(groups: map<string, set<string>>): (r: Groups)
    ensures r.Keys == groups.Keys
    ensures forall name, q :: name in groups ==> (q in r[name] <==> exists g :: g in groups[name] && Normalize(g) == q)
  {
    map name | name in groups :: NormalizeAll(groups[name])
  }

  lemma NormalizeAllIdempotent(paths: set<string>)
    ensures forall p :: p in NormalizeAll(paths) ==> Normalize(p) == p
    ensures NormalizeAll(NormalizeAll(paths)) == NormalizeAll(paths)
  {
    forall p | p in NormalizeAll(paths) ensures Normalize(p) == p {
      var s :| s in paths && p == Normalize(s);
      NormalizeIdempotent(s);
    }
  }

  /**
    The groups `valid_groups` gives hold only normalised paths, so passing
    them through it again changes nothing.
  */
  lemma ValidGroupsIdempotent(groups: map<string, set<string>>)
    ensures forall name, p :: name in groups && p in ValidGroups(groups)[name] ==> Normalize(p) == p
    ensures ValidGroups(ValidGroups(groups)) == ValidGroups(groups)
  {
    var once := ValidGroups(groups);
    forall name | name in groups
      ensures forall p :: p in once[name] ==> Normalize(p) == p
      ensures NormalizeAll(once[name]) == once[name]
    {
      NormalizeAllIdempotent(groups[name]);
    }
  }

  /** `any(fspath(path).startswith(gp) for gp in grouppaths)`. */
  predicate InGroup(gps: set<Path>, path: Path)
  {
    exists gp :: gp in gps && StartsWith(path, gp)
  }

  /** The generator of `_sorted`: the hits inside the group, in their order. */
  function GroupFilter(gps: set<Path>, hits: seq<Hit>): (r: seq<Hit>)
    ensures forall h :: multiset(r)[h] == (if InGroup(gps, h.0) then multiset(hits)[h] else 0)
    ensures forall h :: h in r <==> h in hits && InGroup(gps, h.0)
    decreases |hits|
  {
    if |hits| == 0 then []
    else
      var rest := GroupFilter(gps, hits[1..]);
      assert hits == [hits[0]] + hits[1..];
      assert forall h :: h in hits <==> h == hits[0] || h in hits[1..];
      (if InGroup(gps, hits[0].0) then [hits[0]] else []) + rest
  }

  /**
    `_sorted(groupname, paths, sortby)`: the group lookup raises `KeyError` for
    an unknown group; otherwise the group's hits, sorted.
  */
  function SortedHits(groups: Groups, name: string, hits: seq<Hit>, order: SortBy): Result<seq<Hit>, ExcType>
  {
    if name !in groups then Failure(KeyError)
    else Success(Sort(order, GroupFilter(groups[name], hits)))
  }

  /** A search: the lookup's own exception, else `_sorted` of its results. */
  function Searched(groups: Groups, name: string, found: Result<seq<Hit>, ExcType>, order: SortBy): Result<seq<Hit>, ExcType>
  {
    if found.Failure? then Failure(found.error) else SortedHits(groups, name, found.value, order)
  }

  /**
    What `_sorted` promises: `KeyError` exactly for an unknown group;
    otherwise the listing is ordered by the key, holds each in-group hit as
    often as the input does and nothing else, and hits with equal keys keep
    their input order.
  */
  lemma SortedHitsSpec(groups: Groups, name: string, hits: seq<Hit>, order: SortBy)
    ensures SortedHits(groups, name, hits, order).Failure? <==> name !in groups
    ensures name !in groups ==> SortedHits(groups, name, hits, order) == Failure(KeyError)
    ensures name in groups ==>
      var r := SortedHits(groups, name, hits, order).value;
      && SortedBy(order, r)
      && (forall h :: multiset(r)[h] == (if InGroup(groups[name], h.0) then multiset(hits)[h] else 0))
      && (forall x :: TiedWith(order, x, r) == TiedWith(order, x, GroupFilter(groups[name], hits)))
  {
    if name in groups {
      var kept := GroupFilter(groups[name], hits);
      SortSorted(order, kept);
      SortPermutes(order, kept);
      forall x ensures TiedWith(order, x, Sort(order, kept)) == TiedWith(order, x, kept) {
        SortStable(order, x, kept);
      }
    }
  }

  /**
    Group membership is a string prefix test, not a directory test: a group
    holding "/src/app" also admits "/src/application/main.py".
  */
  lemma PrefixAdmitsSibling()
    ensures InGroup({"/src/app"}, "/src/application/main.py")
  {
    assert StartsWith("/src/application/main.py", "/src/app");
  }

  /** utils.py's `Retriever`. */
  class Retriever {
    const invindex: Index.InvertedIndex
    var groups: Groups

    /** `Retriever(invindex)`: no groups yet. */
    constructor(invindex: Index.InvertedIndex)
      ensures this.invindex == invindex && groups == map[]
    {
      this.invindex := invindex;
      groups := map[];
    }

    /** `search_token(groupname, token, sortby)`. */
    method SearchToken(name: string, token: string, order: SortBy) returns (r: Result<seq<Hit>, ExcType>)
      requires invindex.Valid()
      ensures r == SortedHits(groups, name, invindex.GetPaths(token), order)
      ensures r.Failure? <==> name !in groups
      ensures r.Success? ==> SortedBy(order, r.value)
      ensures r.Success? ==> forall e :: e in r.value <==> e in invindex.GetPaths(token) && InGroup(groups[name], e.0)
    {
      var hits := invindex.GetPaths(token);
      SortedHitsSpec(groups, name, hits, order);
      r := SortedHits(groups, name, hits, order);
      if r.Success? {
        forall e ensures e in r.value <==> e in hits && InGroup(groups[name], e.0) {
          assert e in r.value <==> multiset(r.value)[e] > 0;
        }
      }
    }

    /** `search_tokens_and` (`op == Intersection`) and `search_tokens_or` (`op == Union`). */
    method SearchTokens(name: string, tokens: seq<string>, op: SetOp, order: SortBy) returns (r: Result<seq<Hit>, ExcType>)
      requires invindex.Valid()
      ensures r == Searched(groups, name, Index.OpPaths(invindex.State(), tokens, op), order)
      ensures |tokens| == 0 ==> r == Failure(TypeError)
      ensures |tokens| > 0 ==> (r.Failure? <==> name !in groups)
    {
      var found := invindex.GetPathsOp(tokens, op);
      if found.Failure? {
        r := Failure(found.error);
      } else {
        r := SortedHits(groups, name, found.value, order);
      }
    }
  }
}
