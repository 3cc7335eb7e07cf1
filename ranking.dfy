/**
  The ordering step of `Retriever._sorted` (utils.py) and
  `RetrieverMemory._sorted` (desktopsearch/backends/memory.py): Python's
  `sorted`, which is stable, by path ascending or by score descending
  (`reverse=True` keeps equal scores in their original order).
*/
module Ranking {
  import opened Paths

  /** A search result: a path and its score. */
  type Hit = (Path, nat)

  /** The `sortby` choice: by path ("path") or by score, highest first ("freq" / "score"). */
  datatype SortBy = ByPath | ByScore

  /** `a` goes strictly before `b`. */
  predicate Before(order: SortBy, a: Hit, b: Hit)
  {
    match order
    case ByPath => PathLess(a.0, b.0)
    case ByScore => a.1 > b.1
  }

  /** `a` and `b` have equal sort keys. */
  predicate Tied(order: SortBy, a: Hit, b: Hit)
  {
    match order
    case ByPath => a.0 == b.0
    case ByScore => a.1 == b.1
  }

  /** Place `x` after the hits that go strictly before it and before all others. */
  function Insert(order: SortBy, x: Hit, s: seq<Hit>): seq<Hit>
    decreases |s|
  {
    if |s| == 0 then [x]
    else if Before(order, s[0], x) then [s[0]] + Insert(order, x, s[1..])
    else [x] + s
  }

  /** `sorted(hits, key=..., reverse=...)`: a stable insertion sort. */
  function Sort(order: SortBy, s: seq<Hit>): seq<Hit>
    decreases |s|
  {
    if |s| == 0 then [] else Insert(order, s[0], Sort(order, s[1..]))
  }

  /** No hit is strictly before an earlier one. */
  predicate SortedBy(order: SortBy, s: seq<Hit>)
  {
    forall i, j :: 0 <= i < j < |s| ==> !Before(order, s[j], s[i])
  }

  /** The hits of `s` whose key equals that of `x`, in their order in `s`. */
  function TiedWith(order: SortBy, x: Hit, s: seq<Hit>): seq<Hit>
    decreases |s|
  {
    if |s| == 0 then [] else (if Tied(order, x, s[0]) then [s[0]] else []) + TiedWith(order, x, s[1..])
  }

  /**
    `Before` is a strict weak order whose incomparable pairs are the tied
    ones: irreflexive, transitive, and comparable unless tied.
  */
  lemma BeforeOrder(order: SortBy, a: Hit, b: Hit, c: Hit)
    ensures !Before(order, a, a)
    ensures Before(order, a, b) && Before(order, b, c) ==> Before(order, a, c)
    ensures Tied(order, a, b) <==> !Before(order, a, b) && !Before(order, b, a)
    ensures Tied(order, a, b) && Tied(order, b, c) ==> Tied(order, a, c)
  {
    if order.ByPath? {
      PathLessOrder(a.0, b.0, c.0);
      PathLessOrder(b.0, a.0, c.0);
    }
  }

  /** Inserting adds exactly the one hit. */
  lemma {:induction false} InsertPermutes(order: SortBy, x: Hit, s: seq<Hit>)
    ensures multiset(Insert(order, x, s)) == multiset(s) + multiset{x}
    decreases |s|
  {
    if |s| > 0 && Before(order, s[0], x) {
      InsertPermutes(order, x, s[1..]);
      assert s == [s[0]] + s[1..];
    }
  }

  /** Inserting into a sorted listing keeps it sorted. */
  lemma {:induction false} InsertSorted(order: SortBy, x: Hit, s: seq<Hit>)
    requires SortedBy(order, s)
    ensures SortedBy(order, Insert(order, x, s))
    decreases |s|
  {
    if |s| > 0 {
      if Before(order, s[0], x) {
        InsertSorted(order, x, s[1..]);
        InsertPermutes(order, x, s[1..]);
        InsertBehind(order, x, s);
      } else {
        InsertInFront(order, x, s);
      }
    }
  }

  /** `x` goes behind the head: the head stays before the (sorted) rest with `x` in it. */
  lemma InsertBehind(order: SortBy, x: Hit, s: seq<Hit>)
    requires |s| > 0 && SortedBy(order, s) && Before(order, s[0], x)
    requires SortedBy(order, Insert(order, x, s[1..]))
    requires multiset(Insert(order, x, s[1..])) == multiset(s[1..]) + multiset{x}
    ensures SortedBy(order, Insert(order, x, s))
  {
    var r := Insert(order, x, s);
    forall j | 0 < j < |r| ensures !Before(order, r[j], s[0]) {
      assert r[j] in multiset(Insert(order, x, s[1..]));
      if r[j] == x {
        BeforeOrder(order, x, s[0], x);
      } else {
        assert r[j] in s[1..];
        var k :| 0 <= k < |s[1..]| && s[1..][k] == r[j];
        assert s[k + 1] == r[j];
      }
    }
  }

  /** `x` goes in front: nothing in a sorted `s` whose head `x` does not follow goes before `x`. */
  lemma InsertInFront(order: SortBy, x: Hit, s: seq<Hit>)
    requires |s| > 0 && SortedBy(order, s) && !Before(order, s[0], x)
    ensures SortedBy(order, Insert(order, x, s))
  {
    var r := Insert(order, x, s);
    forall j | 0 < j < |r| ensures !Before(order, r[j], x) {
      assert r[j] == s[j - 1];
      BeforeOrder(order, r[j], s[0], x);
      BeforeOrder(order, r[j], x, s[0]);
      BeforeOrder(order, s[0], x, s[0]);
      if j - 1 > 0 {
        assert !Before(order, s[j - 1], s[0]);
      }
    }
  }

  /** The listing `Sort` gives is ordered by the key (paths ascending, or scores descending). */
  lemma {:induction false} SortSorted(order: SortBy, s: seq<Hit>)
    ensures SortedBy(order, Sort(order, s))
    decreases |s|
  {
    if |s| > 0 {
      SortSorted(order, s[1..]);
      InsertSorted(order, s[0], Sort(order, s[1..]));
    }
  }

  /** `Sort` is a permutation. */
  lemma {:induction false} SortPermutes(order: SortBy, s: seq<Hit>)
    ensures multiset(Sort(order, s)) == multiset(s)
    decreases |s|
  {
    if |s| > 0 {
      SortPermutes(order, s[1..]);
      InsertPermutes(order, s[0], Sort(order, s[1..]));
      assert s == [s[0]] + s[1..];
    }
  }

  /** Inserting `y` keeps it ahead of every hit tied with it. */
  lemma {:induction false} InsertTies(order: SortBy, x: Hit, y: Hit, s: seq<Hit>)
    ensures TiedWith(order, x, Insert(order, y, s)) == TiedWith(order, x, [y] + s)
    decreases |s|
  {
    if |s| > 0 && Before(order, s[0], y) {
      InsertTies(order, x, y, s[1..]);
      var r := Insert(order, y, s);
      assert r[0] == s[0] && r[1..] == Insert(order, y, s[1..]);
      assert ([y] + s[1..])[1..] == s[1..];
      assert ([y] + s)[1..] == s;
      if Tied(order, x, s[0]) && Tied(order, x, y) {
        BeforeOrder(order, s[0], x, y);
        BeforeOrder(order, x, s[0], y);
      }
    } else if |s| > 0 {
      assert ([y] + s)[1..] == s;
    }
  }

  /** `sorted` is stable: the hits with any one key keep their original order. */
  lemma {:induction false} SortStable(order: SortBy, x: Hit, s: seq<Hit>)
    ensures TiedWith(order, x, Sort(order, s)) == TiedWith(order, x, s)
    decreases |s|
  {
    if |s| > 0 {
      SortStable(order, x, s[1..]);
      InsertTies(order, x, s[0], Sort(order, s[1..]));
      assert ([s[0]] + Sort(order, s[1..]))[1..] == Sort(order, s[1..]);
    }
  }
}
