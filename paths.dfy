/**
  File paths as pathlib presents them on POSIX: a path is its string form
  (`fspath`); `Name` and `Suffix` are `PurePath.name` and `PurePath.suffix`;
  `Normalize` is the string form of `Path(s)`; `PathLess` is `<` on paths.
*/
module Paths {
  import opened TextOps

  type Path = string

  /** Index of the last `c` in `s`, or -1 (Python's `str.rfind`). */
  function RFind(s: string, c: char): (r: int)
    ensures -1 <= r < |s|
    ensures r >= 0 ==> s[r] == c
    ensures forall k :: r < k < |s| ==> s[k] != c
    decreases |s|
  {
    if |s| == 0 then -1
    else if s[|s| - 1] == c then |s| - 1
    else RFind(s[..|s| - 1], c)
  }

  /** `PurePath.name`: the final component, everything after the last slash (the whole path when it has none). */
  function Name(p: Path): (r: string)
    ensures '/' !in r
    ensures |r| <= |p| && p[|p| - |r|..] == r
  {
    p[RFind(p, '/') + 1..]
  }

  /** The name is the whole path, or what follows a slash: the last one, since the name holds none. */
  lemma NameAfterSlash(p: Path)
    ensures |Name(p)| == |p| || p[|p| - |Name(p)| - 1] == '/'
  {
  }

  /**
    `PurePath.suffix`: the final component's last dot and what follows it, or
    "" when that dot is absent, is the component's first character, or is its
    last character (pathlib's `0 < i < len(name) - 1` test).
  */
  function Suffix(p: Path): (r: string)
    ensures r == "" || (|r| >= 2 && r[0] == '.' && '.' !in r[1..] && '/' !in r)
    ensures |r| <= |p| && p[|p| - |r|..] == r
  {
    var n := Name(p);
    var i := RFind(n, '.');
    if 0 < i < |n| - 1 then
      TailOfTail(p, n, i);
      n[i..]
    else ""
  }

  /** A tail of a tail of `p` is a tail of `p`. */
  lemma TailOfTail(p: string, n: string, i: nat)
    requires |n| <= |p| && p[|p| - |n|..] == n && i <= |n|
    ensures p[|p| - |n[i..]|..] == n[i..]
  {
    assert p[|p| - |n[i..]|..] == p[|p| - |n|..][i..];
  }

  /**
    The suffix is non-empty exactly when the name's last dot is neither its
    first nor its last character, and it is then the name's tail from that dot.
  */
  lemma SuffixLastDot(p: Path)
    ensures Suffix(p) != "" ==>
      |Suffix(p)| < |Name(p)| && Name(p)[|Name(p)| - |Suffix(p)|..] == Suffix(p) && LastDotAt(Name(p), |Name(p)| - |Suffix(p)|)
    ensures Suffix(p) == "" ==> forall i :: LastDotAt(Name(p), i) ==> i == 0 || i == |Name(p)| - 1
  {
    var n := Name(p);
    var i := RFind(n, '.');
    RFindIsLastDot(n);
    if 0 < i < |n| - 1 {
      DotTail(p, i);
    }
  }

  /** The name's tail from its last dot, when that dot is inside the name, has the shape of a suffix and ends the path. */
  lemma DotTail(p: Path, i: int)
    requires LastDotAt(Name(p), i) && 0 < i < |Name(p)| - 1
    ensures var n := Name(p); var r := n[i..];
      && |r| >= 2 && r[0] == '.' && '.' !in r[1..] && '/' !in r
      && |r| <= |p| && p[|p| - |r|..] == r
      && |r| < |n| && n[|n| - |r|..] == r && LastDotAt(n, |n| - |r|)
  {
    var n := Name(p);
    var r := n[i..];
    assert r[1..] == n[i + 1..];
    assert forall k :: 0 <= k < |r| ==> r[k] == n[i + k];
    assert p[|p| - |r|..] == r by {
      var t := p[|p| - |r|..];
      forall k | 0 <= k < |r| ensures t[k] == r[k] {
        assert t[k] == p[|p| - |n| + i + k] == n[i + k];
      }
    }
  }

  /** `name[i]` is the last dot of `name`. */
  predicate LastDotAt(name: string, i: int)
  {
    0 <= i < |name| && name[i] == '.' && forall k :: i < k < |name| ==> name[k] != '.'
  }

  /** `rfind(".")` finds the last dot, when there is one. */
  lemma RFindIsLastDot(n: string)
    ensures forall j :: LastDotAt(n, j) ==> j == RFind(n, '.')
    ensures RFind(n, '.') >= 0 ==> LastDotAt(n, RFind(n, '.'))
  {
  }

  /** A suffix depends on the final component only. */
  lemma SuffixOfName(p: Path)
    ensures Name(Name(p)) == Name(p)
    ensures Suffix(Name(p)) == Suffix(p)
  {
    var n := Name(p);
    assert RFind(n, '/') == -1;
    assert n[0..] == n;
  }

  /** The components `Path(s)` keeps: the pieces between slashes, without "" and ".". */
  function Components(pieces: seq<string>): (r: seq<string>)
    ensures forall k :: 0 <= k < |r| ==> r[k] != "" && r[k] != "."
    ensures forall k :: 0 <= k < |r| ==> r[k] in pieces
  {
    if |pieces| == 0 then []
    else (if pieces[0] == "" || pieces[0] == "." then [] else [pieces[0]]) + Components(pieces[1..])
  }

  /** Every piece other than "" and "." is kept. */
  lemma {:induction false} ComponentsKeep(pieces: seq<string>)
    ensures forall c :: c in pieces && c != "" && c != "." ==> c in Components(pieces)
    decreases |pieces|
  {
    if |pieces| > 0 {
      ComponentsKeep(pieces[1..]);
      assert forall c :: c in pieces ==> c == pieces[0] || c in pieces[1..];
    }
  }

  /** One piece is kept exactly when it is neither "" nor ".". */
  lemma ComponentsSingle(piece: string)
    ensures Components([piece]) == if piece == "" || piece == "." then [] else [piece]
  {
    assert [piece][1..] == [];
  }

  /** Keeping the components of two runs of pieces one after the other keeps them in order. */
  lemma {:induction false} ComponentsAppend(a: seq<string>, b: seq<string>)
    ensures Components(a + b) == Components(a) + Components(b)
    decreases |a|
  {
    if |a| > 0 {
      assert (a + b)[0] == a[0];
      assert (a + b)[1..] == a[1..] + b;
      ComponentsAppend(a[1..], b);
    } else {
      assert a + b == b;
    }
  }

  /** The root `Path(s)` keeps: POSIX keeps exactly two leading slashes, folds three or more into one. */
  function Root(s: string): string
  {
    if |s| >= 2 && s[..2] == "//" && (|s| == 2 || s[2] != '/') then "//"
    else if |s| >= 1 && s[0] == '/' then "/"
    else ""
  }

  /** `str(Path(s))`: repeated slashes, "." components and trailing slashes removed; "" becomes ".". */
  function Normalize(s: string): Path
  {
    var parts := Components(Split(s, '/'));
    var root := Root(s);
    if |parts| == 0 then (if root == "" then "." else root)
    else root + Join(parts, '/')
  }

  lemma {:induction false} ComponentsOfClean(parts: seq<string>)
    requires forall k :: 0 <= k < |parts| ==> parts[k] != "" && parts[k] != "."
    ensures Components(parts) == parts
  {
    if |parts| > 0 {
      ComponentsOfClean(parts[1..]);
      assert parts == [parts[0]] + parts[1..];
    }
  }

  lemma {:induction false} ComponentsOfEmptyPrefix(n: nat, rest: seq<string>)
    ensures Components(seq(n, _ => "") + rest) == Components(rest)
  {
    if n > 0 {
      var s := seq(n, _ => "") + rest;
      assert s[0] == "";
      assert s[1..] == seq(n - 1, _ => "") + rest;
      ComponentsOfEmptyPrefix(n - 1, rest);
      assert Components(s) == [] + Components(s[1..]);
    } else {
      assert seq(n, _ => "") + rest == rest;
    }
  }

  /** Splitting `root + j` on "/" puts one empty piece per root slash before the pieces of `j`. */
  lemma SplitAfterRoot(root: string, j: string)
    requires root == "" || root == "/" || root == "//"
    ensures Split(root + j, '/') == seq(|root|, _ => "") + Split(j, '/')
  {
    if root == "/" {
      assert (root + j)[1..] == j;
    } else if root == "//" {
      assert (root + j)[1..] == "/" + j;
      assert ("/" + j)[1..] == j;
    } else {
      assert root + j == j;
    }
  }

  /** A normal root followed by the join of clean components splits back into those components. */
  lemma NormalizedParts(root: string, parts: seq<string>)
    requires root == "" || root == "/" || root == "//"
    requires |parts| > 0
    requires forall k :: 0 <= k < |parts| ==> parts[k] != "" && parts[k] != "." && '/' !in parts[k]
    ensures Components(Split(root + Join(parts, '/'), '/')) == parts
  {
    var j := Join(parts, '/');
    SplitJoin(parts, '/');
    SplitAfterRoot(root, j);
    ComponentsOfEmptyPrefix(|root|, parts);
    ComponentsOfClean(parts);
  }

  /** The join of clean components starts with the first character of the first one. */
  lemma JoinHead(parts: seq<string>)
    requires |parts| > 0 && |parts[0]| > 0
    ensures |Join(parts, '/')| > 0 && Join(parts, '/')[0] == parts[0][0]
  {
    if |parts| > 1 {
      assert Join(parts, '/') == parts[0] + ("/" + Join(parts[1..], '/'));
    }
  }

  /** A normal root followed by a string that does not start with a slash is kept as the root. */
  lemma RootKept(root: string, j: string)
    requires root == "" || root == "/" || root == "//"
    requires |j| > 0 && j[0] != '/'
    ensures Root(root + j) == root
  {
    var n := root + j;
    if root == "//" {
      assert n[..2] == "//" && n[2] == j[0];
    } else if root == "/" {
      assert n[0] == '/' && n[1] == j[0];
    } else {
      assert n == j;
    }
  }

  /** "." is already normal. */
  lemma NormalizeDot()
    ensures Normalize(".") == "."
  {
    var d := ".";
    assert Split(d, '/') == ["."] by {
      assert d[0] != '/' && d[1..] == "";
      assert Split(d[1..], '/') == [""];
      assert [d[0]] + "" == d;
    }
    assert Components(["."]) == [] + Components([]);
    assert Root(".") == "";
  }

  /** A bare root is already normal. */
  lemma NormalizeRootOnly(root: string)
    requires root == "/" || root == "//"
    ensures Normalize(root) == root
  {
    SplitAfterRoot(root, "");
    assert root + "" == root;
    ComponentsOfEmptyPrefix(|root|, [""]);
    assert Components([""]) == [] + Components([]);
    if root == "//" { assert root[..2] == "//"; }
  }

  /** A normal root followed by the join of clean components is already normal. */
  lemma NormalizeClean(root: string, parts: seq<string>)
    requires root == "" || root == "/" || root == "//"
    requires |parts| > 0
    requires forall k :: 0 <= k < |parts| ==> parts[k] != "" && parts[k] != "." && '/' !in parts[k]
    ensures Normalize(root + Join(parts, '/')) == root + Join(parts, '/')
  {
    NormalizedParts(root, parts);
    JoinHead(parts);
    assert parts[0][0] != '/' by { assert parts[0][0] in parts[0]; }
    RootKept(root, Join(parts, '/'));
  }

  /** Converting a path string to a Path twice gives what converting it once gives. */
  lemma NormalizeIdempotent(s: string)
    ensures Normalize(Normalize(s)) == Normalize(s)
  {
    var parts := Components(Split(s, '/'));
    var root := Root(s);
    if |parts| == 0 {
      if root == "" {
        NormalizeDot();
      } else {
        NormalizeRootOnly(root);
      }
    } else {
      SplitPiecesFree(s, '/');
      NormalizeClean(root, parts);
    }
  }

  /** `a < b` on paths: their slash-separated parts compared as lists. */
  predicate PathLess(a: Path, b: Path)
  {
    PartsLess(Split(a, '/'), Split(b, '/'))
  }

  /** `PathLess` is a strict total order on paths. */
  lemma PathLessOrder(a: Path, b: Path, c: Path)
    ensures !PathLess(a, a)
    ensures PathLess(a, b) && PathLess(b, c) ==> PathLess(a, c)
    ensures a == b || PathLess(a, b) || PathLess(b, a)
  {
    PartsLessIrreflexive(Split(a, '/'));
    if PathLess(a, b) && PathLess(b, c) {
      PartsLessTransitive(Split(a, '/'), Split(b, '/'), Split(c, '/'));
    }
    PartsLessTotal(Split(a, '/'), Split(b, '/'));
    JoinSplit(a, '/');
    JoinSplit(b, '/');
  }
}
