/**
 * `remove_consecutive_duplicates`, which both cleaning scripts define
 * identically: keep an element only when it differs from the last one kept.
 */
module Consecutive {

  /** No element equals its right neighbour. */
  predicate NoAdjacentDuplicates<T(==)>(s: seq<T>)
  {
    forall i :: 0 <= i < |s| - 1 ==> s[i] != s[i + 1]
  }

  /** `a` is obtained from `b` by deleting elements, keeping the order. */
  predicate IsSubsequence<T(==)>(a: seq<T>, b: seq<T>)
    decreases |b|
  {
    if b == [] then a == []
    else
      IsSubsequence(a, b[..|b| - 1]) ||
      (a != [] && a[|a| - 1] == b[|b| - 1] && IsSubsequence(a[..|a| - 1], b[..|b| - 1]))
  }

  /** The specification of the loop: the kept elements of `s`, built from the
      left as the loop builds them. The first and last elements survive. */
  function Dedup<T(==)>(s: seq<T>): (r: seq<T>)
    ensures |r| <= |s|
    ensures s != [] ==> r != [] && r[0] == s[0] && r[|r| - 1] == s[|s| - 1]
    decreases |s|
  {
    if |s| <= 1 then s
    else
      var d := Dedup(s[..|s| - 1]);
      if s[|s| - 1] == d[|d| - 1] then d else d + [s[|s| - 1]]
  }

  /** The loop of `remove_consecutive_duplicates`: `result` starts with the first path and grows
      by every path that differs from `result[-1]`. */
  method RemoveConsecutiveDuplicates<T(==)>(paths: seq<T>) returns (result: seq<T>)
    ensures result == Dedup(paths)
    ensures NoAdjacentDuplicates(result)
    ensures IsSubsequence(result, paths)
  {
    if |paths| == 0 {
      return paths;
    }
    result := [paths[0]];
    var i := 1;
    while i < |paths|
      invariant 1 <= i <= |paths|
      invariant result == Dedup(paths[..i])
    {
      assert paths[..i + 1][..i] == paths[..i];
      if paths[i] != result[|result| - 1] {
        result := result + [paths[i]];
      }
      i := i + 1;
    }
    assert paths[..i] == paths;
    DedupNoAdjacent(paths);
    DedupSubsequence(paths);
  }

  lemma {:induction false} DedupNoAdjacent<T>(s: seq<T>)
    ensures NoAdjacentDuplicates(Dedup(s))
    decreases |s|
  {
    if |s| > 1 {
      DedupNoAdjacent(s[..|s| - 1]);
    }
  }

  lemma {:induction false} DedupSubsequence<T>(s: seq<T>)
    ensures IsSubsequence(Dedup(s), s)
    decreases |s|
  {
    if |s| == 1 {
      assert s[..0] == [];
      assert IsSubsequence(s[..0], s[..0]);
    } else if |s| > 1 {
      var p := s[..|s| - 1];
      var d := Dedup(p);
      DedupSubsequence(p);
      if s[|s| - 1] != d[|d| - 1] {
        assert (d + [s[|s| - 1]])[..|d|] == d;
      }
    }
  }

  /** Exactly the elements of the input survive. */
  lemma {:induction false} DedupSameElements<T>(s: seq<T>, x: T)
    ensures x in Dedup(s) <==> x in s
    decreases |s|
  {
    if |s| > 1 {
      var p := s[..|s| - 1];
      DedupSameElements(p, x);
      assert s == p + [s[|s| - 1]];
    }
  }

  /** A sequence without adjacent repeats is left as it is. */
  lemma {:induction false} DedupFixpoint<T>(s: seq<T>)
    requires NoAdjacentDuplicates(s)
    ensures Dedup(s) == s
    decreases |s|
  {
    if |s| > 1 {
      var p := s[..|s| - 1];
      DedupFixpoint(p);
      assert s == p + [s[|s| - 1]];
    }
  }

  /** Applying the removal a second time changes nothing. */
  lemma DedupIdempotent<T>(s: seq<T>)
    ensures Dedup(Dedup(s)) == Dedup(s)
  {
    DedupNoAdjacent(s);
    DedupFixpoint(Dedup(s));
  }

  /** Fewer than two elements remain exactly when all elements of the input
      are equal. */
  lemma DedupShort<T>(s: seq<T>)
    ensures |Dedup(s)| < 2 <==> forall x, y :: x in s && y in s ==> x == y
  {
    var d := Dedup(s);
    forall x | true ensures x in d <==> x in s {
      DedupSameElements(s, x);
    }
    if |d| < 2 {
      forall x, y | x in s && y in s ensures x == y {
        assert x in d && y in d;
      }
    } else {
      DedupNoAdjacent(s);
      assert d[0] != d[1];
      DedupSameElements(s, d[0]);
      DedupSameElements(s, d[1]);
      assert d[0] in s && d[1] in s;
      assert !(forall x, y :: x in s && y in s ==> x == y);
    }
  }

  /** A subsequence is never longer. */
  lemma {:induction false} SubsequenceLength<T>(a: seq<T>, b: seq<T>)
    requires IsSubsequence(a, b)
    ensures |a| <= |b|
    decreases |b|
  {
    if b != [] {
      if IsSubsequence(a, b[..|b| - 1]) {
        SubsequenceLength(a, b[..|b| - 1]);
      } else {
        SubsequenceLength(a[..|a| - 1], b[..|b| - 1]);
      }
    }
  }

  /** Elements of a subsequence are elements of the whole. */
  lemma {:induction false} SubsequenceElements<T>(a: seq<T>, b: seq<T>, x: T)
    requires IsSubsequence(a, b) && x in a
    ensures x in b
    decreases |b|
  {
    if IsSubsequence(a, b[..|b| - 1]) {
      SubsequenceElements(a, b[..|b| - 1], x);
    } else if x != a[|a| - 1] {
      assert a == a[..|a| - 1] + [a[|a| - 1]];
      SubsequenceElements(a[..|a| - 1], b[..|b| - 1], x);
    }
  }

  lemma {:induction false} SubsequenceTransitive<T>(a: seq<T>, b: seq<T>, c: seq<T>)
    requires IsSubsequence(a, b) && IsSubsequence(b, c)
    ensures IsSubsequence(a, c)
    decreases |c|
  {
    if c != [] {
      var c' := c[..|c| - 1];
      if IsSubsequence(b, c') {
        SubsequenceTransitive(a, b, c');
      } else {
        var b' := b[..|b| - 1];
        if IsSubsequence(a, b') {
          SubsequenceTransitive(a, b', c');
        } else {
          SubsequenceTransitive(a[..|a| - 1], b', c');
        }
      }
    }
  }

}
