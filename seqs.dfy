/**
 * Sequence helpers shared by the catalog model: filtering (a SQL `WHERE` / `DELETE`),
 * searching (a `SELECT ... WHERE key = ?` that returns at most one row) and ordering
 * (an `ORDER BY`).
 */
module Seqs {
  import opened Wrappers

  ghost predicate NoDuplicates<T>(s: seq<T>) {
    forall i, j :: 0 <= i < j < |s| ==> s[i] != s[j]
  }

  /** The elements of `s` that satisfy `keep`, in their original order. */
  function Filter<T(!new)>(s: seq<T>, keep: T -> bool): (r: seq<T>)
    ensures forall x :: x in r <==> x in s && keep(x)
    ensures |r| <= |s|
    ensures NoDuplicates(s) ==> NoDuplicates(r)
    ensures (forall x :: x in s ==> keep(x)) ==> r == s
  {
    if s == [] then []
    else
      var rest := Filter(s[1..], keep);
      assert NoDuplicates(s) ==> NoDuplicates(s[1..]) && s[0] !in s[1..];
      if keep(s[0]) then [s[0]] + rest else rest
  }

  /** Filtering distributes over concatenation. */
  lemma {:induction false} FilterAppend<T(!new)>(s: seq<T>, t: seq<T>, keep: T -> bool)
    ensures Filter(s + t, keep) == Filter(s, keep) + Filter(t, keep)
  {
    if s == [] {
      assert s + t == t;
    } else {
      assert (s + t)[1..] == s[1..] + t;
      FilterAppend(s[1..], t, keep);
    }
  }

  /** The elements of `s` that fail `keep`. */
  ghost function Dropped<T(!new)>(s: seq<T>, keep: T -> bool): set<T> {
    set x | x in s && !keep(x)
  }

  /** Without duplicates, filtering removes exactly the elements that fail `keep`. */
  lemma {:induction false} FilterLength<T(!new)>(s: seq<T>, keep: T -> bool)
    requires NoDuplicates(s)
    ensures |Filter(s, keep)| + |Dropped(s, keep)| == |s|
  {
    if s == [] {
      assert Dropped(s, keep) == {};
    } else {
      var t := s[1..];
      assert s == [s[0]] + t;
      assert NoDuplicates(t);
      assert s[0] !in t by {
        forall k | 0 <= k < |t| ensures t[k] != s[0] {
          assert t[k] == s[k + 1];
        }
      }
      FilterLength(t, keep);
      assert |Filter(s, keep)| == (if keep(s[0]) then 1 else 0) + |Filter(t, keep)|;
      DroppedStep(s, keep);
    }
  }

  lemma DroppedStep<T(!new)>(s: seq<T>, keep: T -> bool)
    requires s != [] && s[0] !in s[1..]
    ensures |Dropped(s, keep)| == (if keep(s[0]) then 0 else 1) + |Dropped(s[1..], keep)|
  {
    var dropped := Dropped(s, keep);
    var droppedTail := Dropped(s[1..], keep);
    assert s == [s[0]] + s[1..];
    if keep(s[0]) {
      assert dropped == droppedTail;
    } else {
      assert dropped == droppedTail + {s[0]};
      assert s[0] !in droppedTail;
    }
  }

  /** Appending a new element keeps a sequence free of duplicates. */
  lemma NoDuplicatesSnoc<T>(s: seq<T>, x: T)
    requires NoDuplicates(s) && x !in s
    ensures NoDuplicates(s + [x])
  {
    forall i, j | 0 <= i < j < |s + [x]| ensures (s + [x])[i] != (s + [x])[j] {
      if j == |s| {
        assert (s + [x])[i] == s[i];
      } else {
        assert (s + [x])[i] == s[i] && (s + [x])[j] == s[j];
      }
    }
  }

  /** Concatenation associates; stated once so that callers need not rebuild it index by index. */
  lemma AppendAssociates<T>(a: seq<T>, b: seq<T>, c: seq<T>)
    ensures (a + b) + c == a + (b + c)
  {
  }

  /** The first element of `s` that satisfies `matches`, if any. */
  function Find<T(!new)>(s: seq<T>, matches: T -> bool): (r: Option<T>)
    ensures r.Some? ==> r.value in s && matches(r.value)
    ensures r.None? <==> forall x :: x in s ==> !matches(x)
  {
    if s == [] then None
    else if matches(s[0]) then Some(s[0])
    else Find(s[1..], matches)
  }

  /** How many times `x` occurs in `s`. */
  function Count<T(==)>(s: seq<T>, x: T): (n: nat)
    ensures n <= |s|
    ensures n > 0 <==> x in s
  {
    if s == [] then 0 else (if s[0] == x then 1 else 0) + Count(s[1..], x)
  }

  /** In a sequence without duplicates every member occurs exactly once. */
  lemma {:induction false} CountNoDuplicates<T>(s: seq<T>, x: T)
    requires NoDuplicates(s)
    ensures Count(s, x) == if x in s then 1 else 0
  {
    if s != [] {
      assert NoDuplicates(s[1..]);
      CountNoDuplicates(s[1..], x);
      if s[0] == x {
        assert x !in s[1..] by {
          forall k | 0 <= k < |s[1..]| ensures s[1..][k] != x {
            assert s[1..][k] == s[k + 1];
          }
        }
      }
    }
  }

  // ---------------------------------------------------------------- ordering

  ghost predicate Total<T(!new)>(le: (T, T) -> bool) {
    forall a, b :: le(a, b) || le(b, a)
  }

  ghost predicate Transitive<T(!new)>(le: (T, T) -> bool) {
    forall a, b, c :: le(a, b) && le(b, c) ==> le(a, c)
  }

  ghost predicate SortedBy<T>(s: seq<T>, le: (T, T) -> bool) {
    forall i, j :: 0 <= i < j < |s| ==> le(s[i], s[j])
  }

  /** Insertion of `x` before the first element it is not above. */
  function InsertBy<T>(x: T, s: seq<T>, le: (T, T) -> bool): (r: seq<T>)
    ensures multiset(r) == multiset(s) + multiset{x}
  {
    if s == [] then [x]
    else if le(x, s[0]) then [x] + s
    else
      assert s == [s[0]] + s[1..];
      [s[0]] + InsertBy(x, s[1..], le)
  }

  /** An `ORDER BY`: a permutation of `s` (ordered by `le` when `le` is a total preorder, see SortByIsSorted). */
  function SortBy<T>(s: seq<T>, le: (T, T) -> bool): (r: seq<T>)
    ensures multiset(r) == multiset(s)
  {
    if s == [] then []
    else
      assert s == [s[0]] + s[1..];
      InsertBy(s[0], SortBy(s[1..], le), le)
  }

  lemma {:induction false} InsertByIsSorted<T(!new)>(x: T, s: seq<T>, le: (T, T) -> bool)
    requires Total(le) && Transitive(le)
    requires SortedBy(s, le)
    ensures SortedBy(InsertBy(x, s, le), le)
  {
    if s != [] && !le(x, s[0]) {
      InsertByIsSorted(x, s[1..], le);
      var r := InsertBy(x, s, le);
      var tail := InsertBy(x, s[1..], le);
      assert r == [s[0]] + tail;
      forall k | 0 <= k < |tail| ensures le(s[0], tail[k]) {
        assert tail[k] in multiset(tail);
        assert tail[k] in multiset(s[1..]) + multiset{x};
        if tail[k] != x {
          assert tail[k] in s[1..];
          var m :| 0 <= m < |s[1..]| && s[1..][m] == tail[k];
          assert s[1..][m] == s[m + 1];
        }
      }
    }
  }

  /** SortBy orders its result when `le` is a total preorder. */
  lemma {:induction false} SortByIsSorted<T(!new)>(s: seq<T>, le: (T, T) -> bool)
    requires Total(le) && Transitive(le)
    ensures SortedBy(SortBy(s, le), le)
  {
    if s != [] {
      SortByIsSorted(s[1..], le);
      InsertByIsSorted(s[0], SortBy(s[1..], le), le);
    }
  }

  /** A permutation of a sequence without duplicates has no duplicates. */
  lemma {:induction false} PermutationNoDuplicates<T>(s: seq<T>, r: seq<T>)
    requires multiset(r) == multiset(s)
    requires NoDuplicates(s)
    ensures NoDuplicates(r)
  {
    forall i, j | 0 <= i < j < |r| ensures r[i] != r[j] {
      if r[i] == r[j] {
        assert multiset(r)[r[i]] >= 2 by {
          assert r == r[..i] + [r[i]] + r[i + 1..];
          assert r[j] in r[i + 1..] by { assert r[i + 1..][j - i - 1] == r[j]; }
          assert multiset(r) == multiset(r[..i]) + multiset{r[i]} + multiset(r[i + 1..]);
        }
        NoDuplicatesMultiplicity(s, r[i]);
        assert false;
      }
    }
  }

  lemma {:induction false} NoDuplicatesMultiplicity<T>(s: seq<T>, x: T)
    requires NoDuplicates(s)
    ensures multiset(s)[x] <= 1
  {
    if s != [] {
      assert NoDuplicates(s[1..]);
      NoDuplicatesMultiplicity(s[1..], x);
      assert s == [s[0]] + s[1..];
      if s[0] == x {
        assert x !in s[1..] by {
          forall k | 0 <= k < |s[1..]| ensures s[1..][k] != x {
            assert s[1..][k] == s[k + 1];
          }
        }
      }
    }
  }
}
