/** `Array.prototype.sort` as the source uses it: a stable sort under a
    comparator.  The library's own algorithm is not part of the source, so it is
    modelled by a stable insertion sort; what the source relies on, an ordered
    permutation of the input, is proved about it. */
module Sorting {

  /** `le(a, b)` reads "a may come before b"; it is total and transitive. */
  ghost predicate TotalPreorder<T(!new)>(le: (T, T) -> bool)
  {
    && (forall a, b :: le(a, b) || le(b, a))
    && (forall a, b, c :: le(a, b) && le(b, c) ==> le(a, c))
  }

  ghost predicate Sorted<T>(s: seq<T>, le: (T, T) -> bool)
  {
    forall i, j :: 0 <= i < j < |s| ==> le(s[i], s[j])
  }

  /** Puts `x` in front of the first element it may precede, so that `x` stays
      ahead of the elements of `s` that compare equal to it. */
  function Insert<T(!new)>(x: T, s: seq<T>, le: (T, T) -> bool): (r: seq<T>)
    ensures multiset(r) == multiset(s) + multiset{x}
    ensures |r| == |s| + 1
  {
    if s == [] || le(x, s[0]) then
      [x] + s
    else
      assert s == [s[0]] + s[1..];
      [s[0]] + Insert(x, s[1..], le)
  }

  /** The elements of `Insert(x, s)` are `x` and those of `s`. */
  lemma InsertElements<T(!new)>(x: T, s: seq<T>, le: (T, T) -> bool, y: T)
    requires y in Insert(x, s, le)
    ensures y == x || y in s
  {
    assert y in multiset(Insert(x, s, le));
  }

  lemma {:induction false} InsertSorted<T(!new)>(x: T, s: seq<T>, le: (T, T) -> bool)
    requires TotalPreorder(le) && Sorted(s, le)
    ensures Sorted(Insert(x, s, le), le)
  {
    var r := Insert(x, s, le);
    if s == [] || le(x, s[0]) {
      assert r == [x] + s;
      forall i, j | 0 <= i < j < |r| ensures le(r[i], r[j]) {
        if i == 0 {
          if j > 1 {
            assert le(x, s[0]) && le(s[0], s[j - 1]);
          }
        } else {
          assert r[i] == s[i - 1] && r[j] == s[j - 1];
        }
      }
    } else {
      var rest := Insert(x, s[1..], le);
      assert r == [s[0]] + rest;
      InsertSorted(x, s[1..], le);
      assert le(s[0], x);
      forall k | 0 <= k < |rest| ensures le(s[0], rest[k]) {
        InsertElements(x, s[1..], le, rest[k]);
        if rest[k] != x {
          var m :| 0 <= m < |s[1..]| && s[1..][m] == rest[k];
          assert s[m + 1] == rest[k];
        }
      }
      forall i, j | 0 <= i < j < |r| ensures le(r[i], r[j]) {
        if i == 0 {
          assert r[j] == rest[j - 1];
        } else {
          assert r[i] == rest[i - 1] && r[j] == rest[j - 1];
        }
      }
    }
  }

  function Sort<T(!new)>(s: seq<T>, le: (T, T) -> bool): (r: seq<T>)
    ensures multiset(r) == multiset(s)
    ensures |r| == |s|
  {
    if s == [] then
      []
    else
      assert s == [s[0]] + s[1..];
      Insert(s[0], Sort(s[1..], le), le)
  }

  lemma {:induction false} SortSorted<T(!new)>(s: seq<T>, le: (T, T) -> bool)
    requires TotalPreorder(le)
    ensures Sorted(Sort(s, le), le)
  {
    if s != [] {
      SortSorted(s[1..], le);
      InsertSorted(s[0], Sort(s[1..], le), le);
    }
  }

  /** A stable sort leaves alone a sequence whose elements all compare equal. */
  lemma {:induction false} SortKeepsEquivalentOrder<T(!new)>(s: seq<T>, le: (T, T) -> bool)
    requires forall i, j :: 0 <= i < |s| && 0 <= j < |s| ==> le(s[i], s[j])
    ensures Sort(s, le) == s
  {
    if s != [] {
      SortKeepsEquivalentOrder(s[1..], le);
      assert s == [s[0]] + s[1..];
      if |s| > 1 {
        assert le(s[0], s[1..][0]);
      }
    }
  }

  /** `a` and `b` compare equal. */
  predicate Tied<T>(a: T, b: T, le: (T, T) -> bool)
  {
    le(a, b) && le(b, a)
  }

  /** The elements of `s` that compare equal to `y`, in their order in `s`. */
  function Ties<T>(s: seq<T>, y: T, le: (T, T) -> bool): seq<T>
  {
    if s == [] then []
    else (if Tied(s[0], y, le) then [s[0]] else []) + Ties(s[1..], y, le)
  }

  lemma TiedWithSame<T(!new)>(a: T, b: T, y: T, le: (T, T) -> bool)
    requires TotalPreorder(le)
    ensures Tied(a, y, le) && Tied(b, y, le) ==> le(a, b)
  {
    if Tied(a, y, le) && Tied(b, y, le) {
      assert le(a, y) && le(y, b);
    }
  }

  /** Inserting `x` puts it ahead of every element it ties with. */
  lemma {:induction false} InsertTies<T(!new)>(x: T, s: seq<T>, y: T, le: (T, T) -> bool)
    requires TotalPreorder(le)
    ensures Ties(Insert(x, s, le), y, le) == (if Tied(x, y, le) then [x] else []) + Ties(s, y, le)
  {
    var r := Insert(x, s, le);
    var tx := if Tied(x, y, le) then [x] else [];
    if s == [] || le(x, s[0]) {
      assert r == [x] + s;
      assert r[0] == x && r[1..] == s;
    } else {
      var rest := Insert(x, s[1..], le);
      var t0 := if Tied(s[0], y, le) then [s[0]] else [];
      InsertTies(x, s[1..], y, le);
      assert r == [s[0]] + rest;
      assert r[0] == s[0] && r[1..] == rest;
      assert Ties(r, y, le) == t0 + Ties(rest, y, le);
      assert Ties(s, y, le) == t0 + Ties(s[1..], y, le);
      TiedWithSame(x, s[0], y, le);
      assert t0 == [] || tx == [];
    }
  }

  /** The sort is stable: elements that compare equal keep their order. */
  lemma {:induction false} SortIsStable<T(!new)>(s: seq<T>, y: T, le: (T, T) -> bool)
    requires TotalPreorder(le)
    ensures Ties(Sort(s, le), y, le) == Ties(s, y, le)
  {
    if s != [] {
      SortIsStable(s[1..], y, le);
      InsertTies(s[0], Sort(s[1..], le), y, le);
    }
  }

  predicate Distinct<T(==)>(s: seq<T>)
  {
    forall i, j :: 0 <= i < j < |s| ==> s[i] != s[j]
  }

  lemma {:induction false} DistinctOccursOnce<T>(s: seq<T>, x: T)
    requires Distinct(s)
    ensures multiset(s)[x] <= 1
  {
    if s != [] {
      DistinctOccursOnce(s[1..], x);
      assert s == [s[0]] + s[1..];
      assert s[0] !in s[1..];
    }
  }

  lemma RepeatOccursTwice<T>(s: seq<T>, i: nat, j: nat)
    requires i < j < |s| && s[i] == s[j]
    ensures multiset(s)[s[i]] >= 2
  {
    assert s == s[..i] + [s[i]] + s[i + 1..j] + [s[j]] + s[j + 1..];
  }

  /** Reordering a sequence of distinct elements keeps them distinct. */
  lemma PermutationKeepsDistinct<T>(a: seq<T>, b: seq<T>)
    requires multiset(a) == multiset(b) && Distinct(a)
    ensures Distinct(b)
  {
    forall i, j | 0 <= i < j < |b| ensures b[i] != b[j] {
      if b[i] == b[j] {
        RepeatOccursTwice(b, i, j);
        DistinctOccursOnce(a, b[i]);
      }
    }
  }
}
