/// Array#sort with a block, modelled as a stable insertion sort driven by a
/// three-way comparator (negative, zero or positive, as a Ruby sort block
/// answers), and String#<=>, the comparator plain Array#sort uses on paths.
module Sorting {

  /** Places x in front of the first element it does not compare greater
      than. */
  function Insert<T>(x: T, s: seq<T>, cmp: (T, T) -> int): (r: seq<T>)
    ensures multiset(r) == multiset(s) + multiset{x}
  {
    if s == [] then [x]
    else if cmp(x, s[0]) <= 0 then [x] + s
    else
      assert s == [s[0]] + s[1..];
      [s[0]] + Insert(x, s[1..], cmp)
  }

  /** Sorting with a comparator block: the result is a permutation of the
      input, whatever the comparator answers. */
  function SortBy<T>(s: seq<T>, cmp: (T, T) -> int): (r: seq<T>)
    ensures multiset(r) == multiset(s)
  {
    if s == [] then []
    else
      assert s == [s[0]] + s[1..];
      Insert(s[0], SortBy(s[1..], cmp), cmp)
  }

  /** Every element is ordered no later than every element after it. */
  predicate Sorted<T>(s: seq<T>, cmp: (T, T) -> int) {
    forall i, j :: 0 <= i < j < |s| ==> cmp(s[i], s[j]) <= 0
  }

  /** String#<=>: lexicographic by character, a proper prefix first. */
  function Compare(a: string, b: string): (c: int)
    ensures -1 <= c <= 1
  {
    if a == [] then (if b == [] then 0 else -1)
    else if b == [] then 1
    else if a[0] < b[0] then -1
    else if a[0] > b[0] then 1
    else Compare(a[1..], b[1..])
  }

  /** Swapping the operands of String#<=> negates the answer. */
  lemma {:induction false} CompareAntisymmetric(a: string, b: string)
    ensures Compare(a, b) == -Compare(b, a)
  {
    if a != [] && b != [] && a[0] == b[0] {
      CompareAntisymmetric(a[1..], b[1..]);
    }
  }

  /** String#<=> answers 0 only for equal strings. */
  lemma {:induction false} CompareZero(a: string, b: string)
    ensures Compare(a, b) == 0 <==> a == b
  {
    if a != [] && b != [] && a[0] == b[0] {
      CompareZero(a[1..], b[1..]);
      assert a == [a[0]] + a[1..] && b == [b[0]] + b[1..];
    }
  }

  /** String#<=> is transitive. */
  lemma {:induction false} CompareTransitive(a: string, b: string, c: string)
    requires Compare(a, b) <= 0 && Compare(b, c) <= 0
    ensures Compare(a, c) <= 0
  {
    if a != [] && b != [] && c != [] && a[0] == b[0] && b[0] == c[0] {
      CompareTransitive(a[1..], b[1..], c[1..]);
    }
  }

  /** Prepending a string no greater than any element keeps a list sorted. */
  lemma ConsSorted(y: string, t: seq<string>)
    requires Sorted(t, Compare)
    requires forall k :: 0 <= k < |t| ==> Compare(y, t[k]) <= 0
    ensures Sorted([y] + t, Compare)
  {
    var r := [y] + t;
    forall i, j | 0 <= i < j < |r| ensures Compare(r[i], r[j]) <= 0 {
      if i > 0 {
        assert r[i] == t[i - 1] && r[j] == t[j - 1];
      } else {
        assert r[j] == t[j - 1];
      }
    }
  }

  lemma {:induction false} InsertSorted(x: string, s: seq<string>)
    requires Sorted(s, Compare)
    ensures Sorted(Insert(x, s, Compare), Compare)
  {
    if s == [] {
    } else if Compare(x, s[0]) <= 0 {
      forall k | 0 <= k < |s| ensures Compare(x, s[k]) <= 0 {
        if k > 0 { CompareTransitive(x, s[0], s[k]); }
      }
      ConsSorted(x, s);
    } else {
      CompareAntisymmetric(x, s[0]);
      var rest := Insert(x, s[1..], Compare);
      assert Sorted(s[1..], Compare) by {
        forall i, j | 0 <= i < j < |s[1..]| ensures Compare(s[1..][i], s[1..][j]) <= 0 {
          assert s[1..][i] == s[i + 1] && s[1..][j] == s[j + 1];
        }
      }
      InsertSorted(x, s[1..]);
      forall k | 0 <= k < |rest| ensures Compare(s[0], rest[k]) <= 0 {
        assert rest[k] in multiset(rest);
        if rest[k] != x {
          assert rest[k] in multiset(s[1..]);
          var m :| 0 <= m < |s[1..]| && s[1..][m] == rest[k];
          assert s[m + 1] == rest[k];
        }
      }
      ConsSorted(s[0], rest);
    }
  }

  /** Array#sort on strings yields them in ascending String#<=> order. */
  lemma {:induction false} SortStringsSorted(s: seq<string>)
    ensures Sorted(SortBy(s, Compare), Compare)
  {
    if s != [] {
      SortStringsSorted(s[1..]);
      InsertSorted(s[0], SortBy(s[1..], Compare));
    }
  }
}
