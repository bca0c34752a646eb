/// Sequence helpers the resolver is built from: Ruby's nil (as an option),
/// Array#uniq, and the "append each block result, then flatten" pattern.
module Collections {

  /** Ruby's nil-or-value. */
  datatype Option<+T> = None | Some(value: T)

  /** No element occurs twice. */
  predicate NoDup<T(==)>(s: seq<T>) {
    forall i, j :: 0 <= i < j < |s| ==> s[i] != s[j]
  }

  /** Array#uniq: the array is walked front to back and an element is kept
      only the first time it is seen, so the result has exactly the
      elements of the input, once each. */
  function Uniq<T(==)>(s: seq<T>): (r: seq<T>)
    ensures forall i :: 0 <= i < |r| ==> r[i] in s
    ensures forall i :: 0 <= i < |s| ==> s[i] in r
    ensures NoDup(r)
  {
    if s == [] then []
    else
      var seen := Uniq(s[..|s| - 1]);
      if s[|s| - 1] in s[..|s| - 1] then seen else seen + [s[|s| - 1]]
  }

  /** The position at which x occurs first in s. */
  function FirstIndex<T(==)>(s: seq<T>, x: T): (i: nat)
    requires x in s
    ensures i < |s| && s[i] == x && x !in s[..i]
  {
    if s[0] == x then 0 else 1 + FirstIndex(s[1..], x)
  }

  lemma {:induction false} FirstIndexExtend<T>(s: seq<T>, x: T, y: T)
    requires y in s
    ensures FirstIndex(s + [x], y) == FirstIndex(s, y)
  {
    if s[0] != y {
      assert (s + [x])[1..] == s[1..] + [x];
      FirstIndexExtend(s[1..], x, y);
    }
  }

  /** Array#uniq keeps elements in the order in which they are first seen. */
  lemma {:induction false} UniqFirstSeen<T>(s: seq<T>)
    ensures forall i, j :: 0 <= i < j < |Uniq(s)| ==>
              FirstIndex(s, Uniq(s)[i]) < FirstIndex(s, Uniq(s)[j])
  {
    if s != [] {
      var init, x := s[..|s| - 1], s[|s| - 1];
      assert s == init + [x];
      UniqFirstSeen(init);
      var u := Uniq(init);
      forall i, j | 0 <= i < j < |Uniq(s)|
        ensures FirstIndex(s, Uniq(s)[i]) < FirstIndex(s, Uniq(s)[j])
      {
        FirstIndexExtend(init, x, Uniq(s)[i]);
        if j < |u| {
          FirstIndexExtend(init, x, Uniq(s)[j]);
        } else {
          assert x !in init && Uniq(s)[j] == x;
          assert (init + [x])[..|init|] == init;
        }
      }
    }
  }

  /** The first element of the input is the first element of Array#uniq. */
  lemma UniqHead<T>(s: seq<T>)
    requires s != []
    ensures Uniq(s) != [] && Uniq(s)[0] == s[0]
  {
    UniqFirstSeen(s);
    var u := Uniq(s);
    assert s[0] in u;
    var k :| 0 <= k < |u| && u[k] == s[0];
    assert FirstIndex(s, u[k]) == 0;
  }

  /** Array#uniq of a sequence extended by copies of one value x: the copies
      add x at the end unless x was already there. */
  lemma {:induction false} UniqAppendCopies<T>(a: seq<T>, b: seq<T>, x: T)
    requires b != [] && forall y :: y in b ==> y == x
    ensures Uniq(a + b) == if x in a then Uniq(a) else Uniq(a) + [x]
  {
    var init := b[..|b| - 1];
    assert b[|b| - 1] in b;
    assert b == init + [x];
    assert a + b == (a + init) + [x];
    assert (a + b)[..|a + b| - 1] == a + init;
    if init == [] {
      assert a + init == a;
    } else {
      assert forall y :: y in init ==> y in b;
      UniqAppendCopies(a, init, x);
      assert x in a + init by { assert init[0] in init; }
    }
  }

  /** Collect f's result for each element in order and flatten: the Ruby
      pattern `acc = []; xs.each { |x| acc << yield(x) }; acc.flatten`. */
  function FlatMap<T, U>(f: T -> seq<U>, s: seq<T>): seq<U> {
    if s == [] then [] else FlatMap(f, s[..|s| - 1]) + f(s[|s| - 1])
  }

  /** Yielding each element and flattening the results keeps their order. */
  lemma {:induction false} FlatMapAppend<T, U>(f: T -> seq<U>, a: seq<T>, b: seq<T>)
    ensures FlatMap(f, a + b) == FlatMap(f, a) + FlatMap(f, b)
  {
    if b != [] {
      var init := b[..|b| - 1];
      assert a + b == (a + init) + [b[|b| - 1]];
      assert (a + b)[..|a + b| - 1] == a + init;
      FlatMapAppend(f, a, init);
    } else {
      assert a + b == a;
    }
  }

  /** A block that returns its argument gives back the input itself: every
      element is yielded exactly once, in order. */
  lemma {:induction false} FlatMapIdentity<T>(s: seq<T>)
    ensures FlatMap(x => [x], s) == s
  {
    if s != [] {
      FlatMapIdentity(s[..|s| - 1]);
      assert s == s[..|s| - 1] + [s[|s| - 1]];
    }
  }

  /** What the flattened result holds: exactly the elements of the blocks'
      results. */
  lemma {:induction false} FlatMapMember<T, U>(f: T -> seq<U>, s: seq<T>, y: U)
    ensures y in FlatMap(f, s) <==> exists i :: 0 <= i < |s| && y in f(s[i])
  {
    if s != [] {
      var init := s[..|s| - 1];
      FlatMapMember(f, init, y);
      if y in FlatMap(f, s) && y !in FlatMap(f, init) {
        assert y in f(s[|s| - 1]);
      }
      if exists i :: 0 <= i < |s| && y in f(s[i]) {
        var i :| 0 <= i < |s| && y in f(s[i]);
        if i < |init| {
          assert s[i] == init[i];
        }
      }
    }
  }
}
