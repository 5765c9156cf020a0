/** Mapping each element of a sequence to a run of values, and why the
    result's multiset depends only on the input's multiset. */
module Sequences {

  /** `[y for x in s for y in f(x)]` */
  function FlatMap<T, U>(f: T -> seq<U>, s: seq<T>): seq<U> {
    if s == [] then [] else FlatMap(f, s[..|s| - 1]) + f(s[|s| - 1])
  }

  lemma {:induction false} FlatMapAppend<T, U>(f: T -> seq<U>, a: seq<T>, b: seq<T>)
    ensures FlatMap(f, a + b) == FlatMap(f, a) + FlatMap(f, b)
  {
    if b == [] {
      assert a + b == a;
    } else {
      assert (a + b)[..|a + b| - 1] == a + b[..|b| - 1];
      FlatMapAppend(f, a, b[..|b| - 1]);
    }
  }

  lemma FlatMapSingle<T, U>(f: T -> seq<U>, x: T)
    ensures FlatMap(f, [x]) == f(x)
  {
    assert [x][..0] == [];
  }

  /** Extending a prefix by one element. */
  lemma PrefixStep<T>(s: seq<T>, i: nat)
    requires i < |s|
    ensures s[..i + 1] == s[..i] + [s[i]]
  {
  }

  lemma MultisetRemoveAt<T>(b: seq<T>, j: nat)
    requires j < |b|
    ensures b == b[..j] + [b[j]] + b[j + 1..]
    ensures multiset(b[..j] + b[j + 1..]) == multiset(b) - multiset{b[j]}
  {
    assert b == b[..j] + [b[j]] + b[j + 1..];
    assert multiset(b) == multiset(b[..j]) + multiset{b[j]} + multiset(b[j + 1..]);
  }

  /** Multiset of a middle piece cut out of a concatenation. */
  lemma MultisetMiddle<U>(a: seq<U>, m: seq<U>, c: seq<U>)
    ensures multiset(a + m + c) == multiset(a + c) + multiset(m)
  {
    calc {
      multiset(a + m + c);
      multiset(a) + multiset(m) + multiset(c);
      multiset(a + c) + multiset(m);
    }
  }

  /** The image of a sequence with one element cut out, and of that element. */
  lemma FlatMapSplit<T, U>(f: T -> seq<U>, front: seq<T>, x: T, back: seq<T>)
    ensures FlatMap(f, front + [x] + back) == FlatMap(f, front) + f(x) + FlatMap(f, back)
    ensures FlatMap(f, front + back) == FlatMap(f, front) + FlatMap(f, back)
  {
    FlatMapAppend(f, front + [x], back);
    FlatMapAppend(f, front, [x]);
    FlatMapSingle(f, x);
    FlatMapAppend(f, front, back);
  }

  /** Taking one element out of the input takes its image out of the output. */
  lemma FlatMapRemoveAt<T, U>(f: T -> seq<U>, b: seq<T>, j: nat)
    requires j < |b|
    ensures multiset(FlatMap(f, b)) == multiset(FlatMap(f, b[..j] + b[j + 1..])) + multiset(f(b[j]))
  {
    var front, x, back := b[..j], b[j], b[j + 1..];
    assert b == front + [x] + back;
    FlatMapSplit(f, front, x, back);
    var ff, fb := FlatMap(f, front), FlatMap(f, back);
    MultisetMiddle(ff, f(x), fb);
    calc {
      multiset(FlatMap(f, b));
      multiset(ff + f(x) + fb);
      multiset(ff + fb) + multiset(f(x));
      multiset(FlatMap(f, front + back)) + multiset(f(x));
    }
  }

  /** Reordering the input only reorders the output. */
  lemma {:induction false} FlatMapPermutation<T, U>(f: T -> seq<U>, a: seq<T>, b: seq<T>)
    requires multiset(a) == multiset(b)
    ensures multiset(FlatMap(f, a)) == multiset(FlatMap(f, b))
  {
    if a == [] {
      assert |b| == 0 by { assert |multiset(a)| == |multiset(b)|; }
    } else {
      var init, x := a[..|a| - 1], a[|a| - 1];
      assert a == init + [x];
      assert multiset(init) == multiset(a) - multiset{x} by {
        assert multiset(a) == multiset(init) + multiset{x};
      }
      assert x in multiset(b) by { assert x in multiset(a); }
      var j :| 0 <= j < |b| && b[j] == x;
      MultisetRemoveAt(b, j);
      FlatMapPermutation(f, init, b[..j] + b[j + 1..]);
      FlatMapRemoveAt(f, b, j);
      assert FlatMap(f, a) == FlatMap(f, init) + f(x);
    }
  }
}
