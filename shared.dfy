/** Small types shared by the three components of the model. */
module Shared {

  /** An 8-bit unsigned value: the element type of the C# byte arrays. */
  newtype byte = x: int | 0 <= x < 256

  /** A reference that may be null, or an optional argument. */
  datatype Option<+T> = None | Some(value: T)

  /** The outcome of an operation that may throw: the value, or the exception it throws. */
  datatype Result<+T, +E> = Success(value: T) | Failure(error: E)

  function Min(a: int, b: int): (m: int)
    ensures m <= a && m <= b && (m == a || m == b)
  {
    if a <= b then a else b
  }

  /** Concatenation is associative. */
  lemma AppendAssoc<T>(a: seq<T>, b: seq<T>, c: seq<T>)
    ensures a + (b + c) == (a + b) + c
  {
  }

  /** The first i + 1 elements are the first i followed by element i. */
  lemma TakeSnoc<T>(s: seq<T>, i: nat)
    requires i < |s|
    ensures s[..i + 1] == s[..i] + [s[i]]
  {
  }

  /**
   * `s` is `t` with some elements left out and the rest kept in order: the
   * last element of `t` either ends `s` or is left out.
   */
  predicate Subsequence<T(==)>(s: seq<T>, t: seq<T>)
    decreases |t|
  {
    if t == [] then s == []
    else
      || (s != [] && s[|s| - 1] == t[|t| - 1] && Subsequence(s[..|s| - 1], t[..|t| - 1]))
      || Subsequence(s, t[..|t| - 1])
  }

  /** Leaving nothing out gives a subsequence. */
  lemma {:induction false} SubsequenceRefl<T>(s: seq<T>)
    ensures Subsequence(s, s)
    decreases |s|
  {
    if s != [] {
      SubsequenceRefl(s[..|s| - 1]);
    }
  }

  /** A prefix is a subsequence: everything after it is left out. */
  lemma {:induction false} SubsequencePrefix<T>(s: seq<T>, k: nat)
    requires k <= |s|
    ensures Subsequence(s[..k], s)
    decreases |s|
  {
    if k == |s| {
      assert s[..k] == s;
      SubsequenceRefl(s);
    } else {
      assert s[..|s| - 1][..k] == s[..k];
      SubsequencePrefix(s[..|s| - 1], k);
    }
  }

  /** Subsequences of two parts give a subsequence of the whole. */
  lemma {:induction false} SubsequenceConcat<T>(a: seq<T>, b: seq<T>, c: seq<T>, d: seq<T>)
    requires Subsequence(a, b) && Subsequence(c, d)
    ensures Subsequence(a + c, b + d)
    decreases |d|
  {
    if d == [] {
      assert a + c == a && b + d == b;
    } else {
      assert (b + d)[..|b + d| - 1] == b + d[..|d| - 1];
      if c != [] && c[|c| - 1] == d[|d| - 1] && Subsequence(c[..|c| - 1], d[..|d| - 1]) {
        SubsequenceConcat(a, b, c[..|c| - 1], d[..|d| - 1]);
        assert (a + c)[..|a + c| - 1] == a + c[..|c| - 1];
      } else {
        SubsequenceConcat(a, b, c, d[..|d| - 1]);
      }
    }
  }

  /**
   * Two growth steps in a row: when what was added to `s` in each step is a
   * subsequence of what was added to `t`, so is what was added in both.
   */
  lemma SubsequenceGrowth<T>(s0: seq<T>, s1: seq<T>, s2: seq<T>, t0: seq<T>, t1: seq<T>, t2: seq<T>)
    requires s0 <= s1 && s1 <= s2 && t0 <= t1 && t1 <= t2
    requires Subsequence(s1[|s0|..], t1[|t0|..]) && Subsequence(s2[|s1|..], t2[|t1|..])
    ensures Subsequence(s2[|s0|..], t2[|t0|..])
  {
    assert s2[|s0|..] == s1[|s0|..] + s2[|s1|..];
    assert t2[|t0|..] == t1[|t0|..] + t2[|t1|..];
    SubsequenceConcat(s1[|s0|..], t1[|t0|..], s2[|s1|..], t2[|t1|..]);
  }

  /** The number of occurrences of `x` in `s`. */
  function Count<T(==)>(s: seq<T>, x: T): (n: nat)
    ensures n <= |s|
    ensures n == 0 <==> x !in s
  {
    if s == [] then 0 else (if s[0] == x then 1 else 0) + Count(s[1..], x)
  }

  lemma {:induction false} CountAppend<T>(s: seq<T>, t: seq<T>, x: T)
    ensures Count(s + t, x) == Count(s, x) + Count(t, x)
  {
    if s == [] {
      assert s + t == t;
    } else {
      assert (s + t)[1..] == s[1..] + t;
      CountAppend(s[1..], t, x);
    }
  }
}
