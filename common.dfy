/** Small value types and sequence helpers shared by the other modules. */
module Common {

  /** Ruby's `nil` or a value. */
  datatype Option<T> = None | Some(value: T)

  /** A person's identifier: the part of an image file name before `_profile`. */
  type Name = string

  /** The values that occur in `s`. */
  function Elems<T>(s: seq<T>): set<T>
  {
    set y | y in s
  }

  /** No value occurs twice in `s`. */
  ghost predicate Distinct<T>(s: seq<T>)
  {
    forall i, j :: 0 <= i < j < |s| ==> s[i] != s[j]
  }

  /** The first `n` elements of `s`, or all of `s` when it is shorter. */
  function Truncate<T>(s: seq<T>, n: nat): (r: seq<T>)
    ensures |r| <= n && |r| <= |s|
    ensures r == s[..|r|]
    ensures |s| <= n ==> r == s
  {
    if |s| <= n then s else s[..n]
  }

  /**
   * `s` with every element of `drop` removed and the order of the rest kept:
   * Ruby's `Array#delete`, which removes every copy of one value.
   */
  function Exclude<T(==,!new)>(s: seq<T>, drop: set<T>): (r: seq<T>)
    ensures |r| <= |s|
    ensures forall y :: y in r <==> y in s && y !in drop
  {
    if s == [] then []
    else if s[0] in drop then Exclude(s[1..], drop)
    else [s[0]] + Exclude(s[1..], drop)
  }

  /**
   * `a` can be obtained from `b` by deleting elements: the elements of `a`
   * appear in `b` in the same relative order.
   */
  predicate Subsequence<T(==)>(a: seq<T>, b: seq<T>)
    decreases |b|
  {
    a == [] || (b != [] && if a[0] == b[0] then Subsequence(a[1..], b[1..]) else Subsequence(a, b[1..]))
  }

  /** Removing values that do not occur changes nothing. */
  lemma {:induction false} ExcludeAbsent<T(!new)>(s: seq<T>, drop: set<T>)
    requires forall y :: y in s ==> y !in drop
    ensures Exclude(s, drop) == s
  {
    if s != [] {
      ExcludeAbsent(s[1..], drop);
    }
  }

  /** Removing a value that does occur makes the sequence strictly shorter. */
  lemma {:induction false} ExcludeShrinks<T(!new)>(s: seq<T>, drop: set<T>, x: T)
    requires x in s && x in drop
    ensures |Exclude(s, drop)| < |s|
  {
    if s[0] != x {
      ExcludeShrinks(s[1..], drop, x);
    }
  }

  /** Removal keeps a duplicate-free sequence duplicate-free. */
  lemma {:induction false} ExcludeDistinct<T(!new)>(s: seq<T>, drop: set<T>)
    requires Distinct(s)
    ensures Distinct(Exclude(s, drop))
  {
    if s != [] {
      assert Distinct(s[1..]) by {
        forall i, j | 0 <= i < j < |s[1..]| ensures s[1..][i] != s[1..][j] {
          assert s[1..][i] == s[i + 1] && s[1..][j] == s[j + 1];
        }
      }
      ExcludeDistinct(s[1..], drop);
      if s[0] !in drop {
        var rest := Exclude(s[1..], drop);
        assert s[0] !in s[1..];
        assert s[0] !in rest;
        DistinctCons(s[0], rest);
      }
    }
  }

  /** Prepending a new value to a duplicate-free sequence keeps it duplicate-free. */
  lemma DistinctCons<T>(x: T, s: seq<T>)
    requires Distinct(s) && x !in s
    ensures Distinct([x] + s)
  {
    forall i, j | 0 <= i < j < |[x] + s| ensures ([x] + s)[i] != ([x] + s)[j] {
      if i == 0 {
        assert ([x] + s)[j] == s[j - 1];
      } else {
        assert ([x] + s)[i] == s[i - 1] && ([x] + s)[j] == s[j - 1];
      }
    }
  }

  /** Concatenating two duplicate-free sequences with no value in common is duplicate-free. */
  lemma DistinctAppend<T>(a: seq<T>, b: seq<T>)
    requires Distinct(a) && Distinct(b)
    requires forall y :: y in a ==> y !in b
    ensures Distinct(a + b)
  {
    forall i, j | 0 <= i < j < |a + b| ensures (a + b)[i] != (a + b)[j] {
      if j < |a| {
        assert (a + b)[i] == a[i] && (a + b)[j] == a[j];
      } else if i < |a| {
        assert (a + b)[i] == a[i] && (a + b)[j] == b[j - |a|];
        assert a[i] in a && b[j - |a|] in b;
      } else {
        assert (a + b)[i] == b[i - |a|] && (a + b)[j] == b[j - |a|];
      }
    }
  }

  /** Dropping the first element keeps a sequence duplicate-free. */
  lemma DistinctTail<T>(s: seq<T>)
    requires Distinct(s) && s != []
    ensures Distinct(s[1..])
  {
    forall i, j | 0 <= i < j < |s[1..]| ensures s[1..][i] != s[1..][j] {
      assert s[1..][i] == s[i + 1] && s[1..][j] == s[j + 1];
    }
  }

  /** In a duplicate-free sequence the first element does not occur again. */
  lemma NotInTail<T>(s: seq<T>)
    requires Distinct(s) && s != []
    ensures s[0] !in s[1..]
  {
    forall j | 0 <= j < |s[1..]| ensures s[1..][j] != s[0] {
      assert s[1..][j] == s[j + 1];
    }
  }

  /** Every prefix of a duplicate-free sequence is duplicate-free. */
  lemma DistinctPrefix<T>(s: seq<T>, n: nat)
    requires Distinct(s) && n <= |s|
    ensures Distinct(s[..n])
  {
    forall i, j | 0 <= i < j < n ensures s[..n][i] != s[..n][j] {
      assert s[..n][i] == s[i] && s[..n][j] == s[j];
    }
  }

  /** Removal distributes over concatenation. */
  lemma {:induction false} ExcludeAppend<T(!new)>(a: seq<T>, b: seq<T>, drop: set<T>)
    ensures Exclude(a + b, drop) == Exclude(a, drop) + Exclude(b, drop)
  {
    if a == [] {
      assert a + b == b;
    } else {
      assert (a + b)[0] == a[0] && (a + b)[1..] == a[1..] + b;
      ExcludeAppend(a[1..], b, drop);
    }
  }

  /** Removing two sets one after the other is removing their union. */
  lemma {:induction false} ExcludeTwice<T(!new)>(s: seq<T>, first: set<T>, second: set<T>)
    ensures Exclude(Exclude(s, first), second) == Exclude(s, first + second)
  {
    if s != [] {
      ExcludeTwice(s[1..], first, second);
    }
  }

  /** What is left after a removal is a subsequence of the original. */
  lemma {:induction false} ExcludeSubsequence<T(!new)>(s: seq<T>, drop: set<T>)
    ensures Subsequence(Exclude(s, drop), s)
  {
    if s != [] {
      ExcludeSubsequence(s[1..], drop);
      var r := Exclude(s[1..], drop);
      if s[0] in drop && r != [] {
        assert r[0] in r;
      }
    }
  }

  /** A prefix of a subsequence is still a subsequence. */
  lemma {:induction false} SubsequencePrefix<T>(a: seq<T>, b: seq<T>, n: nat)
    requires Subsequence(a, b) && n <= |a|
    ensures Subsequence(a[..n], b)
    decreases |b|
  {
    if n > 0 {
      if a[0] == b[0] {
        SubsequencePrefix(a[1..], b[1..], n - 1);
        assert a[..n][1..] == a[1..][..n - 1];
      } else {
        SubsequencePrefix(a, b[1..], n);
      }
    }
  }

  /** Cutting `[x] + s` to `n > 0` elements keeps `x` and cuts `s` to `n - 1`. */
  lemma TruncateCons<T>(x: T, s: seq<T>, n: nat)
    requires n > 0
    ensures Truncate([x] + s, n) == [x] + Truncate(s, n - 1)
  {
    if |s| > n - 1 {
      assert ([x] + s)[..n] == [x] + s[..n - 1];
    }
  }

  /**
   * In a duplicate-free sequence, removing `x` before or after cutting to `n`
   * elements leaves the same first `n - 1` elements.
   */
  lemma {:induction false} TruncateExclude<T(!new)>(a: seq<T>, x: T, n: nat)
    requires Distinct(a) && n > 0
    ensures Truncate(Exclude(Truncate(a, n), {x}), n - 1) == Truncate(Exclude(a, {x}), n - 1)
  {
    if |a| > n {
      var tail := a[1..];
      assert Distinct(tail) by {
        forall i, j | 0 <= i < j < |tail| ensures tail[i] != tail[j] {
          assert tail[i] == a[i + 1] && tail[j] == a[j + 1];
        }
      }
      assert Truncate(a, n) == [a[0]] + Truncate(tail, n - 1) by {
        assert a[..n] == [a[0]] + tail[..n - 1];
      }
      assert a == [a[0]] + tail;
      if a[0] == x {
        assert x !in tail by {
          forall j | 0 <= j < |tail| ensures tail[j] != x {
            assert tail[j] == a[j + 1];
          }
        }
        ExcludeAbsent(tail, {x});
        ExcludeAbsent(Truncate(tail, n - 1), {x});
      } else if n > 1 {
        TruncateExclude(tail, x, n - 1);
        TruncateCons(a[0], Exclude(Truncate(tail, n - 1), {x}), n - 1);
        TruncateCons(a[0], Exclude(tail, {x}), n - 1);
      }
    }
  }

  /** `s` in reverse order. */
  function Reversed<T>(s: seq<T>): (r: seq<T>)
    ensures |r| == |s|
  {
    if s == [] then [] else [s[|s| - 1]] + Reversed(s[..|s| - 1])
  }

  /** The `k`-th element of the reversal is the `k`-th from the end. */
  lemma {:induction false} ReversedAt<T>(s: seq<T>, k: nat)
    requires k < |s|
    ensures Reversed(s)[k] == s[|s| - 1 - k]
  {
    if k > 0 {
      ReversedAt(s[..|s| - 1], k - 1);
    }
  }

  /** Cutting to `n` and then to `m <= n` is cutting to `m`. */
  lemma TruncateTruncate<T>(s: seq<T>, n: nat, m: nat)
    requires m <= n
    ensures Truncate(Truncate(s, n), m) == Truncate(s, m)
  {
  }

  /** A sequence has at most as many distinct values as elements. */
  lemma {:induction false} ElemsSize<T>(s: seq<T>)
    ensures |Elems(s)| <= |s|
  {
    if s != [] {
      ElemsSize(s[1..]);
      assert Elems(s) == {s[0]} + Elems(s[1..]);
    }
  }

  /** A duplicate-free sequence has exactly as many distinct values as elements. */
  lemma {:induction false} DistinctElemsSize<T>(s: seq<T>)
    requires Distinct(s)
    ensures |Elems(s)| == |s|
  {
    if s != [] {
      DistinctTail(s);
      NotInTail(s);
      DistinctElemsSize(s[1..]);
      assert Elems(s) == {s[0]} + Elems(s[1..]);
    }
  }

  /** A subset is no larger than its superset. */
  lemma SubsetSize<T>(a: set<T>, b: set<T>)
    requires a <= b
    ensures |a| <= |b|
  {
    assert b == a + (b - a);
  }
}
