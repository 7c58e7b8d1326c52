// Types and sequence helpers shared by the other modules.
module Prelude {

  type byte = x: int | 0 <= x < 256

  datatype Option<+T> = None | Some(value: T)

  // ----- duplicate-free sequences -----

  ghost predicate NoDup<T>(s: seq<T>) {
    forall i, j :: 0 <= i < j < |s| ==> s[i] != s[j]
  }

  /** The sequence without any occurrence of `x`, in the same order. */
  function Without<T(==)>(s: seq<T>, x: T): seq<T> {
    if s == [] then []
    else if s[0] == x then Without(s[1..], x)
    else [s[0]] + Without(s[1..], x)
  }

  lemma {:induction false} WithoutMembers<T>(s: seq<T>, x: T)
    ensures forall y :: y in Without(s, x) <==> y in s && y != x
    ensures |Without(s, x)| <= |s|
  {
    if s == [] {
    } else {
      WithoutMembers(s[1..], x);
      assert s == [s[0]] + s[1..];
    }
  }

  lemma {:induction false} WithoutNoDup<T>(s: seq<T>, x: T)
    requires NoDup(s)
    ensures NoDup(Without(s, x))
    ensures forall i :: 0 < i < |Without(s, x)| ==> Without(s, x)[i] in s[1..]
  {
    if s == [] {
    } else {
      WithoutMembers(s[1..], x);
      assert NoDup(s[1..]);
      WithoutNoDup(s[1..], x);
      assert s[0] !in s[1..];
      if s[0] == x {
        forall i | 0 < i < |Without(s, x)| ensures Without(s, x)[i] in s[1..] {
          assert Without(s, x)[i] in Without(s[1..], x);
        }
      } else {
        assert Without(s, x) == [s[0]] + Without(s[1..], x);
      }
    }
  }

  /** Nothing to remove, nothing removed. */
  lemma {:induction false} WithoutAbsent<T>(s: seq<T>, x: T)
    requires x !in s
    ensures Without(s, x) == s
  {
    if s == [] {
    } else {
      assert s == [s[0]] + s[1..];
      WithoutAbsent(s[1..], x);
    }
  }

  // ----- bounded queues and chunked input -----

  /** The last `n` elements, or all of them. */
  function LastN<T>(s: seq<T>, n: nat): (r: seq<T>)
    ensures |r| == if |s| <= n then |s| else n
  {
    if |s| <= n then s else s[|s| - n..]
  }

  /** Keeping only the last `n` early does not change what is kept in the end. */
  lemma LastNAbsorbs<T>(s: seq<T>, t: seq<T>, n: nat)
    ensures LastN(LastN(s, n) + t, n) == LastN(s + t, n)
  {
    if |s| > n {
      var k := |s| - n;
      assert LastN(s, n) + t == (s + t)[k..];
      assert LastN((s + t)[k..], n) == (s + t)[k..][|t|..];
      assert (s + t)[k..][|t|..] == (s + t)[k + |t|..];
    }
  }

  lemma LastNPush<T>(s: seq<T>, x: T, rest: seq<T>, n: nat)
    ensures LastN(LastN(s + [x], n) + rest, n) == LastN(s + ([x] + rest), n)
  {
    LastNAbsorbs(s + [x], rest, n);
    assert s + [x] + rest == s + ([x] + rest);
  }

  function Concat<T>(chunks: seq<seq<T>>): seq<T> {
    if chunks == [] then [] else chunks[0] + Concat(chunks[1..])
  }

  lemma {:induction false} ConcatAppend<T>(a: seq<seq<T>>, b: seq<seq<T>>)
    ensures Concat(a + b) == Concat(a) + Concat(b)
  {
    if a == [] {
      assert a + b == b;
    } else {
      assert (a + b)[1..] == a[1..] + b;
      ConcatAppend(a[1..], b);
    }
  }
}
