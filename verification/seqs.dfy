/** Sequence helpers shared by the buffer and the feedback summary. */
module Seqs {

  function Last<T>(s: seq<T>): T
    requires |s| > 0
  {
    s[|s| - 1]
  }

  lemma SplitLast<T>(s: seq<T>)
    requires |s| > 0
    ensures s == s[..|s| - 1] + [Last(s)]
  {
  }

  lemma ConsTail<T>(x: seq<T>)
    requires |x| > 0
    ensures [x[0]] + x[1..] == x
  {
  }

  lemma SliceAll<T>(a: seq<T>, s: seq<T>)
    ensures s[..|s|] == s && a + s[|s|..] == a
  {
  }

  /** The concatenation of a sequence of sequences, built from the back. */
  function Flatten<T>(ss: seq<seq<T>>): seq<T>
  {
    if |ss| == 0 then [] else Flatten(ss[..|ss| - 1]) + ss[|ss| - 1]
  }

  lemma {:induction false} FlattenMember<T>(ss: seq<seq<T>>, i: nat, x: T)
    requires i < |ss| && x in ss[i]
    ensures x in Flatten(ss)
    decreases |ss|
  {
    if i < |ss| - 1 {
      FlattenMember(ss[..|ss| - 1], i, x);
    }
  }

  lemma FlattenSnoc<T>(ss: seq<seq<T>>, s: seq<T>)
    ensures Flatten(ss + [s]) == Flatten(ss) + s
  {
    assert (ss + [s])[..|ss|] == ss;
  }

  /** Flattening sequences that are all non-empty yields nothing only when
      there is nothing to flatten. */
  lemma {:induction false} FlattenNonEmpty<T>(ss: seq<seq<T>>)
    requires forall i | 0 <= i < |ss| :: |ss[i]| > 0
    ensures |Flatten(ss)| >= |ss|
    decreases |ss|
  {
    if |ss| > 0 {
      FlattenNonEmpty(ss[..|ss| - 1]);
    }
  }

  /** `keep` picks out the elements of `s` it marks true, in order. */
  function Select<T>(s: seq<T>, keep: seq<bool>): (r: seq<T>)
    requires |keep| == |s|
    ensures |r| <= |s|
  {
    if |s| == 0 then []
    else Select(s[..|s| - 1], keep[..|s| - 1]) + (if keep[|s| - 1] then [s[|s| - 1]] else [])
  }

  lemma SelectSnoc<T>(s: seq<T>, keep: seq<bool>, x: T, b: bool)
    requires |keep| == |s|
    ensures Select(s + [x], keep + [b]) == Select(s, keep) + (if b then [x] else [])
  {
    assert (s + [x])[..|s|] == s && (keep + [b])[..|s|] == keep;
  }

  /** `a` is obtained from `b` by deleting elements. */
  ghost predicate IsSubsequence<T>(a: seq<T>, b: seq<T>) {
    exists keep: seq<bool> | |keep| == |b| :: Select(b, keep) == a
  }

  lemma {:induction false} SelectAppend<T>(s1: seq<T>, k1: seq<bool>, s2: seq<T>, k2: seq<bool>)
    requires |k1| == |s1| && |k2| == |s2|
    ensures Select(s1 + s2, k1 + k2) == Select(s1, k1) + Select(s2, k2)
    decreases |s2|
  {
    if |s2| == 0 {
      assert s1 + s2 == s1 && k1 + k2 == k1;
    } else {
      var n := |s2| - 1;
      assert (s1 + s2)[..|s1| + n] == s1 + s2[..n];
      assert (k1 + k2)[..|k1| + n] == k1 + k2[..n];
      SelectAppend(s1, k1, s2[..n], k2[..n]);
    }
  }

  /** A uniform mask keeps everything or nothing. */
  lemma {:induction false} SelectUniform<T>(s: seq<T>, b: bool)
    ensures Select(s, seq(|s|, _ => b)) == if b then s else []
    decreases |s|
  {
    if |s| > 0 {
      assert seq(|s|, _ => b)[..|s| - 1] == seq(|s| - 1, _ => b);
      SelectUniform(s[..|s| - 1], b);
    }
  }

  /** Number of occurrences of `x` in `s`. */
  function Count<T(==)>(s: seq<T>, x: T): nat
  {
    if |s| == 0 then 0 else Count(s[..|s| - 1], x) + (if s[|s| - 1] == x then 1 else 0)
  }

  lemma {:induction false} CountPositive<T>(s: seq<T>, x: T)
    ensures Count(s, x) > 0 <==> x in s
    decreases |s|
  {
    if |s| > 0 {
      CountPositive(s[..|s| - 1], x);
      assert s == s[..|s| - 1] + [s[|s| - 1]];
    }
  }

  /** The distinct elements of `s` in order of first occurrence. */
  function Distinct<T(==)>(s: seq<T>): (d: seq<T>)
    ensures forall i | 0 <= i < |s| :: s[i] in d
    ensures forall i | 0 <= i < |d| :: d[i] in s
    ensures forall i, j | 0 <= i < j < |d| :: d[i] != d[j]
  {
    if |s| == 0 then []
    else
      var d := Distinct(s[..|s| - 1]);
      assert s == s[..|s| - 1] + [s[|s| - 1]];
      if s[|s| - 1] in d then d else d + [s[|s| - 1]]
  }

  lemma {:induction false} CountAppend<T>(a: seq<T>, b: seq<T>, x: T)
    ensures Count(a + b, x) == Count(a, x) + Count(b, x)
    decreases |b|
  {
    if |b| == 0 {
      assert a + b == a;
    } else {
      var n := |b| - 1;
      assert (a + b)[..|a| + n] == a + b[..n];
      CountAppend(a, b[..n], x);
    }
  }

  /** Where `x` first occurs in `s`. */
  function FirstIndex<T(==)>(s: seq<T>, x: T): (i: nat)
    requires x in s
    ensures i < |s| && s[i] == x && x !in s[..i]
  {
    if s[0] == x then 0
    else
      var j := FirstIndex(s[1..], x);
      assert s[..j + 1] == [s[0]] + s[1..][..j];
      j + 1
  }

  /** The first occurrence is the only index with nothing equal before it. */
  lemma FirstIndexIs<T>(s: seq<T>, x: T, i: nat)
    requires i < |s| && s[i] == x && x !in s[..i]
    ensures FirstIndex(s, x) == i
  {
  }

  lemma FirstIndexSnoc<T>(s: seq<T>, x: T, y: T)
    requires y in s
    ensures FirstIndex(s + [x], y) == FirstIndex(s, y)
  {
    var i := FirstIndex(s, y);
    assert (s + [x])[..i] == s[..i];
    FirstIndexIs(s + [x], y, i);
  }

  /** `Distinct` lists the elements in the order they first occur. */
  lemma {:induction false} DistinctFirstOrder<T>(s: seq<T>)
    ensures forall i, j | 0 <= i < j < |Distinct(s)| :: FirstIndex(s, Distinct(s)[i]) < FirstIndex(s, Distinct(s)[j])
    decreases |s|
  {
    if |s| > 0 {
      var n := |s| - 1;
      var p, x := s[..n], s[n];
      var d := Distinct(p);
      DistinctFirstOrder(p);
      assert s == p + [x];
      forall y | y in d
        ensures FirstIndex(s, y) == FirstIndex(p, y) < n
      {
        FirstIndexSnoc(p, x, y);
      }
      if x !in d {
        assert x !in p;
        assert s[..n] == p;
        FirstIndexIs(s, x, n);
      }
    }
  }
}

