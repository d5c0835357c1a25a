/**
 * Insertion-ordered maps, as JavaScript's `Map`: a sequence of key/value
 * pairs with distinct keys. Iteration follows the sequence; setting an
 * existing key keeps its position, setting a new key appends it, and
 * deleting a key closes the gap.
 */
module Assoc {
  import opened Wrappers
  import opened Seqs

  function Keys<K, V>(xs: seq<(K, V)>): (ks: seq<K>)
    ensures |ks| == |xs|
    ensures forall i | 0 <= i < |xs| :: ks[i] == xs[i].0
  {
    seq(|xs|, i requires 0 <= i < |xs| => xs[i].0)
  }

  /** No key occurs twice: the shape every `Map` has. */
  predicate UniqueKeys<K(==), V>(xs: seq<(K, V)>) {
    forall i, j | 0 <= i < j < |xs| :: xs[i].0 != xs[j].0
  }

  /** The position of `k`, if present. */
  function Find<K(==), V>(xs: seq<(K, V)>, k: K): (r: Option<nat>)
    ensures r.Some? ==> r.value < |xs| && xs[r.value].0 == k
    ensures r.None? <==> forall i | 0 <= i < |xs| :: xs[i].0 != k
  {
    if |xs| == 0 then None
    else if Last(xs).0 == k then Some(|xs| - 1)
    else Find(xs[..|xs| - 1], k)
  }

  /** `map.has(k)`. */
  predicate Has<K(==), V>(xs: seq<(K, V)>, k: K) {
    Find(xs, k).Some?
  }

  /** `map.get(k)`. */
  function Get<K(==), V>(xs: seq<(K, V)>, k: K): (r: Option<V>)
    ensures r.Some? <==> Has(xs, k)
  {
    match Find(xs, k)
    case Some(i) => Some(xs[i].1)
    case None => None
  }

  /** In a map with distinct keys, the pair at a position is found by its key. */
  lemma FindUnique<K, V>(xs: seq<(K, V)>, i: nat)
    requires UniqueKeys(xs) && i < |xs|
    ensures Find(xs, xs[i].0) == Some(i)
    decreases |xs|
  {
    if i < |xs| - 1 {
      FindUnique(xs[..|xs| - 1], i);
    }
  }

  /** `map.set(k, v)`. */
  function Put<K(==), V>(xs: seq<(K, V)>, k: K, v: V): (r: seq<(K, V)>)
    ensures |r| == |xs| || |r| == |xs| + 1
  {
    match Find(xs, k)
    case Some(i) => xs[i := (k, v)]
    case None => xs + [(k, v)]
  }

  /** `map.delete(k)`. */
  function Remove<K(==), V>(xs: seq<(K, V)>, k: K): (r: seq<(K, V)>)
    ensures |r| <= |xs|
    ensures forall i | 0 <= i < |r| :: r[i].0 != k
  {
    if |xs| == 0 then []
    else if Last(xs).0 == k then Remove(xs[..|xs| - 1], k)
    else Remove(xs[..|xs| - 1], k) + [Last(xs)]
  }

  /** Deleting keeps only pairs that were there. */
  lemma {:induction false} RemoveSubset<K, V>(xs: seq<(K, V)>, k: K)
    ensures forall i | 0 <= i < |Remove(xs, k)| :: Remove(xs, k)[i] in xs
    decreases |xs|
  {
    if |xs| > 0 {
      var p := xs[..|xs| - 1];
      RemoveSubset(p, k);
      assert forall x | x in p :: x in xs;
    }
  }

  /** A selection of pairs none of which has key `k` has none either. */
  lemma {:induction false} SelectAvoids<K, V>(xs: seq<(K, V)>, keep: seq<bool>, k: K)
    requires |keep| == |xs|
    requires forall i | 0 <= i < |xs| :: xs[i].0 != k
    ensures forall j | 0 <= j < |Select(xs, keep)| :: Select(xs, keep)[j].0 != k
    decreases |xs|
  {
    if |xs| > 0 {
      SelectAvoids(xs[..|xs| - 1], keep[..|xs| - 1], k);
    }
  }

  /** Setting a key makes it map to the new value, leaves every other key's
      value alone, and keeps the keys distinct. */
  lemma PutGet<K, V>(xs: seq<(K, V)>, k: K, v: V, k': K)
    requires UniqueKeys(xs)
    ensures UniqueKeys(Put(xs, k, v))
    ensures Get(Put(xs, k, v), k') == if k' == k then Some(v) else Get(xs, k')
  {
    var r := Put(xs, k, v);
    assert UniqueKeys(r);
    if k' == k {
      match Find(xs, k)
      case Some(i) => FindUnique(r, i);
      case None => FindUnique(r, |xs|);
    } else {
      match Find(xs, k')
      case Some(i) =>
        FindUnique(xs, i);
        FindUnique(r, i);
      case None =>
        assert forall i | 0 <= i < |r| :: r[i].0 != k';
    }
  }

  /** Setting a key keeps the iteration order: an existing key stays where it
      is and a new key goes last. */
  lemma PutKeys<K, V>(xs: seq<(K, V)>, k: K, v: V)
    ensures Keys(Put(xs, k, v)) == if Has(xs, k) then Keys(xs) else Keys(xs) + [k]
  {
  }

  /** Deleting a key removes exactly that key. */
  lemma {:induction false} RemoveGet<K, V>(xs: seq<(K, V)>, k: K, k': K)
    requires UniqueKeys(xs)
    ensures UniqueKeys(Remove(xs, k))
    ensures Get(Remove(xs, k), k') == if k' == k then None else Get(xs, k')
    decreases |xs|
  {
    if |xs| > 0 {
      var p := xs[..|xs| - 1];
      RemoveGet(p, k, k');
      var rp := Remove(p, k);
      RemoveSubset(p, k);
      if Last(xs).0 != k {
        var r := rp + [Last(xs)];
        assert forall i | 0 <= i < |rp| :: rp[i] in p;
        assert UniqueKeys(r);
        if k' == Last(xs).0 {
          FindUnique(r, |rp|);
          FindUnique(xs, |xs| - 1);
        } else {
          assert r[..|r| - 1] == rp;
        }
      } else if k' != k {
        assert Find(xs, k') == Find(p, k');
      }
    }
  }

  /** Deleting a key keeps the order of the others. */
  lemma {:induction false} RemoveKeys<K, V>(xs: seq<(K, V)>, k: K, i: nat, j: nat)
    requires i < j < |xs| && xs[i].0 != k && xs[j].0 != k
    ensures exists a, b | 0 <= a < b < |Remove(xs, k)| :: Remove(xs, k)[a] == xs[i] && Remove(xs, k)[b] == xs[j]
    decreases |xs|
  {
    var p := xs[..|xs| - 1];
    if j < |xs| - 1 {
      RemoveKeys(p, k, i, j);
      var a, b :| 0 <= a < b < |Remove(p, k)| && Remove(p, k)[a] == p[i] && Remove(p, k)[b] == p[j];
      assert Remove(xs, k)[a] == xs[i] && Remove(xs, k)[b] == xs[j];
    } else {
      RemoveMember(p, k, i);
      var a :| 0 <= a < |Remove(p, k)| && Remove(p, k)[a] == p[i];
      assert Remove(xs, k)[a] == xs[i];
      assert Remove(xs, k)[|Remove(p, k)|] == xs[j];
    }
  }

  /** Deleting a key keeps every pair with another key. */
  lemma {:induction false} RemoveMember<K, V>(xs: seq<(K, V)>, k: K, i: nat)
    requires i < |xs| && xs[i].0 != k
    ensures exists a | 0 <= a < |Remove(xs, k)| :: Remove(xs, k)[a] == xs[i]
    decreases |xs|
  {
    var p := xs[..|xs| - 1];
    if i < |xs| - 1 {
      RemoveMember(p, k, i);
      var a :| 0 <= a < |Remove(p, k)| && Remove(p, k)[a] == p[i];
      if Last(xs).0 != k {
        assert Remove(xs, k) == Remove(p, k) + [Last(xs)];
        assert Remove(xs, k)[a] == xs[i];
      } else {
        assert Remove(xs, k) == Remove(p, k);
      }
    } else {
      assert Remove(xs, k)[|Remove(p, k)|] == xs[i];
    }
  }

  /** The sum of `size` over the values. */
  function Sum<K, V>(xs: seq<(K, V)>, size: V -> nat): nat {
    if |xs| == 0 then 0 else Sum(xs[..|xs| - 1], size) + size(Last(xs).1)
  }

  /** Replacing one value changes the sum by the difference of sizes. */
  lemma {:induction false} SumUpdate<K, V>(xs: seq<(K, V)>, i: nat, p: (K, V), size: V -> nat)
    requires i < |xs|
    ensures Sum(xs[i := p], size) == Sum(xs, size) - size(xs[i].1) + size(p.1)
    decreases |xs|
  {
    var n := |xs| - 1;
    if i < n {
      assert xs[i := p][..n] == xs[..n][i := p];
      SumUpdate(xs[..n], i, p, size);
    } else {
      assert xs[i := p][..n] == xs[..n];
    }
  }

  lemma SumAppend<K, V>(xs: seq<(K, V)>, p: (K, V), size: V -> nat)
    ensures Sum(xs + [p], size) == Sum(xs, size) + size(p.1)
  {
    assert (xs + [p])[..|xs|] == xs;
  }

  /** Setting a key changes the sum by the difference between the new value's
      size and the old one's (nothing, for a new key). */
  lemma SumPut<K, V>(xs: seq<(K, V)>, k: K, v: V, size: V -> nat)
    ensures Sum(Put(xs, k, v), size) ==
      Sum(xs, size) + size(v) - (if Has(xs, k) then size(Get(xs, k).value) else 0)
  {
    match Find(xs, k)
    case Some(i) => SumUpdate(xs, i, (k, v), size);
    case None => SumAppend(xs, (k, v), size);
  }

  /** Deleting a key takes its value's size off the sum. */
  lemma {:induction false} SumRemove<K, V>(xs: seq<(K, V)>, k: K, size: V -> nat)
    requires UniqueKeys(xs)
    ensures Sum(Remove(xs, k), size) ==
      Sum(xs, size) - (if Has(xs, k) then size(Get(xs, k).value) else 0)
    decreases |xs|
  {
    if |xs| > 0 {
      var p := xs[..|xs| - 1];
      SumRemove(p, k, size);
      if Last(xs).0 == k {
        assert forall i | 0 <= i < |p| :: p[i].0 != k;
        assert Get(p, k) == None;
      } else {
        SumAppend(Remove(p, k), Last(xs), size);
        assert Get(xs, k) == Get(p, k);
      }
    }
  }

  /** Deleting the key of a pair that no other pair has removes just that
      pair. */
  lemma {:induction false} RemoveBetween<K, V>(a: seq<(K, V)>, p: (K, V), b: seq<(K, V)>)
    requires forall i | 0 <= i < |a| :: a[i].0 != p.0
    requires forall i | 0 <= i < |b| :: b[i].0 != p.0
    ensures Remove(a + [p] + b, p.0) == a + b
    decreases |b|
  {
    if |b| == 0 {
      assert a + [p] + b == a + [p] && a + b == a;
      assert (a + [p])[..|a|] == a;
      RemoveAbsent(a, p.0);
    } else {
      var n := |b| - 1;
      var x := a + [p] + b[..n];
      assert a + [p] + b == x + [b[n]];
      assert (x + [b[n]])[..|x|] == x;
      RemoveBetween(a, p, b[..n]);
      assert a + b == (a + b[..n]) + [b[n]];
    }
  }

  lemma {:induction false} RemoveAbsent<K, V>(xs: seq<(K, V)>, k: K)
    requires forall i | 0 <= i < |xs| :: xs[i].0 != k
    ensures Remove(xs, k) == xs
    decreases |xs|
  {
    if |xs| > 0 {
      RemoveAbsent(xs[..|xs| - 1], k);
      SplitLast(xs);
    }
  }

  /** Deleting the key at position `i` of a map whose entries before `i`
      were filtered to `kept`. */
  lemma RemoveVisited<K, V>(xs: seq<(K, V)>, i: nat, kept: seq<(K, V)>)
    requires i < |xs|
    requires forall j | 0 <= j < |kept| :: kept[j].0 != xs[i].0
    requires forall j | i < j < |xs| :: xs[j].0 != xs[i].0
    ensures Remove(kept + xs[i..], xs[i].0) == kept + xs[i + 1..]
  {
    var tail := xs[i + 1..];
    SuffixAvoids(xs, i, tail);
    RemoveBetween(kept, xs[i], tail);
    ConsSlice(kept, xs, i);
  }

  /** In a map, no later entry shares the key at position `i`. */
  lemma LaterKeysDiffer<K, V>(xs: seq<(K, V)>, i: nat)
    requires UniqueKeys(xs) && i < |xs|
    ensures forall j | i < j < |xs| :: xs[j].0 != xs[i].0
  {
  }

  lemma SuffixAvoids<K, V>(xs: seq<(K, V)>, i: nat, tail: seq<(K, V)>)
    requires i < |xs| && tail == xs[i + 1..]
    requires forall j | i < j < |xs| :: xs[j].0 != xs[i].0
    ensures forall j | 0 <= j < |tail| :: tail[j].0 != xs[i].0
  {
    forall j | 0 <= j < |tail|
      ensures tail[j].0 != xs[i].0
    {
      assert tail[j] == xs[i + 1 + j];
    }
  }

  lemma ConsSlice<T>(a: seq<T>, xs: seq<T>, i: nat)
    requires i < |xs|
    ensures a + xs[i..] == a + [xs[i]] + xs[i + 1..]
  {
    assert xs[i..] == [xs[i]] + xs[i + 1..];
  }

  /** A selection of the entries before position `i` avoids the key at `i`. */
  lemma SelectPrefixAvoids<K, V>(xs: seq<(K, V)>, i: nat, keep: seq<bool>)
    requires UniqueKeys(xs) && i < |xs| && |keep| == i
    ensures forall j | 0 <= j < |Select(xs[..i], keep)| :: Select(xs[..i], keep)[j].0 != xs[i].0
  {
    assert forall a | 0 <= a < i :: xs[..i][a] == xs[a];
    SelectAvoids(xs[..i], keep, xs[i].0);
  }
}
