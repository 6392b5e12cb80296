/** Facts about reordering: the order in which goroutines finish, maps are ranged over
    and rows are shuffled is arbitrary, so most results are stated up to a permutation. */
module Permutations {

  function Remove<T>(s: seq<T>, i: nat): (r: seq<T>)
    requires i < |s|
    ensures |r| == |s| - 1
  {
    s[..i] + s[i + 1..]
  }

  lemma RemoveMultiset<T>(s: seq<T>, i: nat)
    requires i < |s|
    ensures multiset(s) == multiset(Remove(s, i)) + multiset{s[i]}
  {
    assert s == s[..i] + [s[i]] + s[i + 1..];
  }

  lemma RemoveFromBoth<T>(s: seq<T>, i: nat, t: seq<T>, j: nat)
    requires i < |s| && j < |t| && s[i] == t[j]
    requires multiset(s) == multiset(t)
    ensures multiset(Remove(s, i)) == multiset(Remove(t, j))
  {
    RemoveMultiset(s, i);
    RemoveMultiset(t, j);
    assert multiset(Remove(s, i)) == multiset(s) - multiset{s[i]};
    assert multiset(Remove(t, j)) == multiset(t) - multiset{t[j]};
  }

  function Map<T, U>(f: T -> U, s: seq<T>): (r: seq<U>)
    ensures |r| == |s|
    ensures forall i :: 0 <= i < |s| ==> r[i] == f(s[i])
  {
    seq(|s|, i requires 0 <= i < |s| => f(s[i]))
  }

  lemma MapAppend<T, U>(f: T -> U, s: seq<T>, x: T)
    ensures Map(f, s + [x]) == Map(f, s) + [f(x)]
  {
  }

  predicate NoDuplicates<T(==)>(s: seq<T>) {
    forall i, j :: 0 <= i < j < |s| ==> s[i] != s[j]
  }

  ghost function Elements<T>(s: seq<T>): set<T> {
    set x | x in s
  }

  // p lists 0, 1, ..., n - 1 in some order, like the result of rand.Perm(n).
  predicate IsPermutation(p: seq<nat>, n: nat) {
    |p| == n && (forall i :: 0 <= i < n ==> p[i] < n) && NoDuplicates(p)
  }

  lemma {:induction false} NoDuplicatesMultiplicity<T>(s: seq<T>, x: T)
    requires NoDuplicates(s)
    ensures multiset(s)[x] == if x in s then 1 else 0
  {
    if s != [] {
      var last := |s| - 1;
      assert s == s[..last] + [s[last]];
      NoDuplicatesMultiplicity(s[..last], x);
    }
  }

  // Two duplicate-free listings of one set are permutations of each other.
  lemma SameElements<T>(s: seq<T>, t: seq<T>)
    requires NoDuplicates(s) && NoDuplicates(t) && Elements(s) == Elements(t)
    ensures multiset(s) == multiset(t)
  {
    forall x: T
      ensures multiset(s)[x] == multiset(t)[x]
    {
      NoDuplicatesMultiplicity(s, x);
      NoDuplicatesMultiplicity(t, x);
      assert x in s <==> x in Elements(s);
      assert x in t <==> x in Elements(t);
    }
  }

  lemma MultisetKeepsNoDuplicates<T>(s: seq<T>, t: seq<T>)
    requires NoDuplicates(s) && multiset(s) == multiset(t)
    ensures NoDuplicates(t)
    ensures Elements(s) == Elements(t)
  {
    forall x: T
      ensures x in s <==> x in t
    {
      assert x in s <==> x in multiset(s);
      assert x in t <==> x in multiset(t);
    }
    forall i, j | 0 <= i < j < |t|
      ensures t[i] != t[j]
    {
      NoDuplicatesMultiplicity(s, t[i]);
      RemoveMultiset(t, j);
      assert Remove(t, j)[i] == t[i];
      assert t[i] in multiset(Remove(t, j));
    }
  }

  // Writing the elements of s to the slots named by a permutation only reorders them.
  lemma {:induction false} Scattered<T>(s: seq<T>, p: seq<nat>, t: seq<T>)
    requires |s| == |t| && IsPermutation(p, |s|)
    requires forall j :: 0 <= j < |s| ==> t[p[j]] == s[j]
    ensures multiset(t) == multiset(s)
  {
    if s != [] {
      var last := |s| - 1;
      var k := p[last];
      var p' := seq(last, j requires 0 <= j < last => if p[j] < k then p[j] else p[j] - 1 as nat);
      var t' := Remove(t, k);
      assert IsPermutation(p', last) by {
        forall j | 0 <= j < last ensures p'[j] < last {
          assert p[j] != k;
        }
        forall i, j | 0 <= i < j < last ensures p'[i] != p'[j] {
          assert p[i] != p[j] && p[i] != k && p[j] != k;
        }
      }
      forall j | 0 <= j < last ensures t'[p'[j]] == s[..last][j] {
        assert p[j] != k;
      }
      Scattered(s[..last], p', t');
      RemoveMultiset(t, k);
      assert s == s[..last] + [s[last]];
    }
  }

  function Select<T>(s: seq<T>, positions: seq<nat>): (r: seq<T>)
    requires forall i :: 0 <= i < |positions| ==> positions[i] < |s|
    ensures |r| == |positions|
    ensures forall i :: 0 <= i < |r| ==> r[i] == s[positions[i]]
  {
    seq(|positions|, i requires 0 <= i < |positions| => s[positions[i]])
  }

  lemma PermutationCovers(p: seq<nat>, n: nat)
    requires IsPermutation(p, n)
    ensures forall i: nat :: i < n ==> i in p
  {
    DistinctBelow(p, n);
    forall i: nat | i < n
      ensures i in p
    {
      assert Range(n)[i] in multiset(Range(n));
    }
  }

  lemma InversePermutation(p: seq<nat>) returns (q: seq<nat>)
    requires IsPermutation(p, |p|)
    ensures IsPermutation(q, |p|)
    ensures forall k :: 0 <= k < |p| ==> p[q[k]] == k
  {
    PermutationCovers(p, |p|);
    q := [];
    while |q| < |p|
      invariant |q| <= |p|
      invariant forall k :: 0 <= k < |q| ==> q[k] < |p| && p[q[k]] == k
    {
      assert |q| in p;
      var j :| 0 <= j < |p| && p[j] == |q|;
      q := q + [j];
    }
  }

  // Reordering a duplicate-free listing gives a duplicate-free listing of the same elements.
  lemma SelectPermutation<T>(s: seq<T>, p: seq<nat>)
    requires NoDuplicates(s) && IsPermutation(p, |s|)
    ensures NoDuplicates(Select(s, p))
    ensures Elements(Select(s, p)) == Elements(s)
  {
    PermutationCovers(p, |s|);
    forall x | x in Elements(s)
      ensures x in Select(s, p)
    {
      var i: nat :| i < |s| && s[i] == x;
      assert i in p;
      var j :| 0 <= j < |p| && p[j] == i;
      assert Select(s, p)[j] == x;
    }
  }

  lemma {:induction false} MapKeepsMultiset<T, U>(f: T -> U, s: seq<T>, t: seq<T>)
    requires multiset(s) == multiset(t)
    ensures multiset(Map(f, s)) == multiset(Map(f, t))
  {
    if s == [] {
      assert |multiset(t)| == |t|;
    } else {
      assert s[0] in multiset(t);
      var i :| 0 <= i < |t| && t[i] == s[0];
      assert Remove(s, 0) == s[1..];
      RemoveFromBoth(s, 0, t, i);
      MapKeepsMultiset(f, s[1..], Remove(t, i));
      assert Map(f, s[1..]) == Remove(Map(f, s), 0);
      assert Map(f, Remove(t, i)) == Remove(Map(f, t), i);
      RemoveMultiset(Map(f, s), 0);
      RemoveMultiset(Map(f, t), i);
    }
  }

  lemma FirstImage<T, U>(f: T -> U, s: seq<T>, images: seq<U>) returns (i: nat)
    requires images != [] && multiset(Map(f, s)) == multiset(images)
    ensures i < |s| && f(s[i]) == images[0]
    ensures multiset(Map(f, Remove(s, i))) == multiset(images[1..])
  {
    assert images[0] in multiset(Map(f, s));
    i :| 0 <= i < |s| && Map(f, s)[i] == images[0];
    assert Map(f, Remove(s, i)) == Remove(Map(f, s), i);
    assert Remove(images, 0) == images[1..];
    RemoveFromBoth(Map(f, s), i, images, 0);
  }

  lemma MapPrepend<T, U>(f: T -> U, x: T, s: seq<T>)
    ensures Map(f, [x] + s) == [f(x)] + Map(f, s)
  {
  }

  // A permutation of the images comes from a permutation of the originals.
  lemma {:induction false} LiftPermutation<T, U>(f: T -> U, s: seq<T>, images: seq<U>) returns (t: seq<T>)
    requires multiset(Map(f, s)) == multiset(images)
    ensures multiset(t) == multiset(s)
    ensures Map(f, t) == images
  {
    if images == [] {
      assert |multiset(Map(f, s))| == |s|;
      t := [];
    } else {
      var i := FirstImage(f, s, images);
      var rest := LiftPermutation(f, Remove(s, i), images[1..]);
      t := [s[i]] + rest;
      RemoveMultiset(s, i);
      MapPrepend(f, s[i], rest);
      assert images == [images[0]] + images[1..];
    }
  }

  // Sequences with the same elements are related by a permutation of positions.
  lemma MultisetPermutation<T>(s: seq<T>, t: seq<T>) returns (p: seq<nat>)
    requires multiset(s) == multiset(t)
    ensures IsPermutation(p, |s|) && t == Select(s, p)
  {
    assert |multiset(s)| == |s| && |multiset(t)| == |t|;
    if s == [] {
      p := [];
    } else {
      var first := s[0];
      var at: nat -> T := (i: nat) => if i < |s| then s[i] else first;
      assert Map(at, Range(|s|)) == s;
      p := LiftPermutation(at, Range(|s|), t);
      MultisetKeepsNoDuplicates(Range(|s|), p);
      assert |multiset(p)| == |p|;
      forall i | 0 <= i < |p|
        ensures p[i] < |s|
      {
        assert p[i] in multiset(Range(|s|));
      }
    }
  }

  function Sum(s: seq<nat>): nat {
    if s == [] then 0 else s[0] + Sum(s[1..])
  }

  lemma {:induction false} SumSplit(s: seq<nat>, i: nat)
    requires i < |s|
    ensures Sum(s) == s[i] + Sum(Remove(s, i))
  {
    if i == 0 {
      assert Remove(s, 0) == s[1..];
    } else {
      SumSplit(s[1..], i - 1);
      assert Remove(s, i)[0] == s[0] && Remove(s, i)[1..] == Remove(s[1..], i - 1);
    }
  }

  lemma {:induction false} SumAppend(s: seq<nat>, x: nat)
    ensures Sum(s + [x]) == Sum(s) + x
  {
    SumSplit(s + [x], |s|);
    assert Remove(s + [x], |s|) == s;
  }

  lemma {:induction false} SumOfPermutation(s: seq<nat>, t: seq<nat>)
    requires multiset(s) == multiset(t)
    ensures Sum(s) == Sum(t)
  {
    if s == [] {
      assert |multiset(t)| == |t|;
    } else {
      assert s[0] in multiset(t);
      var i :| 0 <= i < |t| && t[i] == s[0];
      assert Remove(s, 0) == s[1..];
      RemoveFromBoth(s, 0, t, i);
      SumOfPermutation(s[1..], Remove(t, i));
      SumSplit(t, i);
    }
  }

  lemma {:induction false} SubsetCardinality<T>(a: set<T>, b: set<T>)
    requires a <= b
    ensures |a| <= |b|
    ensures |a| == |b| ==> a == b
  {
    if a != {} {
      var x :| x in a;
      SubsetCardinality(a - {x}, b - {x});
    }
  }

  lemma {:induction false} ElementsCardinality<T>(s: seq<T>)
    requires NoDuplicates(s)
    ensures |Elements(s)| == |s|
  {
    if s != [] {
      var last := |s| - 1;
      assert Elements(s) == Elements(s[..last]) + {s[last]};
      ElementsCardinality(s[..last]);
    }
  }

  function Range(n: nat): (r: seq<nat>)
    ensures |r| == n && forall i :: 0 <= i < n ==> r[i] == i
  {
    seq(n, i => i)
  }

  function Indices(n: nat): (r: set<nat>)
    ensures forall i: nat :: i in r <==> i < n
  {
    if n == 0 then {} else Indices(n - 1) + {n - 1}
  }

  lemma {:induction false} IndicesCardinality(n: nat)
    ensures |Indices(n)| == n
  {
    if n > 0 {
      IndicesCardinality(n - 1);
    }
  }

  lemma AllIndices(p: seq<nat>, n: nat)
    requires NoDuplicates(p) && Elements(p) == Indices(n)
    ensures IsPermutation(p, n)
  {
    ElementsCardinality(p);
    IndicesCardinality(n);
    forall i | 0 <= i < |p|
      ensures p[i] < n
    {
      assert p[i] in Elements(p);
    }
  }

  // Pigeonhole: n distinct numbers below n are all of them.
  lemma DistinctBelow(s: seq<nat>, n: nat)
    requires NoDuplicates(s) && |s| == n && forall i :: 0 <= i < |s| ==> s[i] < n
    ensures multiset(s) == multiset(Range(n))
  {
    assert Elements(s) <= Elements(Range(n)) by {
      forall x | x in Elements(s) ensures x in Range(n) { assert Range(n)[x] == x; }
    }
    ElementsCardinality(s);
    ElementsCardinality(Range(n));
    SubsetCardinality(Elements(s), Elements(Range(n)));
    SameElements(s, Range(n));
  }
}
