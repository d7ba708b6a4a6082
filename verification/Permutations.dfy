/** Sequences that lose an element or are rearranged. */
module Permutations {

  ghost predicate Permutation<T>(p: seq<T>, s: seq<T>) {
    multiset(p) == multiset(s)
  }

  lemma PermutationElements<T>(p: seq<T>, s: seq<T>)
    requires Permutation(p, s)
    ensures |p| == |s| && forall x :: x in p <==> x in s
  {
    assert |multiset(p)| == |p| && |multiset(s)| == |s|;
    forall x ensures x in p <==> x in s {
      assert x in multiset(p) <==> x in p;
      assert x in multiset(s) <==> x in s;
    }
  }

  ghost function Elements<T>(s: seq<T>): set<T> {
    set x | x in s
  }

  function RemoveAt<T>(s: seq<T>, p: nat): (r: seq<T>)
    requires p < |s|
    ensures |r| == |s| - 1
    ensures forall i :: 0 <= i < |r| ==> r[i] == s[if i < p then i else i + 1]
  {
    s[..p] + s[p + 1..]
  }

  lemma RemoveElements<T>(s: seq<T>, p: nat)
    requires p < |s|
    ensures multiset(s) == multiset{s[p]} + multiset(RemoveAt(s, p))
  {
    assert s == s[..p] + [s[p]] + s[p + 1..];
  }

  /** An element can be brought to the front. */
  lemma BringForward<T>(s: seq<T>, x: T) returns (rest: seq<T>)
    requires x in s
    ensures Permutation([x] + rest, s)
  {
    var i :| 0 <= i < |s| && s[i] == x;
    RemoveElements(s, i);
    rest := RemoveAt(s, i);
  }

  lemma {:induction false} CountAtMostOnce<T>(s: seq<T>, x: T)
    requires forall i, j :: 0 <= i < j < |s| ==> s[i] != s[j]
    ensures multiset(s)[x] <= 1
  {
    if s != [] {
      var n := |s| - 1;
      CountAtMostOnce(s[..n], x);
      assert s == s[..n] + [s[n]];
      if s[n] == x {
        assert x !in s[..n];
        assert multiset(s[..n])[x] == 0;
      }
    }
  }

  lemma CountTwice<T>(s: seq<T>, i: nat, j: nat)
    requires i < j < |s| && s[i] == s[j]
    ensures multiset(s)[s[i]] >= 2
  {
    assert s == s[..j] + s[j..];
    assert s[i] in s[..j] && s[i] in s[j..];
    assert multiset(s) == multiset(s[..j]) + multiset(s[j..]);
    assert s[..j][i] == s[i] && s[j..][0] == s[i];
    assert multiset(s[..j])[s[i]] >= 1 && multiset(s[j..])[s[i]] >= 1;
  }

  lemma PermutationDistinct<T>(p: seq<T>, s: seq<T>)
    requires Permutation(p, s)
    requires forall i, j :: 0 <= i < j < |s| ==> s[i] != s[j]
    ensures forall i, j :: 0 <= i < j < |p| ==> p[i] != p[j]
  {
    forall i, j | 0 <= i < j < |p| ensures p[i] != p[j] {
      CountAtMostOnce(s, p[i]);
      if p[i] == p[j] { CountTwice(p, i, j); }
    }
  }

  /** Two sequences without repetition that hold the same elements are rearrangements of each other. */
  lemma {:induction false} SameElementsPermutation<T>(p: seq<T>, s: seq<T>)
    requires forall i, j :: 0 <= i < j < |p| ==> p[i] != p[j]
    requires forall i, j :: 0 <= i < j < |s| ==> s[i] != s[j]
    requires forall x :: x in p <==> x in s
    ensures Permutation(p, s)
  {
    forall x ensures multiset(p)[x] == multiset(s)[x] {
      CountAtMostOnce(p, x);
      CountAtMostOnce(s, x);
      assert x in multiset(p) <==> x in p;
      assert x in multiset(s) <==> x in s;
    }
  }

  lemma TwoForward<T>(s: seq<T>, x: T, y: T) returns (rest: seq<T>)
    requires x in s && y in s && x != y
    ensures Permutation([x] + ([y] + rest), s) && Permutation([y] + ([x] + rest), s)
  {
    var r := BringForward(s, x);
    PermutationElements([x] + r, s);
    rest := BringForward(r, y);
    assert multiset([x] + ([y] + rest)) == multiset{x} + multiset([y] + rest) == multiset{x} + multiset(r);
    assert multiset([x] + r) == multiset{x} + multiset(r);
  }

  lemma ThreeForward<T>(s: seq<T>, x: T, y: T, z: T) returns (rest: seq<T>)
    requires x in s && y in s && z in s && x != y && y != z && x != z
    ensures Permutation([x] + ([y] + ([z] + rest)), s) && Permutation([x] + ([z] + ([y] + rest)), s)
  {
    var r := BringForward(s, x);
    PermutationElements([x] + r, s);
    rest := TwoForward(r, y, z);
    var yz, zy := [y] + ([z] + rest), [z] + ([y] + rest);
    assert multiset([x] + yz) == multiset{x} + multiset(yz) == multiset{x} + multiset(r);
    assert multiset([x] + zy) == multiset{x} + multiset(zy) == multiset{x} + multiset(r);
    assert multiset([x] + r) == multiset{x} + multiset(r);
  }

  lemma PermutationTail<T>(p: seq<T>, s: seq<T>, i: nat)
    requires Permutation(p, s) && s != [] && i < |p| && p[i] == s[0]
    ensures Permutation(RemoveAt(p, i), s[1..])
  {
    RemoveElements(p, i);
    assert s == [s[0]] + s[1..];
    assert multiset(s) - multiset{s[0]} == multiset(s[1..]);
  }
}
