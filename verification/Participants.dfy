/**
 * Comparison of participant lists (src/utils.cpp). The phone comparison of libphonenumber is
 * a parameter: same(x, y) answers for x taken from the second list and y from the first.
 */
module Participants {
  import opened Permutations

  datatype MatchMode = Phone | Exact

  // ---------------------------------------------------------------- the greedy matcher

  /** Position of the first candidate matching y, or |candidates| when there is none. */
  function FirstMatch(same: (string, string) -> bool, candidates: seq<string>, y: string): (i: nat)
    ensures i <= |candidates|
    ensures i < |candidates| ==> same(candidates[i], y)
    ensures forall k :: 0 <= k < i ==> !same(candidates[k], y)
  {
    if candidates == [] then 0
    else if same(candidates[0], y) then 0
    else 1 + FirstMatch(same, candidates[1..], y)
  }

  /** Each name of the first list takes the first still unused match of the second. */
  predicate Greedy(same: (string, string) -> bool, names: seq<string>, candidates: seq<string>) {
    names == [] ||
    var i := FirstMatch(same, candidates, names[0]);
    i < |candidates| && Greedy(same, names[1..], RemoveAt(candidates, i))
  }

  predicate Compare(same: (string, string) -> bool, p1: seq<string>, p2: seq<string>, mode: MatchMode) {
    |p1| == |p2| && (if mode.Phone? then Greedy(same, p1, p2) else forall x :: x in p1 ==> x in p2)
  }

  method CompareNormalizedParticipants(same: (string, string) -> bool, p1: seq<string>, p2: seq<string>,
                                       mode: MatchMode)
    returns (found: bool)
    ensures found == Compare(same, p1, p2, mode)
  {
    var mutableParticipants2 := p2;
    if |p1| != |p2| {
      return false;
    }
    found := true;
    for n := 0 to |p1|
      invariant found
      invariant mode.Phone? ==> Greedy(same, p1, p2) == Greedy(same, p1[n..], mutableParticipants2)
      invariant mode.Exact? ==> mutableParticipants2 == p2 && forall x :: x in p1[..n] ==> x in p2
    {
      var participant := p1[n];
      if mode.Phone? {
        var inList := false;
        ghost var before := mutableParticipants2;
        var it := 0;
        while it < |mutableParticipants2|
          invariant it <= |before| && mutableParticipants2 == before && !inList
          invariant forall k :: 0 <= k < it ==> !same(before[k], participant)
        {
          if same(mutableParticipants2[it], participant) {
            inList := true;
            mutableParticipants2 := mutableParticipants2[..it] + mutableParticipants2[it + 1..];
            break;
          }
          it := it + 1;
        }
        assert it == FirstMatch(same, before, p1[n..][0]);
        assert p1[n..][1..] == p1[n + 1..];
        if !inList {
          found := false;
          break;
        }
      } else if participant !in mutableParticipants2 {
        found := false;
        break;
      }
    }
  }

  function Normalized(normalize: string -> string, names: seq<string>): seq<string> {
    seq(|names|, i requires 0 <= i < |names| => normalize(names[i]))
  }

  /** compareParticipants: phone numbers are normalised first. */
  predicate CompareRaw(normalize: string -> string, same: (string, string) -> bool, p1: seq<string>, p2: seq<string>,
                       mode: MatchMode)
  {
    if mode.Phone? then Compare(same, Normalized(normalize, p1), Normalized(normalize, p2), mode)
    else Compare(same, p1, p2, mode)
  }

  method NormalizeAll(normalize: string -> string, names: seq<string>) returns (normalized: seq<string>)
    ensures normalized == Normalized(normalize, names)
  {
    normalized := [];
    for i := 0 to |names|
      invariant normalized == Normalized(normalize, names[..i])
    {
      normalized := normalized + [normalize(names[i])];
    }
    assert names[..|names|] == names;
  }

  method CompareParticipants(normalize: string -> string, same: (string, string) -> bool, p1: seq<string>,
                             p2: seq<string>,
                             mode: MatchMode)
    returns (found: bool)
    ensures found == CompareRaw(normalize, same, p1, p2, mode)
  {
    if |p1| != |p2| {
      return false;
    }
    if mode.Phone? {
      var normalized1 := NormalizeAll(normalize, p1);
      var normalized2 := NormalizeAll(normalize, p2);
      found := CompareNormalizedParticipants(same, normalized1, normalized2, mode);
    } else {
      found := CompareNormalizedParticipants(same, p1, p2, mode);
    }
  }

  // ---------------------------------------------------------------- what a true answer means

  /** f sends each position of p1 to a different position of p2 holding a match for it. */
  ghost predicate IsPairing(same: (string, string) -> bool, p1: seq<string>, p2: seq<string>, f: seq<nat>) {
    && |f| == |p1|
    && (forall i :: 0 <= i < |f| ==> f[i] < |p2| && same(p2[f[i]], p1[i]))
    && (forall i, j :: 0 <= i < j < |f| ==> f[i] != f[j])
  }

  ghost predicate Pairable(same: (string, string) -> bool, p1: seq<string>, p2: seq<string>) {
    |p1| == |p2| && exists f :: IsPairing(same, p1, p2, f)
  }

  /** A true answer always comes with a one-to-one pairing, whatever the phone comparison is. */
  lemma {:induction false} GreedyIsSound(same: (string, string) -> bool, p1: seq<string>, p2: seq<string>)
    returns (f: seq<nat>)
    requires Greedy(same, p1, p2)
    ensures IsPairing(same, p1, p2, f)
  {
    if p1 == [] {
      f := [];
    } else {
      var i := FirstMatch(same, p2, p1[0]);
      var g := GreedyIsSound(same, p1[1..], RemoveAt(p2, i));
      f := AddFirstPair(same, p1, p2, i, g);
    }
  }

  /** A first pair together with a pairing of what is left. */
  lemma AddFirstPair(same: (string, string) -> bool, p1: seq<string>, p2: seq<string>, i: nat, g: seq<nat>)
    returns (f: seq<nat>)
    requires p1 != [] && i < |p2| && same(p2[i], p1[0])
    requires IsPairing(same, p1[1..], RemoveAt(p2, i), g)
    ensures IsPairing(same, p1, p2, f)
  {
    var up := seq(|g|, k requires 0 <= k < |g| => if g[k] < i then g[k] else g[k] + 1);
    f := [i] + up;
    forall n | 0 <= n < |f| ensures f[n] < |p2| && same(p2[f[n]], p1[n]) {
      if n > 0 {
        assert f[n] == up[n - 1];
        assert p1[1..][n - 1] == p1[n];
      }
    }
    forall a, b | 0 <= a < b < |f| ensures f[a] != f[b] {
      assert f[b] == up[b - 1] != i;
      if a > 0 { assert f[a] == up[a - 1] && g[a - 1] != g[b - 1]; }
    }
  }

  ghost predicate Over(p: seq<string>, names: set<string>) {
    forall x :: x in p ==> x in names
  }

  /** Of these names: if x1 and x2 both match y1, and x1 matches y2, then x2 matches y2. */
  ghost predicate Difunctional(same: (string, string) -> bool, names: set<string>) {
    forall x1, x2, y1, y2 :: x1 in names && x2 in names && y1 in names && y2 in names ==>
                               (same(x1, y1) && same(x2, y1) && same(x1, y2) ==> same(x2, y2))
  }

  ghost predicate Equivalence(same: (string, string) -> bool, names: set<string>) {
    && (forall x :: x in names ==> same(x, x))
    && (forall x, y :: x in names && y in names && same(x, y) ==> same(y, x))
    && (forall x, y, z :: x in names && y in names && z in names && same(x, y) && same(y, z) ==> same(x, z))
  }

  lemma EquivalenceIsDifunctional(same: (string, string) -> bool, names: set<string>)
    requires Equivalence(same, names)
    ensures Difunctional(same, names)
  {
    forall x1, x2, y1, y2 | x1 in names && x2 in names && y1 in names && y2 in names
                            && same(x1, y1) && same(x2, y1) && same(x1, y2)
      ensures same(x2, y2)
    {
      assert same(y1, x1);
      assert same(x2, x1);
    }
  }

  /** Swap the partner of the first name for the one the greedy choice took. */
  lemma Exchange(same: (string, string) -> bool, names: set<string>, p1: seq<string>, p2: seq<string>, f: seq<nat>,
                 j: nat)
    returns (h: seq<nat>)
    requires Difunctional(same, names) && Over(p1, names) && Over(p2, names) && IsPairing(same, p1, p2, f)
    requires p1 != [] && j < |p2| && same(p2[j], p1[0])
    ensures IsPairing(same, p1, p2, h) && h[0] == j
  {
    h := seq(|f|, i requires 0 <= i < |f| => if i == 0 then j else if f[i] == j then f[0] else f[i]);
    assert forall i :: 0 < i < |f| && f[i] == j ==> same(p2[f[0]], p1[i]);
  }

  /** A pairing without its first pair pairs what is left. */
  lemma DropFirstPair(same: (string, string) -> bool, p1: seq<string>, p2: seq<string>, h: seq<nat>)
    returns (g: seq<nat>)
    requires p1 != [] && IsPairing(same, p1, p2, h)
    ensures h[0] < |p2| && IsPairing(same, p1[1..], RemoveAt(p2, h[0]), g)
  {
    var j := h[0];
    g := seq(|h| - 1, i requires 0 <= i < |h| - 1 => if h[i + 1] < j then h[i + 1] else h[i + 1] - 1);
    forall i | 0 <= i < |g| ensures g[i] < |p2| - 1 && same(RemoveAt(p2, j)[g[i]], p1[1..][i]) {
      assert h[i + 1] != h[0];
    }
    forall a, b | 0 <= a < b < |g| ensures g[a] != g[b] {
      assert h[a + 1] != h[b + 1] && h[a + 1] != h[0] && h[b + 1] != h[0];
    }
  }

  lemma {:induction false} GreedyIsComplete(same: (string, string) -> bool, names: set<string>, p1: seq<string>,
                                            p2: seq<string>, f: seq<nat>)
    requires Difunctional(same, names) && Over(p1, names) && Over(p2, names) && IsPairing(same, p1, p2, f)
    ensures Greedy(same, p1, p2)
    decreases |p1|
  {
    if p1 != [] {
      assert same(p2[f[0]], p1[0]);
      var j := FirstMatch(same, p2, p1[0]);
      var h := Exchange(same, names, p1, p2, f, j);
      var g := DropFirstPair(same, p1, p2, h);
      GreedyIsComplete(same, names, p1[1..], RemoveAt(p2, j), g);
    }
  }

  /**
   * The greedy matcher finds a pairing whenever there is one, for all lists of these names, exactly when the
   * comparison is difunctional on them; every equivalence is.
   */
  lemma GreedyExactlyWhenDifunctional(same: (string, string) -> bool, names: set<string>)
    ensures (forall p1, p2 :: Over(p1, names) && Over(p2, names) ==>
                                (Compare(same, p1, p2, Phone) <==> Pairable(same, p1, p2)))
            <==> Difunctional(same, names)
  {
    forall p1, p2 | Compare(same, p1, p2, Phone) ensures Pairable(same, p1, p2) {
      var f := GreedyIsSound(same, p1, p2);
    }
    if Difunctional(same, names) {
      forall p1, p2 | Over(p1, names) && Over(p2, names) && Pairable(same, p1, p2)
        ensures Compare(same, p1, p2, Phone)
      {
        var f :| IsPairing(same, p1, p2, f);
        GreedyIsComplete(same, names, p1, p2, f);
      }
    }
    if x1, x2, y1, y2 :| x1 in names && x2 in names && y1 in names && y2 in names
                         && same(x1, y1) && same(x2, y1) && same(x1, y2) && !same(x2, y2) {
      CrossedPairMissed(same, x1, x2, y1, y2);
      assert Over([y1, y2], names) && Over([x1, x2], names);
    }
  }

  /** The first name takes the match that the second one needs. */
  lemma CrossedPairMissed(same: (string, string) -> bool, x1: string, x2: string, y1: string, y2: string)
    requires same(x1, y1) && same(x2, y1) && same(x1, y2) && !same(x2, y2)
    ensures Pairable(same, [y1, y2], [x1, x2]) && !Compare(same, [y1, y2], [x1, x2], Phone)
  {
    var p1, p2 := [y1, y2], [x1, x2];
    assert IsPairing(same, p1, p2, [1, 0]);
    assert FirstMatch(same, p2, p1[0]) == 0;
    assert RemoveAt(p2, 0) == [x2] && p1[1..] == [y2];
    assert FirstMatch(same, [x2], y2) == 1;
    assert !Greedy(same, [y2], [x2]) && !Greedy(same, p1, p2);
  }

  /** f pairs off the two lists so that the normalised names of every pair match. */
  ghost predicate PairsRaw(normalize: string -> string, same: (string, string) -> bool, p1: seq<string>,
                           p2: seq<string>, f: seq<nat>)
  {
    && |f| == |p1| == |p2|
    && (forall i :: 0 <= i < |f| ==> f[i] < |p2| && same(normalize(p2[f[i]]), normalize(p1[i])))
    && (forall i, j :: 0 <= i < j < |f| ==> f[i] != f[j])
  }

  /**
   * Raw names match in phone mode exactly if they can be paired off so, where the comparison is difunctional on the
   * normalised names.
   */
  lemma RawNamesPairedExactly(normalize: string -> string, same: (string, string) -> bool, names: set<string>,
                              p1: seq<string>, p2: seq<string>)
    requires Difunctional(same, names) && (forall x :: x in p1 || x in p2 ==> normalize(x) in names)
    ensures CompareRaw(normalize, same, p1, p2, Phone) <==> exists f :: PairsRaw(normalize, same, p1, p2, f)
  {
    var n1, n2 := Normalized(normalize, p1), Normalized(normalize, p2);
    assert Over(n1, names) && Over(n2, names);
    if Greedy(same, n1, n2) && |n1| == |n2| {
      var f := GreedyIsSound(same, n1, n2);
      assert PairsRaw(normalize, same, p1, p2, f);
    }
    if f :| PairsRaw(normalize, same, p1, p2, f) {
      assert IsPairing(same, n1, n2, f);
      GreedyIsComplete(same, names, n1, n2, f);
    }
  }

  /** In exact mode names count as they are. */
  lemma RawNamesExact(normalize: string -> string, same: (string, string) -> bool, p1: seq<string>, p2: seq<string>)
    requires NoDuplicates(p1)
    ensures CompareRaw(normalize, same, p1, p2, Exact) <==> Elements(p1) == Elements(p2) && NoDuplicates(p2)
  {
    ExactIsSameSet(same, p1, p2);
  }

  /** A local number that matches the full numbers of two regions, which do not match each other. */
  ghost predicate LocalNumber(same: (string, string) -> bool, l: string, a: string, b: string) {
    && same(l, l) && same(a, a) && same(b, b)
    && same(l, a) && same(a, l) && same(l, b) && same(b, l)
    && !same(a, b) && !same(b, a)
  }

  /** The local number takes itself, and leaves the two full numbers to each other. */
  lemma GreedyMissesPairing(same: (string, string) -> bool, l: string, a: string, b: string)
    requires LocalNumber(same, l, a, b)
    ensures Pairable(same, [l, a], [l, b]) && !Compare(same, [l, a], [l, b], Phone)
  {
    CrossedPairMissed(same, l, b, l, a);
  }

  // ---------------------------------------------------------------- an equivalence on lists

  /** How many names of the list match x. */
  ghost function Count(same: (string, string) -> bool, p: seq<string>, x: string): nat {
    if p == [] then 0 else (if same(p[0], x) then 1 else 0) + Count(same, p[1..], x)
  }

  ghost predicate SameCounts(same: (string, string) -> bool, names: set<string>, p1: seq<string>, p2: seq<string>) {
    forall x :: x in names ==> Count(same, p1, x) == Count(same, p2, x)
  }

  lemma {:induction false} CountWithout(same: (string, string) -> bool, p: seq<string>, i: nat, x: string)
    requires i < |p|
    ensures Count(same, p, x) == Count(same, RemoveAt(p, i), x) + if same(p[i], x) then 1 else 0
  {
    if i == 0 {
      assert RemoveAt(p, 0) == p[1..];
    } else {
      CountWithout(same, p[1..], i - 1, x);
      assert RemoveAt(p, i)[1..] == RemoveAt(p[1..], i - 1);
    }
  }

  lemma {:induction false} CountZero(same: (string, string) -> bool, p: seq<string>, y: string)
    ensures FirstMatch(same, p, y) == |p| <==> Count(same, p, y) == 0
  {
    if p != [] { CountZero(same, p[1..], y); }
  }

  lemma CountOfHead(same: (string, string) -> bool, names: set<string>, p: seq<string>)
    requires Equivalence(same, names) && p != [] && Over(p, names)
    ensures Count(same, p, p[0]) > 0
  {
    assert p[0] in p;
  }

  /** Under an equivalence of these names the answer is: every class has as many names in one list as in the other. */
  lemma {:induction false} CompareIsSameCounts(same: (string, string) -> bool, names: set<string>, p1: seq<string>,
                                               p2: seq<string>)
    requires Equivalence(same, names) && Over(p1, names) && Over(p2, names)
    ensures Compare(same, p1, p2, Phone) <==> SameCounts(same, names, p1, p2)
    decreases |p1|
  {
    if p1 == [] {
      if p2 != [] {
        CountOfHead(same, names, p2);
        assert p2[0] in names && Count(same, p1, p2[0]) != Count(same, p2, p2[0]);
      }
    } else {
      var y := p1[0];
      var i := FirstMatch(same, p2, y);
      CountZero(same, p2, y);
      assert y in p1 && y in names;
      if i == |p2| {
        CountOfHead(same, names, p1);
      } else {
        CompareIsSameCounts(same, names, p1[1..], RemoveAt(p2, i));
        SameCountsWithout(same, names, p1, p2, i);
      }
    }
  }

  lemma SameCountsWithout(same: (string, string) -> bool, names: set<string>, p1: seq<string>, p2: seq<string>, i: nat)
    requires Equivalence(same, names) && Over(p1, names) && Over(p2, names)
    requires p1 != [] && i < |p2| && same(p2[i], p1[0])
    ensures SameCounts(same, names, p1, p2) <==> SameCounts(same, names, p1[1..], RemoveAt(p2, i))
  {
    var y := p1[0];
    assert y in p1 && p2[i] in p2;
    forall x | x in names
      ensures Count(same, p1, x) == Count(same, p1[1..], x) + (if same(y, x) then 1 else 0)
      ensures Count(same, p2, x) == Count(same, RemoveAt(p2, i), x) + if same(y, x) then 1 else 0
    {
      CountWithout(same, p2, i, x);
      assert same(y, p2[i]);
      assert same(p2[i], x) <==> same(y, x);
    }
  }

  lemma OneNameMatches(same: (string, string) -> bool, x: string, y: string)
    ensures Compare(same, [y], [x], Phone) <==> same(x, y)
  {
    assert [y][1..] == [] && [x][1..] == [];
    assert FirstMatch(same, [x], y) == if same(x, y) then 0 else 1;
    assert Greedy(same, [y], [x]) == (FirstMatch(same, [x], [y][0]) < 1);
  }

  lemma ListsByCounts(same: (string, string) -> bool, names: set<string>)
    requires Equivalence(same, names)
    ensures forall p, q :: Over(p, names) && Over(q, names) ==>
                             (Compare(same, p, q, Phone) <==> SameCounts(same, names, p, q))
  {
    forall p, q | Over(p, names) && Over(q, names)
      ensures Compare(same, p, q, Phone) <==> SameCounts(same, names, p, q)
    {
      CompareIsSameCounts(same, names, p, q);
    }
  }

  ghost predicate CompareIsEquivalence(same: (string, string) -> bool, names: set<string>) {
    && (forall p :: Over(p, names) ==> Compare(same, p, p, Phone))
    && (forall p, q :: Over(p, names) && Over(q, names) && Compare(same, p, q, Phone) ==> Compare(same, q, p, Phone))
    && (forall p, q, r :: Over(p, names) && Over(q, names) && Over(r, names) ==>
                            (Compare(same, p, q, Phone) && Compare(same, q, r, Phone) ==> Compare(same, p, r, Phone)))
  }

  /** Comparing lists of these names is an equivalence exactly when comparing the names is. */
  lemma CompareIsEquivalenceExactly(same: (string, string) -> bool, names: set<string>)
    ensures CompareIsEquivalence(same, names) <==> Equivalence(same, names)
  {
    if Equivalence(same, names) {
      ListsByCounts(same, names);
    }
    if CompareIsEquivalence(same, names) {
      forall x, y ensures Compare(same, [y], [x], Phone) <==> same(x, y) {
        OneNameMatches(same, x, y);
      }
      forall x | x in names ensures same(x, x) {
        assert Over([x], names);
      }
      forall x, y | x in names && y in names && same(x, y) ensures same(y, x) {
        assert Over([x], names) && Over([y], names);
      }
      forall x, y, z | x in names && y in names && z in names && same(x, y) && same(y, z) ensures same(x, z) {
        assert Over([x], names) && Over([y], names) && Over([z], names);
        assert Compare(same, [z], [y], Phone) && Compare(same, [y], [x], Phone);
      }
    }
  }

  // ---------------------------------------------------------------- exact mode

  ghost predicate NoDuplicates<T>(s: seq<T>) {
    forall i, j :: 0 <= i < j < |s| ==> s[i] != s[j]
  }

  lemma {:induction false} ElementsCount<T>(s: seq<T>)
    ensures |Elements(s)| <= |s|
    ensures |Elements(s)| == |s| <==> NoDuplicates(s)
  {
    if s != [] {
      ElementsCount(s[1..]);
      assert Elements(s) == Elements(s[1..]) + {s[0]};
      if s[0] in s[1..] {
        assert Elements(s) == Elements(s[1..]);
        var i :| 0 <= i < |s| - 1 && s[1..][i] == s[0];
        assert s[i + 1] == s[0];
      } else if NoDuplicates(s[1..]) {
        forall i, j | 0 <= i < j < |s| ensures s[i] != s[j] {
          assert s[j] == s[1..][j - 1];
        }
      } else {
        var i, j :| 0 <= i < j < |s| - 1 && s[1..][i] == s[1..][j];
        assert s[i + 1] == s[j + 1];
      }
    }
  }

  lemma SubsetOfSameSize<T>(a: set<T>, b: set<T>)
    requires a <= b && |a| == |b|
    ensures a == b
  {
    var extra := b - a;
    assert b == a + extra;
    assert |b| == |a| + |extra|;
    assert extra == {};
  }

  /**
   * Exact mode never uses a name up. For lists of the same size it says that they hold the same
   * names whenever the first has no duplicates (the second then has none either).
   */
  lemma ExactIsSameSet(same: (string, string) -> bool, p1: seq<string>, p2: seq<string>)
    requires NoDuplicates(p1)
    ensures Compare(same, p1, p2, Exact) <==> Elements(p1) == Elements(p2) && NoDuplicates(p2)
  {
    ElementsCount(p1);
    ElementsCount(p2);
    if Compare(same, p1, p2, Exact) {
      assert Elements(p1) <= Elements(p2);
      assert |Elements(p2)| >= |Elements(p1)| by {
        assert Elements(p2) == Elements(p1) + (Elements(p2) - Elements(p1));
      }
      SubsetOfSameSize(Elements(p1), Elements(p2));
    } else if Elements(p1) == Elements(p2) && NoDuplicates(p2) {
      assert forall x :: x in p1 ==> x in Elements(p2);
    }
  }

  function Longest(names: seq<string>): (n: nat)
    ensures forall x :: x in names ==> |x| <= n
  {
    if names == [] then 0
    else
      var n := Longest(names[1..]);
      if n < |names[0]| then |names[0]| else n
  }

  /** A name that is not in the list. */
  function Fresh(names: seq<string>): (x: string)
    ensures x !in names
  {
    seq(Longest(names) + 1, _ => 'a')
  }

  /**
   * From a list the exact comparison is symmetric, whatever it is compared with, exactly when the list has no
   * duplicates.
   */
  lemma ExactSymmetricExactly(same: (string, string) -> bool, p1: seq<string>)
    ensures (forall p2 :: Compare(same, p1, p2, Exact) ==> Compare(same, p2, p1, Exact)) <==> NoDuplicates(p1)
  {
    if NoDuplicates(p1) {
      forall p2 | Compare(same, p1, p2, Exact) ensures Compare(same, p2, p1, Exact) {
        ExactIsSameSet(same, p1, p2);
        ExactIsSameSet(same, p2, p1);
      }
    }
    if i, j :| 0 <= i < j < |p1| && p1[i] == p1[j] {
      var p2 := p1[j := Fresh(p1)];
      forall x | x in p1 ensures x in p2 {
        var k :| 0 <= k < |p1| && p1[k] == x;
        assert p2[if k == j then i else k] == x;
      }
      assert Fresh(p1) == p2[j] && p2[j] in p2;
      assert Compare(same, p1, p2, Exact) && !Compare(same, p2, p1, Exact);
    }
  }

  /** The smallest lists that show it. */
  lemma ExactAsymmetricWithDuplicates(same: (string, string) -> bool)
    ensures Compare(same, ["a", "a"], ["a", "b"], Exact)
    ensures !Compare(same, ["a", "b"], ["a", "a"], Exact)
  {
    assert ["a", "b"][1] == "b";
    assert "b" in ["a", "b"] && "b" !in ["a", "a"];
  }
}
