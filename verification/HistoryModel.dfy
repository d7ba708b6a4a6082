/** The order of the client models and the hand-written binary search over it (historymodel.cpp). */
module HistoryModel {
  import opened Permutations
  import opened Strings

  // ---------------------------------------------------------------- strict weak orders

  ghost predicate StrictWeakOrder<T(!new)>(before: (T, T) -> bool) {
    && (forall a :: !before(a, a))
    && (forall a, b, c :: before(a, b) && before(b, c) ==> before(a, c))
    && (forall a, b, c :: !before(a, b) && !before(b, a) && !before(b, c) && !before(c, b) ==>
                            !before(a, c) && !before(c, a))
  }

  lemma Asymmetric<T(!new)>(before: (T, T) -> bool, a: T, b: T)
    requires StrictWeakOrder(before) && before(a, b)
    ensures !before(b, a)
  {
    assert before(b, a) ==> before(a, a);
  }

  /** In a strict weak order "not after" is transitive too. */
  lemma NotAfterTransitive<T(!new)>(before: (T, T) -> bool, a: T, b: T, c: T)
    requires StrictWeakOrder(before) && !before(b, a) && !before(c, b)
    ensures !before(c, a)
    ensures before(a, b) || before(b, c) ==> before(a, c)
  {
    assert before(c, a) && before(a, b) ==> before(c, b);
    assert before(b, c) && before(c, a) ==> before(b, a);
    assert before(a, b) && before(b, c) ==> before(a, c);
    assert !before(a, b) && !before(b, c) ==> !before(c, a);
    assert !before(a, c) && !before(c, a) && !before(b, c) ==> !before(a, b);
    assert !before(a, c) && !before(c, a) && !before(a, b) ==> !before(b, c);
  }

  ghost predicate Sorted<T(!new)>(before: (T, T) -> bool, items: seq<T>) {
    forall i, j :: 0 <= i < j < |items| ==> !before(items[j], items[i])
  }

  // ---------------------------------------------------------------- the comparator

  /** Properties of an item; a property it does not have reads as the invalid value. */
  type Item<V> = map<string, V>

  datatype Order<!V> = Order(sortField: string, ascending: bool, less: (V, V) -> bool, invalid: V)

  function Value<V>(o: Order<V>, item: Item<V>, field: string): V {
    if field in item then item[field] else o.invalid
  }

  /** QChar::isSpace */
  predicate IsSpace(c: char) {
    || c == ' ' || '\t' <= c <= '\r' || c == '\U{85}' || c == '\U{A0}' || c == '\U{1680}'
    || '\U{2000}' <= c <= '\U{200A}'
    || c in {'\U{2028}', '\U{2029}', '\U{202F}', '\U{205F}', '\U{3000}'}
  }

  function TrimLeft(s: string): string {
    if s != [] && IsSpace(s[0]) then TrimLeft(s[1..]) else s
  }

  function TrimRight(s: string): string {
    if s != [] && IsSpace(s[|s| - 1]) then TrimRight(s[..|s| - 1]) else s
  }

  function Trimmed(s: string): string {
    TrimRight(TrimLeft(s))
  }

  /** The first field on which the items differ decides. */
  predicate Lexicographic<V(==)>(o: Order<V>, fields: seq<string>, left: Item<V>, right: Item<V>) {
    fields != [] &&
    var field := Trimmed(fields[0]);
    var l, r := Value(o, left, field), Value(o, right, field);
    if l != r then o.less(l, r) else Lexicographic(o, fields[1..], left, right)
  }

  predicate Less<V(==)>(o: Order<V>, left: Item<V>, right: Item<V>) {
    Lexicographic(o, Split(o.sortField, ','), left, right)
  }

  method LessThan<V(==)>(o: Order<V>, left: Item<V>, right: Item<V>) returns (less: bool)
    ensures less == Less(o, left, right)
  {
    var sortFields := Split(o.sortField, ',');
    while sortFields != []
      invariant Less(o, left, right) == Lexicographic(o, sortFields, left, right)
    {
      var sortField := Trimmed(sortFields[0]);
      sortFields := sortFields[1..];
      var leftValue, rightValue := Value(o, left, sortField), Value(o, right, sortField);
      if leftValue != rightValue {
        return o.less(leftValue, rightValue);
      }
    }
    return false;
  }

  /** left goes before right in the model's direction. */
  predicate Before<V(==)>(o: Order<V>, left: Item<V>, right: Item<V>) {
    if o.ascending then Less(o, left, right) else Less(o, right, left)
  }

  ghost predicate StrictTotalOrder<V(!new)>(less: (V, V) -> bool) {
    && (forall a :: !less(a, a))
    && (forall a, b, c :: less(a, b) && less(b, c) ==> less(a, c))
    && (forall a, b :: less(a, b) || less(b, a) || a == b)
  }

  lemma {:induction false} LexicographicIrreflexive<V>(o: Order<V>, fields: seq<string>, a: Item<V>)
    ensures !Lexicographic(o, fields, a, a)
  {
    if fields != [] { LexicographicIrreflexive(o, fields[1..], a); }
  }

  lemma {:induction false} LexicographicTransitive<V(!new)>(o: Order<V>, fields: seq<string>, a: Item<V>, b: Item<V>,
                                                     c: Item<V>)
    requires StrictTotalOrder(o.less)
    requires Lexicographic(o, fields, a, b) && Lexicographic(o, fields, b, c)
    ensures Lexicographic(o, fields, a, c)
  {
    var f := Trimmed(fields[0]);
    if Value(o, a, f) == Value(o, b, f) == Value(o, c, f) {
      LexicographicTransitive(o, fields[1..], a, b, c);
    }
  }

  /** Two items tie exactly when they agree on every sort field. */
  lemma {:induction false} TieMeansEqualFields<V(!new)>(o: Order<V>, fields: seq<string>, a: Item<V>, b: Item<V>)
    requires StrictTotalOrder(o.less)
    ensures !Lexicographic(o, fields, a, b) && !Lexicographic(o, fields, b, a) <==>
              forall i :: 0 <= i < |fields| ==> Value(o, a, Trimmed(fields[i])) == Value(o, b, Trimmed(fields[i]))
  {
    if fields != [] {
      TieMeansEqualFields(o, fields[1..], a, b);
      var f := Trimmed(fields[0]);
      if Value(o, a, f) == Value(o, b, f) {
        assert forall i :: 0 < i < |fields| ==> fields[i] == fields[1..][i - 1];
      }
    }
  }

  /** The multi-field comparator is a strict weak order for every field list and in both directions. */
  lemma BeforeIsStrictWeakOrder<V(!new)>(o: Order<V>)
    requires StrictTotalOrder(o.less)
    ensures StrictWeakOrder((a: Item<V>, b: Item<V>) => Before(o, a, b))
  {
    var fields := Split(o.sortField, ',');
    forall a: Item<V> ensures !Before(o, a, a) {
      LexicographicIrreflexive(o, fields, a);
    }
    forall a: Item<V>, b: Item<V>, c: Item<V> | Before(o, a, b) && Before(o, b, c) ensures Before(o, a, c) {
      if o.ascending {
        LexicographicTransitive(o, fields, a, b, c);
      } else {
        LexicographicTransitive(o, fields, c, b, a);
      }
    }
    forall a: Item<V>, b: Item<V>, c: Item<V>
      | !Before(o, a, b) && !Before(o, b, a) && !Before(o, b, c) && !Before(o, c, b)
      ensures !Before(o, a, c) && !Before(o, c, a)
    {
      TieMeansEqualFields(o, fields, a, b);
      TieMeansEqualFields(o, fields, b, c);
      TieMeansEqualFields(o, fields, a, c);
    }
  }

  /** Trimming takes off the blanks at both ends and nothing else. */
  lemma TrimmedExactly(s: string) returns (i: nat, j: nat)
    ensures i <= j <= |s| && Trimmed(s) == s[i..j]
    ensures forall k :: 0 <= k < i || j <= k < |s| ==> IsSpace(s[k])
    ensures i < j ==> !IsSpace(s[i]) && !IsSpace(s[j - 1])
  {
    i := TrimLeftExactly(s);
    var m := TrimRightExactly(s[i..]);
    j := i + m;
    assert s[i..][..m] == s[i..j];
    forall k | j <= k < |s| ensures IsSpace(s[k]) {
      assert s[i..][k - i] == s[k];
    }
  }

  lemma {:induction false} TrimLeftExactly(s: string) returns (i: nat)
    ensures i <= |s| && TrimLeft(s) == s[i..]
    ensures (forall k :: 0 <= k < i ==> IsSpace(s[k])) && (i < |s| ==> !IsSpace(s[i]))
  {
    if s != [] && IsSpace(s[0]) {
      var k := TrimLeftExactly(s[1..]);
      i := k + 1;
    } else {
      i := 0;
    }
  }

  lemma {:induction false} TrimRightExactly(s: string) returns (j: nat)
    ensures j <= |s| && TrimRight(s) == s[..j]
    ensures (forall k :: j <= k < |s| ==> IsSpace(s[k])) && (j > 0 ==> !IsSpace(s[j - 1]))
  {
    if s != [] && IsSpace(s[|s| - 1]) {
      j := TrimRightExactly(s[..|s| - 1]);
    } else {
      j := |s|;
    }
  }

  /** A text trims to nothing exactly if it is blank. */
  lemma BlankExactly(s: string)
    ensures Trimmed(s) == "" <==> forall k :: 0 <= k < |s| ==> IsSpace(s[k])
  {
    var i, j := TrimmedExactly(s);
  }

  /** The items agree on the fields before i, and differ on field i. */
  ghost predicate FirstDifference<V>(o: Order<V>, fields: seq<string>, left: Item<V>, right: Item<V>, i: nat) {
    && i < |fields|
    && (forall j :: 0 <= j < i ==> Value(o, left, Trimmed(fields[j])) == Value(o, right, Trimmed(fields[j])))
    && Value(o, left, Trimmed(fields[i])) != Value(o, right, Trimmed(fields[i]))
  }

  lemma {:induction false} LexicographicByFirst<V>(o: Order<V>, fields: seq<string>, left: Item<V>, right: Item<V>,
                                                   i: nat)
    requires FirstDifference(o, fields, left, right, i)
    ensures Lexicographic(o, fields, left, right) <==>
              o.less(Value(o, left, Trimmed(fields[i])), Value(o, right, Trimmed(fields[i])))
  {
    if i > 0 {
      assert fields[1..][i - 1] == fields[i];
      LexicographicByFirst(o, fields[1..], left, right, i - 1);
    }
  }

  /**
   * Of the fields in a sort field list, the first one on which two items differ decides, in the direction of the
   * model; earlier fields have priority.
   */
  lemma FirstFieldDecides<V>(o: Order<V>, fields: seq<string>, left: Item<V>, right: Item<V>, i: nat)
    requires fields != [] && (forall j :: 0 <= j < |fields| ==> ',' !in fields[j]) && o.sortField == Join(fields, ',')
    requires FirstDifference(o, fields, left, right, i)
    ensures var l, r := Value(o, left, Trimmed(fields[i])), Value(o, right, Trimmed(fields[i]));
            && (Less(o, left, right) <==> o.less(l, r))
            && (Before(o, left, right) <==> if o.ascending then o.less(l, r) else o.less(r, l))
  {
    SplitOfJoin(fields, ',');
    LexicographicByFirst(o, fields, left, right, i);
    LexicographicByFirst(o, fields, right, left, i);
  }

  /** With one sort field, written without blanks, the order is that of its values; a missing one is invalid. */
  lemma SingleFieldOrder<V>(o: Order<V>, left: Item<V>, right: Item<V>)
    requires ',' !in o.sortField && o.sortField != []
    requires !IsSpace(o.sortField[0]) && !IsSpace(o.sortField[|o.sortField| - 1])
    ensures var l, r := if o.sortField in left then left[o.sortField] else o.invalid,
                        if o.sortField in right then right[o.sortField] else o.invalid;
            Less(o, left, right) <==> l != r && o.less(l, r)
  {
    SplitWithout(o.sortField, ',');
    TrimmedPlain(o.sortField);
    assert !Lexicographic(o, [o.sortField][1..], left, right);
  }

  lemma TrimmedPlain(s: string)
    requires s != [] && !IsSpace(s[0]) && !IsSpace(s[|s| - 1])
    ensures Trimmed(s) == s
  {
  }

  // ---------------------------------------------------------------- the binary search

  /** Integer division as the program does it, towards zero. */
  function Half(n: int): int {
    if n >= 0 then n / 2 else -((-n) / 2)
  }

  function FloorLog2(n: nat): nat
    requires n >= 1
  {
    if n == 1 then 0 else 1 + FloorLog2(n / 2)
  }

  function Power(n: nat): nat {
    if n == 0 then 1 else 2 * Power(n - 1)
  }

  lemma {:induction false} FloorLog2Exactly(n: nat)
    requires n >= 1
    ensures Power(FloorLog2(n)) <= n < Power(FloorLog2(n) + 1)
  {
    if n > 1 { FloorLog2Exactly(n / 2); }
  }

  /** p items come before the new one, and they are the first p. */
  ghost predicate IsPosition<T>(before: (T, T) -> bool, items: seq<T>, item: T, p: nat) {
    && p <= |items|
    && (forall i :: 0 <= i < p ==> before(items[i], item))
    && (forall i :: p <= i < |items| ==> !before(items[i], item))
  }

  /** Rounds the search can still make when n positions are left. */
  function Budget(n: nat): nat {
    if n == 0 then 1 else FloorLog2(n) + 2
  }

  lemma {:induction false} FloorLog2Monotone(m: nat, n: nat)
    requires 1 <= m <= n
    ensures FloorLog2(m) <= FloorLog2(n)
  {
    if m > 1 { FloorLog2Monotone(m / 2, n / 2); }
  }

  lemma BudgetHalves(n: nat, m: nat)
    requires n >= 1 && m <= n / 2
    ensures Budget(m) + 1 <= Budget(n)
  {
    if m > 0 { FloorLog2Monotone(m, n / 2); }
  }

  /**
   * positionForItem. On every list it stays in bounds and ends within floor(log2 n) + 2 rounds; on a
   * list sorted by the order it answers how many items come strictly before the new one.
   */
  method PositionForItem<T(!new)>(before: (T, T) -> bool, items: seq<T>, item: T)
    returns (p: nat, ghost rounds: nat)
    ensures p <= |items|
    ensures items != [] ==> rounds <= FloorLog2(|items|) + 2
    ensures StrictWeakOrder(before) && Sorted(before, items) ==> IsPosition(before, items, item, p)
  {
    rounds := 0;
    var lowerBound := 0;
    var upperBound := |items| - 1;
    if upperBound < 0 {
      return 0, 0;
    }
    while true
      invariant 0 <= lowerBound <= upperBound + 1 <= |items| && lowerBound < |items|
      invariant rounds + Budget(upperBound - lowerBound + 1) <= FloorLog2(|items|) + 2
      invariant lowerBound > 0 ==> before(items[lowerBound - 1], item)
      invariant upperBound + 1 < |items| ==> !before(items[upperBound + 1], item)
      decreases upperBound - lowerBound + 1
    {
      rounds := rounds + 1;
      ghost var left := upperBound - lowerBound + 1;
      var pos := Half(upperBound + lowerBound);
      var posItem := items[pos];
      if lowerBound == pos {
        if before(item, posItem) {
          PositionBySides(before, items, item, pos);
          return pos, rounds;
        }
      }
      if before(posItem, item) {
        lowerBound := pos + 1;
        if lowerBound > upperBound {
          PositionBySides(before, items, item, pos + 1);
          return pos + 1, rounds;
        }
        BudgetHalves(left, upperBound - pos);
      } else if lowerBound > upperBound {
        PositionBySides(before, items, item, pos);
        return pos, rounds;
      } else {
        upperBound := pos - 1;
        BudgetHalves(left, pos - lowerBound);
      }
    }
  }

  /** On a sorted list looking at the two neighbours is enough. */
  lemma PositionBySides<T(!new)>(before: (T, T) -> bool, items: seq<T>, item: T, p: nat)
    requires p <= |items|
    requires p > 0 ==> before(items[p - 1], item)
    requires p < |items| ==> !before(items[p], item) || before(item, items[p])
    ensures StrictWeakOrder(before) && Sorted(before, items) ==> IsPosition(before, items, item, p)
  {
    if StrictWeakOrder(before) && Sorted(before, items) {
      forall i | 0 <= i < p ensures before(items[i], item) {
        if i < p - 1 {
          assert !before(items[p - 1], items[i]);
          assert !before(item, items[p - 1]) by { assert before(item, items[p - 1]) ==> before(item, item); }
          NotAfterTransitive(before, items[i], items[p - 1], item);
        }
      }
      forall i | p <= i < |items| ensures !before(items[i], item) {
        assert before(item, items[p]) && before(items[p], item) ==> before(item, item);
        if i > p {
          assert !before(items[i], items[p]);
          NotAfterTransitive(before, item, items[p], items[i]);
        }
      }
    }
  }

  lemma PositionUnique<T>(before: (T, T) -> bool, items: seq<T>, item: T, p: nat, q: nat)
    requires IsPosition(before, items, item, p) && IsPosition(before, items, item, q)
    ensures p == q
  {
    assert p < |items| ==> (before(items[p], item) <==> p < q);
    assert q < |items| ==> (before(items[q], item) <==> q < p);
  }

  // ---------------------------------------------------------------- ordered lists

  function Insert<T>(s: seq<T>, p: nat, x: T): (r: seq<T>)
    requires p <= |s|
    ensures |r| == |s| + 1
    ensures forall i :: 0 <= i < |r| ==> r[i] == if i < p then s[i] else if i == p then x else s[i - 1]
  {
    s[..p] + [x] + s[p..]
  }

  /** QList::move: take the element out, then put it at the given position of what is left. */
  function Move<T>(s: seq<T>, from: nat, to: nat): seq<T>
    requires from < |s| && to < |s|
  {
    Insert(RemoveAt(s, from), to, s[from])
  }

  lemma InsertElements<T>(s: seq<T>, p: nat, x: T)
    requires p <= |s|
    ensures multiset(Insert(s, p, x)) == multiset(s) + multiset{x}
  {
    assert s == s[..p] + s[p..];
  }

  lemma MovePermutes<T>(s: seq<T>, from: nat, to: nat)
    requires from < |s| && to < |s|
    ensures multiset(Move(s, from, to)) == multiset(s)
  {
    RemoveElements(s, from);
    InsertElements(RemoveAt(s, from), to, s[from]);
  }

  lemma RemoveSorted<T(!new)>(before: (T, T) -> bool, items: seq<T>, pos: nat)
    requires Sorted(before, items) && pos < |items|
    ensures Sorted(before, RemoveAt(items, pos))
  {
  }

  lemma InsertSorted<T(!new)>(before: (T, T) -> bool, items: seq<T>, item: T, p: nat)
    requires StrictWeakOrder(before) && Sorted(before, items) && IsPosition(before, items, item, p)
    ensures Sorted(before, Insert(items, p, item))
  {
    var result := Insert(items, p, item);
    forall i | 0 <= i < p ensures !before(item, items[i]) {
      Asymmetric(before, items[i], item);
    }
    forall i, j | 0 <= i < j < |result| ensures !before(result[j], result[i]) {
    }
  }

  /** Where an item belongs in a sorted list once the element at pos is out. */
  lemma PositionWithout<T(!new)>(before: (T, T) -> bool, items: seq<T>, pos: nat, item: T, newPos: nat)
    requires StrictWeakOrder(before) && Sorted(before, items) && pos < |items|
    requires IsPosition(before, items, item, newPos)
    ensures IsPosition(before, RemoveAt(items, pos), item, if newPos > pos then newPos - 1 else newPos)
  {
  }
}
