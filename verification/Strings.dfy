/** Strings as the repository orders and splits them: the QMap key order and QString::split. */
module Strings {

  /** Lexicographic order, the order in which a QMap with string keys is iterated. */
  predicate StringLe(a: string, b: string) {
    a == [] || (b != [] && (a[0] < b[0] || (a[0] == b[0] && StringLe(a[1..], b[1..]))))
  }

  /** a comes first exactly if it starts b, or has the smaller character where the two first differ. */
  lemma {:induction false} StringLeExactly(a: string, b: string)
    ensures StringLe(a, b) <==>
              a <= b || exists i :: 0 <= i < |a| && i < |b| && a[..i] == b[..i] && a[i] < b[i]
  {
    if a != [] && b != [] && a[0] == b[0] {
      StringLeExactly(a[1..], b[1..]);
      assert a == [a[0]] + a[1..] && b == [b[0]] + b[1..];
      if i :| 0 <= i < |a| - 1 && i < |b| - 1 && a[1..][..i] == b[1..][..i] && a[1..][i] < b[1..][i] {
        assert a[..i + 1] == [a[0]] + a[1..][..i] && b[..i + 1] == [b[0]] + b[1..][..i];
        assert a[i + 1] < b[i + 1];
      }
      if i :| 0 <= i < |a| && i < |b| && a[..i] == b[..i] && a[i] < b[i] {
        assert i > 0 && a[1..][..i - 1] == a[..i][1..] && b[1..][..i - 1] == b[..i][1..];
        assert a[1..][i - 1] < b[1..][i - 1];
      }
    } else if a != [] && b != [] {
      if a[0] < b[0] { assert a[..0] == b[..0]; }
      if i :| 0 <= i < |a| && i < |b| && a[..i] == b[..i] && a[i] < b[i] {
        if i > 0 { FirstOfPrefix(a, b, i); }
      }
    }
  }

  lemma FirstOfPrefix(a: string, b: string, i: nat)
    requires 0 < i <= |a| && i <= |b| && a[..i] == b[..i]
    ensures a[0] == b[0]
  {
    assert a[..i][0] == b[..i][0];
  }

  lemma {:induction false} StringLeReflexive(a: string)
    ensures StringLe(a, a)
  {
    if a != [] { StringLeReflexive(a[1..]); }
  }

  lemma {:induction false} StringLeAntisymmetric(a: string, b: string)
    requires StringLe(a, b) && StringLe(b, a)
    ensures a == b
  {
    if a != [] && b != [] {
      StringLeAntisymmetric(a[1..], b[1..]);
      assert a == [a[0]] + a[1..] && b == [b[0]] + b[1..];
    }
  }

  lemma {:induction false} StringLeTransitive(a: string, b: string, c: string)
    requires StringLe(a, b) && StringLe(b, c)
    ensures StringLe(a, c)
  {
    if a != [] && a[0] == b[0] && b[0] == c[0] {
      StringLeTransitive(a[1..], b[1..], c[1..]);
    }
  }

  lemma {:induction false} StringLeTotal(a: string, b: string)
    ensures StringLe(a, b) || StringLe(b, a)
  {
    if a != [] && b != [] && a[0] == b[0] { StringLeTotal(a[1..], b[1..]); }
  }

  lemma {:induction false} LeastExists(s: set<string>)
    requires s != {}
    ensures exists k :: k in s && forall x :: x in s ==> StringLe(k, x)
    decreases |s|
  {
    var a :| a in s;
    StringLeReflexive(a);
    var rest := s - {a};
    if rest != {} {
      LeastExists(rest);
      var k :| k in rest && forall x :: x in rest ==> StringLe(k, x);
      StringLeTotal(a, k);
      var m := if StringLe(a, k) then a else k;
      forall x | x in s ensures StringLe(m, x) {
        if x != a && m == a { StringLeTransitive(a, k, x); }
      }
    }
  }

  /** The first key of a QMap whose keys are s. */
  function Least(s: set<string>): (k: string)
    requires s != {}
    ensures k in s && forall x :: x in s ==> StringLe(k, x)
  {
    LeastExists(s);
    LeastUnique(s);
    var k :| k in s && forall x :: x in s ==> StringLe(k, x);
    k
  }

  lemma LeastUnique(s: set<string>)
    ensures forall a, b ::
              (a in s && b in s && (forall x :: x in s ==> StringLe(a, x)) && (forall x :: x in s ==> StringLe(b, x)))
              ==> a == b
  {
    forall a, b | a in s && b in s && (forall x :: x in s ==> StringLe(a, x))
                  && (forall x :: x in s ==> StringLe(b, x))
      ensures a == b
    {
      StringLeAntisymmetric(a, b);
    }
  }

  /** QString::split on a one-character separator: always at least one part. */
  function Split(s: string, sep: char): (parts: seq<string>)
    ensures |parts| >= 1
  {
    if s == [] then [[]]
    else
      var rest := Split(s[1..], sep);
      if s[0] == sep then [[]] + rest else [[s[0]] + rest[0]] + rest[1..]
  }

  /** The parts with the separator between them. */
  function Join(parts: seq<string>, sep: char): string
    requires parts != []
  {
    if |parts| == 1 then parts[0] else parts[0] + [sep] + Join(parts[1..], sep)
  }

  lemma {:induction false} SplitWithout(s: string, sep: char)
    requires sep !in s
    ensures Split(s, sep) == [s]
  {
    if s != [] {
      SplitWithout(s[1..], sep);
      assert [s[0]] + s[1..] == s;
    }
  }

  /** The part before the first separator. */
  lemma {:induction false} SplitWord(w: string, rest: string, sep: char)
    requires sep !in w
    ensures Split(w + [sep] + rest, sep) == [w] + Split(rest, sep)
  {
    var s := w + [sep] + rest;
    if w == [] {
      assert s[1..] == rest;
    } else {
      SplitWord(w[1..], rest, sep);
      assert s[1..] == w[1..] + [sep] + rest;
      assert s[0] == w[0];
      assert [w[0]] + w[1..] == w;
    }
  }

  /** Splitting takes joined parts apart again. */
  lemma {:induction false} SplitOfJoin(parts: seq<string>, sep: char)
    requires parts != [] && forall i :: 0 <= i < |parts| ==> sep !in parts[i]
    ensures Split(Join(parts, sep), sep) == parts
  {
    if |parts| == 1 {
      SplitWithout(parts[0], sep);
    } else {
      SplitOfJoin(parts[1..], sep);
      SplitWord(parts[0], Join(parts[1..], sep), sep);
    }
  }
}
