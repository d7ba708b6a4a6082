/** The compiled condition can be read back, binds every placeholder, and means what the filter matches. */
module FilterSqlProofs {
  import opened Filters
  import opened FilterSql
  import opened LikeEscaping

  // ---------------------------------------------------------------- generated names

  function ReadNumber(s: string): nat {
    if s == [] then 0
    else
      var c := s[|s| - 1];
      10 * ReadNumber(s[..|s| - 1]) + (if '0' <= c <= '9' then c as int - '0' as int else 0)
  }

  lemma DigitIsDigit(d: nat)
    requires d < 10
    ensures '0' <= Digit(d) <= '9' && Digit(d) as int - '0' as int == d
  {
  }

  lemma {:induction false} NumberTextReads(n: nat)
    ensures ReadNumber(NumberText(n)) == n
    ensures forall c :: c in NumberText(n) ==> '0' <= c <= '9'
  {
    if n < 10 {
      DigitIsDigit(n);
      assert NumberText(n)[..0] == [];
    } else {
      NumberTextReads(n / 10);
      DigitIsDigit(n % 10);
      var s := NumberText(n);
      assert s[..|s| - 1] == NumberText(n / 10);
    }
  }

  /** Different numbers give different placeholders. */
  lemma BindNamesDiffer(m: nat, n: nat)
    requires BindName(m) == BindName(n)
    ensures m == n
  {
    assert BindName(m)[|BIND_PREFIX|..] == NumberText(m);
    assert BindName(n)[|BIND_PREFIX|..] == NumberText(n);
    NumberTextReads(m);
    NumberTextReads(n);
  }

  lemma BindNameHasNoParenthesis(n: nat)
    ensures ')' !in BindName(n)
  {
    NumberTextReads(n);
    assert ')' !in BIND_PREFIX;
  }

  function Names(n: nat): set<string> {
    if n == 0 then {} else Names(n - 1) + {BindName(n - 1)}
  }

  lemma {:induction false} FreshName(n: nat, m: nat)
    requires n <= m
    ensures BindName(m) !in Names(n)
  {
    if n > 0 {
      FreshName(n - 1, m);
      if BindName(m) == BindName(n - 1) { BindNamesDiffer(m, n - 1); }
    }
  }

  lemma {:induction false} NamesCount(n: nat)
    ensures |Names(n)| == n
  {
    if n > 0 {
      NamesCount(n - 1);
      FreshName(n - 1, n - 1);
    }
  }

  lemma TextOfLeaf(table: string, p: string, v: Variant, flags: int, binds: Binds)
    requires p != "" && v.Value? && flags in {0x01, 0x10}
    ensures var bind := ":filterValue" + NumberText(|binds|);
            FilterToString(Standard(Name(p), v, flags), binds, Name(table))
            == (table + "." + p + (if flags == 0x10 then "!=" else "=") + bind, binds[bind := v])
  {
    assert HasFlag(0x10, MATCH_NOT_EQUALS) && !HasFlag(0x01, MATCH_NOT_EQUALS);
    assert !HasFlag(0x10, MATCH_CONTAINS) && !HasFlag(0x01, MATCH_CONTAINS);
  }

  /** MatchContains goes first: "not equals" beside it is ignored, and the value is in the text and not bound. */
  lemma TextOfContains(table: string, p: string, v: string, above: int, below: int, binds: Binds)
    requires p != "" && 0x04 <= below < 0x08
    ensures FilterToString(Standard(Name(p), Value(v), 0x08 * above + below), binds, Name(table))
         == (table + "." + p + " LIKE '%" + EscapeFilterValue(v) + "%' ESCAPE '\\'", binds)
  {
    HasFlagExactly(0x04, above, below);
    ContainsLayout(table + "." + p, EscapeFilterValue(v));
  }

  lemma ContainsLayout(name: string, escaped: string)
    ensures name + LIKE + ([PERCENT] + escaped + [PERCENT]) + [QUOTE] + ESCAPE
         == name + " LIKE '%" + escaped + "%' ESCAPE '\\'"
  {
  }

  /** The first two placeholders by name, and the text around them, for two leaves of a table. */
  lemma TextOfPair(table: string, p: string, v: Variant, q: string, w: Variant)
    requires p != "" && q != "" && v.Value? && w.Value?
    ensures var f := Intersection([Standard(Name(p), v, 0x01), Standard(Name(q), w, 0x10)]);
            var left, right := table + "." + p + "=:filterValue0", table + "." + q + "!=:filterValue1";
            FilterToString(f, map[], Name(table)) == ("( (" + left + ") AND (" + right + ") )",
                                                      map[":filterValue0" := v, ":filterValue1" := w])
  {
    var a, b := Standard(Name(p), v, 0x01), Standard(Name(q), w, 0x10);
    var left, right := table + "." + p + "=:filterValue0", table + "." + q + "!=:filterValue1";
    var one: Binds := map[":filterValue0" := v];
    var none: Binds := map[];
    TextOfLeaf(table, p, v, 0x01, none);
    TextOfLeaf(table, q, w, 0x10, one);
    assert |none| == 0 && |one| == 1;
    assert NumberText(0) == "0" && NumberText(1) == "1";
    assert ":filterValue" + "0" == ":filterValue0" && ":filterValue" + "1" == ":filterValue1";
    assert table + "." + p + "=" + ":filterValue0" == left && table + "." + q + "!=" + ":filterValue1" == right;
    assert none[":filterValue0" := v] == one;
    assert one[":filterValue1" := w] == map[":filterValue0" := v, ":filterValue1" := w];
    TextOfTwoMembers(a, b, none, Name(table));
    PairLayout(left, right);
  }

  lemma PairLayout(left: string, right: string)
    ensures OPEN + ("(" + left + ")" + AND + ("(" + right + ")")) + CLOSE == "( (" + left + ") AND (" + right + ") )"
  {
  }

  lemma TextOfTwoMembers(a: Filter, b: Filter, binds: Binds, prefix: Name)
    ensures var (left, one) := FilterToString(a, binds, prefix);
            var (right, two) := FilterToString(b, one, prefix);
            FilterToString(Intersection([a, b]), binds, prefix)
            == (OPEN + ("(" + left + ")" + AND + ("(" + right + ")")) + CLOSE, two)
  {
    var (left, one) := FilterToString(a, binds, prefix);
    var (right, two) := FilterToString(b, one, prefix);
    var filters := [a, b];
    assert filters[1..] == [b];
    assert MembersToString([b], AND, one, prefix) == ("(" + right + ")", two);
    assert MembersToString(filters, AND, binds, prefix) == ("(" + left + ")" + AND + ("(" + right + ")"), two);
    assert Intersection(filters).filters == filters;
  }

  // ---------------------------------------------------------------- what the text stands for

  /** A column name that cannot be mistaken for anything else. */
  predicate PlainColumn(c: string) {
    c != "" && forall x :: x in c ==> x !in MARKS
  }

  /** Leaves with a property and a value, in compounds that are not empty. */
  predicate Compilable(f: Filter, prefix: Name) {
    match f
    case Standard(property, value, flags) =>
      !IsEmpty(property) && !IsNull(value) && PlainColumn(Column(prefix, property.text))
    case Intersection(filters) => filters != [] && forall i :: 0 <= i < |filters| ==> Compilable(filters[i], prefix)
    case Union(filters) => filters != [] && forall i :: 0 <= i < |filters| ==> Compilable(filters[i], prefix)
  }

  /** The values of the leaves that bind theirs, from left to right; with MatchContains the value goes into the text. */
  function Values(f: Filter): seq<Variant> {
    match f
    case Standard(_, value, flags) => if HasFlag(flags, MATCH_CONTAINS) then [] else [value]
    case Intersection(filters) => AllValues(filters)
    case Union(filters) => AllValues(filters)
  }

  function AllValues(filters: seq<Filter>): seq<Variant> {
    if filters == [] then [] else Values(filters[0]) + AllValues(filters[1..])
  }

  /** The pattern for a text that contains the value. */
  function Anywhere(value: string): string {
    [PERCENT] + EachInPattern(value) + [PERCENT]
  }

  /** The condition, its placeholders numbered from n. */
  function Compile(f: Filter, n: nat, prefix: Name): Condition
    requires Compilable(f, prefix)
    decreases f, 1
  {
    match f
    case Standard(property, value, flags) =>
      if HasFlag(flags, MATCH_CONTAINS) then Like(Column(prefix, property.text), Anywhere(value.text))
      else Compare(Column(prefix, property.text), HasFlag(flags, MATCH_NOT_EQUALS), BindName(n))
    case Intersection(filters) => AllOf(CompileAll(filters, n, prefix))
    case Union(filters) =>
      if |filters| == 1 then AllOf(CompileAll(filters, n, prefix)) else AnyOf(CompileAll(filters, n, prefix))
  }

  function CompileAll(filters: seq<Filter>, n: nat, prefix: Name): (r: seq<Condition>)
    requires forall i :: 0 <= i < |filters| ==> Compilable(filters[i], prefix)
    ensures |r| == |filters|
    decreases filters, 0
  {
    if filters == [] then []
    else [Compile(filters[0], n, prefix)] + CompileAll(filters[1..], n + |Values(filters[0])|, prefix)
  }

  // ---------------------------------------------------------------- the bindings

  predicate Bound(binds: Binds, n: nat, value: Variant) {
    BindName(n) in binds && binds[BindName(n)] == value
  }

  /** The placeholders from n on hold the values, in order. */
  ghost predicate Holding(binds: Binds, n: nat, values: seq<Variant>) {
    forall i :: 0 <= i < |values| ==> Bound(binds, n + i, values[i])
  }

  ghost predicate Extends(before: Binds, after: Binds) {
    forall x :: x in before ==> x in after && after[x] == before[x]
  }

  /** Binding one more value under the name made from the number of bindings. */
  lemma BindNew(binds: Binds, n: nat, value: Variant)
    requires binds.Keys == Names(n)
    ensures |binds| == n
    ensures var after := binds[BindName(n) := value];
            after.Keys == Names(n + 1) && Extends(binds, after) && Bound(after, n, value)
  {
    NamesCount(n);
    FreshName(n, n);
    assert |binds| == |binds.Keys|;
  }

  lemma StillBound(before: Binds, after: Binds, n: nat, value: Variant)
    requires Extends(before, after) && Bound(before, n, value)
    ensures Bound(after, n, value)
  {
  }

  /** after is before with the values bound under the next names. */
  ghost predicate Numbered(before: Binds, n: nat, values: seq<Variant>, after: Binds) {
    after.Keys == Names(n + |values|) && Extends(before, after) && Holding(after, n, values)
  }

  lemma NumberedOne(binds: Binds, n: nat, value: Variant)
    requires binds.Keys == Names(n)
    ensures Numbered(binds, n, [value], binds[BindName(|binds|) := value])
  {
    BindNew(binds, n, value);
  }

  lemma NumberedBoth(b0: Binds, n: nat, values1: seq<Variant>, b1: Binds, values2: seq<Variant>, b2: Binds)
    requires Numbered(b0, n, values1, b1) && Numbered(b1, n + |values1|, values2, b2)
    ensures Numbered(b0, n, values1 + values2, b2)
  {
    var values := values1 + values2;
    forall i | 0 <= i < |values| ensures Bound(b2, n + i, values[i]) {
      if i < |values1| {
        StillBound(b1, b2, n + i, values1[i]);
      } else {
        assert Bound(b2, (n + |values1|) + (i - |values1|), values2[i - |values1|]);
      }
    }
  }

  /** Compiling adds one fresh placeholder for each leaf, holding its value, and touches no other. */
  lemma {:induction false} BindsLeaves(f: Filter, binds: Binds, prefix: Name, n: nat)
    requires Compilable(f, prefix) && binds.Keys == Names(n)
    ensures Numbered(binds, n, Values(f), FilterToString(f, binds, prefix).1)
    decreases f, 1
  {
    match f {
      case Standard(property, value, flags) =>
        NumberedOne(binds, n, value);
        if !HasFlag(flags, MATCH_CONTAINS) { StandardText(f, binds, prefix); }
      case Intersection(filters) =>
        BindsAllLeaves(filters, AND, binds, prefix, n);
      case Union(filters) =>
        BindsAllLeaves(filters, OR, binds, prefix, n);
    }
  }

  lemma StandardText(f: Filter, binds: Binds, prefix: Name)
    requires f.Standard? && Compilable(f, prefix) && !HasFlag(f.flags, MATCH_CONTAINS)
    ensures FilterToString(f, binds, prefix).1 == binds[BindName(|binds|) := f.value]
    ensures FilterToString(f, binds, prefix).0 ==
              Column(prefix, f.property.text) + (if HasFlag(f.flags, MATCH_NOT_EQUALS) then "!=" else "=")
              + BindName(|binds|)
  {
  }

  lemma MembersBinds(filters: seq<Filter>, linking: string, binds: Binds, prefix: Name)
    requires |filters| > 1
    ensures var after := FilterToString(filters[0], binds, prefix).1;
            MembersToString(filters, linking, binds, prefix).1
            == MembersToString(filters[1..], linking, after, prefix).1
  {
  }

  lemma {:induction false} BindsAllLeaves(filters: seq<Filter>, linking: string, binds: Binds, prefix: Name, n: nat)
    requires filters != [] && (forall i :: 0 <= i < |filters| ==> Compilable(filters[i], prefix))
    requires binds.Keys == Names(n)
    ensures Numbered(binds, n, AllValues(filters), MembersToString(filters, linking, binds, prefix).1)
    decreases filters, 0
  {
    var values := Values(filters[0]);
    var after := FilterToString(filters[0], binds, prefix).1;
    BindsLeaves(filters[0], binds, prefix, n);
    if |filters| == 1 {
      assert AllValues(filters[1..]) == [] && values + [] == values;
    } else {
      BindsAllLeaves(filters[1..], linking, after, prefix, n + |values|);
      MembersBinds(filters, linking, binds, prefix);
      NumberedBoth(binds, n, values, after, AllValues(filters[1..]),
                   MembersToString(filters[1..], linking, after, prefix).1);
    }
  }

  // ---------------------------------------------------------------- the text reads back as the condition

  lemma Prefixed(p: string, t: string)
    ensures StartsWith(p + t, p) && (p + t)[|p|..] == t
  {
  }

  lemma NotPrefixed(s: string, p: string, i: nat)
    requires i < |s| && i < |p| && s[i] != p[i]
    ensures !StartsWith(s, p)
  {
    assert |p| <= |s| ==> s[..|p|][i] == s[i];
  }

  lemma {:induction false} SpanOf(a: string, b: string, stop: set<char>)
    requires (forall c :: c in a ==> c !in stop) && (b == "" || b[0] in stop)
    ensures Span(a + b, stop) == |a|
  {
    if a == "" {
      assert a + b == b;
    } else {
      assert (a + b)[0] == a[0] && (a + b)[1..] == a[1..] + b;
      SpanOf(a[1..], b, stop);
    }
  }

  /** A condition ends where the text does or where its parenthesis closes. */
  predicate Ends(rest: string) {
    rest == "" || rest[0] == ')'
  }

  lemma ParseEquals(column: string, bind: string, rest: string)
    requires PlainColumn(column) && ')' !in bind && Ends(rest)
    ensures ParseLeaf(column + ("=" + (bind + rest))) == Ok(Compare(column, false, bind), rest)
  {
    var tail := "=" + (bind + rest);
    var s := column + tail;
    SpanOf(column, tail, MARKS);
    Prefixed("=", bind + rest);
    SpanOf(bind, rest, {')'});
    assert s[..|column|] == column && s[|column|..] == tail;
    assert tail[1..] == bind + rest && (bind + rest)[..|bind|] == bind && (bind + rest)[|bind|..] == rest;
  }

  lemma ParseDiffers(column: string, bind: string, rest: string)
    requires PlainColumn(column) && ')' !in bind && Ends(rest)
    ensures ParseLeaf(column + ("!=" + (bind + rest))) == Ok(Compare(column, true, bind), rest)
  {
    var tail := "!=" + (bind + rest);
    var s := column + tail;
    SpanOf(column, tail, MARKS);
    Prefixed("!=", bind + rest);
    NotPrefixed(tail, "=", 0);
    SpanOf(bind, rest, {')'});
    assert s[..|column|] == column && s[|column|..] == tail;
    assert tail[2..] == bind + rest && (bind + rest)[..|bind|] == bind && (bind + rest)[|bind|..] == rest;
  }

  lemma ParseLike(column: string, content: string, rest: string)
    requires PlainColumn(column)
    ensures ParseLeaf(column + (LIKE + (EachDoubled(content) + ([QUOTE] + (ESCAPE + rest)))))
         == Ok(Like(column, content), rest)
  {
    var literal := EachDoubled(content) + ([QUOTE] + (ESCAPE + rest));
    var tail := LIKE + literal;
    var s := column + tail;
    assert tail[0] == ' ' && (ESCAPE + rest)[0] == ' ';
    SpanOf(column, tail, MARKS);
    NotPrefixed(tail, "=", 0);
    NotPrefixed(tail, "!=", 0);
    Prefixed(LIKE, literal);
    LiteralReadsBack(content, ESCAPE + rest);
    Prefixed(ESCAPE, rest);
    assert s[..|column|] == column && s[|column|..] == tail;
  }

  /** The text of a LIKE leaf, in the parts it is read in. */
  lemma LikeText(column: string, value: string, rest: string)
    ensures LikeCondition(column, value) + rest ==
              column + (LIKE + (EachDoubled(Anywhere(value)) + ([QUOTE] + (ESCAPE + rest))))
  {
    ConditionLayout(column, value);
    EscapedContent(value);
    FourParts(column, LIKE, EachDoubled(Anywhere(value)), [QUOTE], ESCAPE, rest);
  }

  lemma FourParts(a: string, b: string, c: string, d: string, e: string, f: string)
    ensures ((a + b) + (c + (d + e))) + f == a + (b + (c + (d + (e + f))))
  {
  }

  lemma ParseInParentheses(text: string, c: Condition, tail: string)
    requires ParseCondition(text + (")" + tail)) == Ok(c, ")" + tail)
    ensures ParseMember("(" + (text + (")" + tail))) == Ok(c, tail)
  {
    Prefixed("(", text + (")" + tail));
    Prefixed(")", tail);
  }

  lemma CloseIsNotLinking(linking: string, tail: string)
    requires linking == AND || linking == OR
    ensures !StartsWith(linking + tail, CLOSE)
    ensures linking == OR ==> !StartsWith(linking + tail, AND)
  {
    NotPrefixed(linking + tail, CLOSE, 1);
    if linking == OR { NotPrefixed(linking + tail, AND, 1); }
  }

  // One step of ParseOthers each.

  lemma ParseNoOthers(linking: string, rest: string)
    requires linking != ""
    ensures ParseOthers(CLOSE + rest, linking) == Ok([], rest)
  {
    Prefixed(CLOSE, rest);
  }

  lemma ParseOneOther(linking: string, member: string, c: Condition, tail: string, others: seq<Condition>, rest: string)
    requires linking == AND || linking == OR
    requires ParseMember(member + tail) == Ok(c, tail) && ParseOthers(tail, linking) == Ok(others, rest)
    ensures ParseOthers(linking + (member + tail), linking) == Ok([c] + others, rest)
  {
    CloseIsNotLinking(linking, member + tail);
    Prefixed(linking, member + tail);
  }

  /** A compound of one member or of several. */
  lemma ParseCompound(linking: string, member: string, c: Condition, tail: string, others: seq<Condition>, rest: string)
    requires linking == AND || linking == OR
    requires ParseMember(member + tail) == Ok(c, tail) && ParseOthers(tail, linking) == Ok(others, rest)
    ensures ParseCondition(OPEN + (member + tail)) ==
              Ok(if others == [] || linking == AND then AllOf([c] + others) else AnyOf([c] + others), rest)
  {
    if StartsWith(tail, CLOSE) {
      ParseSingle(member, c, tail);
      assert others == [] && rest == tail[2..] && [c] + others == [c];
    } else {
      SomeOthers(tail, linking);
      ParseSeveral(linking, member, c, tail[|linking|..], others, rest);
    }
  }

  lemma SomeOthers(tail: string, linking: string)
    requires linking != "" && ParseOthers(tail, linking).Ok? && !StartsWith(tail, CLOSE)
    ensures StartsWith(tail, linking) && tail == linking + tail[|linking|..]
    ensures ParseOthers(tail, linking).value != []
  {
  }

  lemma ParseSingle(member: string, c: Condition, tail: string)
    requires ParseMember(member + tail) == Ok(c, tail) && StartsWith(tail, CLOSE)
    ensures ParseCondition(OPEN + (member + tail)) == Ok(AllOf([c]), tail[2..])
  {
    Prefixed(OPEN, member + tail);
  }

  lemma ParseSeveral(linking: string, member: string, c: Condition, tail: string, others: seq<Condition>, rest: string)
    requires linking == AND || linking == OR
    requires ParseMember(member + (linking + tail)) == Ok(c, linking + tail)
    requires ParseOthers(linking + tail, linking) == Ok(others, rest)
    ensures ParseCondition(OPEN + (member + (linking + tail))) ==
              Ok(if linking == AND then AllOf([c] + others) else AnyOf([c] + others), rest)
  {
    Prefixed(OPEN, member + (linking + tail));
    CloseIsNotLinking(linking, tail);
    Prefixed(linking, tail);
  }

  /** The text produced, whatever closing text follows it, reads as the compiled condition. */
  lemma {:induction false} TextParses(f: Filter, binds: Binds, prefix: Name, n: nat, rest: string)
    requires Compilable(f, prefix) && binds.Keys == Names(n) && Ends(rest)
    ensures ParseCondition(FilterToString(f, binds, prefix).0 + rest) == Ok(Compile(f, n, prefix), rest)
    decreases f, 2
  {
    match f {
      case Standard(property, value, flags) => LeafParses(f, binds, prefix, n, rest);
      case Intersection(filters) => CompoundParses(f, filters, AND, binds, prefix, n, rest);
      case Union(filters) => CompoundParses(f, filters, OR, binds, prefix, n, rest);
    }
  }

  lemma LeafParses(f: Filter, binds: Binds, prefix: Name, n: nat, rest: string)
    requires f.Standard? && Compilable(f, prefix) && binds.Keys == Names(n) && Ends(rest)
    ensures ParseCondition(FilterToString(f, binds, prefix).0 + rest) == Ok(Compile(f, n, prefix), rest)
  {
    var column := Column(prefix, f.property.text);
    if HasFlag(f.flags, MATCH_CONTAINS) {
      LikeText(column, f.value.text, rest);
      ParseLike(column, Anywhere(f.value.text), rest);
    } else {
      BindNew(binds, n, f.value);
      StandardText(f, binds, prefix);
      BindNameHasNoParenthesis(n);
      Reassociate(column, if HasFlag(f.flags, MATCH_NOT_EQUALS) then "!=" else "=", BindName(n), rest);
      if HasFlag(f.flags, MATCH_NOT_EQUALS) {
        ParseDiffers(column, BindName(n), rest);
      } else {
        ParseEquals(column, BindName(n), rest);
      }
    }
    NotPrefixed(FilterToString(f, binds, prefix).0 + rest, OPEN, 0);
  }

  /** A member of a compound, in its parentheses. */
  lemma {:induction false} MemberParses(f: Filter, binds: Binds, prefix: Name, n: nat, tail: string)
    requires Compilable(f, prefix) && binds.Keys == Names(n)
    ensures ParseMember("(" + FilterToString(f, binds, prefix).0 + ")" + tail) == Ok(Compile(f, n, prefix), tail)
    decreases f, 3
  {
    var text := FilterToString(f, binds, prefix).0;
    InParentheses(text, tail);
    TextParses(f, binds, prefix, n, ")" + tail);
    ParseInParentheses(text, Compile(f, n, prefix), tail);
  }

  lemma InParentheses(text: string, tail: string)
    ensures "(" + text + ")" + tail == "(" + (text + (")" + tail))
    ensures Ends(")" + tail)
  {
  }

  lemma MembersText(filters: seq<Filter>, linking: string, binds: Binds, prefix: Name)
    requires filters != []
    ensures var (first, after) := FilterToString(filters[0], binds, prefix);
            var (text, last) := MembersToString(filters, linking, binds, prefix);
            text == if |filters| == 1 then "(" + first + ")"
                    else "(" + first + ")" + linking + MembersToString(filters[1..], linking, after, prefix).0
  {
  }

  lemma Reassociate(a: string, b: string, c: string, d: string)
    ensures (a + b + c) + d == a + (b + (c + d))
  {
  }

  lemma CompoundText(f: Filter, filters: seq<Filter>, linking: string, binds: Binds, prefix: Name, rest: string)
    requires filters != []
    requires (f == Intersection(filters) && linking == AND) || (f == Union(filters) && linking == OR)
    ensures FilterToString(f, binds, prefix).0 + rest ==
              OPEN + (MembersToString(filters, linking, binds, prefix).0 + (CLOSE + rest))
  {
    var text := MembersToString(filters, linking, binds, prefix).0;
    assert FilterToString(f, binds, prefix).0 == OPEN + text + CLOSE;
    Reassociate("", OPEN, text, CLOSE);
  }

  /** What follows the first member in the text of a compound. */
  function AfterFirst(filters: seq<Filter>, linking: string, binds: Binds, prefix: Name, rest: string): string
    requires filters != []
  {
    if |filters| == 1 then CLOSE + rest
    else
      var after := FilterToString(filters[0], binds, prefix).1;
      linking + (MembersToString(filters[1..], linking, after, prefix).0 + (CLOSE + rest))
  }

  lemma MembersFirst(filters: seq<Filter>, linking: string, binds: Binds, prefix: Name, rest: string)
    requires filters != []
    ensures MembersToString(filters, linking, binds, prefix).0 + (CLOSE + rest)
         == ("(" + FilterToString(filters[0], binds, prefix).0 + ")")
            + AfterFirst(filters, linking, binds, prefix, rest)
  {
    var (first, after) := FilterToString(filters[0], binds, prefix);
    MembersText(filters, linking, binds, prefix);
    if |filters| > 1 {
      Reassociate("(" + first + ")", linking, MembersToString(filters[1..], linking, after, prefix).0, CLOSE + rest);
    }
  }

  lemma {:induction false} CompoundParses(f: Filter, filters: seq<Filter>, linking: string, binds: Binds, prefix: Name,
                                          n: nat, rest: string)
    requires Compilable(f, prefix) && binds.Keys == Names(n)
    requires (f == Intersection(filters) && linking == AND) || (f == Union(filters) && linking == OR)
    ensures ParseCondition(FilterToString(f, binds, prefix).0 + rest) == Ok(Compile(f, n, prefix), rest)
    decreases f, 1
  {
    var member := "(" + FilterToString(filters[0], binds, prefix).0 + ")";
    var tail := AfterFirst(filters, linking, binds, prefix, rest);
    CompoundText(f, filters, linking, binds, prefix, rest);
    MembersFirst(filters, linking, binds, prefix, rest);
    MemberParses(filters[0], binds, prefix, n, tail);
    RestParses(filters, linking, binds, prefix, n, rest);
    ParseCompound(linking, member, Compile(filters[0], n, prefix), tail, RestOf(filters, n, prefix), rest);
  }

  /** The conditions of the members after the first. */
  function RestOf(filters: seq<Filter>, n: nat, prefix: Name): seq<Condition>
    requires filters != [] && forall i :: 0 <= i < |filters| ==> Compilable(filters[i], prefix)
  {
    CompileAll(filters[1..], n + |Values(filters[0])|, prefix)
  }

  lemma {:induction false} RestParses(filters: seq<Filter>, linking: string, binds: Binds, prefix: Name, n: nat,
                                      rest: string)
    requires filters != [] && (forall i :: 0 <= i < |filters| ==> Compilable(filters[i], prefix))
    requires binds.Keys == Names(n) && (linking == AND || linking == OR)
    ensures ParseOthers(AfterFirst(filters, linking, binds, prefix, rest), linking)
         == Ok(RestOf(filters, n, prefix), rest)
    decreases filters, 0
  {
    if |filters| == 1 {
      ParseNoOthers(linking, rest);
    } else {
      var after := FilterToString(filters[0], binds, prefix).1;
      BindsLeaves(filters[0], binds, prefix, n);
      OthersParse(filters[1..], linking, after, prefix, n + |Values(filters[0])|, rest);
    }
  }

  /** The members from one on, each after the linking word, up to the closing parenthesis. */
  lemma {:induction false} OthersParse(filters: seq<Filter>, linking: string, binds: Binds, prefix: Name, n: nat,
                                       rest: string)
    requires filters != [] && (forall i :: 0 <= i < |filters| ==> Compilable(filters[i], prefix))
    requires binds.Keys == Names(n) && (linking == AND || linking == OR)
    ensures ParseOthers(linking + (MembersToString(filters, linking, binds, prefix).0 + (CLOSE + rest)), linking)
         == Ok(CompileAll(filters, n, prefix), rest)
    decreases filters, 1
  {
    var member := "(" + FilterToString(filters[0], binds, prefix).0 + ")";
    var tail := AfterFirst(filters, linking, binds, prefix, rest);
    MembersFirst(filters, linking, binds, prefix, rest);
    MemberParses(filters[0], binds, prefix, n, tail);
    RestParses(filters, linking, binds, prefix, n, rest);
    ParseOneOther(linking, member, Compile(filters[0], n, prefix), tail, RestOf(filters, n, prefix), rest);
  }

  // ---------------------------------------------------------------- text that is no condition

  /** Wherever the tree has a leaf to compile, the column name is plain. */
  predicate PlainColumns(f: Filter, prefix: Name) {
    match f
    case Standard(property, value, _) =>
      !IsEmpty(property) && !IsNull(value) ==> PlainColumn(Column(prefix, property.text))
    case Intersection(filters) => forall i :: 0 <= i < |filters| ==> PlainColumns(filters[i], prefix)
    case Union(filters) => forall i :: 0 <= i < |filters| ==> PlainColumns(filters[i], prefix)
  }

  /** A leaf without a property or a value, or a compound without members: it compiles to nothing. */
  predicate Hollow(f: Filter) {
    match f
    case Standard(property, value, _) => IsEmpty(property) || IsNull(value)
    case Intersection(filters) => filters == []
    case Union(filters) => filters == []
  }

  lemma NothingFails(rest: string)
    requires Ends(rest)
    ensures ParseCondition(rest).Failed?
  {
    if rest != "" { NotPrefixed(rest, OPEN, 0); }
  }

  lemma MemberFails(text: string, tail: string)
    requires ParseCondition(text + (")" + tail)).Failed?
    ensures ParseMember("(" + text + ")" + tail).Failed?
  {
    InParentheses(text, tail);
    Prefixed("(", text + (")" + tail));
  }

  lemma FirstFails(member: string, tail: string)
    requires ParseMember(member + tail).Failed?
    ensures ParseCondition(OPEN + (member + tail)).Failed?
  {
    Prefixed(OPEN, member + tail);
  }

  lemma LaterFails(linking: string, member: string, c: Condition, tail: string)
    requires linking == AND || linking == OR
    requires ParseMember(member + (linking + tail)) == Ok(c, linking + tail)
    requires ParseOthers(linking + tail, linking).Failed?
    ensures ParseCondition(OPEN + (member + (linking + tail))).Failed?
  {
    Prefixed(OPEN, member + (linking + tail));
    CloseIsNotLinking(linking, tail);
    Prefixed(linking, tail);
  }

  lemma OtherFails(linking: string, member: string, tail: string)
    requires linking == AND || linking == OR
    requires ParseMember(member + tail).Failed?
             || (ParseMember(member + tail).Ok? && ParseMember(member + tail).rest == tail
                 && ParseOthers(tail, linking).Failed?)
    ensures ParseOthers(linking + (member + tail), linking).Failed?
  {
    CloseIsNotLinking(linking, member + tail);
    Prefixed(linking, member + tail);
  }

  /** A tree that is not compilable produces text that does not read as a condition, whatever closes it. */
  lemma {:induction false} NotCompilableFails(f: Filter, binds: Binds, prefix: Name, n: nat, rest: string)
    requires PlainColumns(f, prefix) && !Compilable(f, prefix) && binds.Keys == Names(n) && Ends(rest)
    ensures ParseCondition(FilterToString(f, binds, prefix).0 + rest).Failed?
    decreases f, 1
  {
    if Hollow(f) {
      assert FilterToString(f, binds, prefix).0 + rest == rest;
      NothingFails(rest);
    } else {
      var linking := if f.Intersection? then AND else OR;
      CompoundText(f, f.filters, linking, binds, prefix, rest);
      CompoundFails(f.filters, linking, binds, prefix, n, rest);
    }
  }

  lemma {:induction false} FirstMemberFails(f: Filter, binds: Binds, prefix: Name, n: nat, tail: string)
    requires PlainColumns(f, prefix) && !Compilable(f, prefix) && binds.Keys == Names(n)
    ensures ParseMember(("(" + FilterToString(f, binds, prefix).0 + ")") + tail).Failed?
    decreases f, 2
  {
    var text := FilterToString(f, binds, prefix).0;
    InParentheses(text, tail);
    NotCompilableFails(f, binds, prefix, n, ")" + tail);
    MemberFails(text, tail);
  }

  lemma {:induction false} CompoundFails(filters: seq<Filter>, linking: string, binds: Binds, prefix: Name, n: nat,
                                         rest: string)
    requires (forall i :: 0 <= i < |filters| ==> PlainColumns(filters[i], prefix)) && binds.Keys == Names(n)
    requires exists i :: 0 <= i < |filters| && !Compilable(filters[i], prefix)
    requires linking == AND || linking == OR
    ensures ParseCondition(OPEN + (MembersToString(filters, linking, binds, prefix).0 + (CLOSE + rest))).Failed?
    decreases filters, 1
  {
    var (first, after) := FilterToString(filters[0], binds, prefix);
    var tail := AfterFirst(filters, linking, binds, prefix, rest);
    MembersFirst(filters, linking, binds, prefix, rest);
    if !Compilable(filters[0], prefix) {
      FirstMemberFails(filters[0], binds, prefix, n, tail);
      FirstFails("(" + first + ")", tail);
    } else {
      MemberParses(filters[0], binds, prefix, n, tail);
      BindsLeaves(filters[0], binds, prefix, n);
      BadIsLater(filters, prefix);
      OthersFail(filters[1..], linking, after, prefix, n + |Values(filters[0])|, rest);
      LaterFails(linking, "(" + first + ")", Compile(filters[0], n, prefix), tail[|linking|..]);
    }
  }

  lemma BadIsLater(filters: seq<Filter>, prefix: Name)
    requires exists i :: 0 <= i < |filters| && !Compilable(filters[i], prefix)
    requires Compilable(filters[0], prefix)
    ensures |filters| > 1 && exists i :: 0 <= i < |filters[1..]| && !Compilable(filters[1..][i], prefix)
  {
    var i :| 0 <= i < |filters| && !Compilable(filters[i], prefix);
    assert filters[1..][i - 1] == filters[i];
  }

  lemma {:induction false} OthersFail(filters: seq<Filter>, linking: string, binds: Binds, prefix: Name, n: nat,
                                      rest: string)
    requires (forall i :: 0 <= i < |filters| ==> PlainColumns(filters[i], prefix)) && binds.Keys == Names(n)
    requires exists i :: 0 <= i < |filters| && !Compilable(filters[i], prefix)
    requires linking == AND || linking == OR
    ensures var text := MembersToString(filters, linking, binds, prefix).0;
            ParseOthers(linking + (text + (CLOSE + rest)), linking).Failed?
    decreases filters, 0
  {
    var (first, after) := FilterToString(filters[0], binds, prefix);
    var tail := AfterFirst(filters, linking, binds, prefix, rest);
    MembersFirst(filters, linking, binds, prefix, rest);
    if !Compilable(filters[0], prefix) {
      FirstMemberFails(filters[0], binds, prefix, n, tail);
    } else {
      MemberParses(filters[0], binds, prefix, n, tail);
      BindsLeaves(filters[0], binds, prefix, n);
      BadIsLater(filters, prefix);
      OthersFail(filters[1..], linking, after, prefix, n + |Values(filters[0])|, rest);
    }
    OtherFails(linking, "(" + first + ")", tail);
  }

  /**
   * The text produced for a filter reads as a condition exactly if the tree has no hollow part. Only a tree that is
   * hollow as a whole produces no text, which the queries take for no condition.
   */
  lemma ParsesExactly(f: Filter, prefix: Name)
    requires PlainColumns(f, prefix)
    ensures var text := FilterToString(f, map[], prefix).0;
            var parsed := ParseCondition(text);
            && (parsed.Ok? && parsed.rest == "" <==> Compilable(f, prefix))
            && (text == "" <==> Hollow(f))
  {
    var text := FilterToString(f, map[], prefix).0;
    assert Names(0) == {};
    assert text + "" == text;
    if Compilable(f, prefix) {
      TextParses(f, map[], prefix, 0, "");
    } else {
      NotCompilableFails(f, map[], prefix, 0, "");
    }
  }

  /** A valid intersection of nothing but an invalid filter produces "( () )", which is no condition. */
  lemma HollowMemberDoesNotParse()
    ensures var f := Intersection([DEFAULT_FILTER]);
            && IsValid(f) && FilterToString(f, map[], NullName).0 != ""
            && !ParseCondition(FilterToString(f, map[], NullName).0).Ok?
  {
    var f := Intersection([DEFAULT_FILTER]);
    assert f.filters[0] == DEFAULT_FILTER && !Compilable(f, NullName);
    assert Names(0) == {};
    assert FilterToString(f, map[], NullName).0 + "" == FilterToString(f, map[], NullName).0;
    NotCompilableFails(f, map[], NullName, 0, "");
  }

  // ---------------------------------------------------------------- what the condition means

  /** The row has every property the filter names, NULL or not, and the columns of the table show it. */
  ghost predicate RowFits(f: Filter, prefix: Name, row: Row, columns: Row) {
    forall p :: p in Mentioned(f) ==> p in row && ShownIn(columns, prefix, p, row[p])
  }

  predicate ShownIn(columns: Row, prefix: Name, p: string, value: Variant) {
    match prefix
    case NullName => p in columns && columns[p] == value
    case Name(table) => table + "." + p in columns && columns[table + "." + p] == value
  }

  /**
   * What a filter selects in SQL's terms, said about the filter tree and the row only: NULL makes a leaf unknown,
   * MatchContains looks for the value in the text up to case folding, and the other leaves compare.
   */
  function Selected(fold: char -> char, f: Filter, row: Row): Truth {
    match f
    case Standard(property, value, flags) =>
      if property.NullName? || property.text !in row || IsNull(row[property.text]) || IsNull(value) then Unknown
      else if HasFlag(flags, MATCH_CONTAINS) then Of(ContainsText(fold, row[property.text].text, value.text))
      else Of((row[property.text] == value) != HasFlag(flags, MATCH_NOT_EQUALS))
    case Intersection(filters) =>
      Both(seq(|filters|, i requires 0 <= i < |filters| => Selected(fold, filters[i], row)))
    case Union(filters) =>
      Either(seq(|filters|, i requires 0 <= i < |filters| => Selected(fold, filters[i], row)))
  }

  lemma {:induction false} CompileMeans(fold: char -> char, f: Filter, n: nat, prefix: Name, row: Row, columns: Row,
                                        binds: Binds)
    requires Compilable(f, prefix) && Holding(binds, n, Values(f)) && RowFits(f, prefix, row, columns)
    ensures Eval(fold, Compile(f, n, prefix), columns, binds) == Selected(fold, f, row)
    decreases f, 1
  {
    match f {
      case Standard(property, value, flags) =>
        assert property.text in Mentioned(f);
        if HasFlag(flags, MATCH_CONTAINS) {
          if !IsNull(row[property.text]) { AnywhereMeans(fold, value.text, row[property.text].text); }
        } else {
          assert Bound(binds, n + 0, Values(f)[0]);
        }
      case Intersection(filters) =>
        FitsMembers(f, filters, prefix, row, columns);
        CompileAllMeans(fold, filters, n, prefix, row, columns, binds);
        SameAnswers(fold, CompileAll(filters, n, prefix), filters, row, columns, binds);
      case Union(filters) =>
        FitsMembers(f, filters, prefix, row, columns);
        CompileAllMeans(fold, filters, n, prefix, row, columns, binds);
        SameAnswers(fold, CompileAll(filters, n, prefix), filters, row, columns, binds);
        BothOfOne(Answers(fold, filters, row));
    }
  }

  function Answers(fold: char -> char, filters: seq<Filter>, row: Row): seq<Truth> {
    seq(|filters|, i requires 0 <= i < |filters| => Selected(fold, filters[i], row))
  }

  lemma SameAnswers(fold: char -> char, cs: seq<Condition>, filters: seq<Filter>, row: Row, columns: Row, binds: Binds)
    requires |cs| == |filters|
    requires forall i :: 0 <= i < |cs| ==> Eval(fold, cs[i], columns, binds) == Selected(fold, filters[i], row)
    ensures Eval(fold, AllOf(cs), columns, binds) == Both(Answers(fold, filters, row))
    ensures Eval(fold, AnyOf(cs), columns, binds) == Either(Answers(fold, filters, row))
  {
    assert seq(|cs|, i requires 0 <= i < |cs| => Eval(fold, cs[i], columns, binds)) == Answers(fold, filters, row);
  }

  lemma BothOfOne(answers: seq<Truth>)
    ensures |answers| == 1 ==> Both(answers) == Either(answers)
  {
    if |answers| == 1 {
      assert answers == [answers[0]];
      match answers[0] {
        case True => assert False !in answers && Unknown !in answers;
        case False => assert True !in answers && Unknown !in answers;
        case Unknown => assert True !in answers && False !in answers;
      }
    }
  }

  /** The pattern of a LIKE leaf looks for the value. */
  lemma AnywhereMeans(fold: char -> char, value: string, text: string)
    ensures var pattern := ReadPattern(Anywhere(value));
            pattern.Pattern? && (LikeMatch(fold, pattern.tokens, text) <==> ContainsText(fold, text, value))
  {
    PatternOf(value);
    PatternMatches(fold, value, text);
  }

  lemma FitsMembers(f: Filter, filters: seq<Filter>, prefix: Name, row: Row, columns: Row)
    requires (f == Intersection(filters) || f == Union(filters)) && RowFits(f, prefix, row, columns)
    ensures forall i :: 0 <= i < |filters| ==> RowFits(filters[i], prefix, row, columns)
  {
    forall i, p | 0 <= i < |filters| && p in Mentioned(filters[i]) ensures p in Mentioned(f) {
    }
  }

  lemma {:induction false} CompileAllMeans(fold: char -> char, filters: seq<Filter>, n: nat, prefix: Name, row: Row,
                                           columns: Row, binds: Binds)
    requires forall i :: 0 <= i < |filters| ==> Compilable(filters[i], prefix)
    requires forall i :: 0 <= i < |filters| ==> RowFits(filters[i], prefix, row, columns)
    requires Holding(binds, n, AllValues(filters))
    ensures var cs := CompileAll(filters, n, prefix);
            forall i :: 0 <= i < |filters| ==> Eval(fold, cs[i], columns, binds) == Selected(fold, filters[i], row)
    decreases filters, 0
  {
    if filters != [] {
      var values := Values(filters[0]);
      HoldingParts(binds, n, values, AllValues(filters[1..]));
      CompileMeans(fold, filters[0], n, prefix, row, columns, binds);
      CompileAllMeans(fold, filters[1..], n + |values|, prefix, row, columns, binds);
      var cs := CompileAll(filters, n, prefix);
      assert forall i :: 0 < i < |filters| ==> cs[i] == cs[1..][i - 1] && filters[i] == filters[1..][i - 1];
    }
  }

  lemma HoldingParts(binds: Binds, n: nat, values1: seq<Variant>, values2: seq<Variant>)
    requires Holding(binds, n, values1 + values2)
    ensures Holding(binds, n, values1) && Holding(binds, n + |values1|, values2)
  {
    var values := values1 + values2;
    forall i | 0 <= i < |values1| ensures Bound(binds, n + i, values1[i]) {
      assert values[i] == values1[i];
    }
    forall i | 0 <= i < |values2| ensures Bound(binds, n + |values1| + i, values2[i]) {
      assert Bound(binds, n + (|values1| + i), values[|values1| + i]);
    }
  }

  // ---------------------------------------------------------------- placeholders

  lemma {:induction false} PlaceholdersAreBound(f: Filter, n: nat, prefix: Name, binds: Binds)
    requires Compilable(f, prefix) && Holding(binds, n, Values(f))
    ensures Placeholders(Compile(f, n, prefix)) <= binds.Keys
    decreases f, 1
  {
    match f {
      case Standard(_, _, flags) =>
        if !HasFlag(flags, MATCH_CONTAINS) { assert Bound(binds, n + 0, Values(f)[0]); }
      case Intersection(filters) => AllPlaceholdersAreBound(filters, n, prefix, binds);
      case Union(filters) => AllPlaceholdersAreBound(filters, n, prefix, binds);
    }
  }

  lemma {:induction false} AllPlaceholdersAreBound(filters: seq<Filter>, n: nat, prefix: Name, binds: Binds)
    requires forall i :: 0 <= i < |filters| ==> Compilable(filters[i], prefix)
    requires Holding(binds, n, AllValues(filters))
    ensures forall i :: 0 <= i < |filters| ==> Placeholders(CompileAll(filters, n, prefix)[i]) <= binds.Keys
    decreases filters, 0
  {
    if filters != [] {
      var values := Values(filters[0]);
      HoldingParts(binds, n, values, AllValues(filters[1..]));
      PlaceholdersAreBound(filters[0], n, prefix, binds);
      AllPlaceholdersAreBound(filters[1..], n + |values|, prefix, binds);
      var cs := CompileAll(filters, n, prefix);
      assert forall i :: 0 < i < |filters| ==> cs[i] == cs[1..][i - 1];
    }
  }

  // ---------------------------------------------------------------- the main results

  /**
   * The text and the bindings produced for a filter say, to a reader of SQL conditions, exactly what the filter
   * selects: the text reads back as one condition with nothing left over, every placeholder in it is bound, there is
   * one binding for each leaf that compares, and on every row that has the named properties, NULL or not, the
   * condition evaluates to what the tree selects.
   */
  lemma CompiledFilterSelects(fold: char -> char, f: Filter, prefix: Name, row: Row, columns: Row)
    requires Compilable(f, prefix) && RowFits(f, prefix, row, columns)
    ensures var (text, binds) := FilterToString(f, map[], prefix);
            var parsed := ParseCondition(text);
            && parsed.Ok? && parsed.rest == ""
            && Placeholders(parsed.value) <= binds.Keys
            && |binds| == |Values(f)|
            && Eval(fold, parsed.value, columns, binds) == Selected(fold, f, row)
  {
    var (text, binds) := FilterToString(f, map[], prefix);
    assert Names(0) == {};
    BindsLeaves(f, map[], prefix, 0);
    TextParses(f, map[], prefix, 0, "");
    assert text + "" == text;
    CompileMeans(fold, f, 0, prefix, row, columns, binds);
    PlaceholdersAreBound(f, 0, prefix, binds);
    NamesCount(|Values(f)|);
    assert |binds| == |binds.Keys|;
  }

  /** No leaf asks for MatchContains. */
  predicate ComparesOnly(f: Filter) {
    match f
    case Standard(_, _, flags) => !HasFlag(flags, MATCH_CONTAINS)
    case Intersection(filters) => forall i :: 0 <= i < |filters| ==> ComparesOnly(filters[i])
    case Union(filters) => forall i :: 0 <= i < |filters| ==> ComparesOnly(filters[i])
  }

  /**
   * Where a leaf names a property that is NULL, NULL is not what it asks for: not "not equals", unless both are no
   * text, and not "equals" if they are.
   */
  predicate NullSafe(f: Filter, row: Row) {
    match f
    case Standard(property, value, flags) =>
      !property.NullName? && property.text in row && IsNull(row[property.text]) ==>
        SameValue(row[property.text], value) == HasFlag(flags, MATCH_NOT_EQUALS)
    case Intersection(filters) => forall i :: 0 <= i < |filters| ==> NullSafe(filters[i], row)
    case Union(filters) => forall i :: 0 <= i < |filters| ==> NullSafe(filters[i], row)
  }

  ghost predicate HasRow(f: Filter, row: Row) {
    forall p :: p in Mentioned(f) ==> p in row
  }

  /** What is selected always matches, and where NULL is never what a leaf asks for, what matches is selected. */
  lemma {:induction false} SelectedAgainstMatch(fold: char -> char, f: Filter, prefix: Name, row: Row)
    requires Compilable(f, prefix) && ComparesOnly(f) && HasRow(f, row)
    ensures Selected(fold, f, row) == True ==> Match(f, row)
    ensures NullSafe(f, row) && Match(f, row) ==> Selected(fold, f, row) == True
    decreases f
  {
    if f.Standard? {
      assert f.property.text in Mentioned(f);
    } else {
      forall i | 0 <= i < |f.filters| ensures HasRow(f.filters[i], row) {
        forall p | p in Mentioned(f.filters[i]) ensures p in Mentioned(f) {
        }
      }
      var answers := Answers(fold, f.filters, row);
      forall i | 0 <= i < |f.filters|
        ensures answers[i] == True ==> Match(f.filters[i], row)
        ensures NullSafe(f.filters[i], row) && Match(f.filters[i], row) ==> answers[i] == True
      {
        SelectedAgainstMatch(fold, f.filters[i], prefix, row);
      }
      if f.Intersection? { AllTrue(answers); } else { SomeTrue(answers); }
    }
  }

  lemma AllTrue(answers: seq<Truth>)
    ensures Both(answers) == True <==> forall i :: 0 <= i < |answers| ==> answers[i] == True
    ensures Both(answers) == False <==> exists i :: 0 <= i < |answers| && answers[i] == False
  {
    assert forall i :: 0 <= i < |answers| ==> answers[i] in answers;
  }

  lemma SomeTrue(answers: seq<Truth>)
    ensures Either(answers) == True <==> exists i :: 0 <= i < |answers| && answers[i] == True
    ensures Either(answers) == False <==> forall i :: 0 <= i < |answers| ==> answers[i] == False
  {
    assert forall i :: 0 <= i < |answers| ==> answers[i] in answers;
  }

  /**
   * Of a filter without MatchContains the condition selects only rows that match, and all of them if NULL is never
   * what a leaf asks for.
   */
  lemma SelectedRowsMatch(fold: char -> char, f: Filter, prefix: Name, row: Row, columns: Row)
    requires Compilable(f, prefix) && RowFits(f, prefix, row, columns) && ComparesOnly(f)
    ensures var (text, binds) := FilterToString(f, map[], prefix);
            var parsed := ParseCondition(text);
            && parsed.Ok? && parsed.rest == ""
            && (Eval(fold, parsed.value, columns, binds) == True ==> Match(f, row))
            && (NullSafe(f, row) && Match(f, row) ==> Eval(fold, parsed.value, columns, binds) == True)
  {
    CompiledFilterSelects(fold, f, prefix, row, columns);
    SelectedAgainstMatch(fold, f, prefix, row);
  }

  /** Without NULL the condition is true or false as the filter matches or not. */
  lemma CompiledFilterMeansMatch(fold: char -> char, f: Filter, prefix: Name, row: Row, columns: Row)
    requires Compilable(f, prefix) && RowFits(f, prefix, row, columns) && ComparesOnly(f)
    requires forall p :: p in Mentioned(f) ==> !IsNull(row[p])
    ensures var (text, binds) := FilterToString(f, map[], prefix);
            var parsed := ParseCondition(text);
            && parsed.Ok? && parsed.rest == ""
            && Eval(fold, parsed.value, columns, binds) == Of(Match(f, row))
  {
    CompiledFilterSelects(fold, f, prefix, row, columns);
    SelectedAgainstMatch(fold, f, prefix, row);
    NeverUnknown(fold, f, prefix, row);
  }

  /**
   * The client matches with the filter it was given, the server with the one rebuilt from its properties: where
   * nothing that is lost on the way matters, the condition compiled from the rebuilt one says what the original
   * matches.
   */
  lemma RebuiltCompiledMeansMatch(fold: char -> char, f: Filter, prefix: Name, row: Row, columns: Row)
    requires AlikeOn(f, row)
    requires var g := Prune(f);
             && Compilable(g, prefix) && RowFits(g, prefix, row, columns) && ComparesOnly(g)
             && forall p :: p in Mentioned(g) ==> !IsNull(row[p])
    ensures var (text, binds) := FilterToString(FromProperties(Properties(f)), map[], prefix);
            var parsed := ParseCondition(text);
            && parsed.Ok? && parsed.rest == ""
            && Eval(fold, parsed.value, columns, binds) == Of(Match(f, row))
  {
    RebuiltIsPruned(f);
    RebuiltMatchesAlike(f, row);
    CompiledFilterMeansMatch(fold, Prune(f), prefix, row, columns);
  }

  lemma {:induction false} NeverUnknown(fold: char -> char, f: Filter, prefix: Name, row: Row)
    requires Compilable(f, prefix) && forall p :: p in Mentioned(f) ==> p in row && !IsNull(row[p])
    ensures Selected(fold, f, row) != Unknown && NullSafe(f, row)
    decreases f
  {
    if f.Standard? {
      assert f.property.text in Mentioned(f);
    } else {
      forall i | 0 <= i < |f.filters|
        ensures Answers(fold, f.filters, row)[i] != Unknown && NullSafe(f.filters[i], row)
      {
        forall p | p in Mentioned(f.filters[i]) ensures p in Mentioned(f) {
        }
        NeverUnknown(fold, f.filters[i], prefix, row);
      }
    }
  }

  /** On a leaf the two part company exactly where NULL is what it asks for: the row matches and is not selected. */
  lemma NullColumnsDifferExactly(fold: char -> char, f: Filter, prefix: Name, row: Row, columns: Row)
    requires f.Standard? && Compilable(f, prefix) && RowFits(f, prefix, row, columns) && ComparesOnly(f)
    ensures var (text, binds) := FilterToString(f, map[], prefix);
            var parsed := ParseCondition(text);
            && parsed.Ok? && parsed.rest == ""
            && ((Eval(fold, parsed.value, columns, binds) == True) == Match(f, row) <==> NullSafe(f, row))
  {
    CompiledFilterSelects(fold, f, prefix, row, columns);
    assert f.property.text in Mentioned(f);
  }

  /**
   * A leaf with MatchContains still compares when it is matched: the two agree exactly on rows whose text is the
   * value or does not contain it.
   */
  lemma ContainsDiffersExactly(fold: char -> char, f: Filter, prefix: Name, row: Row, columns: Row)
    requires f.Standard? && Compilable(f, prefix) && RowFits(f, prefix, row, columns)
    requires HasFlag(f.flags, MATCH_CONTAINS) && !HasFlag(f.flags, MATCH_NOT_EQUALS) && !IsNull(row[f.property.text])
    ensures var (text, binds) := FilterToString(f, map[], prefix);
            var parsed := ParseCondition(text);
            && parsed.Ok? && parsed.rest == ""
            && ((Eval(fold, parsed.value, columns, binds) == True) == Match(f, row) <==>
                  row[f.property.text] == f.value || !ContainsText(fold, row[f.property.text].text, f.value.text))
  {
    CompiledFilterSelects(fold, f, prefix, row, columns);
    assert f.property.text in Mentioned(f);
    if row[f.property.text] == f.value { assert At(fold, f.value.text, f.value.text, 0); }
  }

  /** A row whose property is NULL is not equal and not "not equal" to anything in SQL, and matches one of the two. */
  lemma NullIsNotSelected(fold: char -> char, property: string, value: string)
    requires property != ""
    ensures var flags := if value == "" then MATCH_CASE_SENSITIVE else MATCH_NOT_EQUALS;
            var f := Standard(Name(property), Value(value), flags);
            var row: Row := map[property := NullOf(TEXT)];
            Selected(fold, f, row) == Unknown && Match(f, row)
  {
  }

  /** A longer text that contains the value is selected by a MatchContains leaf, and does not match it. */
  lemma ContainedIsSelected(fold: char -> char, property: string, value: string, more: string)
    requires property != "" && more != ""
    ensures var f := Standard(Name(property), Value(value), MATCH_CONTAINS);
            var row: Row := map[property := Value(value + more)];
            Selected(fold, f, row) == True && !Match(f, row)
  {
    assert At(fold, value + more, value, 0);
    assert |value + more| != |value|;
  }
}
