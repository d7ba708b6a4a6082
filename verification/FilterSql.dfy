/** filterToString of the SQLite plugin: filters compiled to the text of an SQL condition with bound values. */
module FilterSql {
  import opened Filters
  import opened LikeEscaping

  type Binds = map<string, Variant>

  // ---------------------------------------------------------------- the compiler

  function Digit(d: nat): char
    requires d < 10
  {
    "0123456789"[d]
  }

  /** QString::number */
  function NumberText(n: nat): string {
    if n < 10 then [Digit(n)] else NumberText(n / 10) + [Digit(n % 10)]
  }

  const BIND_PREFIX := ":filterValue"

  function BindName(n: nat): string {
    BIND_PREFIX + NumberText(n)
  }

  /** A null prefix and an empty one are different. */
  function Column(prefix: Name, property: string): string {
    if prefix.NullName? then property else prefix.text + "." + property
  }

  const AND := " AND "
  const OR := " OR "
  const OPEN := "( "
  const CLOSE := " )"

  /** filterToString: the condition, and the bindings with those of the filter added. */
  function FilterToString(f: Filter, binds: Binds, prefix: Name): (string, Binds)
    decreases f, 1
  {
    match f
    case Intersection(filters) =>
      if filters == [] then ("", binds)
      else
        var (text, after) := MembersToString(filters, AND, binds, prefix);
        (OPEN + text + CLOSE, after)
    case Union(filters) =>
      if filters == [] then ("", binds)
      else
        var (text, after) := MembersToString(filters, OR, binds, prefix);
        (OPEN + text + CLOSE, after)
    case Standard(property, value, flags) =>
      if IsEmpty(property) || IsNull(value) then ("", binds)
      else
        var bindId := BindName(|binds|);
        var name := Column(prefix, property.text);
        if HasFlag(flags, MATCH_CONTAINS) then (LikeCondition(name, value.text), binds)
        else if HasFlag(flags, MATCH_NOT_EQUALS) then (name + "!=" + bindId, binds[bindId := value])
        else (name + "=" + bindId, binds[bindId := value])
  }

  function MembersToString(filters: seq<Filter>, linking: string, binds: Binds, prefix: Name): (string, Binds)
    decreases filters, 0
  {
    if filters == [] then ("", binds)
    else
      var (text, after) := FilterToString(filters[0], binds, prefix);
      if |filters| == 1 then ("(" + text + ")", after)
      else
        var (rest, last) := MembersToString(filters[1..], linking, after, prefix);
        ("(" + text + ")" + linking + rest, last)
  }

  method CompileFilter(f: Filter, binds: Binds, prefix: Name) returns (result: string, bindValues: Binds)
    ensures result == FilterToString(f, binds, prefix).0 && bindValues == FilterToString(f, binds, prefix).1
    decreases f, 1
  {
    result, bindValues := "", binds;
    match f {
      case Intersection(filters) =>
        if filters != [] {
          result, bindValues := CompileMembers(filters, AND, binds, prefix);
          result := OPEN + result + CLOSE;
        }
      case Union(filters) =>
        if filters != [] {
          result, bindValues := CompileMembers(filters, OR, binds, prefix);
          result := OPEN + result + CLOSE;
        }
      case Standard(property, value, flags) =>
        if IsEmpty(property) || IsNull(value) {
          return;
        }
        var bindId := BindName(|bindValues|);
        var propertyName := Column(prefix, property.text);
        if HasFlag(flags, MATCH_CONTAINS) {
          result := LikeCondition(propertyName, value.text);
        } else if HasFlag(flags, MATCH_NOT_EQUALS) {
          result := propertyName + "!=" + bindId;
          bindValues := bindValues[bindId := value];
        } else {
          result := propertyName + "=" + bindId;
          bindValues := bindValues[bindId := value];
        }
    }
  }

  /** The loop over the inner filters. */
  method CompileMembers(filters: seq<Filter>, linking: string, binds: Binds, prefix: Name)
    returns (result: string, bindValues: Binds)
    requires filters != []
    ensures result == MembersToString(filters, linking, binds, prefix).0
    ensures bindValues == MembersToString(filters, linking, binds, prefix).1
    decreases filters, 0
  {
    result, bindValues := "", binds;
    ghost var whole := MembersToString(filters, linking, binds, prefix);
    assert filters[0..] == filters;
    for i := 0 to |filters|
      invariant whole.0 == result + MembersToString(filters[i..], linking, bindValues, prefix).0
      invariant whole.1 == MembersToString(filters[i..], linking, bindValues, prefix).1
    {
      var inner, after := CompileFilter(filters[i], bindValues, prefix);
      ghost var rest := filters[i + 1..];
      assert filters[i..][1..] == rest && filters[i..][0] == filters[i];
      ghost var said, more := result, MembersToString(rest, linking, after, prefix).0;
      bindValues := after;
      result := result + ("(" + inner + ")");
      if i != |filters| - 1 {
        result := result + linking;
        assert said + ("(" + inner + ")" + linking + more) == said + ("(" + inner + ")") + linking + more;
      } else {
        assert rest == [] && more == "" && result + more == result;
      }
    }
  }

  // ---------------------------------------------------------------- SQL conditions

  /** A comparison with a bound value, a LIKE with the content of its literal, or a compound. */
  datatype Condition =
    | Compare(column: string, negated: bool, bind: string)
    | Like(column: string, content: string)
    | AllOf(conditions: seq<Condition>)
    | AnyOf(conditions: seq<Condition>)

  datatype Truth = True | False | Unknown

  function Of(b: bool): Truth {
    if b then True else False
  }

  /** AND over three-valued answers. */
  function Both(answers: seq<Truth>): Truth {
    if False in answers then False else if Unknown in answers then Unknown else True
  }

  /** OR over three-valued answers. */
  function Either(answers: seq<Truth>): Truth {
    if True in answers then True else if Unknown in answers then Unknown else False
  }

  /** Three-valued evaluation: comparing with NULL is unknown. fold is the case folding of LIKE. */
  function Eval(fold: char -> char, c: Condition, columns: Row, binds: Binds): Truth {
    match c
    case Compare(column, negated, bind) =>
      if column !in columns || bind !in binds || IsNull(columns[column]) || IsNull(binds[bind]) then Unknown
      else Of((columns[column] == binds[bind]) != negated)
    case Like(column, content) =>
      if column !in columns || IsNull(columns[column]) then Unknown
      else
        var pattern := ReadPattern(content);
        Of(pattern.Pattern? && LikeMatch(fold, pattern.tokens, columns[column].text))
    case AllOf(conditions) =>
      Both(seq(|conditions|, i requires 0 <= i < |conditions| => Eval(fold, conditions[i], columns, binds)))
    case AnyOf(conditions) =>
      Either(seq(|conditions|, i requires 0 <= i < |conditions| => Eval(fold, conditions[i], columns, binds)))
  }

  /** The placeholders of a condition. */
  function Placeholders(c: Condition): set<string> {
    match c
    case Compare(_, _, bind) => {bind}
    case Like(_, _) => {}
    case AllOf(conditions) => set i, b | 0 <= i < |conditions| && b in Placeholders(conditions[i]) :: b
    case AnyOf(conditions) => set i, b | 0 <= i < |conditions| && b in Placeholders(conditions[i]) :: b
  }

  // ---------------------------------------------------------------- reading the text back

  datatype Parsed<T> = Failed | Ok(value: T, rest: string)

  function StartsWith(s: string, p: string): bool {
    |p| <= |s| && s[..|p|] == p
  }

  /** How many characters come before the first of the stop characters. */
  function Span(s: string, stop: set<char>): (n: nat)
    ensures n <= |s|
  {
    if s == [] || s[0] in stop then 0 else 1 + Span(s[1..], stop)
  }

  function ParseCondition(s: string): (r: Parsed<Condition>)
    ensures r.Ok? ==> |r.rest| < |s|
    decreases |s|, 1
  {
    if StartsWith(s, "( ") then
      var first := ParseMember(s[2..]);
      if first.Failed? then Failed
      else if StartsWith(first.rest, " )") then Ok(AllOf([first.value]), first.rest[2..])
      else
        var linking := if StartsWith(first.rest, " AND ") then " AND " else " OR ";
        var others := ParseOthers(first.rest, linking);
        if others.Failed? then Failed
        else if linking == " AND " then Ok(AllOf([first.value] + others.value), others.rest)
        else Ok(AnyOf([first.value] + others.value), others.rest)
    else ParseLeaf(s)
  }

  /** What ends a column name. */
  const MARKS := {'=', '!', ' ', '(', ')'}

  /** A comparison, or a LIKE with its literal and the escape clause, after a column name that is not empty. */
  function ParseLeaf(s: string): (r: Parsed<Condition>)
    ensures r.Ok? ==> |r.rest| < |s|
  {
    var n := Span(s, MARKS);
    var operator := s[n..];
    if n == 0 then Failed
    else if StartsWith(operator, "=") then
      var m := Span(operator[1..], {')'});
      Ok(Compare(s[..n], false, operator[1..][..m]), operator[1..][m..])
    else if StartsWith(operator, "!=") then
      var m := Span(operator[2..], {')'});
      Ok(Compare(s[..n], true, operator[2..][..m]), operator[2..][m..])
    else if StartsWith(operator, " LIKE '") then
      var literal := ReadLiteral(operator[7..]);
      if literal.Literal? && StartsWith(literal.rest, " ESCAPE '\\'") then
        Ok(Like(s[..n], literal.content), literal.rest[11..])
      else Failed
    else Failed
  }

  /** A condition in parentheses. */
  function ParseMember(s: string): (r: Parsed<Condition>)
    ensures r.Ok? ==> |r.rest| < |s|
    decreases |s|, 0
  {
    if !StartsWith(s, "(") then Failed
    else
      var inner := ParseCondition(s[1..]);
      if inner.Ok? && StartsWith(inner.rest, ")") then Ok(inner.value, inner.rest[1..]) else Failed
  }

  /** The members after the first, and the closing parenthesis. */
  function ParseOthers(s: string, linking: string): (r: Parsed<seq<Condition>>)
    requires linking != ""
    ensures r.Ok? ==> |r.rest| < |s|
    decreases |s|, 0
  {
    if StartsWith(s, " )") then Ok([], s[2..])
    else if StartsWith(s, linking) then
      var next := ParseMember(s[|linking|..]);
      if next.Failed? then Failed
      else
        var others := ParseOthers(next.rest, linking);
        if others.Failed? then Failed else Ok([next.value] + others.value, others.rest)
    else Failed
  }
}
