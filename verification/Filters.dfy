/**
 * Filters: what they match, and how they travel as property maps (filter.cpp, intersectionfilter.cpp,
 * unionfilter.cpp).
 */
module Filters {

  /** QVariant: not valid at all, valid but null, or a value. */
  datatype Variant = Invalid | NullOf(kind: string) | Value(text: string)

  predicate IsNull(v: Variant) {
    !v.Value?
  }

  const TEXT := "string"

  /** A null text and an empty one. */
  predicate IsNoText(v: Variant) {
    v == NullOf(TEXT) || v == Value("")
  }

  /** QVariant's comparison, which does not tell a null text from an empty one. */
  predicate SameValue(a: Variant, b: Variant) {
    a == b || (IsNoText(a) && IsNoText(b))
  }

  /** QString, which tells a null string from an empty one. */
  datatype Name = NullName | Name(text: string)

  predicate IsEmpty(n: Name) {
    n.NullName? || n.text == ""
  }

  datatype Filter =
    | Standard(property: Name, value: Variant, flags: int)
    | Intersection(filters: seq<Filter>)
    | Union(filters: seq<Filter>)

  const MATCH_CASE_SENSITIVE := 0x01
  const MATCH_CONTAINS := 0x04
  const MATCH_NOT_EQUALS := 0x10

  predicate HasFlag(flags: int, flag: int)
    requires flag > 0
  {
    (flags / flag) % 2 == 1
  }

  const DEFAULT_FILTER := Standard(NullName, Invalid, MATCH_CASE_SENSITIVE)

  type Row = map<string, Variant>

  // ---------------------------------------------------------------- matching

  predicate Match(f: Filter, row: Row) {
    match f
    case Standard(property, value, flags) =>
      // a leaf that names nothing, has no value, or names a missing property matches
      IsEmpty(property) || value.Invalid? || property.text !in row ||
      SameValue(row[property.text], value) != HasFlag(flags, MATCH_NOT_EQUALS)
    case Intersection(filters) => forall i :: 0 <= i < |filters| ==> Match(filters[i], row)
    case Union(filters) => filters == [] || exists i :: 0 <= i < |filters| && Match(filters[i], row)
  }

  method MatchFilter(f: Filter, row: Row) returns (matches: bool)
    ensures matches == Match(f, row)
    decreases f
  {
    match f {
      case Standard(property, value, flags) =>
        if IsEmpty(property) || value.Invalid? || property.text !in row {
          return true;
        }
        if HasFlag(flags, MATCH_NOT_EQUALS) {
          return !SameValue(row[property.text], value);
        } else {
          return SameValue(row[property.text], value);
        }
      case Intersection(filters) =>
        for i := 0 to |filters|
          invariant forall j :: 0 <= j < i ==> Match(filters[j], row)
        {
          var inner := MatchFilter(filters[i], row);
          if !inner {
            return false;
          }
        }
        return true;
      case Union(filters) =>
        if filters == [] {
          return true;
        }
        for i := 0 to |filters|
          invariant forall j :: 0 <= j < i ==> !Match(filters[j], row)
        {
          var inner := MatchFilter(filters[i], row);
          if inner {
            return true;
          }
        }
        return false;
    }
  }

  /** The properties that the leaves of a filter name. */
  function Mentioned(f: Filter): set<string> {
    match f
    case Standard(property, _, _) => if property.NullName? then {} else {property.text}
    case Intersection(filters) => set i, p | 0 <= i < |filters| && p in Mentioned(filters[i]) :: p
    case Union(filters) => set i, p | 0 <= i < |filters| && p in Mentioned(filters[i]) :: p
  }

  lemma MemberMentions(f: Filter, i: nat)
    requires !f.Standard? && i < |f.filters|
    ensures Mentioned(f.filters[i]) <= Mentioned(f)
  {
  }

  /** A filter of any shape matches a row that has none of the properties it names. */
  lemma {:induction false} MatchesWithoutItsProperties(f: Filter, row: Row)
    requires forall p :: p in Mentioned(f) ==> p !in row
    ensures Match(f, row)
    decreases f
  {
    if !f.Standard? {
      forall i | 0 <= i < |f.filters| ensures Match(f.filters[i], row) {
        MemberMentions(f, i);
        MatchesWithoutItsProperties(f.filters[i], row);
      }
      assert f.filters != [] ==> Match(f.filters[0], row);
    }
  }

  /** Nothing else in a row makes a difference. */
  lemma {:induction false} OnlyItsPropertiesMatter(f: Filter, row: Row, other: Row)
    requires forall p :: p in Mentioned(f) ==> (p in row <==> p in other) && (p in row ==> row[p] == other[p])
    ensures Match(f, row) == Match(f, other)
    decreases f
  {
    if f.Standard? {
      assert f.property.Name? ==> f.property.text in Mentioned(f);
    } else {
      forall i | 0 <= i < |f.filters| ensures Match(f.filters[i], row) == Match(f.filters[i], other) {
        MemberMentions(f, i);
        OnlyItsPropertiesMatter(f.filters[i], row, other);
      }
    }
  }

  /** A flag is set exactly if its bit is, whatever the bits above and below. */
  lemma HasFlagExactly(flag: int, above: int, below: int)
    requires flag > 0 && 0 <= below < 2 * flag
    ensures HasFlag(2 * flag * above + below, flag) <==> flag <= below
  {
    var bit := if flag <= below then 1 else 0;
    QuotientIs(2 * flag * above + below, flag, 2 * above + bit, below - bit * flag);
  }

  lemma QuotientIs(n: int, d: int, q: int, r: int)
    requires d > 0 && 0 <= r < d && n == q * d + r
    ensures n / d == q
  {
    var k := n / d - q;
    assert k * d == r - n % d;
    TimesAtLeast(k, d);
  }

  lemma TimesAtLeast(k: int, d: int)
    requires d > 0
    ensures (k > 0 ==> k * d >= d) && (k < 0 ==> k * d <= -d)
  {
  }

  /**
   * A leaf whose property the row has compares, a null text being like an empty one; the bit of "not equals" turns the
   * answer round, whatever the bits above and below it are.
   */
  lemma LeafMatchesExactly(property: string, value: Variant, above: int, below: int, row: Row)
    requires property != "" && !value.Invalid? && property in row && 0 <= below < 0x20
    ensures var alike := row[property] == value
              || (row[property] in {NullOf("string"), Value("")} && value in {NullOf("string"), Value("")});
            Match(Standard(Name(property), value, 0x20 * above + below), row) <==> alike == (below < 0x10)
  {
    HasFlagExactly(0x10, above, below);
  }

  predicate IsValid(f: Filter) {
    match f
    case Standard(property, value, flags) => !property.NullName? && !IsNull(value)
    case Intersection(filters) => filters != []
    case Union(filters) => filters != []
  }

  // ---------------------------------------------------------------- property maps

  datatype Property = Number(n: int) | Text(name: Name) | Any(value: Variant) | List(items: seq<PropertyMap>)
  datatype PropertyMap = PropertyMap(entries: map<string, Property>)

  const FIELD_FILTER_TYPE := "filterType"
  const FIELD_FILTERS := "filters"
  const FIELD_FILTER_PROPERTY := "filterProperty"
  const FIELD_FILTER_VALUE := "filterValue"
  const FIELD_MATCH_FLAGS := "matchFlags"

  const TYPE_STANDARD := 0
  const TYPE_INTERSECTION := 1
  const TYPE_UNION := 2

  function StandardMap(property: Name, value: Variant, flags: int): PropertyMap {
    PropertyMap(map[FIELD_FILTER_TYPE := Number(TYPE_STANDARD), FIELD_FILTER_PROPERTY := Text(property),
                    FIELD_FILTER_VALUE := Any(value), FIELD_MATCH_FLAGS := Number(flags)])
  }

  function CompoundMap(items: seq<PropertyMap>, kind: int): PropertyMap {
    PropertyMap(map[FIELD_FILTERS := List(items), FIELD_FILTER_TYPE := Number(kind)])
  }

  function Properties(f: Filter): PropertyMap {
    if !IsValid(f) then PropertyMap(map[])
    else match f
      case Standard(property, value, flags) =>
        StandardMap(property, value, flags)
      case Intersection(filters) =>
        CompoundMap(AllProperties(filters), TYPE_INTERSECTION)
      case Union(filters) =>
        CompoundMap(AllProperties(filters), TYPE_UNION)
  }

  function AllProperties(filters: seq<Filter>): (r: seq<PropertyMap>)
    ensures |r| == |filters|
  {
    if filters == [] then [] else [Properties(filters[0])] + AllProperties(filters[1..])
  }

  function ToInt(m: PropertyMap, field: string): int {
    if field in m.entries && m.entries[field].Number? then m.entries[field].n else 0
  }

  function ToName(m: PropertyMap, field: string): Name {
    if field in m.entries && m.entries[field].Text? then m.entries[field].name else NullName
  }

  function ToVariant(m: PropertyMap, field: string): Variant {
    if field in m.entries && m.entries[field].Any? then m.entries[field].value else Invalid
  }

  function ToList(m: PropertyMap, field: string): (r: seq<PropertyMap>)
    ensures r != [] ==> field in m.entries && m.entries[field] == List(r)
  {
    if field in m.entries && m.entries[field].List? then m.entries[field].items else []
  }

  /** Filter::fromProperties with the two it dispatches to. */
  function FromProperties(m: PropertyMap): Filter
    decreases m
  {
    if m.entries == map[] then DEFAULT_FILTER
    else
      var kind := ToInt(m, FIELD_FILTER_TYPE);
      if kind == TYPE_STANDARD then
        Standard(ToName(m, FIELD_FILTER_PROPERTY), ToVariant(m, FIELD_FILTER_VALUE), ToInt(m, FIELD_MATCH_FLAGS))
      else if kind == TYPE_INTERSECTION then
        Intersection(if ToList(m, FIELD_FILTERS) == [] then [] else ValidFromProperties(m.entries[FIELD_FILTERS].items))
      else if kind == TYPE_UNION then
        Union(if ToList(m, FIELD_FILTERS) == [] then [] else ValidFromProperties(m.entries[FIELD_FILTERS].items))
      else DEFAULT_FILTER
  }

  /** The inner filters that came back valid. */
  function ValidFromProperties(items: seq<PropertyMap>): seq<Filter>
    decreases items
  {
    if items == [] then []
    else
      var f := FromProperties(items[0]);
      (if IsValid(f) then [f] else []) + ValidFromProperties(items[1..])
  }

  method PropertiesOf(f: Filter) returns (m: PropertyMap)
    ensures m == Properties(f)
    decreases f, 1
  {
    if !IsValid(f) {
      return PropertyMap(map[]);
    }
    match f {
      case Standard(property, value, flags) =>
        return StandardMap(property, value, flags);
      case Intersection(filters) =>
        var filterList := PropertiesOfAll(filters);
        return CompoundMap(filterList, TYPE_INTERSECTION);
      case Union(filters) =>
        var filterList := PropertiesOfAll(filters);
        return CompoundMap(filterList, TYPE_UNION);
    }
  }

  method PropertiesOfAll(filters: seq<Filter>) returns (filterList: seq<PropertyMap>)
    ensures filterList == AllProperties(filters)
    decreases filters, 0
  {
    filterList := [];
    for i := 0 to |filters|
      invariant AllProperties(filters) == filterList + AllProperties(filters[i..])
    {
      var inner := PropertiesOf(filters[i]);
      filterList := filterList + [inner];
      assert filters[i..][1..] == filters[i + 1..];
    }
  }

  method FilterFrom(m: PropertyMap) returns (f: Filter)
    ensures f == FromProperties(m)
    decreases m, 1
  {
    f := DEFAULT_FILTER;
    if m.entries == map[] {
      return;
    }
    var kind := ToInt(m, FIELD_FILTER_TYPE);
    if kind == TYPE_STANDARD {
      f := Standard(ToName(m, FIELD_FILTER_PROPERTY), ToVariant(m, FIELD_FILTER_VALUE), ToInt(m, FIELD_MATCH_FLAGS));
    } else if kind == TYPE_INTERSECTION || kind == TYPE_UNION {
      var filters := [];
      if ToList(m, FIELD_FILTERS) != [] {
        filters := ValidFiltersFrom(m.entries[FIELD_FILTERS].items);
      }
      f := if kind == TYPE_INTERSECTION then Intersection(filters) else Union(filters);
    }
  }

  method ValidFiltersFrom(filterList: seq<PropertyMap>) returns (filters: seq<Filter>)
    ensures filters == ValidFromProperties(filterList)
    decreases filterList, 0
  {
    filters := [];
    for i := 0 to |filterList|
      invariant ValidFromProperties(filterList) == filters + ValidFromProperties(filterList[i..])
    {
      var innerFilter := FilterFrom(filterList[i]);
      assert filterList[i..][1..] == filterList[i + 1..];
      if IsValid(innerFilter) {
        filters := filters + [innerFilter];
      }
    }
  }

  // ---------------------------------------------------------------- there and back

  lemma FieldsDiffer()
    ensures FIELD_FILTER_TYPE != FIELD_FILTERS && FIELD_FILTER_TYPE != FIELD_FILTER_PROPERTY
    ensures FIELD_FILTER_TYPE != FIELD_FILTER_VALUE && FIELD_FILTER_TYPE != FIELD_MATCH_FLAGS
    ensures FIELD_FILTER_PROPERTY != FIELD_FILTER_VALUE && FIELD_FILTER_PROPERTY != FIELD_MATCH_FLAGS
    ensures FIELD_FILTER_VALUE != FIELD_MATCH_FLAGS
  {
    assert FIELD_FILTER_TYPE[0] == 'f' && FIELD_MATCH_FLAGS[0] == 'm';
    assert |FIELD_FILTER_TYPE| == 10 && |FIELD_FILTERS| == 7;
    assert |FIELD_FILTER_PROPERTY| == 14 && |FIELD_FILTER_VALUE| == 11;
  }

  /** What comes back: invalid filters become the default one, and invalid members are dropped. */
  function Prune(f: Filter): Filter {
    if !IsValid(f) then DEFAULT_FILTER
    else match f
      case Standard(_, _, _) => f
      case Intersection(filters) => Intersection(PruneAll(filters))
      case Union(filters) => Union(PruneAll(filters))
  }

  function PruneAll(filters: seq<Filter>): (r: seq<Filter>)
    ensures |r| <= |filters|
  {
    if filters == [] then []
    else (if IsValid(Prune(filters[0])) then [Prune(filters[0])] else []) + PruneAll(filters[1..])
  }

  lemma {:induction false} RebuiltIsPruned(f: Filter)
    ensures FromProperties(Properties(f)) == Prune(f)
    decreases f, 1
  {
    if IsValid(f) {
      match f {
        case Standard(property, value, flags) => ReadStandard(property, value, flags);
        case Intersection(filters) =>
          AllRebuiltArePruned(filters);
          ReadCompound(AllProperties(filters), TYPE_INTERSECTION);
        case Union(filters) =>
          AllRebuiltArePruned(filters);
          ReadCompound(AllProperties(filters), TYPE_UNION);
      }
    }
  }

  /** Maps that no filter gives: of an unknown type they read as the default filter, of no type as a leaf. */
  lemma OtherMaps(m: PropertyMap)
    ensures m.entries == map[] ==> FromProperties(m) == Standard(NullName, Invalid, 1)
    ensures "filterType" in m.entries && m.entries["filterType"].Number? && m.entries["filterType"].n !in {0, 1, 2} ==>
              FromProperties(m) == Standard(NullName, Invalid, 1)
    ensures m.entries != map[] && "filterType" !in m.entries ==> FromProperties(m).Standard?
    ensures "filterType" in m.entries && m.entries["filterType"] == Number(1) && "filters" !in m.entries ==>
              FromProperties(m) == Intersection([])
    ensures "filterType" in m.entries && m.entries["filterType"] == Number(2) && "filters" !in m.entries ==>
              FromProperties(m) == Union([])
  {
  }

  lemma ReadStandard(property: Name, value: Variant, flags: int)
    ensures var m := StandardMap(property, value, flags);
            && m.entries != map[]
            && ToInt(m, FIELD_FILTER_TYPE) == TYPE_STANDARD && ToName(m, FIELD_FILTER_PROPERTY) == property
            && ToVariant(m, FIELD_FILTER_VALUE) == value && ToInt(m, FIELD_MATCH_FLAGS) == flags
  {
    FieldsDiffer();
    assert FIELD_FILTER_TYPE in StandardMap(property, value, flags).entries;
  }

  lemma ReadCompound(items: seq<PropertyMap>, kind: int)
    ensures var m := CompoundMap(items, kind);
            && m.entries != map[] && FIELD_FILTERS in m.entries && m.entries[FIELD_FILTERS] == List(items)
            && ToInt(m, FIELD_FILTER_TYPE) == kind && ToList(m, FIELD_FILTERS) == items
  {
    FieldsDiffer();
    assert FIELD_FILTERS in CompoundMap(items, kind).entries;
  }

  lemma {:induction false} AllRebuiltArePruned(filters: seq<Filter>)
    ensures ValidFromProperties(AllProperties(filters)) == PruneAll(filters)
    decreases filters, 0
  {
    if filters != [] {
      RebuiltIsPruned(filters[0]);
      AllRebuiltArePruned(filters[1..]);
      assert AllProperties(filters)[1..] == AllProperties(filters[1..]);
    }
  }

  /** Valid leaves, and compounds that are not empty, all the way down. */
  predicate WellFormed(f: Filter) {
    match f
    case Standard(property, value, _) => property.Name? && value.Value?
    case Intersection(filters) => filters != [] && forall i :: 0 <= i < |filters| ==> WellFormed(filters[i])
    case Union(filters) => filters != [] && forall i :: 0 <= i < |filters| ==> WellFormed(filters[i])
  }

  lemma {:induction false} PruneIdentity(f: Filter)
    ensures Prune(f) == f <==> WellFormed(f) || f == DEFAULT_FILTER
    decreases f, 1
  {
    if IsValid(f) && !f.Standard? { PruneAllIdentity(f.filters); }
  }

  lemma {:induction false} PruneAllIdentity(filters: seq<Filter>)
    ensures PruneAll(filters) == filters <==> forall i :: 0 <= i < |filters| ==> WellFormed(filters[i])
    decreases filters, 0
  {
    if filters != [] {
      var head, rest := filters[0], filters[1..];
      PruneIdentity(head);
      PruneAllIdentity(rest);
      assert filters == [head] + rest;
      if IsValid(Prune(head)) {
        assert PruneAll(filters)[0] == Prune(head) && PruneAll(filters)[1..] == PruneAll(rest);
      }
      assert forall i :: 0 <= i < |rest| ==> rest[i] == filters[i + 1];
    }
  }

  /**
   * Serialising and rebuilding gives the filter back exactly for well-formed trees, of any depth, and for the
   * default filter.
   */
  lemma RoundTripExactly(f: Filter)
    ensures FromProperties(Properties(f)) == f <==> WellFormed(f) || f == DEFAULT_FILTER
  {
    RebuiltIsPruned(f);
    PruneIdentity(f);
  }

  // ---------------------------------------------------------------- what dropping members does to matching

  predicate Survives(f: Filter) {
    IsValid(Prune(f))
  }

  /** The members that are left match as they did. */
  predicate KeptAlike(filters: seq<Filter>, row: Row) {
    forall i :: 0 <= i < |filters| && Survives(filters[i]) ==> Match(Prune(filters[i]), row) == Match(filters[i], row)
  }

  /** What an intersection loses on this row does not matter. */
  predicate HarmlessInAll(filters: seq<Filter>, row: Row) {
    || (forall i :: 0 <= i < |filters| && !Survives(filters[i]) ==> Match(filters[i], row))
    || (exists i :: 0 <= i < |filters| && Survives(filters[i]) && !Match(filters[i], row))
  }

  /** What a union loses on this row does not matter; one that loses everything matches anything. */
  predicate HarmlessInAny(filters: seq<Filter>, row: Row) {
    || (exists i :: 0 <= i < |filters| && Survives(filters[i]) && Match(filters[i], row))
    || (if forall i :: 0 <= i < |filters| ==> !Survives(filters[i]) then Match(Union(filters), row)
        else forall i :: 0 <= i < |filters| && !Survives(filters[i]) ==> !Match(filters[i], row))
  }

  lemma {:induction false} PruneAllMembers(filters: seq<Filter>, g: Filter)
    ensures g in PruneAll(filters) <==> exists i :: 0 <= i < |filters| && Survives(filters[i]) && Prune(filters[i]) == g
  {
    if filters != [] {
      PruneAllMembers(filters[1..], g);
      assert forall i :: 0 < i < |filters| ==> filters[i] == filters[1..][i - 1];
      if i :| 0 <= i < |filters| - 1 && Survives(filters[1..][i]) && Prune(filters[1..][i]) == g {
        assert filters[i + 1] == filters[1..][i];
      }
    }
  }

  /**
   * A leaf is rebuilt with its meaning exactly if it is valid or matches anything. A named property with a value that
   * is null but valid is compared by match, and lost on the way.
   */
  lemma LeafMatchesAlikeExactly(f: Filter)
    requires f.Standard?
    ensures (forall row :: Match(FromProperties(Properties(f)), row) == Match(f, row)) <==>
              IsValid(f) || IsEmpty(f.property) || f.value.Invalid?
  {
    RebuiltIsPruned(f);
    if !IsValid(f) && !IsEmpty(f.property) && !f.value.Invalid? {
      var other := if HasFlag(f.flags, MATCH_NOT_EQUALS) then f.value else Value("x");
      var row: Row := map[f.property.text := other];
      assert Match(Prune(f), row) && !Match(f, row);
    }
  }

  /**
   * If the members left match as they did, an intersection does exactly if every lost member matches the row or one
   * that is left does not.
   */
  lemma PrunedIntersectionMatchesExactly(filters: seq<Filter>, row: Row)
    requires KeptAlike(filters, row)
    ensures Match(Intersection(PruneAll(filters)), row) == Match(Intersection(filters), row) <==>
              HarmlessInAll(filters, row)
  {
    KeptAllMatch(filters, row);
  }

  lemma KeptAllMatch(filters: seq<Filter>, row: Row)
    requires KeptAlike(filters, row)
    ensures Match(Intersection(PruneAll(filters)), row) <==>
              forall i :: 0 <= i < |filters| && Survives(filters[i]) ==> Match(filters[i], row)
  {
    var kept := PruneAll(filters);
    forall i | 0 <= i < |kept|
      ensures (forall j :: 0 <= j < |filters| && Survives(filters[j]) ==> Match(filters[j], row)) ==>
                Match(kept[i], row)
    {
      PruneAllMembers(filters, kept[i]);
    }
    forall i | 0 <= i < |filters| && Survives(filters[i])
      ensures Match(Intersection(kept), row) ==> Match(filters[i], row)
    {
      PruneAllMembers(filters, Prune(filters[i]));
      var j :| 0 <= j < |kept| && kept[j] == Prune(filters[i]);
    }
  }

  /**
   * If the members left match as they did, a union does exactly if one of them matches the row, or none is left and
   * it matched before, or some are left and no lost member matches.
   */
  lemma PrunedUnionMatchesExactly(filters: seq<Filter>, row: Row)
    requires KeptAlike(filters, row)
    ensures Match(Union(PruneAll(filters)), row) == Match(Union(filters), row) <==> HarmlessInAny(filters, row)
  {
    KeptMatches(filters, row);
    KeptNone(filters);
  }

  lemma KeptNone(filters: seq<Filter>)
    ensures PruneAll(filters) == [] <==> forall i :: 0 <= i < |filters| ==> !Survives(filters[i])
  {
    if i :| 0 <= i < |filters| && Survives(filters[i]) { PruneAllMembers(filters, Prune(filters[i])); }
    if PruneAll(filters) != [] { PruneAllMembers(filters, PruneAll(filters)[0]); }
  }

  lemma KeptMatches(filters: seq<Filter>, row: Row)
    requires KeptAlike(filters, row)
    ensures (exists j :: 0 <= j < |PruneAll(filters)| && Match(PruneAll(filters)[j], row)) <==>
              exists i :: 0 <= i < |filters| && Survives(filters[i]) && Match(filters[i], row)
  {
    var kept := PruneAll(filters);
    if j :| 0 <= j < |kept| && Match(kept[j], row) { PruneAllMembers(filters, kept[j]); }
    if i :| 0 <= i < |filters| && Survives(filters[i]) && Match(filters[i], row) {
      PruneAllMembers(filters, Prune(filters[i]));
      var j :| 0 <= j < |kept| && kept[j] == Prune(filters[i]);
    }
  }

  /** Nothing that is lost anywhere in the tree matters on this row. */
  predicate AlikeOn(f: Filter, row: Row) {
    match f
    case Standard(_, _, _) => IsValid(f) || Match(f, row)
    case Intersection(filters) =>
      && (forall i :: 0 <= i < |filters| && Survives(filters[i]) ==> AlikeOn(filters[i], row))
      && HarmlessInAll(filters, row)
    case Union(filters) =>
      && (forall i :: 0 <= i < |filters| && Survives(filters[i]) ==> AlikeOn(filters[i], row))
      && HarmlessInAny(filters, row)
  }

  /** Then the rebuilt filter matches the row exactly if the original does. */
  lemma {:induction false} RebuiltMatchesAlike(f: Filter, row: Row)
    requires AlikeOn(f, row)
    ensures Match(FromProperties(Properties(f)), row) == Match(f, row)
    decreases f
  {
    RebuiltIsPruned(f);
    if !f.Standard? {
      forall i | 0 <= i < |f.filters| && Survives(f.filters[i])
        ensures Match(Prune(f.filters[i]), row) == Match(f.filters[i], row)
      {
        RebuiltMatchesAlike(f.filters[i], row);
        RebuiltIsPruned(f.filters[i]);
      }
      if f.Intersection? {
        PrunedIntersectionMatchesExactly(f.filters, row);
      } else {
        PrunedUnionMatchesExactly(f.filters, row);
      }
    }
  }

  /**
   * Leaves are valid or match anything, and a union loses none or all of its members: something to check once, without
   * a row.
   */
  predicate PrunesSafely(f: Filter) {
    match f
    case Standard(property, value, flags) => IsValid(f) || IsEmpty(property) || value.Invalid?
    case Intersection(filters) => forall i :: 0 <= i < |filters| ==> PrunesSafely(filters[i])
    case Union(filters) =>
      && (forall i :: 0 <= i < |filters| ==> PrunesSafely(filters[i]))
      && (|| (forall i :: 0 <= i < |filters| ==> Survives(filters[i]))
          || (forall i :: 0 <= i < |filters| ==> !Survives(filters[i])))
  }

  /** Such a filter is safe on every row; what it loses matches anything. */
  lemma {:induction false} SafeOnEveryRow(f: Filter, row: Row)
    requires PrunesSafely(f)
    ensures AlikeOn(f, row) && (!Survives(f) ==> Match(f, row))
    decreases f
  {
    if !f.Standard? {
      forall i | 0 <= i < |f.filters|
        ensures AlikeOn(f.filters[i], row) && (!Survives(f.filters[i]) ==> Match(f.filters[i], row))
      {
        SafeOnEveryRow(f.filters[i], row);
      }
      if !Survives(f) { KeptNone(f.filters); }
      if f.Union? && f.filters != [] {
        assert Match(f.filters[0], row) || Survives(f.filters[0]);
      }
    }
  }

  /** An intersection of one leaf with a null text is valid, and comes back matching rows it did not match. */
  lemma NullLeafIsLost(property: string, text: string)
    requires property != "" && text != ""
    ensures var leaf := Standard(Name(property), NullOf(TEXT), MATCH_CASE_SENSITIVE);
            var row: Row := map[property := Value(text)];
            && IsValid(Intersection([leaf])) && !Match(Intersection([leaf]), row)
            && Match(FromProperties(Properties(Intersection([leaf]))), row)
            && IsValid(Union([leaf])) && !Match(Union([leaf]), row)
            && Match(FromProperties(Properties(Union([leaf]))), row)
  {
    var leaf := Standard(Name(property), NullOf(TEXT), MATCH_CASE_SENSITIVE);
    RebuiltIsPruned(Intersection([leaf]));
    RebuiltIsPruned(Union([leaf]));
    assert [leaf][1..] == [] && PruneAll([leaf]) == [];
    assert [leaf][0] == leaf;
  }

  /** A union whose members are all valid can still lose one: an intersection of nothing but an invalid filter. */
  lemma ValidUnionLosesMember(property: string, value: string, other: string)
    requires property != "" && value != other
    ensures var hollow := Intersection([DEFAULT_FILTER]);
            var leaf := Standard(Name(property), Value(value), MATCH_CASE_SENSITIVE);
            var row: Row := map[property := Value(other)];
            && IsValid(hollow) && IsValid(leaf)
            && Match(Union([hollow, leaf]), row)
            && !Match(FromProperties(Properties(Union([hollow, leaf]))), row)
  {
    var hollow := Intersection([DEFAULT_FILTER]);
    var leaf := Standard(Name(property), Value(value), MATCH_CASE_SENSITIVE);
    RebuiltIsPruned(Union([hollow, leaf]));
    HollowIsLost(leaf);
    assert [hollow, leaf][0] == hollow && [leaf][0] == leaf;
  }

  lemma HollowIsLost(leaf: Filter)
    requires leaf.Standard? && IsValid(leaf)
    ensures Prune(Union([Intersection([DEFAULT_FILTER]), leaf])) == Union([leaf])
  {
    var hollow := Intersection([DEFAULT_FILTER]);
    assert [DEFAULT_FILTER][1..] == [] && PruneAll([DEFAULT_FILTER]) == [];
    assert Prune(hollow) == Intersection([]);
    assert [leaf][1..] == [] && PruneAll([leaf]) == [leaf];
    assert [hollow, leaf][1..] == [leaf];
  }
}
