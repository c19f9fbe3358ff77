/**
 * The JPQL texts of the order DAO. Every text filters on o.isActive=true; the
 * per-user listing appends an ORDER BY clause built from a closed sort field and a
 * closed sort direction, so nothing a caller supplies reaches the text verbatim.
 */
module Queries {
  import opened Wrappers

  /** The sort field. Only the COST constant is referenced by the modelled code and tests. */
  datatype SortBy = COST

  datatype SortType = ASC | DESC

  /** The sort part of OrderSearchCriteria. */
  datatype SortCriteria = SortCriteria(sortBy: SortBy, sortType: SortType)

  const ACTIVE_FILTER: string := "o.isActive=true "

  const GET_ORDER_BY_USER_ID: string := "SELECT o FROM Order o WHERE o.user.id=:userId AND o.isActive=true "
  const GET_ALL_ORDERS: string := "SELECT o FROM Order o WHERE o.isActive=true "
  const GET_ORDER_COUNT: string := "SELECT count(o.id) FROM Order o WHERE o.isActive=true "

  const ORDER_BY: string := "order by "

  predicate EndsWith(s: string, suffix: string) {
    |suffix| <= |s| && s[|s| - |suffix|..] == suffix
  }

  predicate NoSpace(s: string) {
    forall k :: 0 <= k < |s| ==> s[k] != ' '
  }

  /** An enum constant is rendered by its name. */
  function SortByName(b: SortBy): (r: string)
    ensures r != [] && NoSpace(r)
  {
    match b
    case COST => "COST"
  }

  function SortTypeName(t: SortType): (r: string)
    ensures r != [] && NoSpace(r)
  {
    match t
    case ASC => "ASC"
    case DESC => "DESC"
  }

  /** The sort field whose name is `name`, if any. */
  function SortByOf(name: string): (r: Option<SortBy>)
    ensures r.None? ==> forall b :: SortByName(b) != name
    ensures r.Some? ==> SortByName(r.value) == name
  {
    if name == "COST" then Some(COST) else None
  }

  /** The sort direction whose name is `name`, if any. */
  function SortTypeOf(name: string): (r: Option<SortType>)
    ensures r.None? ==> forall t :: SortTypeName(t) != name
    ensures r.Some? ==> SortTypeName(r.value) == name
  {
    if name == "ASC" then Some(ASC) else if name == "DESC" then Some(DESC) else None
  }

  /** Reading a field name back gives the field. */
  lemma SortByOfName(b: SortBy)
    ensures SortByOf(SortByName(b)) == Some(b)
  {
    match b
    case COST => assert SortByName(COST) == "COST";
  }

  /** Reading a direction name back gives the direction. */
  lemma SortTypeOfName(t: SortType)
    ensures SortTypeOf(SortTypeName(t)) == Some(t)
  {
    match t
    case ASC => assert SortTypeName(ASC) == "ASC";
    case DESC => assert SortTypeName(DESC) == "DESC" != "ASC";
  }

  /** The per-user listing text with its ORDER BY clause, as HibernateOrderDaoImpl.getNotAuditedOrdersByUserId builds it. */
  function UserQuery(c: SortCriteria): (q: string)
    ensures |GET_ORDER_BY_USER_ID + ORDER_BY| < |q|
    ensures q[..|GET_ORDER_BY_USER_ID|] == GET_ORDER_BY_USER_ID
    ensures EndsWith(q, " " + SortTypeName(c.sortType))
  {
    GET_ORDER_BY_USER_ID + ORDER_BY + SortByName(c.sortBy) + " " + SortTypeName(c.sortType)
  }

  /** The position of the first space in `s`, if there is one. */
  function FirstSpace(s: string): (r: Option<nat>)
    ensures r.None? <==> NoSpace(s)
    ensures r.Some? ==> r.value < |s| && s[r.value] == ' ' && NoSpace(s[..r.value])
  {
    if s == [] then None
    else if s[0] == ' ' then Some(0)
    else match FirstSpace(s[1..])
      case None => None
      case Some(k) =>
        assert s[..k + 1] == [s[0]] + s[1..][..k];
        Some(k + 1)
  }

  /** Reads the sort criteria back out of a per-user listing text. */
  function ParseUserQuery(q: string): (r: Option<SortCriteria>)
  {
    var head := GET_ORDER_BY_USER_ID + ORDER_BY;
    if |q| < |head| || q[..|head|] != head then None
    else
      var tail := q[|head|..];
      match FirstSpace(tail)
      case None => None
      case Some(k) =>
        match (SortByOf(tail[..k]), SortTypeOf(tail[k + 1..]))
        case (Some(b), Some(t)) => Some(SortCriteria(b, t))
        case _ => None
  }

  lemma {:induction false} FirstSpaceAfterWord(w: string, rest: string)
    requires NoSpace(w)
    ensures FirstSpace(w + " " + rest) == Some(|w|)
  {
    if w != [] {
      assert (w + " " + rest)[1..] == w[1..] + " " + rest;
      FirstSpaceAfterWord(w[1..], rest);
    }
  }

  /** Parsing the text of a query gives back the criteria it was built from. */
  lemma UserQueryRoundTrip(c: SortCriteria)
    ensures ParseUserQuery(UserQuery(c)) == Some(c)
  {
    var head := GET_ORDER_BY_USER_ID + ORDER_BY;
    var q := UserQuery(c);
    var b, t := SortByName(c.sortBy), SortTypeName(c.sortType);
    assert q == head + (b + " " + t);
    var tail := q[|head|..];
    assert q[..|head|] == head;
    assert tail == b + " " + t;
    FirstSpaceAfterWord(b, t);
    assert tail[..|b|] == b;
    assert tail[|b| + 1..] == t;
    SortByOfName(c.sortBy);
    SortTypeOfName(c.sortType);
  }

  /** Only texts built by UserQuery parse: the parser accepts exactly the query texts. */
  lemma ParseUserQuerySound(q: string, c: SortCriteria)
    requires ParseUserQuery(q) == Some(c)
    ensures q == UserQuery(c)
  {
    var head := GET_ORDER_BY_USER_ID + ORDER_BY;
    assert |head| <= |q| && q[..|head|] == head;
    var tail := q[|head|..];
    var k := FirstSpace(tail).value;
    var field, direction := tail[..k], tail[k + 1..];
    assert SortByOf(field) == Some(c.sortBy) && SortTypeOf(direction) == Some(c.sortType);
    assert field == SortByName(c.sortBy) && direction == SortTypeName(c.sortType);
    assert tail == field + " " + direction;
    assert q == head + tail;
  }

  /** Different criteria always give different query texts. */
  lemma UserQueryInjective(c1: SortCriteria, c2: SortCriteria)
    requires UserQuery(c1) == UserQuery(c2)
    ensures c1 == c2
  {
    UserQueryRoundTrip(c1);
    UserQueryRoundTrip(c2);
  }

  /**
   * Every query text of the DAO filters on active orders: each constant ends with the
   * filter, and the per-user text begins with its constant.
   */
  lemma QueriesFilterActive(c: SortCriteria)
    ensures EndsWith(GET_ORDER_BY_USER_ID, ACTIVE_FILTER)
    ensures EndsWith(GET_ALL_ORDERS, ACTIVE_FILTER)
    ensures EndsWith(GET_ORDER_COUNT, ACTIVE_FILTER)
    ensures UserQuery(c)[..|GET_ORDER_BY_USER_ID|] == GET_ORDER_BY_USER_ID
  {
  }
}
