/**
 * The order DAO over an in-memory store: a map from order id to order row. Orders are
 * soft-deleted (their active flag is cleared, nothing is removed), every listing and
 * count only sees active orders, and the per-user listing substitutes historical
 * certificate snapshots into the page it returns.
 */
module OrderDao {
  import opened Wrappers
  import opened Domain
  import opened Paging
  import opened Queries
  import opened FirstVersions

  const ACTIVE_ORDER: bool := true
  const DELETED_ORDER: bool := false

  datatype DaoError =
    | OrderNotFound(orderId: int)     // NoResultException in deleteOrder
    | InvalidWindow(reason: PageError)

  /** Every order is stored under its own id. */
  predicate KeysMatch(orders: map<int, Order>) {
    forall k :: k in orders ==> orders[k].id == k
  }

  /** The rows a listing query admits: active ones, and of one user when `owner` names one. */
  predicate Visible(o: Order, owner: Option<int>) {
    o.active && (owner.None? || o.userId == owner.value)
  }

  /**
   * getModelById of the persistence layer. Whether it also returns soft-deleted
   * orders is that layer's business; `findsInactive` says which way it goes.
   */
  function Lookup(orders: map<int, Order>, findsInactive: bool, orderId: int): (r: Option<Order>)
    ensures r.Some? <==> orderId in orders && (findsInactive || orders[orderId].active)
    ensures r.Some? ==> r.value == orders[orderId]
  {
    if orderId in orders && (findsInactive || orders[orderId].active) then Some(orders[orderId]) else None
  }

  /** The store after addOrder: the order is saved active, whatever flag it came with. */
  function Added(orders: map<int, Order>, order: Order): (r: map<int, Order>)
    ensures r.Keys == orders.Keys + {order.id}
    ensures r[order.id].active && r[order.id].(active := order.active) == order
    ensures forall k :: k in orders && k != order.id ==> r[k] == orders[k]
    ensures KeysMatch(orders) ==> KeysMatch(r)
  {
    orders[order.id := order.(active := ACTIVE_ORDER)]
  }

  /**
   * The store after deleteOrder: not found when the lookup finds nothing, otherwise
   * exactly the active flag of that order is cleared.
   */
  function Deleted(orders: map<int, Order>, findsInactive: bool, orderId: int): (r: Result<map<int, Order>, DaoError>)
    ensures r.Failure? <==> Lookup(orders, findsInactive, orderId).None?
    ensures r.Failure? ==> r.error == OrderNotFound(orderId)
    ensures r.Success? ==> r.value.Keys == orders.Keys
    ensures r.Success? ==> !r.value[orderId].active && r.value[orderId].(active := orders[orderId].active) == orders[orderId]
    ensures r.Success? ==> forall k :: k in orders && k != orderId ==> r.value[k] == orders[k]
    ensures r.Success? && KeysMatch(orders) ==> KeysMatch(r.value)
  {
    match Lookup(orders, findsInactive, orderId)
    case None => Failure(OrderNotFound(orderId))
    case Some(order) => Success(orders[orderId := order.(active := DELETED_ORDER)])
  }

  /**
   * The rows a query returns before paging: the stored orders in the order the database
   * sorts them (`ranking` lists their ids), keeping the visible ones.
   */
  function Listing(orders: map<int, Order>, ranking: seq<int>, owner: Option<int>): (r: seq<Order>)
    ensures |r| <= |ranking|
    ensures forall o :: o in r ==> Visible(o, owner) && exists k :: k in orders && orders[k] == o
    ensures forall k :: k in ranking && k in orders && Visible(orders[k], owner) ==> orders[k] in r
    decreases |ranking|
  {
    if ranking == [] then []
    else
      var rest := Listing(orders, ranking[1..], owner);
      var k := ranking[0];
      if k in orders && Visible(orders[k], owner) then [orders[k]] + rest else rest
  }

  /** The ranking positions whose orders a listing keeps, in the order they are kept. */
  function KeptPositions(orders: map<int, Order>, ranking: seq<int>, owner: Option<int>): (p: seq<nat>)
    ensures forall i :: 0 <= i < |p| ==> p[i] < |ranking|
    decreases |ranking|
  {
    if ranking == [] then []
    else
      var rest := KeptPositions(orders, ranking[1..], owner);
      var shifted := seq(|rest|, i requires 0 <= i < |rest| => rest[i] + 1);
      var k := ranking[0];
      if k in orders && Visible(orders[k], owner) then [0] + shifted else shifted
  }

  /** The kept positions strictly increase. */
  lemma {:induction false} KeptPositionsIncrease(orders: map<int, Order>, ranking: seq<int>, owner: Option<int>)
    ensures forall i, j :: 0 <= i < j < |KeptPositions(orders, ranking, owner)| ==>
      KeptPositions(orders, ranking, owner)[i] < KeptPositions(orders, ranking, owner)[j]
    decreases |ranking|
  {
    if ranking != [] {
      var tail := ranking[1..];
      KeptPositionsIncrease(orders, tail, owner);
      var p, prest := KeptPositions(orders, ranking, owner), KeptPositions(orders, tail, owner);
      var shifted := seq(|prest|, i requires 0 <= i < |prest| => prest[i] + 1);
      var k := ranking[0];
      if k in orders && Visible(orders[k], owner) {
        assert p == [0] + shifted;
        forall i, j | 0 <= i < j < |p| ensures p[i] < p[j] {
          assert p[j] == prest[j - 1] + 1;
          if i > 0 { assert p[i] == prest[i - 1] + 1; }
        }
      } else {
        assert p == shifted;
        forall i, j | 0 <= i < j < |p| ensures p[i] < p[j] {
          assert p[i] == prest[i] + 1 && p[j] == prest[j] + 1;
          assert prest[i] < prest[j];
        }
      }
    }
  }

  /** One step of a listing whose first ranked order is kept. */
  lemma KeptHead(orders: map<int, Order>, ranking: seq<int>, owner: Option<int>)
    requires ranking != [] && ranking[0] in orders && Visible(orders[ranking[0]], owner)
    ensures Listing(orders, ranking, owner) == [orders[ranking[0]]] + Listing(orders, ranking[1..], owner)
    ensures |KeptPositions(orders, ranking, owner)| == |KeptPositions(orders, ranking[1..], owner)| + 1
    ensures KeptPositions(orders, ranking, owner)[0] == 0
    ensures forall i :: 0 < i < |KeptPositions(orders, ranking, owner)| ==>
      KeptPositions(orders, ranking, owner)[i] == KeptPositions(orders, ranking[1..], owner)[i - 1] + 1
  {
  }

  /** One step of a listing whose first ranked order is skipped. */
  lemma SkippedHead(orders: map<int, Order>, ranking: seq<int>, owner: Option<int>)
    requires ranking != [] && !(ranking[0] in orders && Visible(orders[ranking[0]], owner))
    ensures Listing(orders, ranking, owner) == Listing(orders, ranking[1..], owner)
    ensures |KeptPositions(orders, ranking, owner)| == |KeptPositions(orders, ranking[1..], owner)|
    ensures forall i :: 0 <= i < |KeptPositions(orders, ranking, owner)| ==>
      KeptPositions(orders, ranking, owner)[i] == KeptPositions(orders, ranking[1..], owner)[i] + 1
  {
  }

  /** Row i of a listing is the stored order at ranking position KeptPositions[i]. */
  lemma {:induction false} ListingAtKept(orders: map<int, Order>, ranking: seq<int>, owner: Option<int>)
    ensures |KeptPositions(orders, ranking, owner)| == |Listing(orders, ranking, owner)|
    ensures forall i :: 0 <= i < |KeptPositions(orders, ranking, owner)| ==>
      ranking[KeptPositions(orders, ranking, owner)[i]] in orders &&
      Listing(orders, ranking, owner)[i] == orders[ranking[KeptPositions(orders, ranking, owner)[i]]]
    decreases |ranking|
  {
    if ranking != [] {
      var tail := ranking[1..];
      ListingAtKept(orders, tail, owner);
      var r, p := Listing(orders, ranking, owner), KeptPositions(orders, ranking, owner);
      var rest, prest := Listing(orders, tail, owner), KeptPositions(orders, tail, owner);
      if ranking[0] in orders && Visible(orders[ranking[0]], owner) {
        KeptHead(orders, ranking, owner);
        forall i | 0 < i < |p| ensures ranking[p[i]] in orders && r[i] == orders[ranking[p[i]]] {
          assert r[i] == rest[i - 1];
          assert ranking[p[i]] == tail[prest[i - 1]];
        }
      } else {
        SkippedHead(orders, ranking, owner);
        forall i | 0 <= i < |p| ensures ranking[p[i]] in orders && r[i] == orders[ranking[p[i]]] {
          assert ranking[p[i]] == tail[prest[i]];
        }
      }
    }
  }

  /**
   * A listing follows the database's order: row i is the stored order at ranking
   * position KeptPositions[i], and those positions strictly increase.
   */
  lemma ListingInRankingOrder(orders: map<int, Order>, ranking: seq<int>, owner: Option<int>)
    ensures |KeptPositions(orders, ranking, owner)| == |Listing(orders, ranking, owner)|
    ensures forall i, j :: 0 <= i < j < |KeptPositions(orders, ranking, owner)| ==>
      KeptPositions(orders, ranking, owner)[i] < KeptPositions(orders, ranking, owner)[j]
    ensures forall i :: 0 <= i < |KeptPositions(orders, ranking, owner)| ==>
      ranking[KeptPositions(orders, ranking, owner)[i]] in orders &&
      Listing(orders, ranking, owner)[i] == orders[ranking[KeptPositions(orders, ranking, owner)[i]]]
  {
    KeptPositionsIncrease(orders, ranking, owner);
    ListingAtKept(orders, ranking, owner);
  }

  /**
   * When the database lists every id once, as a query over the order table does, a
   * listing never shows the same order twice.
   */
  lemma ListingOnce(orders: map<int, Order>, ranking: seq<int>, owner: Option<int>)
    requires KeysMatch(orders)
    requires forall a, b :: 0 <= a < b < |ranking| ==> ranking[a] != ranking[b]
    ensures forall i, j :: 0 <= i < j < |Listing(orders, ranking, owner)| ==>
      Listing(orders, ranking, owner)[i].id != Listing(orders, ranking, owner)[j].id
  {
    ListingInRankingOrder(orders, ranking, owner);
  }

  /**
   * One page of a listing: the window of HibernateOrderDaoImpl.getNotAuditedOrdersByUserId,
   * used for the all-orders listing too. It holds every remaining row, up to `size`.
   */
  function ListingPage(orders: map<int, Order>, ranking: seq<int>, owner: Option<int>, page: int, size: int)
    : (r: Result<seq<Order>, DaoError>)
    ensures r.Success? <==> 0 <= (page - 1) * size <= INT_MAX && size >= 0
    ensures r.Success? ==> |r.value| <= size
    ensures r.Success? ==> var n := |Listing(orders, ranking, owner)|;
      |r.value| == if (page - 1) * size >= n then 0 else if n - (page - 1) * size < size then n - (page - 1) * size else size
    ensures r.Success? ==> forall o :: o in r.value ==> o in Listing(orders, ranking, owner)
    ensures r.Success? ==> forall i :: 0 <= i < |r.value| ==>
      (page - 1) * size + i < |Listing(orders, ranking, owner)| &&
      r.value[i] == Listing(orders, ranking, owner)[(page - 1) * size + i]
  {
    var all := Listing(orders, ranking, owner);
    var p := PageWindow(all, page, size);
    if p.Failure? then Failure(InvalidWindow(p.error))
    else
      WindowWithin(all, page, size);
      Success(p.value)
  }

  lemma WindowWithin(all: seq<Order>, page: int, size: int)
    requires PageWindow(all, page, size).Success?
    ensures forall o :: o in PageWindow(all, page, size).value ==> o in all
  {
    var w := PageWindow(all, page, size).value;
    forall o | o in w ensures o in all {
      var i :| 0 <= i < |w| && w[i] == o;
      assert w[i] == all[(page - 1) * size + i];
    }
  }

  /** The ids of the active orders: what the count query counts. */
  function ActiveIds(orders: map<int, Order>): (r: set<int>)
    ensures forall k :: k in r <==> k in orders && orders[k].active
  {
    set k | k in orders && orders[k].active
  }

  lemma SubsetNoLarger(a: set<int>, b: set<int>)
    requires a <= b
    ensures |a| <= |b|
  {
    var extra := b - a;
    assert b == a + extra;
    assert a !! extra;
  }

  /** The count of HibernateOrderDaoImpl's GET_ORDER_COUNT query, the input of getLastPage. */
  function ActiveCount(orders: map<int, Order>): (r: nat)
    ensures r <= |orders|
  {
    SubsetNoLarger(ActiveIds(orders), orders.Keys);
    |ActiveIds(orders)|
  }

  /** Deleting an active order lowers the count by one; deleting an inactive one leaves it. */
  lemma DeletedActiveCount(orders: map<int, Order>, findsInactive: bool, orderId: int)
    requires Deleted(orders, findsInactive, orderId).Success?
    ensures ActiveCount(Deleted(orders, findsInactive, orderId).value)
      == if orders[orderId].active then ActiveCount(orders) - 1 else ActiveCount(orders)
  {
    var after := Deleted(orders, findsInactive, orderId).value;
    assert ActiveIds(after) == ActiveIds(orders) - {orderId};
    if orders[orderId].active {
      assert ActiveIds(orders) == ActiveIds(after) + {orderId};
    } else {
      assert ActiveIds(after) == ActiveIds(orders);
    }
  }

  /** Adding an order under a new id raises the count by one. */
  lemma AddedActiveCount(orders: map<int, Order>, order: Order)
    requires order.id !in orders
    ensures ActiveCount(Added(orders, order)) == ActiveCount(orders) + 1
  {
    assert ActiveIds(Added(orders, order)) == ActiveIds(orders) + {order.id};
  }

  /**
   * A soft-deleted order is gone from every listing and every page of it, for every
   * user filter, sort order, page and size.
   */
  lemma DeletedHidden(orders: map<int, Order>, findsInactive: bool, orderId: int,
                      ranking: seq<int>, owner: Option<int>, page: int, size: int)
    requires KeysMatch(orders) && Deleted(orders, findsInactive, orderId).Success?
    ensures var after := Deleted(orders, findsInactive, orderId).value;
      && (forall o :: o in Listing(after, ranking, owner) ==> o.id != orderId)
      && (ListingPage(after, ranking, owner, page, size).Success? ==>
            forall o :: o in ListingPage(after, ranking, owner, page, size).value ==> o.id != orderId)
  {
    var after := Deleted(orders, findsInactive, orderId).value;
    forall o | o in Listing(after, ranking, owner) ensures o.id != orderId {
      var k :| k in after && after[k] == o;
      assert o.id == k;
    }
    var p := ListingPage(after, ranking, owner, page, size);
    if p.Success? {
      forall o | o in p.value ensures o.id != orderId {
        var k :| k in after && after[k] == o;
        assert o.id == k;
      }
    }
  }

  /** An added order is listed, for its user and among all orders, once the ranking holds its id. */
  lemma AddedListed(orders: map<int, Order>, order: Order, ranking: seq<int>)
    requires order.id in ranking
    ensures order.(active := true) in Listing(Added(orders, order), ranking, Some(order.userId))
    ensures order.(active := true) in Listing(Added(orders, order), ranking, None)
  {
  }

  /**
   * A second delete of the same id fails exactly when the lookup skips soft-deleted
   * orders; when it does not skip them, the second delete changes nothing.
   */
  lemma RepeatDelete(orders: map<int, Order>, findsInactive: bool, orderId: int)
    requires Deleted(orders, findsInactive, orderId).Success?
    ensures var once := Deleted(orders, findsInactive, orderId).value;
      && (Deleted(once, findsInactive, orderId).Failure? <==> !findsInactive)
      && (findsInactive ==> Deleted(once, findsInactive, orderId) == Success(once))
  {
    var once := Deleted(orders, findsInactive, orderId).value;
    if findsInactive {
      assert once[orderId := once[orderId].(active := false)] == once;
    }
  }

  /** The DAO: the order table it persists to, and how the persistence layer looks orders up. */
  class OrderDaoImpl {
    var orders: map<int, Order>
    const findsInactive: bool

    ghost predicate Valid()
      reads this
    {
      KeysMatch(orders)
    }

    constructor (findsInactive: bool)
      ensures Valid() && orders == map[] && this.findsInactive == findsInactive
    {
      orders := map[];
      this.findsInactive := findsInactive;
    }

    /** HibernateOrderDaoImpl.getOrderById. */
    method GetOrderById(orderId: int) returns (r: Option<Order>)
      ensures r == Lookup(orders, findsInactive, orderId)
      ensures r.Some? ==> orderId in orders && r.value == orders[orderId]
    {
      if orderId in orders && (findsInactive || orders[orderId].active) {
        r := Some(orders[orderId]);
      } else {
        r := None;
      }
    }

    /** HibernateOrderDaoImpl.addOrder. */
    method AddOrder(order: Order) returns (saved: Order)
      requires Valid()
      modifies this
      ensures Valid()
      ensures saved == order.(active := true)
      ensures orders == Added(old(orders), order)
    {
      var o := order.(active := ACTIVE_ORDER);
      orders := orders[o.id := o];
      saved := o;
    }

    /** HibernateOrderDaoImpl.deleteOrder. */
    method DeleteOrder(orderId: int) returns (r: Outcome<DaoError>)
      requires Valid()
      modifies this
      ensures Valid()
      ensures var d := Deleted(old(orders), findsInactive, orderId);
        && (d.Failure? ==> r == Fail(OrderNotFound(orderId)) && orders == old(orders))
        && (d.Success? ==> r == Pass && orders == d.value)
    {
      var found := GetOrderById(orderId);
      if found.None? {
        return Fail(OrderNotFound(orderId));
      }
      var order := found.value.(active := DELETED_ORDER);
      orders := orders[order.id := order];
      r := Pass;
    }

    /** HibernateOrderDaoImpl.getAllOrdersByPage: active orders only, one page of them. */
    method GetAllOrdersByPage(criteria: SortCriteria, page: int, size: int, ranking: SortCriteria -> seq<int>)
      returns (r: Result<seq<Order>, DaoError>)
      ensures r == ListingPage(orders, ranking(criteria), None, page, size)
      ensures r.Success? ==> |r.value| <= size && forall o :: o in r.value ==> o.active
    {
      r := ListingPage(orders, ranking(criteria), None, page, size);
    }

    /**
     * HibernateOrderDaoImpl.getOrdersByUserId: the user's active orders in the order
     * the database sorts them under UserQuery(criteria), one page of them, with the
     * snapshots `firstVersions` substituted into each order's certificates.
     */
    method GetOrdersByUserId(userId: int, criteria: SortCriteria, page: int, size: int,
                             ranking: SortCriteria -> seq<int>, firstVersions: seq<Certificate>)
      returns (r: Result<seq<Order>, DaoError>)
      ensures var p := ListingPage(orders, ranking(criteria), Some(userId), page, size);
        && (p.Failure? ==> r == Failure(p.error))
        && (p.Success? ==> r == Success(SubstituteAll(firstVersions, p.value)))
      ensures r.Success? ==> |r.value| <= size
      ensures r.Success? ==> forall o :: o in r.value ==> o.active && o.userId == userId
    {
      var notAudited := ListingPage(orders, ranking(criteria), Some(userId), page, size);
      if notAudited.Failure? {
        return Failure(notAudited.error);
      }
      var rows := notAudited.value;
      var listed := new Order[|rows|](i requires 0 <= i < |rows| => rows[i]);
      assert listed[..] == rows;
      ApplyFirstVersions(listed, firstVersions);
      r := Success(listed[..]);
      forall o | o in r.value ensures o.active && o.userId == userId {
        var i :| 0 <= i < |r.value| && r.value[i] == o;
        assert rows[i] in rows;
      }
    }
  }
}
