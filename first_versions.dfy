/**
 * Substitution of historical snapshots into the orders of a listing, as
 * HibernateOrderDaoImpl.getOrdersByUserId does it: each certificate whose id equals the id of a snapshot is replaced by that
 * snapshot, one snapshot after the other, so the last snapshot with an id wins;
 * a certificate without a snapshot stays as it is.
 */
module FirstVersions {
  import opened Domain

  /** The replaceAll step for one snapshot `c`. */
  function Replace(c: Certificate, t: Certificate): (r: Certificate)
    ensures r.id == t.id
    ensures r == t || r == c
  {
    if t.id == c.id then c else t
  }

  predicate HasSnapshot(snapshots: seq<Certificate>, id: int) {
    exists i :: 0 <= i < |snapshots| && snapshots[i].id == id
  }

  /** Position i holds the last snapshot in the list with its id. */
  predicate IsLastFor(snapshots: seq<Certificate>, i: int) {
    0 <= i < |snapshots| && forall j :: i < j < |snapshots| ==> snapshots[j].id != snapshots[i].id
  }

  /** `c` is the last snapshot in the list carrying its id. */
  predicate IsLastSnapshot(snapshots: seq<Certificate>, c: Certificate) {
    exists i :: 0 <= i < |snapshots| && IsLastFor(snapshots, i) && snapshots[i] == c
  }

  /** What `t` becomes after the replaceAll of every snapshot in list order. */
  function FirstVersionOf(snapshots: seq<Certificate>, t: Certificate): (r: Certificate)
    ensures r.id == t.id
    ensures r == t || r in snapshots
    decreases |snapshots|
  {
    if snapshots == [] then t
    else
      var n := |snapshots| - 1;
      Replace(snapshots[n], FirstVersionOf(snapshots[..n], t))
  }

  /**
   * The independent reading of the replaceAll loop: a certificate without a snapshot
   * is unchanged, and one with a snapshot becomes the last snapshot carrying its id.
   */
  lemma {:induction false} FirstVersionOfIsLast(snapshots: seq<Certificate>, t: Certificate, i: int)
    requires IsLastFor(snapshots, i) && snapshots[i].id == t.id
    ensures FirstVersionOf(snapshots, t) == snapshots[i]
    decreases |snapshots|
  {
    var n := |snapshots| - 1;
    if i < n {
      var prefix := snapshots[..n];
      assert snapshots[n].id != t.id;
      assert IsLastFor(prefix, i) by {
        forall j | i < j < |prefix| ensures prefix[j].id != prefix[i].id {
          assert prefix[j] == snapshots[j];
        }
      }
      FirstVersionOfIsLast(prefix, t, i);
    }
  }

  lemma {:induction false} FirstVersionOfUnmatched(snapshots: seq<Certificate>, t: Certificate)
    requires !HasSnapshot(snapshots, t.id)
    ensures FirstVersionOf(snapshots, t) == t
    decreases |snapshots|
  {
    if snapshots != [] {
      var n := |snapshots| - 1;
      var prefix := snapshots[..n];
      assert !HasSnapshot(prefix, t.id) by {
        forall j | 0 <= j < |prefix| ensures prefix[j].id != t.id {
          assert prefix[j] == snapshots[j];
        }
      }
      FirstVersionOfUnmatched(prefix, t);
    }
  }

  /** Every id that has a snapshot has a last one. */
  lemma LastSnapshotExists(snapshots: seq<Certificate>, id: int) returns (i: int)
    requires HasSnapshot(snapshots, id)
    ensures IsLastFor(snapshots, i) && snapshots[i].id == id
  {
    i :| 0 <= i < |snapshots| && snapshots[i].id == id;
    while !IsLastFor(snapshots, i)
      invariant 0 <= i < |snapshots| && snapshots[i].id == id
      decreases |snapshots| - i
    {
      var j :| i < j < |snapshots| && snapshots[j].id == snapshots[i].id;
      i := j;
    }
  }

  /** The certificate collection of one order after substitution, deduplicated as a set. */
  function SubstituteSet(snapshots: seq<Certificate>, certs: set<Certificate>): (r: set<Certificate>)
    ensures forall t :: t in certs ==> FirstVersionOf(snapshots, t) in r
    ensures forall x :: x in r ==> exists t :: t in certs && x == FirstVersionOf(snapshots, t)
  {
    set t | t in certs :: FirstVersionOf(snapshots, t)
  }

  /** Turning the rewritten list into a set never adds elements. */
  lemma {:induction false} SubstituteSetNoLarger(snapshots: seq<Certificate>, certs: set<Certificate>)
    ensures |SubstituteSet(snapshots, certs)| <= |certs|
    decreases |certs|
  {
    if certs != {} {
      var t :| t in certs;
      var rest := certs - {t};
      SubstituteSetNoLarger(snapshots, rest);
      assert SubstituteSet(snapshots, certs) == SubstituteSet(snapshots, rest) + {FirstVersionOf(snapshots, t)};
    }
  }

  /**
   * What substitution does to one order's certificates: no more elements than before,
   * the same ids, every unmatched certificate kept, and every element either an
   * unmatched original or the last snapshot carrying its id.
   */
  lemma SubstituteSetSpec(snapshots: seq<Certificate>, certs: set<Certificate>)
    ensures var r := SubstituteSet(snapshots, certs);
      && |r| <= |certs|
      && Ids(r) == Ids(certs)
      && (forall t :: t in certs && !HasSnapshot(snapshots, t.id) ==> t in r)
      && (forall x :: x in r ==> (x in certs && !HasSnapshot(snapshots, x.id)) || IsLastSnapshot(snapshots, x))
  {
    var r := SubstituteSet(snapshots, certs);
    SubstituteSetNoLarger(snapshots, certs);
    forall t | t in certs && !HasSnapshot(snapshots, t.id) ensures t in r {
      FirstVersionOfUnmatched(snapshots, t);
    }
    forall x | x in r ensures (x in certs && !HasSnapshot(snapshots, x.id)) || IsLastSnapshot(snapshots, x) {
      var t :| t in certs && x == FirstVersionOf(snapshots, t);
      if HasSnapshot(snapshots, t.id) {
        var i := LastSnapshotExists(snapshots, t.id);
        FirstVersionOfIsLast(snapshots, t, i);
      } else {
        FirstVersionOfUnmatched(snapshots, t);
      }
    }
    assert Ids(r) == Ids(certs) by {
      forall id | id in Ids(certs) ensures id in Ids(r) {
        var t :| t in certs && t.id == id;
        assert FirstVersionOf(snapshots, t) in r;
      }
    }
  }

  /** One order with its certificate collection replaced; nothing else changes. */
  function SubstituteOrder(snapshots: seq<Certificate>, o: Order): (r: Order)
    ensures r.id == o.id && r.userId == o.userId && r.active == o.active
  {
    o.(certificates := SubstituteSet(snapshots, o.certificates))
  }

  /** The listing after substitution, order by order. */
  function SubstituteAll(snapshots: seq<Certificate>, orders: seq<Order>): (r: seq<Order>)
    ensures |r| == |orders|
    ensures forall i :: 0 <= i < |orders| ==> r[i] == SubstituteOrder(snapshots, orders[i])
  {
    seq(|orders|, i requires 0 <= i < |orders| => SubstituteOrder(snapshots, orders[i]))
  }

  /**
   * Substitution keeps the number and order of the orders and every field but the
   * certificates; each collection keeps its ids and never grows.
   */
  lemma SubstituteAllKeepsOrders(snapshots: seq<Certificate>, orders: seq<Order>, i: int)
    requires 0 <= i < |orders|
    ensures var r := SubstituteAll(snapshots, orders);
      && |r| == |orders|
      && r[i].(certificates := orders[i].certificates) == orders[i]
      && |r[i].certificates| <= |orders[i].certificates|
      && Ids(r[i].certificates) == Ids(orders[i].certificates)
  {
    SubstituteSetSpec(snapshots, orders[i].certificates);
  }

  /**
   * The body of the forEach in HibernateOrderDaoImpl.getOrdersByUserId for one order: copy the collection
   * into a list, run replaceAll once per snapshot in list order, collect into a set.
   */
  method RewriteCertificates(certs: set<Certificate>, snapshots: seq<Certificate>) returns (r: set<Certificate>)
    ensures r == SubstituteSet(snapshots, certs)
  {
    var temp: seq<Certificate> := [];
    var rest := certs;
    while rest != {}
      invariant forall t :: t in certs <==> t in temp || t in rest
      invariant forall t :: t in temp ==> t !in rest
      decreases |rest|
    {
      var t :| t in rest;
      temp := temp + [t];
      rest := rest - {t};
    }
    ghost var copied := temp;
    var j := 0;
    while j < |snapshots|
      invariant 0 <= j <= |snapshots|
      invariant |temp| == |copied|
      invariant forall k :: 0 <= k < |temp| ==> temp[k] == FirstVersionOf(snapshots[..j], copied[k])
    {
      var c := snapshots[j];
      assert snapshots[..j + 1][..j] == snapshots[..j];
      var k := 0;
      while k < |temp|
        invariant 0 <= k <= |temp| == |copied|
        invariant forall m :: 0 <= m < k ==> temp[m] == FirstVersionOf(snapshots[..j + 1], copied[m])
        invariant forall m :: k <= m < |temp| ==> temp[m] == FirstVersionOf(snapshots[..j], copied[m])
      {
        if temp[k].id == c.id {
          temp := temp[k := c];
        }
        k := k + 1;
      }
      j := j + 1;
    }
    assert snapshots[..j] == snapshots;
    r := set t | t in temp;
    assert r == SubstituteSet(snapshots, certs) by {
      forall x | x in r ensures x in SubstituteSet(snapshots, certs) {
        var k :| 0 <= k < |temp| && temp[k] == x;
        assert copied[k] in certs;
      }
      forall t | t in certs ensures FirstVersionOf(snapshots, t) in r {
        var k :| 0 <= k < |copied| && copied[k] == t;
        assert temp[k] in r;
      }
    }
  }

  /** The forEach over the listing: each order's collection is overwritten in place. */
  method ApplyFirstVersions(orders: array<Order>, snapshots: seq<Certificate>)
    modifies orders
    ensures orders[..] == SubstituteAll(snapshots, old(orders[..]))
  {
    var i := 0;
    while i < orders.Length
      invariant 0 <= i <= orders.Length
      invariant forall k :: 0 <= k < i ==> orders[k] == SubstituteOrder(snapshots, old(orders[k]))
      invariant forall k :: i <= k < orders.Length ==> orders[k] == old(orders[k])
    {
      var o := orders[i];
      var certs := RewriteCertificates(o.certificates, snapshots);
      orders[i] := o.(certificates := certs);
      i := i + 1;
    }
  }
}
