/** The entities the order DAO reads and writes. */
module Domain {

  /**
   * A gift certificate as one value: an order refers to certificates by value, and a
   * historical snapshot is a certificate value carrying the same id.
   */
  datatype Certificate = Certificate(id: int, name: string, description: string, duration: int)

  /** An order row: its certificates form a set (a HashSet once rewritten). */
  datatype Order = Order(id: int, userId: int, active: bool, certificates: set<Certificate>)

  /** The ids of a collection of certificates. */
  function Ids(cs: set<Certificate>): (r: set<int>)
    ensures forall c :: c in cs ==> c.id in r
    ensures forall id :: id in r ==> exists c :: c in cs && c.id == id
  {
    set c | c in cs :: c.id
  }
}
