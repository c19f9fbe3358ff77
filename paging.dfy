/**
 * The paging window of the order listings: page `page` of size `size` starts at
 * offset (page - 1) * size and holds at most `size` rows
 * (typedQuery.setFirstResult / setMaxResults).
 */
module Paging {
  import opened Wrappers

  const INT_MIN: int := -0x8000_0000
  const INT_MAX: int := 0x7fff_ffff

  /** Why the query layer refuses a window. */
  datatype PageError =
    | NegativeFirstResult   // setFirstResult with a negative offset
    | NegativeMaxResults    // setMaxResults with a negative limit
    | FirstResultOverflow   // the offset does not fit in a Java int

  predicate IsInt32(x: int) { INT_MIN <= x <= INT_MAX }

  /** Java int arithmetic: the value modulo 2^32, read back as a signed 32-bit number. */
  function Wrap32(x: int): (r: int)
    ensures IsInt32(r)
    ensures IsInt32(x) ==> r == x
    ensures (r - x) % 0x1_0000_0000 == 0
  {
    var m := x % 0x1_0000_0000;
    if m > INT_MAX then m - 0x1_0000_0000 else m
  }

  /**
   * The offset as the source computes it: `(page - 1) * size` in 32-bit
   * arithmetic, where both the subtraction and the product wrap around.
   */
  function OffsetAsWritten(page: int, size: int): (r: int)
    requires IsInt32(page) && IsInt32(size)
    ensures IsInt32(r)
    ensures IsInt32((page - 1) * size) ==> r == (page - 1) * size
    ensures (r - (page - 1) * size) % 0x1_0000_0000 == 0
  {
    WrappedProduct(Wrap32(page - 1), page - 1, size);
    Wrap32(Wrap32(page - 1) * size)
  }

  /** Wrapping a product whose first factor is congruent to `b` keeps it congruent to `b * c`. */
  lemma WrappedProduct(a: int, b: int, c: int)
    requires (a - b) % 0x1_0000_0000 == 0
    ensures (Wrap32(a * c) - b * c) % 0x1_0000_0000 == 0
  {
    CongruentProduct(a, b, c);
    CongruentTrans(Wrap32(a * c), a * c, b * c);
  }

  /** Congruence modulo 2^32 is transitive. */
  lemma CongruentTrans(u: int, v: int, w: int)
    requires (u - v) % 0x1_0000_0000 == 0 && (v - w) % 0x1_0000_0000 == 0
    ensures (u - w) % 0x1_0000_0000 == 0
  {
    var q1, q2 := (u - v) / 0x1_0000_0000, (v - w) / 0x1_0000_0000;
    assert u - w == (q1 + q2) * 0x1_0000_0000;
  }

  /** Multiplying two numbers congruent modulo 2^32 by the same factor keeps them congruent. */
  lemma CongruentProduct(a: int, b: int, c: int)
    requires (a - b) % 0x1_0000_0000 == 0
    ensures (a * c - b * c) % 0x1_0000_0000 == 0
  {
    var M := 0x1_0000_0000;
    var q := (a - b) / M;
    assert a - b == q * M;
    assert a * c - b * c == (a - b) * c;
    assert (a - b) * c == (q * c) * M;
  }

  /** Page 65538 of size 65536 is read from the same offset as page 2. */
  lemma WrappedOffsetRepeatsPage()
    ensures OffsetAsWritten(65538, 65536) == OffsetAsWritten(2, 65536) == 65536
    ensures (65538 - 1) * 65536 != (2 - 1) * 65536
  {
    assert 65537 * 65536 == 0x1_0000_0000 + 65536;
  }

  /**
   * The offset as evidently intended: exactly (page - 1) * size, refused when it is
   * negative (the query layer rejects a negative first result) or when it does not
   * fit in the int that setFirstResult takes.
   */
  function PageOffset(page: int, size: int): (r: Result<nat, PageError>)
    ensures r.Success? <==> 0 <= (page - 1) * size <= INT_MAX
    ensures r.Success? ==> r.value == (page - 1) * size
    ensures r.Failure? ==> (r.error == NegativeFirstResult <==> (page - 1) * size < 0)
  {
    var offset := (page - 1) * size;
    if offset < 0 then Failure(NegativeFirstResult)
    else if offset > INT_MAX then Failure(FirstResultOverflow)
    else Success(offset)
  }

  /** The rows from `offset` on, at most `limit` of them. */
  function Window<T>(s: seq<T>, offset: nat, limit: nat): (r: seq<T>)
    ensures |r| <= limit
    ensures |r| == if offset >= |s| then 0 else if |s| - offset < limit then |s| - offset else limit
    ensures forall i :: 0 <= i < |r| ==> offset + i < |s| && r[i] == s[offset + i]
  {
    if offset >= |s| then []
    else if |s| - offset < limit then s[offset..]
    else s[offset..offset + limit]
  }

  /**
   * One page of an already filtered and sorted sequence: as in
   * HibernateOrderDaoImpl.getNotAuditedOrdersByUserId, the first-result check comes
   * before the max-results check. The page holds every remaining row, up to `size`.
   */
  function PageWindow<T>(s: seq<T>, page: int, size: int): (r: Result<seq<T>, PageError>)
    ensures r.Success? <==> 0 <= (page - 1) * size <= INT_MAX && size >= 0
    ensures r.Success? ==> |r.value| <= size
    ensures r.Success? ==> forall i :: 0 <= i < |r.value| ==>
      (page - 1) * size + i < |s| && r.value[i] == s[(page - 1) * size + i]
    ensures r.Success? ==> (|r.value| ==
      if (page - 1) * size >= |s| then 0
      else if |s| - (page - 1) * size < size then |s| - (page - 1) * size
      else size)
  {
    match PageOffset(page, size)
    case Failure(e) => Failure(e)
    case Success(offset) =>
      if size < 0 then Failure(NegativeMaxResults) else Success(Window(s, offset, size))
  }

  /** The window as the source computes it, from the wrapping offset. */
  function PageWindowAsWritten<T>(s: seq<T>, page: int, size: int): (r: Result<seq<T>, PageError>)
    requires IsInt32(page) && IsInt32(size)
    ensures r.Success? <==> OffsetAsWritten(page, size) >= 0 && size >= 0
    ensures r.Failure? ==> (r.error == NegativeFirstResult <==> OffsetAsWritten(page, size) < 0)
    ensures r.Success? ==> |r.value| <= size
    ensures r.Success? ==> forall i :: 0 <= i < |r.value| ==>
      OffsetAsWritten(page, size) + i < |s| && r.value[i] == s[OffsetAsWritten(page, size) + i]
    ensures r.Success? ==> (|r.value| ==
      if OffsetAsWritten(page, size) >= |s| then 0
      else if |s| - OffsetAsWritten(page, size) < size then |s| - OffsetAsWritten(page, size)
      else size)
  {
    var offset := OffsetAsWritten(page, size);
    if offset < 0 then Failure(NegativeFirstResult)
    else if size < 0 then Failure(NegativeMaxResults)
    else Success(Window(s, offset, size))
  }

  /** Whenever the product fits an int, the program's window is the corrected one. */
  lemma AsWrittenAgreesWhenFits<T>(s: seq<T>, page: int, size: int)
    requires IsInt32(page) && IsInt32(size) && IsInt32((page - 1) * size)
    ensures PageWindowAsWritten(s, page, size) == PageWindow(s, page, size)
  {
  }

  /**
   * As written, page -65535 of size 65536 has the product -2^32, which wraps to 0: the
   * program shows the rows of page 1, where the corrected window refuses the page.
   */
  lemma AsWrittenNegativePageWraps<T>(s: seq<T>)
    ensures OffsetAsWritten(-65535, 65536) == 0
    ensures PageWindowAsWritten(s, -65535, 65536) == PageWindowAsWritten(s, 1, 65536)
    ensures PageWindow(s, -65535, 65536) == Failure(NegativeFirstResult)
  {
    assert -65536 * 65536 == -0x1_0000_0000;
  }

  /**
   * As written, page 32769 of size 65536 has the product 2^31, which wraps to INT_MIN:
   * the program's setFirstResult then refuses a negative offset, and the corrected
   * window refuses the page as an overflow.
   */
  lemma AsWrittenOverflowTurnsNegative<T>(s: seq<T>)
    ensures OffsetAsWritten(32769, 65536) == INT_MIN
    ensures PageWindowAsWritten(s, 32769, 65536) == Failure(NegativeFirstResult)
    ensures PageWindow(s, 32769, 65536) == Failure(FirstResultOverflow)
  {
    assert 32768 * 65536 == 0x8000_0000;
  }

  /** As written, page 65538 of size 65536 shows the rows of page 2 again, for every sequence. */
  lemma AsWrittenRepeatsPage<T>(s: seq<T>)
    ensures PageWindowAsWritten(s, 65538, 65536) == PageWindowAsWritten(s, 2, 65536)
    ensures PageWindow(s, 65538, 65536) == Failure(FirstResultOverflow)
  {
    WrappedOffsetRepeatsPage();
    assert (65538 - 1) * 65536 > INT_MAX;
  }

  /** A positive multiple of a positive size is at least that size. */
  lemma MultipleAtLeast(k: int, size: int)
    requires k >= 1 && size >= 1
    ensures k * size >= size
  {
    assert k * size == (k - 1) * size + size;
    assert (k - 1) * size >= 0;
  }

  /** The quotient's page starts at or before i and fits below i + 1. */
  lemma PageStart(i: nat, size: int)
    requires size >= 1
    ensures 0 <= (i / size + 1 - 1) * size <= i
    ensures i - (i / size + 1 - 1) * size == i % size < size
  {
    var q := i / size;
    assert q * size + i % size == i;
    assert (q + 1 - 1) * size == q * size;
  }

  /**
   * Paging covers the sequence: the element at position i is on page i / size + 1,
   * at position i % size of that page.
   */
  lemma PageCovers<T>(s: seq<T>, size: int, i: int)
    requires 1 <= size && 0 <= i < |s| && i <= INT_MAX
    ensures var p := PageWindow(s, i / size + 1, size);
      p.Success? && i % size < |p.value| && p.value[i % size] == s[i]
  {
    PageStart(i, size);
    var offset := (i / size + 1 - 1) * size;
    var p := PageWindow(s, i / size + 1, size);
    assert p.Success?;
    assert p.value[i % size] == s[offset + i % size];
  }

  /** Distinct pages of the same size never share a position of the sequence. */
  lemma PagesDisjoint<T>(s: seq<T>, size: int, p1: int, p2: int, i: int, j: int)
    requires size >= 1 && p1 != p2
    requires PageWindow(s, p1, size).Success? && PageWindow(s, p2, size).Success?
    requires 0 <= i < |PageWindow(s, p1, size).value| && 0 <= j < |PageWindow(s, p2, size).value|
    ensures (p1 - 1) * size + i != (p2 - 1) * size + j
  {
    if p1 > p2 {
      MultipleAtLeast(p1 - p2, size);
      assert (p1 - 1) * size == (p2 - 1) * size + (p1 - p2) * size;
    } else {
      MultipleAtLeast(p2 - p1, size);
      assert (p2 - 1) * size == (p1 - 1) * size + (p2 - p1) * size;
    }
  }
}
