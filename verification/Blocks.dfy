/** Numbers cut into blocks of one size: the number of a block, the place in it, and where it
    begins.  Callers hide the definitions and reason with the bounds below. */
module Blocks {
  import opened Bits

  /** Where block p begins: p times the size. */
  function Base(p: nat, size: nat): nat
  {
    if p == 0 then 0 else Base(p - 1, size) + size
  }

  lemma {:induction false} BaseIsProduct(p: nat, size: nat)
    ensures Base(p, size) == p * size
  {
    if p > 0 {
      BaseIsProduct(p - 1, size);
      assert p * size == (p - 1) * size + size;
    }
  }

  lemma {:induction false} BaseGrows(p: nat, q: nat, size: nat)
    requires p <= q
    ensures Base(p, size) <= Base(q, size)
    decreases q
  {
    if p < q {
      BaseGrows(p, q - 1, size);
    }
  }

  function BlockNo(a: nat, size: nat): (p: nat)
    requires size > 0
    ensures Base(p, size) <= a < Base(p, size) + size
  {
    QuotientAndRemainder(a, size);
    BaseIsProduct(Quotient(a, size), size);
    Quotient(a, size)
  }

  function OffsetIn(a: nat, size: nat): (o: nat)
    requires size > 0
    ensures o < size && Base(BlockNo(a, size), size) + o == a
  {
    QuotientAndRemainder(a, size);
    BaseIsProduct(BlockNo(a, size), size);
    a % size
  }

  lemma AtPlace(size: nat, p: nat, o: nat)
    requires o < size
    ensures BlockNo(Base(p, size) + o, size) == p && OffsetIn(Base(p, size) + o, size) == o
  {
    BaseIsProduct(p, size);
    PartsOf(p * size + o, p, o, size);
  }

  lemma BlocksAreApart(size: nat, p: nat, q: nat)
    requires p < q
    ensures Base(p, size) + size <= Base(q, size)
  {
    BaseIsProduct(p, size);
    BaseIsProduct(q, size);
    Grows(size, p + 1, q);
  }

  lemma NextBlock(size: nat, p: nat)
    ensures Base(p + 1, size) == Base(p, size) + size && Base(0, size) == 0
  {
  }
}
