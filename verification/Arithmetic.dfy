/** Remainders of a positive modulus, as the bucket arithmetic needs them. */
module Arithmetic {

  lemma MultipleAtLeast(size: nat, k: int)
    requires k >= 1
    ensures k * size >= size
  {
    assert (k - 1) * size >= 0;
  }

  lemma ModuloUnique(size: nat, x: int, q: int, r: int)
    requires size > 0 && x == q * size + r && 0 <= r < size
    ensures x % size == r && x / size == q
  {
    var q', r' := x / size, x % size;
    assert (q - q') * size == r' - r;
    if q > q' {
      MultipleAtLeast(size, q - q');
    } else if q < q' {
      MultipleAtLeast(size, q' - q);
    }
  }

  lemma TurnKeepsResidue(size: nat, x: int)
    requires size > 0
    ensures (x - size) % size == x % size == (x + size) % size
  {
    var q, r := x / size, x % size;
    ModuloUnique(size, x + size, q + 1, r);
    ModuloUnique(size, x - size, q - 1, r);
  }

  lemma SameResidue(size: nat, x: int, y: int)
    requires size > 0
    ensures (x - y) % size == 0 <==> x % size == y % size
  {
    var qx, qy := x / size, y / size;
    var d := x % size - y % size;
    assert x - y == (qx - qy) * size + d;
    if d >= 0 {
      ModuloUnique(size, x - y, qx - qy, d);
    } else {
      assert x - y == (qx - qy - 1) * size + (size + d);
      ModuloUnique(size, x - y, qx - qy - 1, size + d);
    }
  }

  lemma DivMonotone(size: nat, a: int, b: int)
    requires size > 0 && a <= b
    ensures a / size <= b / size
  {
    var qa, qb := a / size, b / size;
    if qa > qb {
      MultipleAtLeast(size, qa - qb);
    }
  }

  /** Two points at least one slot length apart fall into different slots. */
  lemma SlotsApart(size: nat, a: int, b: int)
    requires size > 0 && a + size <= b
    ensures a / size < b / size
  {
    ModuloUnique(size, a + size, a / size + 1, a % size);
    DivMonotone(size, a + size, b);
  }
}
