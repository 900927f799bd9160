/**
 * The 4-bit edge masks a contig-graph vertex carries at each end: bit x is
 * set when the contig continues with base x. The mask type of the assembler
 * (the BitEdges class and bit_operation::BitToIndex) is not part of this
 * model; this module states the operations the graph uses on it.
 */
module BitEdges {
  import opened Nucleotides

  type Mask = bv4

  /** The mask holding only bit x. */
  function Bit(x: Base): Mask
  {
    (1 as bv4) << x
  }

  /** Whether bit x of the mask is set. */
  predicate Has(m: Mask, x: Base)
  {
    m & Bit(x) != 0
  }

  /** Sets bit x and leaves the other bits. */
  function Add(m: Mask, x: Base): (r: Mask)
    ensures Has(r, x)
    ensures forall y: Base :: y != x ==> (Has(r, y) <==> Has(m, y))
  {
    m | Bit(x)
  }

  /** Clears bit x and leaves the other bits. */
  function Remove(m: Mask, x: Base): (r: Mask)
    ensures !Has(r, x)
    ensures forall y: Base :: y != x ==> (Has(r, y) <==> Has(m, y))
  {
    m & !Bit(x)
  }

  /** Two masks with the same set bits are the same mask. */
  lemma MaskExtensional(a: Mask, b: Mask)
    requires forall y: Base :: Has(a, y) <==> Has(b, y)
    ensures a == b
  {
    assert Has(a, 0) == Has(b, 0) && Has(a, 1) == Has(b, 1);
    assert Has(a, 2) == Has(b, 2) && Has(a, 3) == Has(b, 3);
  }

  /** The number of set bits (the degree at that end of the contig). */
  function Size(m: Mask): (n: nat)
    ensures n <= 4
    ensures n == 0 <==> m == 0
  {
    (if Has(m, 0) then 1 else 0) + (if Has(m, 1) then 1 else 0)
    + (if Has(m, 2) then 1 else 0) + (if Has(m, 3) then 1 else 0)
  }

  /** The set bits below n, in increasing order. */
  function SetBitsBelow(m: Mask, n: nat): (r: seq<Base>)
    requires n <= 4
    ensures forall j, j' :: 0 <= j < j' < |r| ==> r[j] < r[j']
    ensures forall x: Base :: x in r <==> x < n && Has(m, x)
    ensures forall j :: 0 <= j < |r| ==> r[j] < n
  {
    if n == 0 then []
    else SetBitsBelow(m, n - 1) + (if Has(m, n - 1) then [n - 1] else [])
  }

  /** All set bits, in increasing base order 0..3. */
  function SetBits(m: Mask): (r: seq<Base>)
    ensures |r| == Size(m)
    ensures forall j, j' :: 0 <= j < j' < |r| ==> r[j] < r[j']
    ensures forall x: Base :: x in r <==> Has(m, x)
  {
    var one := if Has(m, 0) then 1 else 0;
    assert |SetBitsBelow(m, 1)| == one;
    assert |SetBitsBelow(m, 2)| == one + (if Has(m, 1) then 1 else 0);
    assert |SetBitsBelow(m, 3)| == |SetBitsBelow(m, 2)| + (if Has(m, 2) then 1 else 0);
    SetBitsBelow(m, 4)
  }

  /** The index of the only set bit of a one-bit mask. */
  function BitToIndex(m: Mask): (x: Base)
    requires Size(m) == 1
    ensures Has(m, x) && m == Bit(x)
    ensures forall y: Base :: Has(m, y) ==> y == x
  {
    if m == 1 then 0 else if m == 2 then 1 else if m == 4 then 2 else 3
  }

  /**
   * The mask seen from the other strand: bit b moves to bit 3 - b, so the
   * complement base takes the place of each base.
   */
  function Mirror(m: Mask): (r: Mask)
    ensures forall b: Base :: Has(r, b) <==> Has(m, 3 - b)
    ensures Size(r) == Size(m)
    ensures r == 0 <==> m == 0
  {
    ((m & 1) << 3) | ((m & 2) << 1) | ((m & 4) >> 1) | ((m & 8) >> 3)
  }

  lemma MirrorInvolution(m: Mask)
    ensures Mirror(Mirror(m)) == m
  {
  }
}
