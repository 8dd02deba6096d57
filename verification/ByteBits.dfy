/** Single bits of a byte. */
module ByteBits {
  /** 1 << k. */
  function Mask(k: nat): bv8
    requires k < 8
  {
    if k == 0 then 1 else if k == 1 then 2 else if k == 2 then 4 else if k == 3 then 8
    else if k == 4 then 16 else if k == 5 then 32 else if k == 6 then 64 else 128
  }

  lemma MaskIsShift(k: nat)
    requires k < 8
    ensures Mask(k) == (1 as bv8) << k
  {
    if k == 0 {} else if k == 1 {} else if k == 2 {} else if k == 3 {}
    else if k == 4 {} else if k == 5 {} else if k == 6 {} else {}
  }

  predicate Has(m: bv8, k: nat)
    requires k < 8
  {
    ((1 as bv8) << k) & m != 0
  }

  function With(m: bv8, k: nat): bv8
    requires k < 8
  {
    m | ((1 as bv8) << k)
  }

  function Without(m: bv8, k: nat): bv8
    requires k < 8
  {
    m & !((1 as bv8) << k)
  }

  lemma WithHas(m: bv8, k: nat, j: nat)
    requires k < 8 && j < 8
    ensures Has(With(m, k), j) == (j == k || Has(m, j))
    ensures Has(Without(m, k), j) == (j != k && Has(m, j))
    ensures Has(0xFF, j)
  {
    MaskIsShift(k);
    MaskIsShift(j);
  }

  lemma NoBits(k: nat)
    requires k < 8
    ensures !Has(0, k)
  {
  }
}
