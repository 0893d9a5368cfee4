/**
 Powers of two: what a filter byte, a CRC register and a hash table's length are measured in.
 */
module PowersOfTwo {

  function Power2(n: nat): (p: nat)
    ensures p > 0
  {
    if n == 0 then 1 else 2 * Power2(n - 1)
  }

  lemma {:induction false} PowersMultiply(m: nat, n: nat)
    ensures Power2(m + n) == Power2(m) * Power2(n)
  {
    if n > 0 {
      PowersMultiply(m, n - 1);
    }
  }

  lemma SmallPowers()
    ensures Power2(2) == 4 && Power2(4) == 16 && Power2(8) == 256
  {
    assert Power2(1) == 2;
    PowersMultiply(2, 2);
    PowersMultiply(4, 4);
  }
}
