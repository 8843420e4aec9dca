/** The two cases of a modulus that an index runs past at most once. */
module Modular {

  lemma ModBelow(i: nat, m: nat)
    requires i < m
    ensures i % m == i
  {
  }

  lemma ModOnce(i: nat, m: nat)
    requires m <= i < 2 * m
    ensures i % m == i - m
  {
    ModBelow(i - m, m);
    assert (i - m + m) % m == (i - m) % m;
  }
}
