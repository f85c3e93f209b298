/** Rows of digits: the sum of the digits, each times the power of its place. */
module Numerals {
  import opened Bits

  function Power(base: nat, n: nat): nat { if n == 0 then 1 else base * Power(base, n - 1) }

  /** Every digit times the power of its place, the last place being that of the units. */
  function Sum(ds: seq<nat>, base: nat): nat {
    if ds == [] then 0 else ds[0] * Power(base, |ds| - 1) + Sum(ds[1..], base)
  }

  lemma {:induction false} SumAppend(ds: seq<nat>, d: nat, base: nat)
    ensures Sum(ds + [d], base) == Sum(ds, base) * base + d
  {
    if ds == [] {
      assert ds + [d] == [d] && [d][1..] == [];
      assert Sum([], base) == 0 && Power(base, 0) == 1;
    } else {
      SumAppend(ds[1..], d, base);
      assert (ds + [d])[1..] == ds[1..] + [d];
      OnePlaceUp(ds[0], base, Power(base, |ds| - 1), Sum(ds[1..], base));
    }
  }

  lemma OnePlaceUp(d: nat, base: nat, p: nat, s: nat)
    ensures d * (base * p) + s * base == (d * p + s) * base
  {
    Commute(base, p);
    Assoc(d, p, base);
  }
}
