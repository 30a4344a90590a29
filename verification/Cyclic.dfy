/** Slots 0 to n - 1 in a circle. */
module Cyclic {

  /** The slot after i in a table of n. */
  function Succ(i: nat, n: nat): (k: nat)
    requires i < n
    ensures k == if i + 1 == n then 0 else i + 1
  {
    (i + 1) % n
  }

  /** How many slots a walk from c passes before it reaches i. */
  function Distance(c: nat, i: nat, n: nat): (d: nat)
    requires c < n && i < n
    ensures d < n
  {
    if c <= i then i - c else i - c + n
  }

  lemma DistanceStep(c: nat, i: nat, n: nat)
    requires c < n && i < n
    ensures Distance(Succ(c, n), i, n) == if i == c then n - 1 else Distance(c, i, n) - 1
  {
  }

  lemma DistanceInjective(c: nat, i: nat, j: nat, n: nat)
    requires c < n && i < n && j < n && i != j
    ensures Distance(c, i, n) != Distance(c, j, n)
  {
  }
}
