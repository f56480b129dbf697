/** Ranks on a ring: the modular arithmetic used by the collectives. */
module Ranks {
  import opened Bits

  /** The rank d places further on. */
  function Ahead(size: nat, rank: nat, d: nat): nat
  {
    if size == 0 then 0 else (rank + d) % size
  }

  /** The rank d places back. */
  function Behind(size: nat, rank: nat, d: nat): nat
  {
    if size == 0 || d > rank + size then 0 else (rank - d + size) % size
  }

  lemma ModAround(d: nat, a: nat)
    requires d > 0 && a <= 2 * d
    ensures a % d == if a < d then a else if a < 2 * d then a - d else 0
  {
    if a < d {
      DivUnique(a, d, 0, a);
    } else if a < 2 * d {
      DivUnique(a, d, 1, a - d);
    } else {
      DivUnique(a, d, 2, 0);
    }
  }

  /** Within one turn, both neighbours are found without division, and they undo each other. */
  lemma AheadBehind(size: nat, r: nat, d: nat)
    requires r < size && d <= size
    ensures Ahead(size, r, d) == (if r + d < size then r + d else r + d - size) < size
    ensures d < size ==> Behind(size, r, d) == if d <= r then r - d else r - d + size
    ensures Behind(size, r, d) < size
    ensures Ahead(size, Behind(size, r, d), d) == r
    ensures Behind(size, Ahead(size, r, d), d) == r
  {
    ModAround(size, r + d);
    ModAround(size, r - d + size);
    ModAround(size, Behind(size, r, d) + d);
    ModAround(size, Ahead(size, r, d) - d + size);
  }
}
