/**
 * The visited set of the target's search: coordinates packed into one
 * integer key, row * 97 + col, kept in a set that only grows.
 */
module NodeSets {
  import opened Hex

  /** The packing stride; it must exceed DIM - 1 for keys not to collide. */
  const STRIDE: int := 97

  function Hash(row: int, col: int): int {
    row * STRIDE + col
  }

  /** Two columns below the stride never share a key unless both parts agree. */
  lemma {:induction false} HashInjective(r1: int, c1: int, r2: int, c2: int)
    requires 0 <= c1 < STRIDE && 0 <= c2 < STRIDE
    ensures Hash(r1, c1) == Hash(r2, c2) <==> r1 == r2 && c1 == c2
  {
    StrideMultiple(r1 - r2);
  }

  /** A non-zero multiple of the stride is at least the stride away from 0. */
  lemma StrideMultiple(d: int)
    ensures d == 0 || d * STRIDE >= STRIDE || d * STRIDE <= -STRIDE
  {
  }

  /** On the board every key is unique, since DIM - 1 < STRIDE. */
  lemma {:induction false} HashInjectiveOnBoard(r1: int, c1: int, r2: int, c2: int)
    requires InBounds(r1, c1) && InBounds(r2, c2)
    ensures Hash(r1, c1) == Hash(r2, c2) <==> r1 == r2 && c1 == c2
  {
    HashInjective(r1, c1, r2, c2);
  }

  class NodeSet {
    /** The keys stored so far (the own properties of the underlying object). */
    var keys: set<int>

    constructor ()
      ensures keys == {}
    {
      keys := {};
    }

    predicate Has(row: int, col: int)
      reads this
    {
      Hash(row, col) in keys
    }

    /** Adds (row, col); for board cells, only that membership changes. */
    method Add(row: int, col: int)
      modifies this
      ensures keys == old(keys) + {Hash(row, col)}
      ensures Has(row, col)
      ensures InBounds(row, col) ==> forall r, c :: InBounds(r, c) ==>
        (Has(r, c) <==> old(Has(r, c)) || (r == row && c == col))
    {
      keys := keys + {Hash(row, col)};
      if InBounds(row, col) {
        forall r, c | InBounds(r, c)
          ensures Has(r, c) <==> old(Has(r, c)) || (r == row && c == col)
        {
          HashInjectiveOnBoard(r, c, row, col);
        }
      }
    }
  }
}
