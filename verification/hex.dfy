/**
 * Cells, coordinates and hexagonal adjacency of the square board.
 *
 * The board is a DIM x DIM matrix in "offset coordinates": every row is
 * shifted by half a cell against its neighbours, so the six hex neighbours
 * of a cell are found through one of two offset tables chosen by the parity
 * of its row.
 */
module Hex {

  /** Side of the square board. */
  const DIM: int := 9

  /** Row and column at which the target starts: floor(DIM / 2). */
  const CENTER: int := DIM / 2

  /** The three states of a cell (EMPTY = 0, BLOCK = 1, TARGET = 2). */
  datatype Cell = Empty | Blocked | Target

  datatype Coord = Coord(row: int, col: int)

  /** A snapshot of the board, row by row. */
  type Grid = seq<seq<Cell>>

  predicate WellFormed(g: Grid) {
    |g| == DIM && forall i :: 0 <= i < DIM ==> |g[i]| == DIM
  }

  predicate InBounds(row: int, col: int) {
    0 <= row < DIM && 0 <= col < DIM
  }

  /** A move is valid onto an in-bounds cell that is EMPTY. */
  predicate IsValid(g: Grid, row: int, col: int)
    requires WellFormed(g)
  {
    InBounds(row, col) && g[row][col] == Empty
  }

  /** A cell on the outermost ring of the board. */
  predicate IsEscapeNode(row: int, col: int) {
    row == 0 || col == 0 || row == DIM - 1 || col == DIM - 1
  }

  // The offset tables: row deltas are shared, column deltas depend on parity.
  const RowOffsets: seq<int> := [0, -1, -1, 0, 1, 1]
  const EvenColOffsets: seq<int> := [-1, -1, 0, 1, 0, -1]
  const OddColOffsets: seq<int> := [-1, 0, 1, 1, 1, 0]

  function ColOffsets(row: int): seq<int> {
    if row % 2 == 0 then EvenColOffsets else OddColOffsets
  }

  /** The i-th hex neighbour of (row, col) in table order, on or off the board. */
  function Candidate(row: int, col: int, i: int): Coord
    requires 0 <= i < 6
  {
    Coord(row + RowOffsets[i], col + ColOffsets(row)[i])
  }

  /** Every entry of either table moves the cell. */
  lemma {:induction false} OffsetNonZero(row: int, k: int)
    requires 0 <= k < 6
    ensures RowOffsets[k] != 0 || ColOffsets(row)[k] != 0
  {
    if row % 2 == 0 {
      assert ColOffsets(row) == EvenColOffsets;
    } else {
      assert ColOffsets(row) == OddColOffsets;
    }
  }

  /**
   * res lists candidates of (row, col) whose table positions, given by offs,
   * are strictly increasing and at least i.
   */
  ghost predicate InTableOrder(row: int, col: int, res: seq<Coord>, offs: seq<int>, i: nat) {
    && |offs| == |res|
    && (forall a :: 0 <= a < |res| ==> i <= offs[a] < 6 && res[a] == Candidate(row, col, offs[a]))
    && (forall a, b :: 0 <= a < b < |res| ==> offs[a] < offs[b])
  }

  /**
   * The valid candidates of (row, col) from table position i on, in table
   * order: the loop of the neighbour enumeration from its i-th step.
   */
  function NeighborsFrom(g: Grid, row: int, col: int, i: nat): (res: seq<Coord>)
    requires WellFormed(g) && i <= 6
    ensures |res| <= 6 - i
    ensures forall x {:trigger x in res} :: x in res ==> IsValid(g, x.row, x.col)
    decreases 6 - i
  {
    if i == 6 then []
    else
      var x := Candidate(row, col, i);
      if IsValid(g, x.row, x.col) then [x] + NeighborsFrom(g, row, col, i + 1)
      else NeighborsFrom(g, row, col, i + 1)
  }

  /**
   * The hex neighbours of (row, col) onto which the target may move: at most
   * six, each one in bounds and EMPTY (NeighborsExact says which and in
   * what order).
   */
  function Neighbors(g: Grid, row: int, col: int): (res: seq<Coord>)
    requires WellFormed(g)
    ensures |res| <= 6
    ensures forall x {:trigger x in res} :: x in res ==> IsValid(g, x.row, x.col)
  {
    NeighborsFrom(g, row, col, 0)
  }

  /** From step i on, the enumeration lists exactly the valid candidates. */
  lemma {:induction false} NeighborsFromMembers(g: Grid, row: int, col: int, i: nat)
    requires WellFormed(g) && i <= 6
    ensures forall x {:trigger x in NeighborsFrom(g, row, col, i)} :: x in NeighborsFrom(g, row, col, i) <==>
      exists k :: i <= k < 6 && Candidate(row, col, k) == x && IsValid(g, x.row, x.col)
    decreases 6 - i
  {
    if i < 6 {
      NeighborsFromMembers(g, row, col, i + 1);
    }
  }

  /** From step i on, the enumeration follows the offset table. */
  lemma {:induction false} NeighborsFromOrdered(g: Grid, row: int, col: int, i: nat)
    requires WellFormed(g) && i <= 6
    ensures exists offs :: InTableOrder(row, col, NeighborsFrom(g, row, col, i), offs, i)
    decreases 6 - i
  {
    if i == 6 {
      assert NeighborsFrom(g, row, col, i) == [];
      assert InTableOrder(row, col, [], [], i);
    } else {
      NeighborsFromOrdered(g, row, col, i + 1);
      var x := Candidate(row, col, i);
      var rest := NeighborsFrom(g, row, col, i + 1);
      var offs :| InTableOrder(row, col, rest, offs, i + 1);
      if IsValid(g, x.row, x.col) {
        assert NeighborsFrom(g, row, col, i) == [x] + rest;
        InTableOrderCons(row, col, rest, offs, i);
      } else {
        assert NeighborsFrom(g, row, col, i) == rest;
        InTableOrderWeaken(row, col, rest, offs, i);
      }
    }
  }

  /** Prepending the candidate at table position i keeps the order. */
  lemma {:induction false} InTableOrderCons(row: int, col: int, res: seq<Coord>, offs: seq<int>, i: nat)
    requires i < 6 && InTableOrder(row, col, res, offs, i + 1)
    ensures InTableOrder(row, col, [Candidate(row, col, i)] + res, [i] + offs, i)
  {
    var res', offs' := [Candidate(row, col, i)] + res, [i] + offs;
    forall a | 0 <= a < |res'|
      ensures i <= offs'[a] < 6 && res'[a] == Candidate(row, col, offs'[a])
    {
      if a > 0 {
        assert offs'[a] == offs[a - 1] && res'[a] == res[a - 1];
      }
    }
    forall a, b | 0 <= a < b < |res'|
      ensures offs'[a] < offs'[b]
    {
      assert offs'[b] == offs[b - 1];
      if a > 0 {
        assert offs'[a] == offs[a - 1];
      }
    }
  }

  /** A listing in order from position i + 1 is in order from position i. */
  lemma InTableOrderWeaken(row: int, col: int, res: seq<Coord>, offs: seq<int>, i: nat)
    requires InTableOrder(row, col, res, offs, i + 1)
    ensures InTableOrder(row, col, res, offs, i)
  {
  }

  /**
   * The enumeration lists exactly the candidates that are in bounds and
   * EMPTY, each at most once, in the order of the offset tables.
   */
  lemma {:induction false} NeighborsExact(g: Grid, row: int, col: int)
    requires WellFormed(g)
    ensures var res := Neighbors(g, row, col);
      && (forall x {:trigger x in res} :: x in res <==>
            exists k :: 0 <= k < 6 && Candidate(row, col, k) == x && IsValid(g, x.row, x.col))
      && exists offs :: InTableOrder(row, col, res, offs, 0)
  {
    NeighborsFromMembers(g, row, col, 0);
    NeighborsFromOrdered(g, row, col, 0);
  }

  /** True iff every listed coordinate holds a block. */
  function AllBlocked(g: Grid, cs: seq<Coord>): (r: bool)
    requires WellFormed(g)
    requires forall i :: 0 <= i < |cs| ==> InBounds(cs[i].row, cs[i].col)
    ensures r <==> forall i :: 0 <= i < |cs| ==>
      InBounds(cs[i].row, cs[i].col) && g[cs[i].row][cs[i].col] == Blocked
  {
    if cs == [] then true
    else
      assert InBounds(cs[0].row, cs[0].col);
      g[cs[0].row][cs[0].col] == Blocked && AllBlocked(g, cs[1..])
  }

  /**
   * Every listed neighbour is EMPTY, so all of them are blocks exactly when
   * there are none, which is when no candidate is in bounds and EMPTY.
   */
  lemma {:induction false} AllBlockedIffNoNeighbor(g: Grid, row: int, col: int)
    requires WellFormed(g)
    ensures var nbs := Neighbors(g, row, col);
      && (forall i :: 0 <= i < |nbs| ==> InBounds(nbs[i].row, nbs[i].col))
      && (AllBlocked(g, nbs) <==> nbs == [])
      && (nbs == [] <==> forall k :: 0 <= k < 6 ==>
            !IsValid(g, Candidate(row, col, k).row, Candidate(row, col, k).col))
  {
    var nbs := Neighbors(g, row, col);
    forall i | 0 <= i < |nbs|
      ensures IsValid(g, nbs[i].row, nbs[i].col)
    {
      assert nbs[i] in nbs;
    }
    NeighborsExact(g, row, col);
    forall k | 0 <= k < 6 && IsValid(g, Candidate(row, col, k).row, Candidate(row, col, k).col)
      ensures nbs != []
    {
      assert Candidate(row, col, k) in nbs;
    }
    if nbs != [] {
      assert nbs[0] in nbs;
    }
  }

  /** Hex adjacency is symmetric: the two offset tables mirror each other. */
  lemma {:induction false} CandidateSymmetric(row: int, col: int, i: int)
    requires 0 <= i < 6
    ensures var y := Candidate(row, col, i);
      Candidate(y.row, y.col, (i + 3) % 6) == Coord(row, col)
  {
    var y := Candidate(row, col, i);
    // The mirror of direction i is direction i + 3 (mod 6) in either table.
    assert (y.row % 2 == 0) == (if i == 0 || i == 3 then row % 2 == 0 else row % 2 != 0);
  }

  /**
   * An in-bounds cell is on the boundary iff one of its six hex neighbours
   * lies off the board.
   */
  lemma {:induction false} EscapeIffOffBoardNeighbor(row: int, col: int)
    requires InBounds(row, col)
    ensures IsEscapeNode(row, col) <==>
      exists k :: 0 <= k < 6 && !InBounds(Candidate(row, col, k).row, Candidate(row, col, k).col)
  {
    if IsEscapeNode(row, col) {
      var k := if row == 0 then 1 else if row == DIM - 1 then 4 else if col == 0 then 0 else 3;
      assert !InBounds(Candidate(row, col, k).row, Candidate(row, col, k).col);
    } else {
      forall k | 0 <= k < 6
        ensures InBounds(Candidate(row, col, k).row, Candidate(row, col, k).col)
      {
        assert -1 <= ColOffsets(row)[k] <= 1;
      }
    }
  }

  /**
   * The end conditions are not exclusive: a target in a corner whose two
   * on-board neighbours are blocks is on the boundary and has no listed
   * neighbour at the same time.
   */
  lemma {:induction false} WinAndLoseCanCoincide()
    ensures exists g: Grid :: && WellFormed(g) && g[0][0] == Target
                              && IsEscapeNode(0, 0) && Neighbors(g, 0, 0) == []
  {
    var g: Grid := seq(DIM, i => seq(DIM, j => if i == 0 && j == 0 then Target else Blocked));
    assert ColOffsets(0) == EvenColOffsets;
    assert NeighborsFrom(g, 0, 0, 3) == [] by {
      assert NeighborsFrom(g, 0, 0, 5) == [];
    }
    assert NeighborsFrom(g, 0, 0, 0) == [];
  }
}
