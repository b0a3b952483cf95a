/**
 * Moore-neighbourhood topology of the two-dimensional Potts lattice.
 *
 * Nodes are numbered row by row from the south-west corner: node `i` of a
 * grid that is `across` nodes wide sits in row `i / across` and column
 * `i % across`. The query returns the neighbours in the fixed order
 * N, NW, W, SW, S, SE, E, NE and drops those that an edge test rules out.
 * The source computes in 32-bit `unsigned` arithmetic; that wrap-around is
 * written out here (`Wrap`).
 */
module LatticeTopology {

  import opened Sequences

  /** 2^32: every quantity in the source's neighbour query is an `unsigned`. */
  const UINT: int := 0x1_0000_0000

  type Unsigned = x: int | 0 <= x < UINT

  /** Reduction of an integer to the 32-bit unsigned value C++ stores. */
  function Wrap(x: int): Unsigned
  {
    x % UINT
  }

  datatype Direction = N | NW | W | SW | S | SE | E | NE

  /** The fixed output order of the query. */
  const Compass: seq<Direction> := [N, NW, W, SW, S, SE, E, NE]

  /** Slot of a direction in `Compass`. */
  function Position(d: Direction): nat
  {
    match d
    case N => 0
    case NW => 1
    case W => 2
    case SW => 3
    case S => 4
    case SE => 5
    case E => 6
    case NE => 7
  }

  /** Column step of a direction (east is +1). */
  function DX(d: Direction): int
  {
    match d
    case N => 0
    case NW => -1
    case W => -1
    case SW => -1
    case S => 0
    case SE => 1
    case E => 1
    case NE => 1
  }

  /** Row step of a direction (north is +1). */
  function DY(d: Direction): int
  {
    match d
    case N => 1
    case NW => 1
    case W => 0
    case SW => -1
    case S => -1
    case SE => -1
    case E => 0
    case NE => 1
  }

  /** The amount the source adds to (or subtracts from) the node index for each slot. */
  function Offset(d: Direction, across: nat): int
  {
    var a := across as int;
    match d
    case N => a
    case NW => a - 1
    case W => -1
    case SW => -a - 1
    case S => -a
    case SE => -a + 1
    case E => 1
    case NE => a + 1
  }

  /** The value held in slot `d` of the candidate vector: `nodeIndex` plus the offset, as an unsigned. */
  function Slot(i: nat, across: nat, d: Direction): Unsigned
  {
    Wrap(i + Offset(d, across))
  }

  /** Which edges of the mesh a node is taken to lie on. */
  datatype Edges = Edges(north: bool, south: bool, west: bool, east: bool)

  /**
   * The edge tests as the source writes them. The north test compares with
   * `nodes_up*(nodes_across - 1) - 1` computed in unsigned arithmetic: it is
   * the last index below the top row only when the grid is square, and it
   * wraps to 2^32 - 1 when `nodes_across == 1`.
   */
  function EdgesOf(i: nat, across: nat, up: nat): Edges
    requires across >= 1
  {
    Edges(i > Wrap(up * (across - 1) - 1), i < across, i % across == 0, i % across == across - 1)
  }

  /** A north test that matches the top row of every rectangular grid. */
  function IntendedEdgesOf(i: nat, across: nat, up: nat): Edges
    requires across >= 1
  {
    Edges(i >= across * (up - 1), i < across, i % across == 0, i % across == across - 1)
  }

  /** A direction is kept unless it points off an edge the node lies on; a diagonal needs both of its sides. */
  predicate Available(e: Edges, d: Direction)
  {
    match d
    case N => !e.north
    case NW => !(e.north || e.west)
    case W => !e.west
    case SW => !(e.south || e.west)
    case S => !e.south
    case SE => !(e.south || e.east)
    case E => !e.east
    case NE => !(e.north || e.east)
  }

  /** Positions strictly increase along `ds`: `ds` lists directions in compass order, each once. */
  predicate InCompassOrder(ds: seq<Direction>)
  {
    forall j, k :: 0 <= j < k < |ds| ==> Position(ds[j]) < Position(ds[k])
  }

  /** The directions of `ds` that `e` keeps, in the order of `ds`. */
  function Filter(e: Edges, ds: seq<Direction>): seq<Direction>
  {
    if ds == [] then []
    else (if Available(e, ds[0]) then [ds[0]] else []) + Filter(e, ds[1..])
  }

  /** Filtering keeps exactly the available members and no more entries than it was given. */
  lemma {:induction false} FilterMembers(e: Edges, ds: seq<Direction>)
    ensures forall d :: d in Filter(e, ds) <==> d in ds && Available(e, d)
    ensures |Filter(e, ds)| <= |ds|
  {
    if ds != [] {
      FilterMembers(e, ds[1..]);
      assert ds == [ds[0]] + ds[1..];
    }
  }

  /** Filtering a list in compass order yields a list in compass order. */
  lemma {:induction false} FilterKeepsOrder(e: Edges, ds: seq<Direction>)
    requires InCompassOrder(ds)
    ensures InCompassOrder(Filter(e, ds))
  {
    if ds != [] {
      FilterKeepsOrder(e, ds[1..]);
      FilterMembers(e, ds[1..]);
      var rest := Filter(e, ds[1..]);
      forall d | d in rest ensures Position(ds[0]) < Position(d) {
        var k :| 0 <= k < |ds[1..]| && ds[1..][k] == d;
        assert ds[k + 1] == d;
      }
    }
  }

  /** A direction that keeps nothing away leaves the list unchanged. */
  lemma {:induction false} FilterKeepsAll(e: Edges, ds: seq<Direction>)
    requires forall d :: d in ds ==> Available(e, d)
    ensures Filter(e, ds) == ds
  {
    if ds != [] {
      FilterKeepsAll(e, ds[1..]);
    }
  }

  lemma EveryDirectionInCompass(d: Direction)
    ensures d in Compass
  {
    match d
    case N => assert Compass[0] == d;
    case NW => assert Compass[1] == d;
    case W => assert Compass[2] == d;
    case SW => assert Compass[3] == d;
    case S => assert Compass[4] == d;
    case SE => assert Compass[5] == d;
    case E => assert Compass[6] == d;
    case NE => assert Compass[7] == d;
  }

  /** The compass lists every direction once, in compass order. */
  lemma CompassInOrder()
    ensures InCompassOrder(Compass)
    ensures forall d: Direction :: d in Compass
  {
    forall d: Direction ensures d in Compass { EveryDirectionInCompass(d); }
  }

  /** The kept directions, in compass order. */
  function AvailableDirections(e: Edges): seq<Direction>
  {
    Filter(e, Compass)
  }

  /** The kept directions are exactly the available ones, in compass order, at most eight of them. */
  lemma AvailableDirectionsSpec(e: Edges)
    ensures forall d :: d in AvailableDirections(e) <==> Available(e, d)
    ensures InCompassOrder(AvailableDirections(e))
    ensures |AvailableDirections(e)| <= 8
  {
    CompassInOrder();
    FilterMembers(e, Compass);
    FilterKeepsOrder(e, Compass);
  }

  /** The kept slots of the candidate vector, in compass order. */
  function NeighbourVector(i: nat, across: nat, e: Edges): (r: seq<Unsigned>)
    ensures |r| <= 8
  {
    var ds := AvailableDirections(e);
    AvailableDirectionsSpec(e);
    seq(|ds|, k requires 0 <= k < |ds| => Slot(i, across, ds[k]))
  }

  /** Every available direction contributes its slot to the vector. */
  lemma AvailableSlotsPresent(i: nat, across: nat, e: Edges)
    ensures forall d :: Available(e, d) ==> Slot(i, across, d) in NeighbourVector(i, across, e)
  {
    var ds := AvailableDirections(e);
    var r := NeighbourVector(i, across, e);
    AvailableDirectionsSpec(e);
    forall d | Available(e, d) ensures Slot(i, across, d) in r {
      var k :| 0 <= k < |ds| && ds[k] == d;
      assert r[k] == Slot(i, across, d);
    }
  }

  /**
   * `GetNeighbouringNodeIndicesVector` for the two-dimensional lattice: the
   * candidates N, NW, W, SW, S, SE, E, NE, each kept iff its direction is
   * available under the source's edge tests.
   */
  function NeighbouringNodeIndicesVector(i: Unsigned, across: Unsigned, up: Unsigned): (r: seq<Unsigned>)
    requires across >= 1
    ensures |r| <= 8
    ensures forall k :: k in r ==> exists d :: Available(EdgesOf(i, across, up), d) && k == Slot(i, across, d)
  {
    var e := EdgesOf(i, across, up);
    var v := NeighbourVector(i, across, e);
    forall k | k in v ensures exists d :: Available(e, d) && k == Slot(i, across, d) {
      var j :| 0 <= j < |v| && v[j] == k;
      VectorEntry(i, across, e, j);
    }
    v
  }

  /** `GetNeighbouringNodeIndices`: the entries of the vector as a set. */
  function NeighbouringNodeIndices(i: Unsigned, across: Unsigned, up: Unsigned): (s: set<Unsigned>)
    requires across >= 1
    ensures forall x :: x in s <==> x in NeighbouringNodeIndicesVector(i, across, up)
  {
    set x | x in NeighbouringNodeIndicesVector(i, across, up)
  }

  /** The same query with the north test replaced by `IntendedEdgesOf`. */
  function IntendedNeighbouringNodeIndicesVector(i: Unsigned, across: Unsigned, up: Unsigned): seq<Unsigned>
    requires across >= 1
  {
    NeighbourVector(i, across, IntendedEdgesOf(i, across, up))
  }

  // ---------------------------------------------------------------------
  // Arithmetic on the row-major numbering
  // ---------------------------------------------------------------------

  /** Values that fit in 32 bits are stored unchanged. */
  lemma WrapFits(x: int)
    requires 0 <= x < UINT
    ensures Wrap(x) == x
  {
  }

  lemma MulAtLeast(a: int, w: int)
    requires w >= 0
    ensures a >= 1 ==> a * w >= w
  {
  }

  lemma MulMonotone(a: nat, b: nat, c: nat)
    ensures a <= b ==> a * c <= b * c
  {
  }

  /** Division by a positive width is determined by quotient and remainder. */
  lemma DivModUnique(k: int, w: int, q: int, r: int)
    requires w >= 1 && 0 <= r < w && q >= 0 && k == q * w + r
    ensures k >= 0 && k / w == q && k % w == r
  {
    assert q * w >= 0;
    var q', r' := k / w, k % w;
    assert q * w - q' * w == r' - r;
    assert q * w - q' * w == (q - q') * w;
    assert q' * w - q * w == (q' - q) * w;
    MulAtLeast(q - q', w);
    MulAtLeast(q' - q, w);
  }

  /** A node in row `q < up` and column `r < across` has an index below `across * up`. */
  lemma BelowGridSize(q: nat, r: nat, across: nat, up: nat)
    requires r < across && q < up
    ensures q * across + r < across * up
  {
    MulMonotone(q + 1, up, across);
    assert (q + 1) * across == q * across + across;
  }

  /** A node with index below `across * up` lies in a row below `up`. */
  lemma RowBelowHeight(i: nat, across: nat, up: nat)
    requires across >= 1 && i < across * up
    ensures i / across < up
  {
    assert i == (i / across) * across + i % across;
    MulMonotone(up, i / across, across);
  }

  /** A node at or above index `across` is not in row 0. */
  lemma AboveFirstRow(i: nat, across: nat)
    requires across >= 1 && i >= across
    ensures i / across >= 1
  {
    var q := i / across;
    assert q * across == i - i % across > 0;
  }

  /** The south, west and east flags are the source's tests on node `i` (the north flag is left open). */
  predicate SaneFlags(i: nat, across: nat, e: Edges)
    requires across >= 1
  {
    e.south == (i < across) && e.west == (i % across == 0) && e.east == (i % across == across - 1)
  }

  /**
   * Where an available neighbour lies: the signed candidate is a valid
   * index, one row step `DY` and one column step `DX` away, with no
   * east/west wrap-around.
   */
  lemma NeighbourPosition(i: nat, across: nat, e: Edges, d: Direction)
    requires across >= 1
    requires SaneFlags(i, across, e)
    requires Available(e, d)
    ensures i + Offset(d, across) >= 0
    ensures (i + Offset(d, across)) / across == i / across + DY(d)
    ensures (i + Offset(d, across)) % across == i % across + DX(d)
  {
    var q, r := i / across, i % across;
    assert i == q * across + r;
    assert 0 <= r + DX(d) < across;
    if DY(d) == -1 {
      AboveFirstRow(i, across);
    }
    var k := i + Offset(d, across);
    OffsetIsRowAndColumnStep(d, across);
    RowShift(q, DY(d), across);
    DivModUnique(k, across, q + DY(d), r + DX(d));
  }

  /** Each offset is one row step `DY` and one column step `DX`. */
  lemma OffsetIsRowAndColumnStep(d: Direction, across: nat)
    ensures Offset(d, across) == DY(d) * across + DX(d)
  {
  }

  /** Moving `dy` rows adds `dy * across` to the row start. */
  lemma RowShift(q: int, dy: int, across: int)
    ensures (q + dy) * across == q * across + dy * across
  {
  }

  /** Two different directions never give the same signed candidate (when both are available). */
  lemma DistinctCandidates(i: nat, across: nat, e: Edges, d1: Direction, d2: Direction)
    requires across >= 1
    requires SaneFlags(i, across, e)
    requires Available(e, d1) && Available(e, d2) && d1 != d2
    ensures i + Offset(d1, across) != i + Offset(d2, across)
  {
    NeighbourPosition(i, across, e, d1);
    NeighbourPosition(i, across, e, d2);
  }

  // ---------------------------------------------------------------------
  // Properties of the query
  // ---------------------------------------------------------------------

  /** A diagonal is available exactly when both of its orthogonal directions are. */
  lemma DiagonalRule(e: Edges)
    ensures Available(e, NW) <==> Available(e, N) && Available(e, W)
    ensures Available(e, SW) <==> Available(e, S) && Available(e, W)
    ensures Available(e, SE) <==> Available(e, S) && Available(e, E)
    ensures Available(e, NE) <==> Available(e, N) && Available(e, E)
  {
  }

  /** The vector lists, in compass order, the slots of exactly the available directions. */
  lemma VectorIsFilteredCandidates(i: Unsigned, across: Unsigned, up: Unsigned)
    requires across >= 1
    ensures var ds := AvailableDirections(EdgesOf(i, across, up));
            var r := NeighbouringNodeIndicesVector(i, across, up);
            && |r| == |ds| <= 8
            && InCompassOrder(ds)
            && (forall d :: d in ds <==> Available(EdgesOf(i, across, up), d))
            && (forall k :: 0 <= k < |r| ==> r[k] == Slot(i, across, ds[k]))
  {
    AvailableDirectionsSpec(EdgesOf(i, across, up));
  }

  /** With no edge flag set all eight slots are kept, each holding the plain sum when it fits in 32 bits. */
  lemma NoEdgesKeepsAllSlots(i: nat, across: nat)
    requires across >= 1 && across + 1 <= i && i + across + 1 < UINT
    ensures var r := NeighbourVector(i, across, Edges(false, false, false, false));
            && |r| == 8
            && r[0] == i + across && r[1] == i + across - 1 && r[2] == i - 1 && r[3] == i - across - 1
            && r[4] == i - across && r[5] == i - across + 1 && r[6] == i + 1 && r[7] == i + across + 1
  {
    var e := Edges(false, false, false, false);
    FilterKeepsAll(e, Compass);
    forall d: Direction ensures Slot(i, across, d) == i + Offset(d, across) {
      WrapFits(i + Offset(d, across));
    }
  }

  /** A node on no edge gets all eight neighbours, in compass order. */
  lemma InteriorNodeHasEightNeighbours(i: Unsigned, across: Unsigned, up: Unsigned)
    requires across >= 1 && i + across + 1 < UINT
    requires EdgesOf(i, across, up) == Edges(false, false, false, false)
    ensures var r := NeighbouringNodeIndicesVector(i, across, up);
            && |r| == 8
            && r[0] == i + across && r[1] == i + across - 1 && r[2] == i - 1 && r[3] == i - across - 1
            && r[4] == i - across && r[5] == i - across + 1 && r[6] == i + 1 && r[7] == i + across + 1
  {
    DivModUnique(across, across, 1, 0);
    NoEdgesKeepsAllSlots(i, across);
  }

  /** The worked example of a 4 x 4 grid: an interior node. */
  lemma Node5Of4By4()
    ensures NeighbouringNodeIndicesVector(5, 4, 4) == [9, 8, 4, 0, 1, 2, 6, 10]
  {
    assert Wrap(4 * (4 - 1) - 1) == 11;
    assert EdgesOf(5, 4, 4) == Edges(false, false, false, false);
    InteriorNodeHasEightNeighbours(5, 4, 4);
  }

  /** The worked example of a 4 x 4 grid: the south-west corner keeps N, E and NE. */
  lemma Node0Of4By4()
    ensures NeighbouringNodeIndicesVector(0, 4, 4) == [4, 1, 5]
  {
    var e := EdgesOf(0, 4, 4);
    assert e == Edges(false, true, true, false);
    assert Filter(Edges(false, true, true, false), [N, NW, W, SW, S, SE, E, NE]) == [N, E, NE];
  }

  /** Entry `j` of the vector is the slot of the `j`-th kept direction, which is available. */
  lemma VectorEntry(i: nat, across: nat, e: Edges, j: nat)
    requires j < |NeighbourVector(i, across, e)|
    ensures j < |AvailableDirections(e)|
    ensures Available(e, AvailableDirections(e)[j])
    ensures NeighbourVector(i, across, e)[j] == Slot(i, across, AvailableDirections(e)[j])
  {
    AvailableDirectionsSpec(e);
  }

  /**
   * An entry of the vector is a kept candidate; when it fits in 32 bits it
   * lies exactly one row step and one column step of its direction away.
   */
  lemma EntryIsAdjacent(i: nat, across: nat, e: Edges, j: nat)
    requires across >= 1 && SaneFlags(i, across, e) && i + across + 1 < UINT
    requires j < |NeighbourVector(i, across, e)|
    ensures j < |AvailableDirections(e)|
    ensures var k := NeighbourVector(i, across, e)[j];
            var d := AvailableDirections(e)[j];
            && k != i
            && k / across == i / across + DY(d)
            && k % across == i % across + DX(d)
  {
    VectorEntry(i, across, e, j);
    var d := AvailableDirections(e)[j];
    NeighbourPosition(i, across, e, d);
    WrapFits(i + Offset(d, across));
  }

  /**
   * Every entry is a different node, in a row and a column at most one
   * step away from node `i`. Entry `j` lies exactly the row step `DY` and
   * the column step `DX` of the `j`-th kept direction away, so a west or
   * east neighbour is in the same row: there is no east/west wrap-around,
   * even on grids one or two nodes wide. Holds whenever `i + across + 1`
   * does not overflow 32 bits.
   */
  lemma NeighboursAreAdjacent(i: Unsigned, across: Unsigned, up: Unsigned)
    requires across >= 1 && i + across + 1 < UINT
    ensures forall k :: k in NeighbouringNodeIndicesVector(i, across, up) ==>
              && k != i
              && -1 <= k / across - i / across <= 1
              && -1 <= k % across - i % across <= 1
    ensures var r := NeighbouringNodeIndicesVector(i, across, up);
            var ds := AvailableDirections(EdgesOf(i, across, up));
            |r| == |ds| &&
            forall j :: 0 <= j < |r| ==>
              r[j] / across == i / across + DY(ds[j]) && r[j] % across == i % across + DX(ds[j])
  {
    var e := EdgesOf(i, across, up);
    assert SaneFlags(i, across, e);
    var r := NeighbourVector(i, across, e);
    var ds := AvailableDirections(e);
    forall j | 0 <= j < |r|
      ensures r[j] != i
      ensures r[j] / across == i / across + DY(ds[j]) && r[j] % across == i % across + DX(ds[j])
    {
      EntryIsAdjacent(i, across, e, j);
    }
  }

  /** Two entries at different positions of the vector are different nodes. */
  lemma EntriesDiffer(i: nat, across: nat, e: Edges, j: nat, k: nat)
    requires across >= 1 && SaneFlags(i, across, e) && i + across + 1 < UINT
    requires j < k < |NeighbourVector(i, across, e)|
    ensures NeighbourVector(i, across, e)[j] != NeighbourVector(i, across, e)[k]
  {
    VectorEntry(i, across, e, j);
    VectorEntry(i, across, e, k);
    AvailableDirectionsSpec(e);
    var ds := AvailableDirections(e);
    assert Position(ds[j]) < Position(ds[k]);
    DistinctCandidates(i, across, e, ds[j], ds[k]);
    NeighbourPosition(i, across, e, ds[j]);
    NeighbourPosition(i, across, e, ds[k]);
    WrapFits(i + Offset(ds[j], across));
    WrapFits(i + Offset(ds[k], across));
  }

  /**
   * No node appears twice in the vector, so the set returned by
   * `GetNeighbouringNodeIndices` has as many members as the vector has entries.
   */
  lemma NeighbourSetMatchesVector(i: Unsigned, across: Unsigned, up: Unsigned)
    requires across >= 1 && i + across + 1 < UINT
    ensures Distinct(NeighbouringNodeIndicesVector(i, across, up))
    ensures |NeighbouringNodeIndices(i, across, up)| == |NeighbouringNodeIndicesVector(i, across, up)|
  {
    var e := EdgesOf(i, across, up);
    assert SaneFlags(i, across, e);
    var r := NeighbourVector(i, across, e);
    forall j, k | 0 <= j < k < |r| ensures r[j] != r[k] {
      EntriesDiffer(i, across, e, j, k);
    }
    DistinctCardinality(r);
    assert NeighbouringNodeIndices(i, across, up) == Members(r);
  }

  /**
   * On a square grid of at least 2 x 2 nodes the source's north test picks
   * out exactly the top row.
   */
  lemma SquareNorthEdgeIsTopRow(i: Unsigned, w: Unsigned)
    requires w >= 2 && w * w <= UINT && i < w * w
    ensures EdgesOf(i, w, w).north <==> i / w == w - 1
  {
    var t := w * (w - 1);
    assert w * w == t + w;
    assert Wrap(w * (w - 1) - 1) == t - 1;
    RowBelowHeight(i, w, w);
    NorthTest(i, w, w);
  }

  /**
   * What the source's edge tests mean: south is row 0, west is column 0 and
   * east is the last column; north is `i >= up * (across - 1)` when the grid
   * has at least two columns, and never holds on a one-column grid.
   */
  lemma EdgeFlagsMeaning(i: Unsigned, across: Unsigned, up: Unsigned)
    requires across >= 1 && up >= 1 && up * (across - 1) <= UINT
    ensures var e := EdgesOf(i, across, up);
            && (e.south <==> i / across == 0)
            && (e.west <==> i % across == 0)
            && (e.east <==> i % across == across - 1)
            && (across >= 2 ==> (e.north <==> i >= up * (across - 1)))
            && (across == 1 ==> !e.north)
  {
    SouthIsFirstRow(i, across);
    if across >= 2 {
      NorthThresholdFits(across, up);
    } else {
      assert up * (across - 1) == 0;
    }
  }

  /** Index `i` is below `across` exactly when it is in row 0. */
  lemma SouthIsFirstRow(i: nat, across: nat)
    requires across >= 1
    ensures i < across <==> i / across == 0
  {
    if i >= across {
      AboveFirstRow(i, across);
    } else {
      DivModUnique(i, across, 0, i);
    }
  }

  /** With at least two columns the north threshold does not wrap. */
  lemma NorthThresholdFits(across: nat, up: nat)
    requires across >= 2 && up >= 1 && up * (across - 1) <= UINT
    ensures Wrap(up * (across - 1) - 1) == up * (across - 1) - 1
  {
    MulAtLeast(up, across - 1);
    WrapFits(up * (across - 1) - 1);
  }

  /** With at least two rows, `i >= across * (up - 1)` holds exactly on the top row. */
  lemma NorthTest(i: nat, across: nat, up: nat)
    requires across >= 1 && up >= 1 && i < across * up
    ensures i >= across * (up - 1) <==> i / across == up - 1
  {
    RowBelowHeight(i, across, up);
    assert i == (i / across) * across + i % across;
    MulMonotone(i / across + 1, up - 1, across);
    MulMonotone(up - 1, i / across, across);
    assert (i / across + 1) * across == (i / across) * across + across;
  }

  /** An entry of the vector lies inside the grid when the north flag marks exactly the top row. */
  lemma EntryInGrid(i: nat, across: nat, up: nat, e: Edges, j: nat)
    requires across >= 1 && across * up <= UINT && i < across * up
    requires SaneFlags(i, across, e) && (e.north <==> i / across == up - 1)
    requires j < |NeighbourVector(i, across, e)|
    ensures NeighbourVector(i, across, e)[j] < across * up
  {
    VectorEntry(i, across, e, j);
    var d := AvailableDirections(e)[j];
    RowBelowHeight(i, across, up);
    NeighbourPosition(i, across, e, d);
    CandidateInGrid(i + Offset(d, across), across, up);
    WrapFits(i + Offset(d, across));
  }

  /** A non-negative index whose row is below `up` is below `across * up`. */
  lemma CandidateInGrid(c: int, across: nat, up: nat)
    requires across >= 1 && c >= 0 && c / across < up
    ensures c < across * up
  {
    assert c == (c / across) * across + c % across;
    BelowGridSize(c / across, c % across, across, up);
  }

  /** Shared step: when the north flag marks the top row, every kept candidate is a node of the grid. */
  lemma InRangeWhenNorthIsTopRow(i: nat, across: nat, up: nat, e: Edges)
    requires across >= 1 && across * up <= UINT && i < across * up
    requires SaneFlags(i, across, e) && (e.north <==> i / across == up - 1)
    ensures forall k :: k in NeighbourVector(i, across, e) ==> k < across * up
  {
    var r := NeighbourVector(i, across, e);
    forall j | 0 <= j < |r| ensures r[j] < across * up {
      EntryInGrid(i, across, up, e, j);
    }
  }

  /** On a square grid of at least 2 x 2 nodes every neighbour is a node of the grid. */
  lemma SquareGridNeighboursInRange(i: Unsigned, w: Unsigned)
    requires w >= 2 && w * w <= UINT && i < w * w
    ensures forall k :: k in NeighbouringNodeIndicesVector(i, w, w) ==> k < w * w
  {
    SquareNorthEdgeIsTopRow(i, w);
    InRangeWhenNorthIsTopRow(i, w, w, EdgesOf(i, w, w));
  }

  /** With the intended north test every neighbour of every rectangular grid is a node of the grid. */
  lemma IntendedNeighboursInRange(i: Unsigned, across: Unsigned, up: Unsigned)
    requires across >= 1 && up >= 1 && across * up <= UINT && i < across * up
    ensures forall k :: k in IntendedNeighbouringNodeIndicesVector(i, across, up) ==> k < across * up
  {
    NorthTest(i, across, up);
    InRangeWhenNorthIsTopRow(i, across, up, IntendedEdgesOf(i, across, up));
  }

  /** On square grids of at least 2 x 2 nodes the source's query and the intended one agree. */
  lemma IntendedAgreesOnSquareGrids(i: Unsigned, w: Unsigned)
    requires w >= 2 && w * w <= UINT && i < w * w
    ensures NeighbouringNodeIndicesVector(i, w, w) == IntendedNeighbouringNodeIndicesVector(i, w, w)
  {
    SquareNorthEdgeIsTopRow(i, w);
    NorthTest(i, w, w);
    assert EdgesOf(i, w, w) == IntendedEdgesOf(i, w, w);
  }

  /**
   * As written, a 4-wide, 2-high grid (nodes 0..7) gives node 4, in the top
   * row, the north neighbour 8, which is not a node of the grid; the
   * intended test does not.
   */
  lemma NonSquareGridNorthNeighbourOffGrid()
    ensures 8 in NeighbouringNodeIndicesVector(4, 4, 2)
    ensures 8 !in IntendedNeighbouringNodeIndicesVector(4, 4, 2)
  {
    assert EdgesOf(4, 4, 2).north == false;
    assert Slot(4, 4, N) == 8;
    AvailableSlotsPresent(4, 4, EdgesOf(4, 4, 2));
    IntendedNeighboursInRange(4, 4, 2);
  }

  /** As written, on a one-column grid the north threshold wraps to 2^32 - 1, so no node is on the north edge. */
  lemma OneColumnGridHasNoNorthEdge(i: Unsigned, up: Unsigned)
    ensures !EdgesOf(i, 1, up).north
  {
  }

  /**
   * In a grid 1 wide and 2 high, node 1 (the top row) gets the neighbour 2
   * as written, which is not a node of the grid, while the intended test
   * leaves it only its southern neighbour 0.
   */
  lemma OneColumnGridNorthNeighbourOffGrid()
    ensures NeighbouringNodeIndicesVector(1, 1, 2) == [2, 0]
    ensures IntendedNeighbouringNodeIndicesVector(1, 1, 2) == [0]
  {
    assert EdgesOf(1, 1, 2) == Edges(false, false, true, true);
    assert Filter(Edges(false, false, true, true), [N, NW, W, SW, S, SE, E, NE]) == [N, S];
    assert IntendedEdgesOf(1, 1, 2) == Edges(true, false, true, true);
    assert Filter(Edges(true, false, true, true), [N, NW, W, SW, S, SE, E, NE]) == [S];
  }
}
