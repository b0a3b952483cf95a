/**
 * A cell population on a Potts mesh: the list of cells, the map from each
 * cell to the element it occupies, the map back from element index to cell,
 * and the mesh whose elements are the cells' shapes.
 */
module PottsPopulation {

  import opened Wrappers
  import opened Sequences
  import opened PottsMesh

  /** A cell as the population sees it: a stable identity and whether it reports itself dead. */
  datatype Cell = Cell(id: nat, dead: bool)

  /** Outcome of the element/cell check; the two failures carry the offending element index. */
  datatype ValidationResult = Validated | NoCell(element: nat) | TooManyCells(element: nat, count: nat)

  /** Every cell has a location, and every location names an element of a mesh with `numElements` elements. */
  ghost predicate Located(cells: seq<Cell>, location: map<nat, nat>, numElements: nat)
  {
    forall c :: c in cells ==> c.id in location && location[c.id] < numElements
  }

  /** The element index of each cell, in list order. */
  function Locations(cells: seq<Cell>, location: map<nat, nat>): seq<nat>
    requires forall c :: c in cells ==> c.id in location
  {
    seq(|cells|, k requires 0 <= k < |cells| => location[cells[k].id])
  }

  // ---------------------------------------------------------------------------
  // Validation: one cell per element
  // ---------------------------------------------------------------------------

  /**
   * When every element index below `n` is the location of exactly one cell,
   * the locations are pairwise different and cover every element, so there
   * are exactly `n` cells.
   */
  lemma OneCellPerElement(locs: seq<nat>, n: nat)
    requires forall k :: 0 <= k < |locs| ==> locs[k] < n
    requires forall e :: 0 <= e < n ==> multiset(locs)[e] == 1
    ensures Distinct(locs) && Members(locs) == Below(n) && |locs| == n
  {
    forall j, k | 0 <= j < k < |locs| ensures locs[j] != locs[k]
    {
      if locs[j] == locs[k] {
        RepeatCountsTwice(locs, j, k);
      }
    }
    forall x | x in Below(n) ensures x in locs
    {
      assert multiset(locs)[x] == 1;
    }
    assert Members(locs) == Below(n);
    DistinctCardinality(locs);
    BelowCardinality(n);
  }

  /** Conversely, pairwise different locations covering every element put exactly one cell on each. */
  lemma ElementsCoveredOnce(locs: seq<nat>, n: nat)
    requires Distinct(locs) && Members(locs) == Below(n)
    ensures forall e :: 0 <= e < n ==> multiset(locs)[e] == 1
  {
    forall e | 0 <= e < n ensures multiset(locs)[e] == 1
    {
      assert e in Below(n);
      DistinctOccursOnce(locs, e);
    }
  }

  // ---------------------------------------------------------------------------
  // Removing dead cells
  // ---------------------------------------------------------------------------

  /** The live cells of `cells`, in their original order. */
  function Survivors(cells: seq<Cell>): seq<Cell>
  {
    if cells == [] then [] else (if cells[0].dead then [] else [cells[0]]) + Survivors(cells[1..])
  }

  /** The number of dead cells in `cells`. */
  function DeadCount(cells: seq<Cell>): nat
  {
    if cells == [] then 0 else (if cells[0].dead then 1 else 0) + DeadCount(cells[1..])
  }

  /** Filtering a concatenation filters each part and keeps the parts in order. */
  lemma {:induction false} SurvivorsAppend(a: seq<Cell>, b: seq<Cell>)
    ensures Survivors(a + b) == Survivors(a) + Survivors(b)
  {
    if a != [] {
      assert (a + b)[1..] == a[1..] + b;
      SurvivorsAppend(a[1..], b);
    } else {
      assert a + b == b;
    }
  }

  /**
   * The survivors are exactly the live cells, each as often as in the input,
   * and the input has as many cells as survivors plus dead ones.
   */
  lemma {:induction false} SurvivorsSpec(cells: seq<Cell>)
    ensures forall c :: c in Survivors(cells) ==> !c.dead
    ensures forall c :: multiset(Survivors(cells))[c] == if c.dead then 0 else multiset(cells)[c]
    ensures |Survivors(cells)| + DeadCount(cells) == |cells|
  {
    if cells != [] {
      SurvivorsSpec(cells[1..]);
      assert cells == [cells[0]] + cells[1..];
    }
  }

  /**
   * One step of erasing in place: with the first `i` cells filtered and the
   * rest untouched, the cell at position `k` is the next original one, and
   * erasing it when dead (or stepping past it when live) filters `i + 1`.
   */
  lemma EraseStep(orig: seq<Cell>, i: nat, cur: seq<Cell>, k: nat)
    requires i < |orig| && cur == Survivors(orig[..i]) + orig[i..] && k == |Survivors(orig[..i])|
    ensures k < |cur| && cur[k] == orig[i]
    ensures orig[i].dead ==> cur[..k] + cur[k + 1..] == Survivors(orig[..i + 1]) + orig[i + 1..]
                             && |Survivors(orig[..i + 1])| == k
    ensures !orig[i].dead ==> cur == Survivors(orig[..i + 1]) + orig[i + 1..]
                              && |Survivors(orig[..i + 1])| == k + 1
  {
    var c := orig[i];
    assert orig[i..] == [c] + orig[i + 1..];
    assert orig[..i + 1] == orig[..i] + [c];
    SurvivorsAppend(orig[..i], [c]);
    assert Survivors([c]) == if c.dead then [] else [c];
    assert cur[..k] == Survivors(orig[..i]) && cur[k + 1..] == orig[i + 1..];
  }

  /** A list with no dead cell is its own filter. */
  lemma {:induction false} NoDeadCellsSurvive(cells: seq<Cell>)
    requires forall c :: c in cells ==> !c.dead
    ensures Survivors(cells) == cells && DeadCount(cells) == 0
  {
    if cells != [] {
      NoDeadCellsSurvive(cells[1..]);
    }
  }

  /** One unfolding of the sweep at an element index. */
  lemma SweepUnfolds(s: MeshState, k: nat)
    requires WellFormed(s) && Listed(s) && k < |s.elements| && SweepFrom(s, k).Some?
    ensures s.deleted[k] ==> SweepFrom(s, k) == SweepFrom(s, k + 1)
    ensures !s.deleted[k] ==> s.elements[k] != [] && SweepFrom(s, k) == SweepFrom(MigrateStep(s, k), k + 1)
  {
  }

  // ---------------------------------------------------------------------------
  // Element blocks of the results file
  // ---------------------------------------------------------------------------

  /**
   * Whether the block of element `e` is written: the element is not deleted
   * and the cell mapped at `e`, if there is one, is not dead.
   */
  predicate Emits(e: nat, locationCell: map<nat, Option<Cell>>, s: MeshState)
    requires e < |s.deleted|
  {
    !s.deleted[e] && !(e in locationCell && locationCell[e].Some? && locationCell[e].value.dead)
  }

  /** The node lists written for `cells`, one per cell whose element is emitted, in list order. */
  function Blocks(cells: seq<Cell>, location: map<nat, nat>, locationCell: map<nat, Option<Cell>>, s: MeshState): seq<seq<nat>>
    requires |s.deleted| == |s.elements| && Located(cells, location, |s.elements|)
  {
    if cells == [] then []
    else
      var e := location[cells[0].id];
      (if Emits(e, locationCell, s) then [s.elements[e]] else []) + Blocks(cells[1..], location, locationCell, s)
  }

  /** Each block written as its node count followed by its node indices. */
  function Encode(blocks: seq<seq<nat>>): seq<nat>
  {
    if blocks == [] then [] else [|blocks[0]|] + blocks[0] + Encode(blocks[1..])
  }

  /** Reads blocks back from a payload; `None` when a count runs past the end. */
  function Decode(payload: seq<nat>): Option<seq<seq<nat>>>
    decreases |payload|
  {
    if payload == [] then Some([])
    else if |payload| < 1 + payload[0] then None
    else
      match Decode(payload[1 + payload[0]..])
      case None => None
      case Some(rest) => Some([payload[1..1 + payload[0]]] + rest)
  }

  /** Every payload of blocks reads back as the same blocks: the format is self-delimiting. */
  lemma {:induction false} DecodeEncode(blocks: seq<seq<nat>>)
    ensures Decode(Encode(blocks)) == Some(blocks)
  {
    if blocks != [] {
      var p := Encode(blocks);
      var b := blocks[0];
      assert p == [|b|] + b + Encode(blocks[1..]);
      assert p[1 + |b|..] == Encode(blocks[1..]);
      assert p[1..1 + |b|] == b;
      DecodeEncode(blocks[1..]);
      assert [b] + blocks[1..] == blocks;
    }
  }

  /** The payload of a concatenation is the concatenation of the payloads. */
  lemma {:induction false} EncodeAppend(a: seq<seq<nat>>, b: seq<seq<nat>>)
    ensures Encode(a + b) == Encode(a) + Encode(b)
  {
    if a != [] {
      assert (a + b)[1..] == a[1..] + b;
      EncodeAppend(a[1..], b);
    } else {
      assert a + b == b;
    }
  }

  /** Each block written is the element's node count followed by that many node indices. */
  lemma BlockLength(b: seq<nat>)
    ensures Encode([b]) == [|b|] + b && |Encode([b])| == 1 + |b|
  {
  }

  /** The blocks of a concatenation of cell lists are the concatenation of their blocks. */
  lemma {:induction false} BlocksAppend(a: seq<Cell>, b: seq<Cell>, location: map<nat, nat>,
                                        locationCell: map<nat, Option<Cell>>, s: MeshState)
    requires |s.deleted| == |s.elements| && Located(a + b, location, |s.elements|)
    ensures Located(a, location, |s.elements|) && Located(b, location, |s.elements|)
    ensures Blocks(a + b, location, locationCell, s) == Blocks(a, location, locationCell, s) + Blocks(b, location, locationCell, s)
  {
    if a != [] {
      assert (a + b)[1..] == a[1..] + b;
      BlocksAppend(a[1..], b, location, locationCell, s);
    } else {
      assert a + b == b;
    }
  }

  /** Writing one more cell extends the payload by that cell's block, if it is emitted. */
  lemma PayloadStep(cells: seq<Cell>, k: nat, location: map<nat, nat>,
                    locationCell: map<nat, Option<Cell>>, s: MeshState)
    requires |s.deleted| == |s.elements| && Located(cells, location, |s.elements|) && k < |cells|
    ensures Located(cells[..k], location, |s.elements|) && Located(cells[..k + 1], location, |s.elements|)
    ensures var e := location[cells[k].id];
            Encode(Blocks(cells[..k + 1], location, locationCell, s))
              == Encode(Blocks(cells[..k], location, locationCell, s))
                 + (if Emits(e, locationCell, s) then [|s.elements[e]|] + s.elements[e] else [])
  {
    assert cells[k] in cells;
    assert cells[..k + 1] == cells[..k] + [cells[k]];
    BlocksAppend(cells[..k], [cells[k]], location, locationCell, s);
    EncodeAppend(Blocks(cells[..k], location, locationCell, s), Blocks([cells[k]], location, locationCell, s));
  }

  /**
   * A cell whose element is not deleted and at which no cell, or a null
   * cell, is mapped has its block written.
   */
  lemma NullMappingDoesNotSkip(e: nat, locationCell: map<nat, Option<Cell>>, s: MeshState)
    requires e < |s.deleted| && !s.deleted[e]
    requires e !in locationCell || locationCell[e].None?
    ensures Emits(e, locationCell, s)
  {
  }

  /** When no cell is skipped, one block per cell is written: the node list of its element. */
  lemma {:induction false} AllBlocksWritten(cells: seq<Cell>, location: map<nat, nat>,
                                            locationCell: map<nat, Option<Cell>>, s: MeshState)
    requires |s.deleted| == |s.elements| && Located(cells, location, |s.elements|)
    requires forall c :: c in cells ==> Emits(location[c.id], locationCell, s)
    ensures |Blocks(cells, location, locationCell, s)| == |cells|
    ensures forall k :: 0 <= k < |cells| ==> Blocks(cells, location, locationCell, s)[k] == s.elements[location[cells[k].id]]
  {
    if cells != [] {
      AllBlocksWritten(cells[1..], location, locationCell, s);
      forall k | 1 <= k < |cells|
        ensures Blocks(cells, location, locationCell, s)[k] == s.elements[location[cells[k].id]]
      {
        assert cells[k] == cells[1..][k - 1];
      }
    }
  }

  // ---------------------------------------------------------------------------
  // The population
  // ---------------------------------------------------------------------------

  /** The cells, their element locations in both directions, and the Potts mesh. */
  class Population {
    const mesh: Mesh
    var cells: seq<Cell>
    /** Element index of each cell, keyed by cell identity. */
    var cellLocation: map<nat, nat>
    /** The cell at each element index; `None` is a null entry. */
    var locationCell: map<nat, Option<Cell>>

    constructor (mesh: Mesh, cells: seq<Cell>, cellLocation: map<nat, nat>, locationCell: map<nat, Option<Cell>>)
      ensures this.mesh == mesh && this.cells == cells
      ensures this.cellLocation == cellLocation && this.locationCell == locationCell
    {
      this.mesh := mesh;
      this.cells := cells;
      this.cellLocation := cellLocation;
      this.locationCell := locationCell;
    }

    /**
     * Counts the cells at each element index and reports the first element
     * with no cell or with more than one.
     */
    method Validate() returns (r: ValidationResult)
      requires Located(cells, cellLocation, |mesh.elementNodes|)
      ensures var locs := Locations(cells, cellLocation);
              var n := |mesh.elementNodes|;
              && (r.Validated? <==> forall e :: 0 <= e < n ==> multiset(locs)[e] == 1)
              && (r.NoCell? ==> r.element < n && multiset(locs)[r.element] == 0
                                && forall e :: 0 <= e < r.element ==> multiset(locs)[e] == 1)
              && (r.TooManyCells? ==> r.element < n && r.count == multiset(locs)[r.element] && r.count > 1
                                      && forall e :: 0 <= e < r.element ==> multiset(locs)[e] == 1)
    {
      var n := |mesh.elementNodes|;
      var counts := new nat[n](_ => 0);
      ghost var locs := Locations(cells, cellLocation);
      var k := 0;
      while k < |cells|
        invariant 0 <= k <= |cells|
        invariant forall e :: 0 <= e < n ==> counts[e] == multiset(locs[..k])[e]
      {
        assert cells[k] in cells;
        var e := cellLocation[cells[k].id];
        counts[e] := counts[e] + 1;
        assert locs[..k + 1] == locs[..k] + [locs[k]];
        k := k + 1;
      }
      assert locs[..k] == locs;
      var i := 0;
      while i < n
        invariant 0 <= i <= n
        invariant forall e :: 0 <= e < i ==> counts[e] == 1
      {
        if counts[i] == 0 {
          return NoCell(i);
        }
        if counts[i] > 1 {
          return TooManyCells(i, counts[i]);
        }
        i := i + 1;
      }
      return Validated;
    }

    /**
     * Erases every dead cell from the list in place, keeping the others in
     * order, and returns how many were erased. The mesh is left alone.
     */
    method RemoveDeadCells() returns (numRemoved: nat)
      modifies this`cells
      ensures cells == Survivors(old(cells))
      ensures numRemoved == DeadCount(old(cells))
    {
      numRemoved := 0;
      var k := 0;
      ghost var i := 0;
      while k < |cells|
        invariant 0 <= i <= |old(cells)|
        invariant cells == Survivors(old(cells)[..i]) + old(cells)[i..]
        invariant k == |Survivors(old(cells)[..i])| && numRemoved == i - k
        decreases |old(cells)| - i
      {
        EraseStep(old(cells), i, cells, k);
        if cells[k].dead {
          cells := cells[..k] + cells[k + 1..];
          numRemoved := numRemoved + 1;
        } else {
          k := k + 1;
        }
        i := i + 1;
      }
      assert old(cells)[..i] == old(cells);
      SurvivorsSpec(old(cells));
    }

    /**
     * Sweeps the elements in index order; each element not deleted takes the
     * node after its last node away from every element holding it and
     * appends it to itself.
     */
    method UpdateNodeLocations()
      requires WellFormed(mesh.State()) && Listed(mesh.State()) && SweepFrom(mesh.State(), 0).Some?
      modifies mesh
      ensures SweepFrom(old(mesh.State()), 0) == Some(mesh.State())
    {
      var k := 0;
      while k < |mesh.elementNodes|
        invariant WellFormed(mesh.State()) && Listed(mesh.State())
        invariant SweepFrom(old(mesh.State()), 0) == SweepFrom(mesh.State(), k)
        decreases |mesh.elementNodes| - k
      {
        SweepUnfolds(mesh.State(), k);
        if !mesh.elementDeleted[k] {
          ClaimNextNode(k);
        }
        k := k + 1;
      }
    }

    /**
     * One element's turn in the sweep: the node after its last node is
     * erased from every element in a copy of that node's set, then appended
     * to this element.
     */
    method ClaimNextNode(k: nat)
      requires WellFormed(mesh.State()) && Listed(mesh.State())
      requires k < |mesh.elementNodes| && mesh.elementNodes[k] != []
      modifies mesh
      ensures mesh.State() == MigrateStep(old(mesh.State()), k)
    {
      ghost var before := mesh.State();
      var nodes := mesh.elementNodes[k];
      var last := nodes[|nodes| - 1];
      var next := if last + 1 < |mesh.nodeElements| then last + 1 else 0;
      assert next == Successor(before, k);
      var containing := mesh.nodeElements[next];
      StripNone(before, next);
      assert before.containing[next] - containing == {};
      while containing != {}
        invariant containing <= before.containing[next]
        invariant mesh.State() == StripSome(before, next, before.containing[next] - containing)
        decreases containing
      {
        var j :| j in containing;
        StripStep(before, next, before.containing[next] - containing, j);
        assert before.containing[next] - containing + {j} == before.containing[next] - (containing - {j});
        mesh.DeleteNode(j, IndexOf(mesh.elementNodes[j], next));
        containing := containing - {j};
      }
      assert before.containing[next] - containing == before.containing[next];
      StripSomeShape(before, next, before.containing[next]);
      mesh.AddNode(k, next);
    }

    /** The cell mapped at element `e`; a lookup of an absent element inserts a null entry. */
    method CellAt(e: nat) returns (mapped: Option<Cell>)
      modifies this`locationCell
      ensures locationCell == if e in old(locationCell) then old(locationCell) else old(locationCell)[e := None]
      ensures mapped == locationCell[e]
    {
      if e !in locationCell {
        locationCell := locationCell[e := None];
      }
      mapped := locationCell[e];
    }

    /**
     * The element-block payload of one results line: for each cell in list
     * order, the node count and node indices of its element, unless the
     * element is deleted or the cell mapped at it is dead. Looking an element
     * up in `locationCell` inserts a null entry when there was none.
     */
    method WriteResultsToFiles() returns (payload: seq<nat>)
      requires |mesh.elementDeleted| == |mesh.elementNodes| && Located(cells, cellLocation, |mesh.elementNodes|)
      modifies this`locationCell
      ensures payload == Encode(Blocks(cells, cellLocation, old(locationCell), mesh.State()))
      ensures forall e :: e in locationCell <==> e in old(locationCell) || e in Locations(cells, cellLocation)
      ensures forall e :: e in locationCell ==>
                locationCell[e] == if e in old(locationCell) then old(locationCell)[e] else None
    {
      payload := [];
      ghost var locs := Locations(cells, cellLocation);
      var k := 0;
      while k < |cells|
        invariant 0 <= k <= |cells|
        invariant payload == Encode(Blocks(cells[..k], cellLocation, old(locationCell), mesh.State()))
        invariant forall e :: e in locationCell <==> e in old(locationCell) || e in locs[..k]
        invariant forall e :: e in locationCell ==>
                    locationCell[e] == if e in old(locationCell) then old(locationCell)[e] else None
      {
        assert cells[k] in cells;
        var e := cellLocation[cells[k].id];
        var mapped := CellAt(e);
        var deadCell := false;
        if mapped.Some? {
          deadCell := mapped.value.dead;
        }
        assert deadCell <==> e in old(locationCell) && old(locationCell)[e].Some? && old(locationCell)[e].value.dead;
        PayloadStep(cells, k, cellLocation, old(locationCell), mesh.State());
        if !mesh.elementDeleted[e] && !deadCell {
          payload := payload + [|mesh.elementNodes[e]|] + mesh.elementNodes[e];
        }
        assert locs[..k + 1] == locs[..k] + [e];
        k := k + 1;
      }
      assert cells[..k] == cells;
      assert locs[..k] == locs;
    }
  }
}
