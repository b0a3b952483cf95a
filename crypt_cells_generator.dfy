/**
 * Initial cells for a vertex-mesh crypt whose cells run the simple Wnt cell
 * cycle model. Each element's centroid height places its cell in a zone of
 * the crypt (stem, three transit generations, then the differentiated top),
 * and the zone fixes the cell's type, generation and the scale of its random
 * birth time. Heights, random draws and cycle durations are inputs.
 */
module CryptCellsGenerator {

  import opened Sequences

  datatype ProliferativeType = Stem | Transit | Differentiated

  /** Generated cells are all healthy; no other mutation state arises here. */
  datatype MutationState = Healthy

  /** The type and generation a height assigns. */
  datatype Zone = Zone(cellType: ProliferativeType, generation: nat)

  /** The four heights that bound the zones of the crypt. */
  datatype Thresholds = Thresholds(y0: real, y1: real, y2: real, y3: real)

  /** Cell cycle phase durations, in hours. */
  datatype Durations = Durations(stemG1: real, transitG1: real, sg2m: real)

  /** A generated cell: its zone, mutation state, birth time and whether its cycle model was initialised. */
  datatype GeneratedCell = GeneratedCell(cellType: ProliferativeType, mutation: MutationState, generation: nat,
                                         birthTime: real, initialised: bool)

  /** Typical length of a stem cell cycle: its G1 phase and the S, G2 and M phases. */
  function StemCycleTime(d: Durations): (t: real)
    ensures d.stemG1 >= 0.0 && d.sg2m >= 0.0 ==> t >= d.sg2m && t >= d.stemG1
  {
    d.stemG1 + d.sg2m
  }

  /** Typical length of a transit cell cycle: its G1 phase and the S, G2 and M phases. */
  function TransitCycleTime(d: Durations): (t: real)
    ensures d.transitG1 >= 0.0 && d.sg2m >= 0.0 ==> t >= d.sg2m && t >= d.transitG1
  {
    d.transitG1 + d.sg2m
  }

  /**
   * The zone of height `y`, first matching band first: at or below `y0` a
   * stem cell, below `y1`, `y2` and `y3` transit generations 1 to 3, and
   * above them generation 4, differentiated only when cells may
   * differentiate.
   */
  function ZoneOf(y: real, t: Thresholds, canDifferentiate: bool): (z: Zone)
    ensures z.generation <= 4
    ensures z.generation == 0 <==> y <= t.y0
    ensures z.cellType == Stem <==> z.generation == 0
    ensures z.cellType == Differentiated <==> z.generation == 4 && canDifferentiate
  {
    if y <= t.y0 then Zone(Stem, 0)
    else if y < t.y1 then Zone(Transit, 1)
    else if y < t.y2 then Zone(Transit, 2)
    else if y < t.y3 then Zone(Transit, 3)
    else Zone(if canDifferentiate then Differentiated else Transit, 4)
  }

  /** 1 when `b` holds, else 0. */
  function Indicator(b: bool): nat
  {
    if b then 1 else 0
  }

  /**
   * With ordered thresholds the generation counts the bands below `y`: one
   * for being above `y0` and one for each of `y1`, `y2`, `y3` reached.
   */
  lemma GenerationCountsBands(y: real, t: Thresholds, canDifferentiate: bool)
    requires t.y0 < t.y1 <= t.y2 <= t.y3
    ensures ZoneOf(y, t, canDifferentiate).generation
            == Indicator(y > t.y0) + Indicator(y >= t.y1) + Indicator(y >= t.y2) + Indicator(y >= t.y3)
  {
  }

  /** With ordered thresholds a higher cell is never of an earlier generation. */
  lemma GenerationMonotone(y: real, y': real, t: Thresholds, canDifferentiate: bool)
    requires t.y0 < t.y1 <= t.y2 <= t.y3 && y <= y'
    ensures ZoneOf(y, t, canDifferentiate).generation <= ZoneOf(y', t, canDifferentiate).generation
  {
    GenerationCountsBands(y, t, canDifferentiate);
    GenerationCountsBands(y', t, canDifferentiate);
  }

  /** The typical cycle time that scales a zone's birth time: the stem time for stem cells, else the transit time. */
  function CycleTime(z: Zone, d: Durations): real
  {
    if z.cellType == Stem then StemCycleTime(d) else TransitCycleTime(d)
  }

  /**
   * Which typical cycle time scales a cell's birth time, read off its
   * height: the stem time at or below `y0`, the transit time above it,
   * differentiated cells included.
   */
  lemma CycleTimeByHeight(y: real, t: Thresholds, canDifferentiate: bool, d: Durations)
    ensures CycleTime(ZoneOf(y, t, canDifferentiate), d) == if y <= t.y0 then StemCycleTime(d) else TransitCycleTime(d)
  {
  }

  /**
   * Birth time: 0 without random birth times; otherwise minus the draw
   * times the typical cycle time of the cell's zone.
   */
  function BirthTime(randomBirthTimes: bool, draw: real, cycleTime: real): (b: real)
    ensures !randomBirthTimes ==> b == 0.0
  {
    (if randomBirthTimes then -draw else 0.0) * cycleTime
  }

  /**
   * A draw in [0, 1) and a positive cycle time give a birth time in the last
   * cycle: after minus one cycle time and not after 0.
   */
  lemma BirthTimeInLastCycle(randomBirthTimes: bool, draw: real, cycleTime: real)
    requires 0.0 <= draw < 1.0 && cycleTime > 0.0
    ensures BirthTime(randomBirthTimes, draw, cycleTime) <= 0.0
    ensures randomBirthTimes ==> BirthTime(randomBirthTimes, draw, cycleTime) > -cycleTime
  {
    if randomBirthTimes {
      assert cycleTime - draw * cycleTime == (1.0 - draw) * cycleTime;
      assert (-draw) * cycleTime == -(draw * cycleTime);
    }
  }

  // ---------------------------------------------------------------------------
  // Which elements get a cell
  // ---------------------------------------------------------------------------

  /** Whether element `i` gets a cell: every element when no locations are given, else the listed ones. */
  predicate IsSelected(i: nat, locations: seq<nat>)
  {
    locations == [] || i in locations
  }

  /** The selected element indices below `n`, in increasing order. */
  function Selected(n: nat, locations: seq<nat>): seq<nat>
  {
    if n == 0 then [] else Selected(n - 1, locations) + (if IsSelected(n - 1, locations) then [n - 1] else [])
  }

  /** Strictly increasing entries. */
  predicate Increasing(s: seq<nat>)
  {
    forall j, k :: 0 <= j < k < |s| ==> s[j] < s[k]
  }

  /**
   * The selected indices are increasing, and an index is selected exactly
   * when it is below `n` and listed (or nothing is listed).
   */
  lemma {:induction false} SelectedSpec(n: nat, locations: seq<nat>)
    ensures Increasing(Selected(n, locations))
    ensures forall i: nat :: i in Selected(n, locations) <==> i < n && IsSelected(i, locations)
  {
    if n > 0 {
      SelectedSpec(n - 1, locations);
      var before := Selected(n - 1, locations);
      var sel := Selected(n, locations);
      forall j, k | 0 <= j < k < |sel| ensures sel[j] < sel[k]
      {
        if k >= |before| {
          assert sel[j] in before;
        }
      }
    }
  }

  /** With no locations given every element index below `n` is selected, in order. */
  lemma {:induction false} AllSelectedWithoutLocations(n: nat)
    ensures Selected(n, []) == seq(n, i => i)
  {
    if n > 0 {
      AllSelectedWithoutLocations(n - 1);
    }
  }

  /** An increasing sequence has no repeats. */
  lemma IncreasingIsDistinct(s: seq<nat>)
    requires Increasing(s)
    ensures Distinct(s)
  {
  }

  /**
   * When locations are given, one cell is generated per listed location
   * exactly when the list has no repeats and names only existing elements;
   * otherwise fewer cells are generated than locations listed.
   */
  lemma SelectedCount(n: nat, locations: seq<nat>)
    requires locations != []
    ensures |Selected(n, locations)| <= |locations|
    ensures |Selected(n, locations)| == |locations| <==> Distinct(locations) && forall x :: x in locations ==> x < n
  {
    var sel := Selected(n, locations);
    var listed := Members(locations);
    SelectedSpec(n, locations);
    IncreasingIsDistinct(sel);
    DistinctCardinality(sel);
    assert Members(sel) == listed * Below(n);
    MembersBound(locations);
    assert |listed * Below(n)| + |listed - Below(n)| == |listed| by {
      assert listed == (listed * Below(n)) + (listed - Below(n));
      assert (listed * Below(n)) !! (listed - Below(n));
    }
    if Distinct(locations) && forall x :: x in locations ==> x < n {
      DistinctCardinality(locations);
      assert listed - Below(n) == {};
    }
    if |sel| == |locations| {
      assert listed - Below(n) == {};
      forall x | x in locations ensures x < n
      {
        assert x in listed;
        assert x !in listed - Below(n);
        assert x in Below(n);
      }
    }
  }

  // ---------------------------------------------------------------------------
  // Generating the cells
  // ---------------------------------------------------------------------------

  /**
   * The cell generated for element `i`: the zone of its centroid height, a
   * healthy mutation state, and a birth time from the draw made at index `i`.
   */
  function CellFor(i: nat, heights: seq<real>, draws: seq<real>, randomBirthTimes: bool, t: Thresholds,
                   canDifferentiate: bool, d: Durations, initialiseCells: bool): (c: GeneratedCell)
    requires i < |heights| && (randomBirthTimes ==> i < |draws|)
    ensures c.mutation == Healthy && c.initialised == initialiseCells
    ensures c.generation <= 4 && (c.cellType == Stem <==> c.generation == 0)
    ensures (c.generation == 0 <==> heights[i] <= t.y0)
    ensures !randomBirthTimes ==> c.birthTime == 0.0
  {
    var z := ZoneOf(heights[i], t, canDifferentiate);
    var draw := if randomBirthTimes then draws[i] else 0.0;
    GeneratedCell(z.cellType, Healthy, z.generation, BirthTime(randomBirthTimes, draw, CycleTime(z, d)), initialiseCells)
  }

  /** The cells generated for the element indices `sel`, in that order. */
  function CellsFor(sel: seq<nat>, heights: seq<real>, draws: seq<real>, randomBirthTimes: bool, t: Thresholds,
                    canDifferentiate: bool, d: Durations, initialiseCells: bool): seq<GeneratedCell>
    requires forall j :: 0 <= j < |sel| ==> sel[j] < |heights| && (randomBirthTimes ==> sel[j] < |draws|)
  {
    seq(|sel|, j requires 0 <= j < |sel| =>
      CellFor(sel[j], heights, draws, randomBirthTimes, t, canDifferentiate, d, initialiseCells))
  }

  /** Generating for one more selected index appends that index's cell. */
  lemma CellsForAppend(sel: seq<nat>, i: nat, heights: seq<real>, draws: seq<real>, randomBirthTimes: bool,
                       t: Thresholds, canDifferentiate: bool, d: Durations, initialiseCells: bool)
    requires forall j :: 0 <= j < |sel| ==> sel[j] < |heights| && (randomBirthTimes ==> sel[j] < |draws|)
    requires i < |heights| && (randomBirthTimes ==> i < |draws|)
    ensures CellsFor(sel + [i], heights, draws, randomBirthTimes, t, canDifferentiate, d, initialiseCells)
         == CellsFor(sel, heights, draws, randomBirthTimes, t, canDifferentiate, d, initialiseCells)
            + [CellFor(i, heights, draws, randomBirthTimes, t, canDifferentiate, d, initialiseCells)]
  {
  }

  /**
   * Generates the crypt's cells into a cleared list: for each element index
   * in increasing order, a cell in the zone of the element's centroid
   * height, kept when the index is selected. With random birth times a draw
   * is taken at every element index, kept or not; `heights[i]` and
   * `draws[i]` belong to element `i`.
   */
  method GenerateForVertexCrypt(heights: seq<real>, locations: seq<nat>, randomBirthTimes: bool, draws: seq<real>,
                                t: Thresholds, canDifferentiate: bool, d: Durations, initialiseCells: bool)
    returns (cells: seq<GeneratedCell>)
    requires randomBirthTimes ==> |draws| >= |heights|
    ensures SelectedWithin(|heights|, locations)
    ensures cells == CellsFor(Selected(|heights|, locations), heights, draws, randomBirthTimes, t,
                              canDifferentiate, d, initialiseCells)
  {
    cells := [];
    var i := 0;
    while i < |heights|
      invariant 0 <= i <= |heights|
      invariant SelectedWithin(i, locations)
      invariant cells == CellsFor(Selected(i, locations), heights, draws, randomBirthTimes, t,
                                  canDifferentiate, d, initialiseCells)
    {
      var draw := if randomBirthTimes then draws[i] else 0.0;
      var z := ZoneOf(heights[i], t, canDifferentiate);
      var cell := GeneratedCell(z.cellType, Healthy, z.generation, BirthTime(randomBirthTimes, draw, CycleTime(z, d)),
                                initialiseCells);
      ghost var before := Selected(i, locations);
      SelectedSpec(i + 1, locations);
      if locations == [] || i in locations {
        assert cell == CellFor(i, heights, draws, randomBirthTimes, t, canDifferentiate, d, initialiseCells);
        CellsForAppend(before, i, heights, draws, randomBirthTimes, t, canDifferentiate, d, initialiseCells);
        cells := cells + [cell];
        assert Selected(i + 1, locations) == before + [i];
      } else {
        assert Selected(i + 1, locations) == before;
      }
      i := i + 1;
    }
  }

  /** Every selected index below `n` is an element index below `n`. */
  ghost predicate SelectedWithin(n: nat, locations: seq<nat>)
  {
    forall j :: 0 <= j < |Selected(n, locations)| ==> Selected(n, locations)[j] < n
  }

  /** Cell `j` of the output comes from the `j`-th selected element, healthy and in its element's zone. */
  lemma GeneratedCellsSpec(heights: seq<real>, locations: seq<nat>, randomBirthTimes: bool, draws: seq<real>,
                           t: Thresholds, canDifferentiate: bool, d: Durations, initialiseCells: bool)
    requires randomBirthTimes ==> |draws| >= |heights|
    ensures var sel := Selected(|heights|, locations);
            SelectedWithin(|heights|, locations) &&
            var cells := CellsFor(sel, heights, draws, randomBirthTimes, t, canDifferentiate, d, initialiseCells);
            && |cells| == |sel|
            && forall j :: 0 <= j < |cells| ==>
                 && cells[j].mutation == Healthy
                 && cells[j].cellType == ZoneOf(heights[sel[j]], t, canDifferentiate).cellType
                 && cells[j].generation == ZoneOf(heights[sel[j]], t, canDifferentiate).generation
                 && cells[j].initialised == initialiseCells
                 && cells[j].birthTime == BirthTime(randomBirthTimes, if randomBirthTimes then draws[sel[j]] else 0.0,
                                                    CycleTime(ZoneOf(heights[sel[j]], t, canDifferentiate), d))
  {
    var sel := Selected(|heights|, locations);
    SelectedSpec(|heights|, locations);
    forall j | 0 <= j < |sel| ensures sel[j] < |heights|
    {
      assert sel[j] in sel;
    }
  }

  /**
   * With draws in [0, 1) and positive cycle times, every generated cell was
   * born within the last cycle of its zone, and at time 0 without random
   * birth times.
   */
  lemma GeneratedBirthTimes(heights: seq<real>, locations: seq<nat>, randomBirthTimes: bool, draws: seq<real>,
                            t: Thresholds, canDifferentiate: bool, d: Durations, initialiseCells: bool)
    requires randomBirthTimes ==> |draws| >= |heights|
    requires forall k :: 0 <= k < |draws| ==> 0.0 <= draws[k] < 1.0
    requires StemCycleTime(d) > 0.0 && TransitCycleTime(d) > 0.0
    ensures var sel := Selected(|heights|, locations);
            SelectedWithin(|heights|, locations) &&
            var cells := CellsFor(sel, heights, draws, randomBirthTimes, t, canDifferentiate, d, initialiseCells);
            forall j :: 0 <= j < |cells| ==>
              && cells[j].birthTime <= 0.0
              && (randomBirthTimes ==> cells[j].birthTime > -CycleTime(ZoneOf(heights[sel[j]], t, canDifferentiate), d))
              && (!randomBirthTimes ==> cells[j].birthTime == 0.0)
  {
    var sel := Selected(|heights|, locations);
    GeneratedCellsSpec(heights, locations, randomBirthTimes, draws, t, canDifferentiate, d, initialiseCells);
    var cells := CellsFor(sel, heights, draws, randomBirthTimes, t, canDifferentiate, d, initialiseCells);
    forall j | 0 <= j < |cells|
      ensures cells[j].birthTime <= 0.0
      ensures randomBirthTimes ==> cells[j].birthTime > -CycleTime(ZoneOf(heights[sel[j]], t, canDifferentiate), d)
    {
      var draw := if randomBirthTimes then draws[sel[j]] else 0.0;
      BirthTimeInLastCycle(randomBirthTimes, draw, CycleTime(ZoneOf(heights[sel[j]], t, canDifferentiate), d));
    }
  }
}
