/**
 * The element and node arenas of a Potts mesh.
 *
 * A Potts element is the set of lattice sites one cell occupies, kept as an
 * ordered list of global node indices. Every node keeps the set of indices
 * of the elements that contain it. `MeshState` is the value view of both
 * arenas; `Mesh` is the object whose arenas the population updates in place.
 */
module PottsMesh {

  import opened Wrappers
  import opened Sequences

  /** Element node lists, element deletion flags, and each node's containing-element set. */
  datatype MeshState = MeshState(elements: seq<seq<nat>>, deleted: seq<bool>, containing: seq<set<nat>>)

  /** The two element arenas have one entry per element and every stored index points into its arena. */
  ghost predicate WellFormed(s: MeshState)
  {
    && |s.deleted| == |s.elements|
    && (forall e, n :: 0 <= e < |s.elements| && n in s.elements[e] ==> n < |s.containing|)
    && (forall n, e :: 0 <= n < |s.containing| && e in s.containing[n] ==> e < |s.elements|)
  }

  /** Every element a node records lists that node. */
  ghost predicate Listed(s: MeshState)
  {
    forall n, e :: 0 <= n < |s.containing| && e in s.containing[n] && e < |s.elements| ==> n in s.elements[e]
  }

  /** Every node an element lists records that element. */
  ghost predicate Registered(s: MeshState)
  {
    forall e, n :: 0 <= e < |s.elements| && n in s.elements[e] && n < |s.containing| ==> e in s.containing[n]
  }

  /** Node lists and containing sets describe the same incidence relation. */
  ghost predicate Consistent(s: MeshState)
  {
    Listed(s) && Registered(s)
  }

  /** No element lists a node twice. */
  ghost predicate NoRepeats(s: MeshState)
  {
    forall e :: 0 <= e < |s.elements| ==> Distinct(s.elements[e])
  }

  /** No lattice site is shared: every site is free (medium) or occupied by one element. */
  ghost predicate AtMostOne(s: MeshState)
  {
    forall n :: 0 <= n < |s.containing| ==> |s.containing[n]| <= 1
  }

  /** Every site occupied in `s` is still occupied in `t`. */
  ghost predicate NoSiteFreed(s: MeshState, t: MeshState)
  {
    |t.containing| == |s.containing|
    && forall n :: 0 <= n < |s.containing| && s.containing[n] != {} ==> t.containing[n] != {}
  }

  /** Sites kept occupied over two stretches are kept occupied over both. */
  lemma NoSiteFreedTransitive(s: MeshState, t: MeshState, u: MeshState)
    requires NoSiteFreed(s, t) && NoSiteFreed(t, u)
    ensures NoSiteFreed(s, u)
  {
  }

  /** Every lattice site is occupied by exactly one element. */
  ghost predicate Partition(s: MeshState)
  {
    forall n :: 0 <= n < |s.containing| ==> |s.containing[n]| == 1
  }

  /** A mesh of `numNodes` sites and no elements. */
  function EmptyMesh(numNodes: nat): MeshState
  {
    MeshState([], [], seq(numNodes, _ => {}))
  }

  /** The state after a new element over `nodes` is created and registered with each of its nodes. */
  function NewElement(s: MeshState, nodes: seq<nat>): MeshState
  {
    MeshState(s.elements + [nodes], s.deleted + [false],
              seq(|s.containing|, n requires 0 <= n < |s.containing| =>
                    if n in nodes then s.containing[n] + {|s.elements|} else s.containing[n]))
  }

  /** The state after node `n` is appended to element `e` and records `e`. */
  function AppendNode(s: MeshState, e: nat, n: nat): MeshState
    requires e < |s.elements| && n < |s.containing|
  {
    MeshState(s.elements[e := s.elements[e] + [n]], s.deleted, s.containing[n := s.containing[n] + {e}])
  }

  /** The state after the node at local position `k` of element `e` is erased and forgets `e`. */
  function DeleteNodeAt(s: MeshState, e: nat, k: nat): MeshState
    requires e < |s.elements| && k < |s.elements[e]| && s.elements[e][k] < |s.containing|
  {
    var n := s.elements[e][k];
    MeshState(s.elements[e := RemoveAt(s.elements[e], k)], s.deleted, s.containing[n := s.containing[n] - {e}])
  }

  /** Node `n` taken out of the elements in `done`, each of which loses its first copy of `n`. */
  function StripSome(s: MeshState, n: nat, done: set<nat>): MeshState
    requires WellFormed(s) && Listed(s) && n < |s.containing| && done <= s.containing[n]
  {
    MeshState(seq(|s.elements|, j requires 0 <= j < |s.elements| =>
                    if j in done then RemoveAt(s.elements[j], IndexOf(s.elements[j], n)) else s.elements[j]),
              s.deleted,
              s.containing[n := s.containing[n] - done])
  }

  /** Node `n` taken out of every element that contains it. */
  function StripNode(s: MeshState, n: nat): MeshState
    requires WellFormed(s) && Listed(s) && n < |s.containing|
  {
    StripSome(s, n, s.containing[n])
  }

  /** The node after `last` in global numbering, wrapping to node 0 past the last node. */
  function NextNode(last: nat, numNodes: nat): (next: nat)
    ensures last < numNodes ==> next < numNodes && next == (last + 1) % numNodes
  {
    if last + 1 < numNodes then last + 1 else 0
  }

  /** The site an element claims in the sweep: the node after its last listed node. */
  function Successor(s: MeshState, e: nat): (next: nat)
    requires e < |s.elements| && s.elements[e] != []
    ensures WellFormed(s) ==> next < |s.containing|
  {
    assert s.elements[e][|s.elements[e]| - 1] in s.elements[e];
    NextNode(s.elements[e][|s.elements[e]| - 1], |s.containing|)
  }

  /** One step of the sweep: element `e` takes over the site after its last node from every element holding it. */
  function MigrateStep(s: MeshState, e: nat): (r: MeshState)
    requires WellFormed(s) && Listed(s) && e < |s.elements| && s.elements[e] != []
    ensures WellFormed(r) && Listed(r)
    ensures |r.elements| == |s.elements| && r.deleted == s.deleted && |r.containing| == |s.containing|
  {
    var next := Successor(s, e);
    StripSomeShape(s, next, s.containing[next]);
    var t := StripNode(s, next);
    AppendKeepsShape(t, e, next);
    AppendNode(t, e, next)
  }

  /**
   * The sweep over element indices `k`, `k + 1`, ...: each element not
   * deleted takes one step. An element with no nodes has no last node, so the
   * sweep has no defined outcome (`None`).
   */
  function SweepFrom(s: MeshState, k: nat): (r: Option<MeshState>)
    requires WellFormed(s) && Listed(s)
    ensures (forall j :: k <= j < |s.elements| ==> s.deleted[j]) ==> r == Some(s)
    ensures r.None? ==> exists j :: k <= j < |s.elements| && !s.deleted[j]
    decreases |s.elements| - k
  {
    if k >= |s.elements| then Some(s)
    else if s.deleted[k] then SweepFrom(s, k + 1)
    else if s.elements[k] == [] then None
    else SweepFrom(MigrateStep(s, k), k + 1)
  }

  // ---------------------------------------------------------------------------
  // Shape lemmas used by the definitions above
  // ---------------------------------------------------------------------------

  /** Stripping a node keeps the arenas well formed and every recorded element listing its node. */
  lemma StripSomeShape(s: MeshState, n: nat, done: set<nat>)
    requires WellFormed(s) && Listed(s) && n < |s.containing| && done <= s.containing[n]
    ensures WellFormed(StripSome(s, n, done)) && Listed(StripSome(s, n, done))
    ensures |StripSome(s, n, done).elements| == |s.elements|
    ensures StripSome(s, n, done).deleted == s.deleted
    ensures |StripSome(s, n, done).containing| == |s.containing|
    ensures StripSome(s, n, done).containing[n] == s.containing[n] - done
  {
    var r := StripSome(s, n, done);
    forall m, j | 0 <= m < |r.containing| && j in r.containing[m] && j < |r.elements|
      ensures m in r.elements[j]
    {
      if j in done && m != n {
        assert m in s.elements[j];
      }
    }
  }

  /** Stripping from no element changes nothing. */
  lemma StripNone(s: MeshState, n: nat)
    requires WellFormed(s) && Listed(s) && n < |s.containing|
    ensures StripSome(s, n, {}) == s
  {
    assert StripSome(s, n, {}).elements == s.elements;
    assert s.containing[n] - {} == s.containing[n];
    assert s.containing[n := s.containing[n]] == s.containing;
  }

  /**
   * Erasing `n` from one more element `j` of its set, at `n`'s position in
   * `j`'s still untouched list, extends the strip by `j`.
   */
  lemma StripStep(s: MeshState, n: nat, done: set<nat>, j: nat)
    requires WellFormed(s) && Listed(s) && n < |s.containing| && done <= s.containing[n]
    requires j in s.containing[n] - done
    ensures var t := StripSome(s, n, done);
            && j < |t.elements| && t.elements[j] == s.elements[j] && n in t.elements[j]
            && DeleteNodeAt(t, j, IndexOf(t.elements[j], n)) == StripSome(s, n, done + {j})
  {
    var t := StripSome(s, n, done);
    var u := StripSome(s, n, done + {j});
    var d := DeleteNodeAt(t, j, IndexOf(t.elements[j], n));
    assert d.elements == u.elements;
    assert t.elements[j][IndexOf(t.elements[j], n)] == n;
    assert s.containing[n] - done - {j} == s.containing[n] - (done + {j});
    assert d.containing == u.containing;
  }

  /** Appending a node keeps the arenas well formed and every recorded element listing its node. */
  lemma AppendKeepsShape(s: MeshState, e: nat, n: nat)
    requires WellFormed(s) && Listed(s) && e < |s.elements| && n < |s.containing|
    ensures WellFormed(AppendNode(s, e, n)) && Listed(AppendNode(s, e, n))
    ensures |AppendNode(s, e, n).elements| == |s.elements|
    ensures AppendNode(s, e, n).deleted == s.deleted
    ensures |AppendNode(s, e, n).containing| == |s.containing|
  {
  }

  // ---------------------------------------------------------------------------
  // Adding a node and creating an element
  // ---------------------------------------------------------------------------

  /**
   * Appending puts `n` at the end of the element's list with the earlier
   * entries unchanged and in order, adds the element to `n`'s set and
   * changes no other element and no other node.
   */
  lemma AppendNodeEffect(s: MeshState, e: nat, n: nat)
    requires e < |s.elements| && n < |s.containing|
    ensures var r := AppendNode(s, e, n);
            && |r.elements[e]| == |s.elements[e]| + 1
            && r.elements[e][..|s.elements[e]|] == s.elements[e]
            && r.elements[e][|s.elements[e]|] == n
            && r.containing[n] == s.containing[n] + {e}
            && (forall j :: 0 <= j < |s.elements| && j != e ==> r.elements[j] == s.elements[j])
            && (forall m :: 0 <= m < |s.containing| && m != n ==> r.containing[m] == s.containing[m])
  {
  }

  /** Appending keeps every listed node recording its element, and the converse. */
  lemma AppendNodeKeepsConsistency(s: MeshState, e: nat, n: nat)
    requires e < |s.elements| && n < |s.containing|
    ensures Registered(s) ==> Registered(AppendNode(s, e, n))
    ensures Listed(s) ==> Listed(AppendNode(s, e, n))
  {
  }

  /**
   * Appending a node the element already lists repeats it in the list while
   * the node's set, having recorded the element already, stays the same.
   */
  lemma AppendPresentNodeRepeats(s: MeshState, e: nat, n: nat)
    requires e < |s.elements| && n < |s.containing|
    requires Registered(s) && n in s.elements[e]
    ensures AppendNode(s, e, n).containing == s.containing
    ensures !Distinct(AppendNode(s, e, n).elements[e])
  {
    var r := AppendNode(s, e, n);
    var k := IndexOf(s.elements[e], n);
    assert r.elements[e][k] == r.elements[e][|s.elements[e]|];
    assert s.containing[n] + {e} == s.containing[n];
    assert s.containing[n := s.containing[n]] == s.containing;
  }

  /**
   * Creating an element lists its nodes at a fresh index and registers it
   * with exactly its own nodes; the existing elements, their flags and every
   * other node's set stay as they were.
   */
  lemma NewElementEffect(s: MeshState, nodes: seq<nat>)
    requires |s.deleted| == |s.elements|
    ensures var r := NewElement(s, nodes);
            && |r.elements| == |s.elements| + 1
            && r.elements[|s.elements|] == nodes && !r.deleted[|s.elements|]
            && (forall n :: 0 <= n < |s.containing| ==> (|s.elements| in r.containing[n] <==> n in nodes || |s.elements| in s.containing[n]))
            && r.elements[..|s.elements|] == s.elements && r.deleted[..|s.deleted|] == s.deleted
            && |r.containing| == |s.containing|
            && (forall n :: 0 <= n < |s.containing| ==>
                  r.containing[n] == if n in nodes then s.containing[n] + {|s.elements|} else s.containing[n])
  {
  }

  /** A new element over in-range, non-repeating nodes keeps the mesh well formed, consistent and free of repeats. */
  lemma NewElementKeepsInvariants(s: MeshState, nodes: seq<nat>)
    requires WellFormed(s) && forall n :: n in nodes ==> n < |s.containing|
    ensures WellFormed(NewElement(s, nodes))
    ensures Consistent(s) ==> Consistent(NewElement(s, nodes))
    ensures NoRepeats(s) && Distinct(nodes) ==> NoRepeats(NewElement(s, nodes))
  {
  }

  // ---------------------------------------------------------------------------
  // The migration step and the sweep
  // ---------------------------------------------------------------------------

  /**
   * Every element loses one copy of `n` if it held one, the site records no
   * element any more, and no other site changes. An element without `n`
   * keeps its list; one with `n` loses the first copy and keeps the other
   * entries in order.
   */
  lemma StripNodeEffect(s: MeshState, n: nat)
    requires WellFormed(s) && Consistent(s) && n < |s.containing|
    ensures var r := StripNode(s, n);
            && r.containing[n] == {}
            && (forall m :: 0 <= m < |s.containing| && m != n ==> r.containing[m] == s.containing[m])
            && (forall j :: 0 <= j < |s.elements| ==>
                  multiset(r.elements[j]) == multiset(s.elements[j]) - multiset{n})
            && (forall j :: 0 <= j < |s.elements| && n !in s.elements[j] ==> r.elements[j] == s.elements[j])
            && (forall j :: 0 <= j < |s.elements| && n in s.elements[j] ==> ErasedFirst(s.elements[j], n, r.elements[j]))
  {
    var r := StripNode(s, n);
    StripSomeShape(s, n, s.containing[n]);
    forall j | 0 <= j < |s.elements|
      ensures multiset(r.elements[j]) == multiset(s.elements[j]) - multiset{n}
      ensures n !in s.elements[j] ==> r.elements[j] == s.elements[j]
      ensures n in s.elements[j] ==> ErasedFirst(s.elements[j], n, r.elements[j])
    {
      if j !in s.containing[n] {
        assert n !in s.elements[j];
        assert multiset(s.elements[j])[n] == 0;
      } else {
        var k := IndexOf(s.elements[j], n);
        assert r.elements[j] == s.elements[j][..k] + s.elements[j][k + 1..];
      }
    }
  }

  /** `t` is `s` with its first copy of `x` erased, the other entries kept in order. */
  ghost predicate ErasedFirst(s: seq<nat>, x: nat, t: seq<nat>)
  {
    exists k :: 0 <= k < |s| && s[k] == x && x !in s[..k] && t == s[..k] + s[k + 1..]
  }

  /**
   * One step of the sweep: element `e` ends with the site after its old last
   * node, that site is recorded by `e` alone, every element loses its copy
   * of the site (and `e` gets it back at the end), and every other site keeps
   * its set. Lists keep their order: an element without the site is
   * unchanged, a holder loses only its first copy, and `e`'s list is its old
   * list (less the site, if it held it) followed by the site.
   */
  lemma MigrateStepEffect(s: MeshState, e: nat)
    requires WellFormed(s) && Consistent(s) && e < |s.elements| && s.elements[e] != []
    ensures var next := Successor(s, e);
            var r := MigrateStep(s, e);
            && |r.elements[e]| >= 1 && r.elements[e][|r.elements[e]| - 1] == next
            && r.containing[next] == {e}
            && (forall m :: 0 <= m < |s.containing| && m != next ==> r.containing[m] == s.containing[m])
            && (forall j :: 0 <= j < |s.elements| && j != e ==>
                  multiset(r.elements[j]) == multiset(s.elements[j]) - multiset{next})
            && multiset(r.elements[e]) == multiset(s.elements[e]) - multiset{next} + multiset{next}
            && (forall j :: 0 <= j < |s.elements| && j != e && next !in s.elements[j] ==> r.elements[j] == s.elements[j])
            && (forall j :: 0 <= j < |s.elements| && j != e && next in s.elements[j] ==>
                  ErasedFirst(s.elements[j], next, r.elements[j]))
            && (next !in s.elements[e] ==> r.elements[e] == s.elements[e] + [next])
            && (next in s.elements[e] ==>
                  exists rest :: ErasedFirst(s.elements[e], next, rest) && r.elements[e] == rest + [next])
  {
    var next := Successor(s, e);
    StripNodeEffect(s, next);
    StripSomeShape(s, next, s.containing[next]);
    var t := StripNode(s, next);
    assert MigrateStep(s, e) == AppendNode(t, e, next);
    if next in s.elements[e] {
      assert ErasedFirst(s.elements[e], next, t.elements[e]);
    }
  }

  /** Stripping a site from a consistent, repeat-free mesh leaves it in no list and keeps the rest registered. */
  lemma StripNodeKeepsConsistency(s: MeshState, n: nat)
    requires WellFormed(s) && Consistent(s) && NoRepeats(s) && n < |s.containing|
    ensures var t := StripNode(s, n);
            && Registered(t) && NoRepeats(t)
            && (forall j :: 0 <= j < |s.elements| ==> n !in t.elements[j])
  {
    var t := StripNode(s, n);
    StripSomeShape(s, n, s.containing[n]);
    forall j | 0 <= j < |s.elements|
      ensures Distinct(t.elements[j]) && n !in t.elements[j]
    {
      if j in s.containing[n] {
        RemoveAtDistinct(s.elements[j], IndexOf(s.elements[j], n));
      } else {
        assert n !in s.elements[j];
      }
    }
    forall j, m | 0 <= j < |t.elements| && m in t.elements[j] && m < |t.containing|
      ensures j in t.containing[m]
    {
      assert m != n;
      assert m in s.elements[j];
    }
  }

  /** A step keeps node lists and containing sets in agreement and node lists free of repeats. */
  lemma MigrateStepKeepsConsistency(s: MeshState, e: nat)
    requires WellFormed(s) && Consistent(s) && NoRepeats(s) && e < |s.elements| && s.elements[e] != []
    ensures Consistent(MigrateStep(s, e)) && NoRepeats(MigrateStep(s, e))
  {
    var next := Successor(s, e);
    var t := StripNode(s, next);
    StripSomeShape(s, next, s.containing[next]);
    StripNodeKeepsConsistency(s, next);
    AppendNodeKeepsConsistency(t, e, next);
    AppendDistinct(t.elements[e], next);
  }

  /**
   * A step never makes two elements share a site, whether or not the mesh
   * has free sites, and never frees a site: only the claimed site changes
   * hands, and it ends up held by the claiming element.
   */
  lemma MigrateStepKeepsAtMostOne(s: MeshState, e: nat)
    requires WellFormed(s) && Consistent(s) && AtMostOne(s) && e < |s.elements| && s.elements[e] != []
    ensures AtMostOne(MigrateStep(s, e))
    ensures NoSiteFreed(s, MigrateStep(s, e))
    ensures MigrateStep(s, e).containing[Successor(s, e)] == {e}
  {
    MigrateStepEffect(s, e);
  }

  /** A step keeps every site occupied by exactly one element. */
  lemma MigrateStepKeepsPartition(s: MeshState, e: nat)
    requires WellFormed(s) && Consistent(s) && Partition(s) && e < |s.elements| && s.elements[e] != []
    ensures Partition(MigrateStep(s, e))
  {
    MigrateStepKeepsAtMostOne(s, e);
  }

  /** A completed sweep leaves the arenas well formed, of the same sizes, and the deletion flags untouched. */
  lemma {:induction false} SweepKeepsShape(s: MeshState, k: nat)
    requires WellFormed(s) && Listed(s) && SweepFrom(s, k).Some?
    ensures var r := SweepFrom(s, k).value;
            && WellFormed(r) && Listed(r)
            && |r.elements| == |s.elements| && r.deleted == s.deleted && |r.containing| == |s.containing|
    decreases |s.elements| - k
  {
    if k < |s.elements| {
      if s.deleted[k] {
        SweepKeepsShape(s, k + 1);
      } else {
        SweepKeepsShape(MigrateStep(s, k), k + 1);
      }
    }
  }

  /** One element's turn of a completed sweep: the rest of the sweep starts from a consistent, repeat-free mesh. */
  lemma SweepConsistencyStep(s: MeshState, k: nat) returns (t: MeshState)
    requires WellFormed(s) && Consistent(s) && NoRepeats(s) && k < |s.elements| && !s.deleted[k]
    requires SweepFrom(s, k).Some?
    ensures WellFormed(t) && Consistent(t) && NoRepeats(t) && |t.elements| == |s.elements|
    ensures SweepFrom(s, k) == SweepFrom(t, k + 1)
  {
    t := MigrateStep(s, k);
    MigrateStepKeepsConsistency(s, k);
  }

  /** A completed sweep keeps node lists and containing sets in agreement and free of repeats. */
  lemma {:induction false} SweepKeepsConsistency(s: MeshState, k: nat)
    requires WellFormed(s) && Consistent(s) && NoRepeats(s) && SweepFrom(s, k).Some?
    ensures Consistent(SweepFrom(s, k).value)
    ensures NoRepeats(SweepFrom(s, k).value)
    decreases |s.elements| - k
  {
    if k < |s.elements| {
      if s.deleted[k] {
        assert SweepFrom(s, k) == SweepFrom(s, k + 1);
        SweepKeepsConsistency(s, k + 1);
      } else {
        var t := SweepConsistencyStep(s, k);
        SweepKeepsConsistency(t, k + 1);
      }
    }
  }

  /**
   * A completed sweep over a mesh that may have free sites never makes two
   * elements share a site and never frees an occupied site.
   */
  lemma {:induction false} SweepKeepsAtMostOne(s: MeshState, k: nat)
    requires WellFormed(s) && Consistent(s) && NoRepeats(s) && AtMostOne(s) && SweepFrom(s, k).Some?
    ensures AtMostOne(SweepFrom(s, k).value)
    ensures NoSiteFreed(s, SweepFrom(s, k).value)
    decreases |s.elements| - k
  {
    if k < |s.elements| {
      if s.deleted[k] {
        SweepKeepsAtMostOne(s, k + 1);
      } else {
        assert SweepFrom(s, k) == SweepFrom(MigrateStep(s, k), k + 1);
        var t := MigrateStep(s, k);
        MigrateStepKeepsConsistency(s, k);
        MigrateStepKeepsAtMostOne(s, k);
        SweepKeepsAtMostOne(t, k + 1);
        NoSiteFreedTransitive(s, t, SweepFrom(t, k + 1).value);
      }
    }
  }

  /** A completed sweep keeps every site occupied by exactly one element. */
  lemma SweepKeepsPartition(s: MeshState, k: nat)
    requires WellFormed(s) && Consistent(s) && NoRepeats(s) && Partition(s) && SweepFrom(s, k).Some?
    ensures Partition(SweepFrom(s, k).value)
  {
    SweepKeepsAtMostOne(s, k);
  }

  // ---------------------------------------------------------------------------
  // The mutable mesh
  // ---------------------------------------------------------------------------

  /**
   * The element arena (node lists and deletion flags) and the node arena
   * (containing-element sets) of a Potts mesh, updated in place.
   */
  class Mesh {
    var elementNodes: seq<seq<nat>>
    var elementDeleted: seq<bool>
    var nodeElements: seq<set<nat>>

    /** The value view of both arenas. */
    ghost function State(): MeshState
      reads this
    {
      MeshState(elementNodes, elementDeleted, nodeElements)
    }

    /** A mesh of `numNodes` sites and no elements yet. */
    constructor (numNodes: nat)
      ensures State() == EmptyMesh(numNodes)
      ensures WellFormed(State()) && Consistent(State()) && NoRepeats(State())
    {
      elementNodes := [];
      elementDeleted := [];
      nodeElements := seq(numNodes, _ => {});
    }

    /**
     * Potts element construction: the new element lists `nodes` at the next
     * index and is registered with each of its nodes in turn.
     */
    method AddElement(nodes: seq<nat>) returns (index: nat)
      requires WellFormed(State()) && forall n :: n in nodes ==> n < |nodeElements|
      modifies this
      ensures index == old(|elementNodes|)
      ensures State() == NewElement(old(State()), nodes)
    {
      index := |elementNodes|;
      elementNodes := elementNodes + [nodes];
      elementDeleted := elementDeleted + [false];
      var k := 0;
      while k < |nodes|
        invariant 0 <= k <= |nodes|
        invariant elementNodes == old(elementNodes) + [nodes] && elementDeleted == old(elementDeleted) + [false]
        invariant |nodeElements| == old(|nodeElements|)
        invariant forall n :: 0 <= n < |nodeElements| ==>
                    nodeElements[n] == if n in nodes[..k] then old(nodeElements[n]) + {index} else old(nodeElements[n])
      {
        assert nodes[k] in nodes;
        nodeElements := nodeElements[nodes[k] := nodeElements[nodes[k]] + {index}];
        k := k + 1;
      }
      assert nodes[..k] == nodes;
    }

    /** `PottsElement::AddNode`: the node records element `e`, then goes to the end of `e`'s list. */
    method AddNode(e: nat, n: nat)
      requires e < |elementNodes| && n < |nodeElements|
      modifies this
      ensures State() == AppendNode(old(State()), e, n)
    {
      nodeElements := nodeElements[n := nodeElements[n] + {e}];
      elementNodes := elementNodes[e := elementNodes[e] + [n]];
    }

    /** Erasing the node at local position `k` of element `e`, which then forgets `e`. */
    method DeleteNode(e: nat, k: nat)
      requires e < |elementNodes| && k < |elementNodes[e]| && elementNodes[e][k] < |nodeElements|
      modifies this
      ensures State() == DeleteNodeAt(old(State()), e, k)
    {
      var n := elementNodes[e][k];
      nodeElements := nodeElements[n := nodeElements[n] - {e}];
      elementNodes := elementNodes[e := RemoveAt(elementNodes[e], k)];
    }
  }
}
