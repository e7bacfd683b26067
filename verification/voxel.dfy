/**
  The voxel registry and the local support rule of src/server/voxel.ts.

  Each voxel records whether it rests on the ground (`baseLevel`, fixed at
  creation), whether it is currently held up from below (`baseSupported`)
  and its `load`.  `calculateLoad` applies a three-way rule: a ground voxel
  carries no load; a voxel whose down neighbour is supported becomes
  supported with no load; any other voxel becomes unsupported, breaks and
  gets load 1.  Breaking destroys the voxel's part, which fires a removal
  event; the handler of that event clears the voxel's slot and recomputes
  every neighbour.

  Voxels live in an arena indexed by `VoxelId`; the registry maps grid
  coordinates to ids.  The ground probe is an input of `NewVoxel`, and the
  removal events fired by `Break` wait, in order, in `removed` until the
  engine delivers them to `OnRemoved` (`DeliverNext`), after the
  `calculateLoad` that fired them has returned.
*/
module Voxels {
  import opened Wrappers
  import opened Grid

  type VoxelId = int

  /** The mutable state of one `Voxel` object. `attached` says that its
      part is still in the voxel folder, i.e. it has not broken. */
  datatype VoxelState = VoxelState(
    position: Coord,
    baseLevel: bool,
    baseSupported: bool,
    load: int,
    attached: bool)

  /** What every `calculateLoad` leaves behind: a ground voxel stays
      supported, the load is 0 exactly when supported and 1 otherwise, and
      an unsupported voxel has broken. */
  predicate Settled(v: VoxelState)
  {
    (v.baseLevel ==> v.baseSupported) &&
    v.load == (if v.baseSupported then 0 else 1) &&
    (!v.baseSupported ==> !v.attached)
  }

  /** The three-way rule holds at `id` against the registry `grid` and the
      current state of the voxel below. */
  ghost predicate RuleAt(grid: Table<VoxelId>, voxels: seq<VoxelState>, id: VoxelId)
    requires 0 <= id < |voxels|
  {
    var v := voxels[id];
    var below := Lookup(grid, Add(v.position, Down));
    if v.baseLevel then v.load == 0
    else
      v.baseSupported == (below.Some? && 0 <= below.value < |voxels| && voxels[below.value].baseSupported) &&
      v.load == (if v.baseSupported then 0 else 1) &&
      (!v.baseSupported ==> !v.attached)
  }

  /** Changing one voxel other than `j` and other than the one `j` rests on
      leaves the rule at `j` as it was. */
  lemma RuleFrame(grid: Table<VoxelId>, voxels: seq<VoxelState>, id: VoxelId, s: VoxelState, j: VoxelId)
    requires 0 <= id < |voxels| && 0 <= j < |voxels| && j != id
    requires Lookup(grid, Add(voxels[j].position, Down)) != Some(id)
    requires RuleAt(grid, voxels, j)
    ensures RuleAt(grid, voxels[id := s], j)
  {
  }

  /** Two voxels stacked one on the other are never both neighbours of the
      same cell. */
  lemma NeighborsNotStacked(k1: nat, k2: nat)
    requires k1 < 6 && k2 < 6
    ensures Neighbors[k1] != Add(Neighbors[k2], Down)
  {
  }

  /** Every id registered in `grid` names one of `n` voxels. */
  ghost predicate IdsBelow(grid: Table<VoxelId>, n: int)
  {
    forall c :: Lookup(grid, c).Some? ==> 0 <= Lookup(grid, c).value < n
  }

  /** Every registered voxel sits at its own position. */
  ghost predicate Consistent(grid: Table<VoxelId>, voxels: seq<VoxelState>)
  {
    IdsBelow(grid, |voxels|) &&
    forall c :: Lookup(grid, c).Some? ==> voxels[Lookup(grid, c).value].position == c
  }

  ghost predicate SettledAll(voxels: seq<VoxelState>)
  {
    forall id :: 0 <= id < |voxels| ==> Settled(voxels[id])
  }

  /** No voxel of `ns` rests directly on another voxel of `ns`. */
  ghost predicate NoneBelow(grid: Table<VoxelId>, voxels: seq<VoxelState>, ns: seq<VoxelId>)
    requires forall i :: 0 <= i < |ns| ==> 0 <= ns[i] < |voxels|
  {
    forall i, j :: 0 <= i < |ns| && 0 <= j < |ns| ==>
      Lookup(grid, Add(voxels[ns[i]].position, Down)) != Some(ns[j])
  }

  /** The neighbours of any cell are registered ids. */
  lemma NeighborsInRange(grid: Table<VoxelId>, n: int, c: Coord)
    requires IdsBelow(grid, n)
    ensures var ns := GetNeighbors(grid, c); forall i :: 0 <= i < |ns| ==> 0 <= ns[i] < n
  {
    var ns := GetNeighbors(grid, c);
    forall i | 0 <= i < |ns| ensures 0 <= ns[i] < n {
      var k :| 0 <= k < 6 && Lookup(grid, Add(c, Neighbors[k])) == Some(ns[i]);
    }
  }

  /** In a consistent registry no neighbour of a cell rests on another
      neighbour of that cell. */
  lemma NeighborsApart(grid: Table<VoxelId>, voxels: seq<VoxelState>, c: Coord)
    requires Consistent(grid, voxels)
    ensures var ns := GetNeighbors(grid, c); forall i :: 0 <= i < |ns| ==> 0 <= ns[i] < |voxels|
    ensures NoneBelow(grid, voxels, GetNeighbors(grid, c))
  {
    NeighborsInRange(grid, |voxels|, c);
    var ns := GetNeighbors(grid, c);
    forall i, j | 0 <= i < |ns| && 0 <= j < |ns|
      ensures Lookup(grid, Add(voxels[ns[i]].position, Down)) != Some(ns[j])
    {
      var ki :| 0 <= ki < 6 && Lookup(grid, Add(c, Neighbors[ki])) == Some(ns[i]);
      var kj :| 0 <= kj < 6 && Lookup(grid, Add(c, Neighbors[kj])) == Some(ns[j]);
      NeighborsNotStacked(kj, ki);
      var p := Add(c, Neighbors[ki]);
      assert voxels[ns[i]].position == p;
      assert voxels[ns[j]].position == Add(c, Neighbors[kj]) != Add(p, Down);
    }
  }

  /** Once the rule holds at every neighbour of an empty cell `c`, the
      voxel right above `c`, unless it is on the ground, is unsupported,
      carries load 1 and has broken. */
  lemma AboveIsCut(grid: Table<VoxelId>, voxels: seq<VoxelState>, c: Coord)
    requires Consistent(grid, voxels) && Lookup(grid, c).None?
    requires var ns := GetNeighbors(grid, c);
      forall i :: 0 <= i < |ns| ==> 0 <= ns[i] < |voxels| && RuleAt(grid, voxels, ns[i])
    ensures var above := Lookup(grid, Add(c, Up));
      above.Some? && !voxels[above.value].baseLevel ==>
        !voxels[above.value].baseSupported && voxels[above.value].load == 1 && !voxels[above.value].attached
  {
    var above := Lookup(grid, Add(c, Up));
    if above.Some? {
      NeighborAt(grid, c, 4);
      var at := |Present(Slots(grid, c)[..4])|;
      var ns := GetNeighbors(grid, c);
      assert at < |ns| && ns[at] == above.value;
      assert RuleAt(grid, voxels, ns[at]);
      assert Add(voxels[above.value].position, Down) == c;
    }
  }

  /** One `calculateLoad` of voxel `id`: the new arena and the new list of
      pending removal events. */
  function LoadStep(grid: Table<VoxelId>, voxels: seq<VoxelState>, removed: seq<Coord>, id: VoxelId)
    : (r: (seq<VoxelState>, seq<Coord>))
    requires 0 <= id < |voxels|
    ensures |r.0| == |voxels|
    ensures forall j :: 0 <= j < |voxels| && j != id ==> r.0[j] == voxels[j]
    ensures r.0[id].position == voxels[id].position && r.0[id].baseLevel == voxels[id].baseLevel
    ensures r.0[id].attached ==> voxels[id].attached
    ensures r.1 == removed + (if voxels[id].attached && !r.0[id].attached then [voxels[id].position] else [])
  {
    var v := voxels[id];
    var below := Lookup(grid, Add(v.position, Down));
    if v.baseLevel then
      (voxels[id := v.(load := 0)], removed)
    else if below.Some? && 0 <= below.value < |voxels| && voxels[below.value].baseSupported then
      (voxels[id := v.(baseSupported := true, load := 0)], removed)
    else
      (voxels[id := v.(baseSupported := false, load := 1, attached := false)],
       removed + if v.attached then [v.position] else [])
  }

  /** In a consistent registry one step establishes the rule at the voxel
      it recalculates, and keeps a ground voxel supported. */
  lemma LoadStepRule(grid: Table<VoxelId>, voxels: seq<VoxelState>, removed: seq<Coord>, id: VoxelId)
    requires Consistent(grid, voxels) && 0 <= id < |voxels|
    ensures var r := LoadStep(grid, voxels, removed, id);
      RuleAt(grid, r.0, id) &&
      ((voxels[id].baseLevel ==> voxels[id].baseSupported) ==> Settled(r.0[id]))
  {
    var below := Lookup(grid, Add(voxels[id].position, Down));
    if below.Some? {
      assert voxels[below.value].position == Add(voxels[id].position, Down);
    }
  }

  /** `calculateLoad` run on each voxel of `ns`, in order. */
  function Recalculated(grid: Table<VoxelId>, voxels: seq<VoxelState>, removed: seq<Coord>, ns: seq<VoxelId>)
    : (r: (seq<VoxelState>, seq<Coord>))
    requires forall i :: 0 <= i < |ns| ==> 0 <= ns[i] < |voxels|
    ensures |r.0| == |voxels|
    decreases |ns|
  {
    if ns == [] then (voxels, removed)
    else
      var p := Recalculated(grid, voxels, removed, ns[..|ns| - 1]);
      LoadStep(grid, p.0, p.1, ns[|ns| - 1])
  }

  /** Recalculating leaves every voxel outside `ns` alone, keeps every
      position and ground flag, and never re-attaches a broken part. */
  lemma {:induction false} RecalculatedFrame(grid: Table<VoxelId>, voxels: seq<VoxelState>, removed: seq<Coord>, ns: seq<VoxelId>)
    requires forall i :: 0 <= i < |ns| ==> 0 <= ns[i] < |voxels|
    ensures var r := Recalculated(grid, voxels, removed, ns);
      (forall j :: 0 <= j < |voxels| && j !in ns ==> r.0[j] == voxels[j]) &&
      forall j :: 0 <= j < |voxels| ==>
        r.0[j].position == voxels[j].position && r.0[j].baseLevel == voxels[j].baseLevel &&
        (r.0[j].attached ==> voxels[j].attached)
  {
    if ns != [] {
      RecalculatedFrame(grid, voxels, removed, ns[..|ns| - 1]);
      assert ns == ns[..|ns| - 1] + [ns[|ns| - 1]];
    }
  }

  /** The position of a voxel of `ns` that was attached in `before` and is
      broken in `after`. */
  ghost predicate BrokePart(before: seq<VoxelState>, after: seq<VoxelState>, ns: seq<VoxelId>, p: Coord)
    requires |after| == |before|
  {
    exists j :: 0 <= j < |before| && j in ns && before[j].attached && !after[j].attached && before[j].position == p
  }

  /** Every new removal event is the position of a listed voxel that was
      attached before and is broken after. */
  lemma {:induction false} RecalculatedEventsSound(grid: Table<VoxelId>, voxels: seq<VoxelState>, removed: seq<Coord>, ns: seq<VoxelId>)
    requires forall i :: 0 <= i < |ns| ==> 0 <= ns[i] < |voxels|
    ensures var r := Recalculated(grid, voxels, removed, ns);
      removed <= r.1 &&
      forall k :: |removed| <= k < |r.1| ==> BrokePart(voxels, r.0, ns, r.1[k])
  {
    if ns != [] {
      var q, x := ns[..|ns| - 1], ns[|ns| - 1];
      assert ns == q + [x];
      var p := Recalculated(grid, voxels, removed, q);
      var r := Recalculated(grid, voxels, removed, ns);
      RecalculatedFrame(grid, voxels, removed, q);
      RecalculatedEventsSound(grid, voxels, removed, q);
      assert r == LoadStep(grid, p.0, p.1, x);
      forall k | |removed| <= k < |r.1| ensures BrokePart(voxels, r.0, ns, r.1[k]) {
        if k < |p.1| {
          assert BrokePart(voxels, p.0, q, p.1[k]);
          var j :| 0 <= j < |voxels| && j in q && voxels[j].attached && !p.0[j].attached &&
            voxels[j].position == p.1[k];
          assert r.1[k] == p.1[k] && j in ns && !r.0[j].attached;
        } else {
          assert r.1[k] == voxels[x].position && x in ns;
        }
      }
    }
  }

  /** Every voxel that was attached before and is broken after has its
      removal event among the new ones. */
  lemma {:induction false} RecalculatedEventsComplete(grid: Table<VoxelId>, voxels: seq<VoxelState>, removed: seq<Coord>, ns: seq<VoxelId>)
    requires forall i :: 0 <= i < |ns| ==> 0 <= ns[i] < |voxels|
    ensures var r := Recalculated(grid, voxels, removed, ns);
      forall j :: 0 <= j < |voxels| && voxels[j].attached && !r.0[j].attached ==>
        |removed| <= |r.1| && voxels[j].position in r.1[|removed|..]
  {
    if ns != [] {
      var q, x := ns[..|ns| - 1], ns[|ns| - 1];
      var p := Recalculated(grid, voxels, removed, q);
      var r := Recalculated(grid, voxels, removed, ns);
      RecalculatedFrame(grid, voxels, removed, q);
      RecalculatedEventsComplete(grid, voxels, removed, q);
      RecalculatedEventsSound(grid, voxels, removed, q);
      assert r == LoadStep(grid, p.0, p.1, x);
      forall j | 0 <= j < |voxels| && voxels[j].attached && !r.0[j].attached
        ensures |removed| <= |r.1| && voxels[j].position in r.1[|removed|..]
      {
        if !p.0[j].attached {
          assert r.1[|removed|..] == p.1[|removed|..] + r.1[|p.1|..];
        } else {
          assert r.1[|r.1| - 1] == voxels[j].position;
        }
      }
    }
  }

  /** Recalculating keeps every voxel settled. */
  lemma {:induction false} RecalculatedSettled(grid: Table<VoxelId>, voxels: seq<VoxelState>, removed: seq<Coord>, ns: seq<VoxelId>)
    requires forall i :: 0 <= i < |ns| ==> 0 <= ns[i] < |voxels|
    requires Consistent(grid, voxels) && SettledAll(voxels)
    ensures SettledAll(Recalculated(grid, voxels, removed, ns).0)
  {
    if ns != [] {
      var q, x := ns[..|ns| - 1], ns[|ns| - 1];
      var p := Recalculated(grid, voxels, removed, q);
      RecalculatedSettled(grid, voxels, removed, q);
      RecalculatedFrame(grid, voxels, removed, q);
      assert Consistent(grid, p.0);
      LoadStepRule(grid, p.0, p.1, x);
    }
  }

  /** When no listed voxel rests on another, recalculating them in turn
      leaves the rule holding at every one of them. */
  lemma {:induction false} RecalculatedRule(grid: Table<VoxelId>, voxels: seq<VoxelState>, removed: seq<Coord>, ns: seq<VoxelId>)
    requires forall i :: 0 <= i < |ns| ==> 0 <= ns[i] < |voxels|
    requires Consistent(grid, voxels) && NoneBelow(grid, voxels, ns)
    ensures var r := Recalculated(grid, voxels, removed, ns);
      Consistent(grid, r.0) && forall i :: 0 <= i < |ns| ==> RuleAt(grid, r.0, ns[i])
  {
    if ns != [] {
      var q, x := ns[..|ns| - 1], ns[|ns| - 1];
      var p := Recalculated(grid, voxels, removed, q);
      var r := Recalculated(grid, voxels, removed, ns);
      assert NoneBelow(grid, voxels, q);
      RecalculatedRule(grid, voxels, removed, q);
      RecalculatedFrame(grid, voxels, removed, q);
      LoadStepRule(grid, p.0, p.1, x);
      assert r.0 == p.0[x := r.0[x]];
      forall i | 0 <= i < |ns| ensures RuleAt(grid, r.0, ns[i]) {
        if ns[i] != x {
          assert ns[i] == q[i] && RuleAt(grid, p.0, q[i]);
          assert p.0[ns[i]].position == voxels[ns[i]].position;
          RuleFrame(grid, p.0, x, r.0[x], ns[i]);
        }
      }
    }
  }

  /** The removal handler's effect: the voxel registered at the part's
      position has its slot cleared, then each neighbour of that slot is
      recalculated, in `Neighbors` order. */
  function AfterRemoval(grid: Table<VoxelId>, voxels: seq<VoxelState>, removed: seq<Coord>, partPosition: Coord)
    : (r: (Table<VoxelId>, seq<VoxelState>, seq<Coord>))
    requires IdsBelow(grid, |voxels|)
    ensures |r.1| == |voxels| && IdsBelow(r.0, |r.1|)
  {
    var voxel := Lookup(grid, partPosition);
    if voxel.None? then (grid, voxels, removed)
    else
      var c := voxels[voxel.value].position;
      var g := Assign(grid, c, None);
      AssignKeepsIds(grid, c, None, |voxels|);
      NeighborsInRange(g, |voxels|, c);
      var p := Recalculated(g, voxels, removed, GetNeighbors(g, c));
      (g, p.0, p.1)
  }

  /** The handler keeps the registry consistent and every voxel settled;
      when a voxel was registered at the part's position, exactly that slot
      is cleared, only its neighbours change, no part is re-attached, and
      the rule holds at every neighbour. */
  lemma AfterRemovalKeeps(grid: Table<VoxelId>, voxels: seq<VoxelState>, removed: seq<Coord>, partPosition: Coord)
    requires Consistent(grid, voxels)
    ensures var r := AfterRemoval(grid, voxels, removed, partPosition);
      Consistent(r.0, r.1) && (SettledAll(voxels) ==> SettledAll(r.1))
    ensures var r := AfterRemoval(grid, voxels, removed, partPosition);
      Lookup(grid, partPosition).Some? ==>
        var ns := GetNeighbors(grid, partPosition);
        r.0 == Assign(grid, partPosition, None) &&
        ns == GetNeighbors(r.0, partPosition) &&
        (forall j :: 0 <= j < |voxels| && j !in ns ==> r.1[j] == voxels[j]) &&
        (forall j :: 0 <= j < |voxels| ==>
          r.1[j].position == voxels[j].position && r.1[j].baseLevel == voxels[j].baseLevel &&
          (r.1[j].attached ==> voxels[j].attached)) &&
        (forall i :: 0 <= i < |ns| ==> 0 <= ns[i] < |voxels| && RuleAt(r.0, r.1, ns[i]))
  {
    var voxel := Lookup(grid, partPosition);
    if voxel.Some? {
      var c := partPosition;
      var g := Assign(grid, c, None);
      AssignKeepsIds(grid, c, None, |voxels|);
      assert Consistent(g, voxels);
      NeighborsIgnoreCentre(grid, c, None);
      NeighborsApart(g, voxels, c);
      var ns := GetNeighbors(g, c);
      RecalculatedFrame(g, voxels, removed, ns);
      RecalculatedRule(g, voxels, removed, ns);
      if SettledAll(voxels) {
        RecalculatedSettled(g, voxels, removed, ns);
      }
    }
  }

  /** The voxel directly above the removed one, unless it is on the
      ground, ends unsupported, with load 1, and broken. */
  lemma AfterRemovalCutsAbove(grid: Table<VoxelId>, voxels: seq<VoxelState>, removed: seq<Coord>, partPosition: Coord)
    requires Consistent(grid, voxels) && Lookup(grid, partPosition).Some?
    ensures var r := AfterRemoval(grid, voxels, removed, partPosition);
      var above := Lookup(grid, Add(partPosition, Up));
      above.Some? && !voxels[above.value].baseLevel ==>
        !r.1[above.value].baseSupported && r.1[above.value].load == 1 && !r.1[above.value].attached
  {
    var r := AfterRemoval(grid, voxels, removed, partPosition);
    AfterRemovalKeeps(grid, voxels, removed, partPosition);
    var above := Lookup(grid, Add(partPosition, Up));
    assert Lookup(r.0, Add(partPosition, Up)) == above;
    AboveIsCut(r.0, r.1, partPosition);
  }

  class World {
    /** `Voxel.voxels`: the registry. */
    var grid: Table<VoxelId>
    /** Every voxel created so far, by id. */
    var voxels: seq<VoxelState>
    /** The positions of broken parts whose removal event has fired but
        not yet been delivered, oldest first. */
    var removed: seq<Coord>

    /** Every registered id names a voxel. */
    ghost predicate Valid()
      reads this
    {
      IdsBelow(grid, |voxels|)
    }

    /** Every registered voxel sits at its own position. */
    ghost predicate Registered()
      reads this
    {
      Consistent(grid, voxels)
    }

    ghost predicate AllSettled()
      reads this
    {
      SettledAll(voxels)
    }

    constructor ()
      ensures Valid() && Registered() && AllSettled()
      ensures grid == map[] && voxels == [] && removed == []
    {
      grid := map[];
      voxels := [];
      removed := [];
    }

    /** `setVoxel`: create the missing x and y levels, then install or
        clear the slot. */
    method SetVoxel(c: Coord, v: Option<VoxelId>)
      requires Valid() && (v.Some? ==> 0 <= v.value < |voxels|)
      modifies this
      ensures Valid()
      ensures grid == Assign(old(grid), c, v)
      ensures voxels == old(voxels) && removed == old(removed)
    {
      ghost var t := grid;
      if c.0 !in grid {
        grid := grid[c.0 := map[]];
      }
      ghost var t1 := grid;
      if c.1 !in grid[c.0] {
        grid := grid[c.0 := grid[c.0][c.1 := map[]]];
      }
      ghost var t2 := grid;
      var level := grid[c.0];
      grid := grid[c.0 := level[c.1 := level[c.1][c.2 := v]]];
      AssignInSteps(t, c, v);
      AssignKeepsIds(t, c, v, |voxels|);
    }

    /** `break`: destroy the voxel's part.  Destroying a part that is still
        in the folder fires the removal event for its position; a part
        already destroyed fires nothing. */
    method Break(id: VoxelId)
      requires 0 <= id < |voxels|
      modifies this
      ensures grid == old(grid)
      ensures voxels == old(voxels)[id := old(voxels[id]).(attached := false)]
      ensures removed == old(removed) + (if old(voxels[id].attached) then [old(voxels[id].position)] else [])
    {
      if voxels[id].attached {
        removed := removed + [voxels[id].position];
      }
      voxels := voxels[id := voxels[id].(attached := false)];
    }

    /** `calculateLoad`: the three-way support rule. */
    method CalculateLoad(id: VoxelId) returns (load: int)
      requires Valid() && 0 <= id < |voxels|
      modifies this
      ensures Valid() && grid == old(grid) && |voxels| == |old(voxels)|
      ensures forall j :: 0 <= j < |voxels| && j != id ==> voxels[j] == old(voxels[j])
      ensures var v := old(voxels[id]);
        var below := Lookup(grid, Add(v.position, Down));
        if v.baseLevel then
          voxels[id] == v.(load := 0) && removed == old(removed)
        else if below.Some? && old(voxels[below.value].baseSupported) then
          voxels[id] == v.(baseSupported := true, load := 0) && removed == old(removed)
        else
          voxels[id] == v.(baseSupported := false, load := 1, attached := false) &&
          removed == old(removed) + (if v.attached then [v.position] else [])
      ensures load == voxels[id].load && (load == 0 || load == 1)
      ensures old(voxels[id].baseLevel ==> voxels[id].baseSupported) ==> Settled(voxels[id])
      ensures Registered() ==> RuleAt(grid, voxels, id)
    {
      if voxels[id].baseLevel {
        voxels := voxels[id := voxels[id].(load := 0)];
      } else {
        var downNeighbor := Lookup(grid, Add(voxels[id].position, Down));
        if downNeighbor.Some? && voxels[downNeighbor.value].baseSupported {
          voxels := voxels[id := voxels[id].(baseSupported := true, load := 0)];
        } else {
          voxels := voxels[id := voxels[id].(baseSupported := false)];
          Break(id);
          voxels := voxels[id := voxels[id].(load := 1)];
        }
      }
      load := voxels[id].load;
    }

    /** The `Voxel` constructor: a new voxel at `position`, on the ground
        exactly when `onGround` (the ground probe), supported exactly when
        on the ground until its load is first calculated, and registered
        only after that calculation. */
    method NewVoxel(position: Coord, onGround: bool) returns (id: VoxelId)
      requires Valid()
      modifies this
      ensures Valid()
      ensures id == |old(voxels)| && |voxels| == id + 1 && voxels[..id] == old(voxels)
      ensures grid == Assign(old(grid), position, Some(id))
      ensures voxels[id].position == position && voxels[id].baseLevel == onGround
      ensures Settled(voxels[id]) && RuleAt(grid, voxels, id)
      ensures var below := Lookup(old(grid), Add(position, Down));
        if onGround || (below.Some? && old(voxels[below.value].baseSupported)) then
          voxels[id].baseSupported && voxels[id].attached && removed == old(removed)
        else
          !voxels[id].baseSupported && !voxels[id].attached && removed == old(removed) + [position]
      ensures old(Registered()) ==> Registered()
      ensures old(AllSettled()) ==> AllSettled()
    {
      id := |voxels|;
      voxels := voxels + [VoxelState(position, onGround, onGround, 0, true)];
      var _ := CalculateLoad(id);
      ghost var below := Lookup(grid, Add(position, Down));
      SetVoxel(position, Some(id));
      assert Lookup(grid, Add(position, Down)) == below;
    }

    /** The removal handler: the voxel registered where the part was has its
        slot cleared, and then every neighbour of that slot has its load
        recalculated, in `Neighbors` order. */
    method OnRemoved(partPosition: Coord)
      requires Valid()
      modifies this
      ensures (grid, voxels, removed) == AfterRemoval(old(grid), old(voxels), old(removed), partPosition)
      ensures Valid()
      ensures old(Registered()) ==> Registered()
      ensures old(Registered()) && old(AllSettled()) ==> AllSettled()
    {
      ghost var (g0, v0, r0) := (grid, voxels, removed);
      var voxel := Lookup(grid, partPosition);
      if voxel.Some? {
        var c := voxels[voxel.value].position;
        SetVoxel(c, None);
        var ns := GetNeighbors(grid, c);
        NeighborsInRange(grid, |voxels|, c);
        RecalculateEach(ns);
      }
      if old(Registered()) {
        AfterRemovalKeeps(g0, v0, r0, partPosition);
      }
    }

    /** The `forEach` of the removal handler: recalculate the load of each
        voxel of `ns`, in order. */
    method RecalculateEach(ns: seq<VoxelId>)
      requires Valid() && forall i :: 0 <= i < |ns| ==> 0 <= ns[i] < |voxels|
      modifies this
      ensures Valid() && grid == old(grid)
      ensures (voxels, removed) == Recalculated(grid, old(voxels), old(removed), ns)
    {
      for i := 0 to |ns|
        invariant Valid() && grid == old(grid) && |voxels| == |old(voxels)|
        invariant (voxels, removed) == Recalculated(grid, old(voxels), old(removed), ns[..i])
      {
        ghost var before := voxels;
        var _ := CalculateLoad(ns[i]);
        assert voxels == before[ns[i] := voxels[ns[i]]];
        assert ns[..i + 1][..i] == ns[..i];
      }
      assert ns[..|ns|] == ns;
    }

    /** The engine delivering the oldest pending removal event to the
        handler. */
    method DeliverNext() returns (delivered: Option<Coord>)
      requires Valid()
      modifies this
      ensures Valid()
      ensures old(removed) == [] ==>
        delivered == None && grid == old(grid) && voxels == old(voxels) && removed == []
      ensures old(removed) != [] ==>
        delivered == Some(old(removed)[0]) &&
        (grid, voxels, removed) == AfterRemoval(old(grid), old(voxels), old(removed)[1..], old(removed)[0])
      ensures old(Registered()) ==> Registered()
      ensures old(Registered()) && old(AllSettled()) ==> AllSettled()
    {
      if removed == [] {
        return None;
      }
      var p := removed[0];
      removed := removed[1..];
      OnRemoved(p);
      delivered := Some(p);
    }
  }

  /** A single voxel on the ground is supported. */
  method GroundVoxel() returns (w: World, ground: VoxelId)
    ensures fresh(w) && w.Registered() && w.AllSettled() && w.removed == []
    ensures Lookup(w.grid, (0, 0, 0)) == Some(ground)
    ensures 0 <= ground < |w.voxels| && w.voxels[ground].baseSupported
  {
    w := new World();
    ground := w.NewVoxel((0, 0, 0), true);
  }

  /** A voxel stacked on a ground voxel is supported and carries no load. */
  method BuildStack() returns (w: World, ground: VoxelId, top: VoxelId)
    ensures fresh(w) && w.Registered() && w.AllSettled()
    ensures Lookup(w.grid, (0, 0, 0)) == Some(ground)
    ensures Lookup(w.grid, (0, 1, 0)) == Some(top)
    ensures 0 <= top < |w.voxels| && !w.voxels[top].baseLevel
    ensures w.voxels[top].baseSupported && w.voxels[top].load == 0 && w.removed == []
  {
    w, ground := GroundVoxel();
    assert Add((0, 1, 0), Down) == (0, 0, 0);
    top := w.NewVoxel((0, 1, 0), false);
  }

  /** Once the ground voxel's part is removed, the voxel stacked on it is cut off. */
  method StackOnGround()
  {
    var w, ground, top := BuildStack();
    assert Add((0, 0, 0), Up) == (0, 1, 0);
    AfterRemovalCutsAbove(w.grid, w.voxels, w.removed, (0, 0, 0));
    w.OnRemoved((0, 0, 0));
    assert !w.voxels[top].baseSupported && w.voxels[top].load == 1 && !w.voxels[top].attached;
  }
}
