/**
  The static sparse table `Voxel.voxels` of src/server/voxel.ts and the
  neighbour lookup over it.

  The table is nested three levels deep, `voxels[x][y][z]`; a level that
  was never created reads as absent, and a slot may hold a voxel or be
  cleared to `undefined`.  Coordinates are integer grid indices.
*/
module Grid {
  import opened Wrappers

  /** An integer grid coordinate (x, y, z); y points up. */
  type Coord = (int, int, int)

  /** The nested table: x level, y level, z slot. */
  type Table<V> = map<int, map<int, map<int, Option<V>>>>

  function Add(a: Coord, d: Coord): Coord
  {
    (a.0 + d.0, a.1 + d.1, a.2 + d.2)
  }

  const Up: Coord := (0, 1, 0)
  const Down: Coord := (0, -1, 0)
  const Sides: seq<Coord> := [(1, 0, 0), (-1, 0, 0), (0, 0, 1), (0, 0, -1)]

  /** The six axis offsets in the source's order: +X, -X, +Z, -Z, up, down. */
  const Neighbors: seq<Coord> := Sides + [Up, Down]

  /** `getVoxel`: the slot at `c`, absent when the x or y level is missing. */
  function Lookup<V>(t: Table<V>, c: Coord): Option<V>
  {
    if c.0 in t && c.1 in t[c.0] && c.2 in t[c.0][c.1] then t[c.0][c.1][c.2] else None
  }

  /** The table after `setVoxel(c, v)`: missing levels are created, existing
      ones kept, and the slot at `c` holds `v`. */
  function Assign<V>(t: Table<V>, c: Coord, v: Option<V>): (r: Table<V>)
    ensures Lookup(r, c) == v
    ensures forall c' :: c' != c ==> Lookup(r, c') == Lookup(t, c')
    ensures c.0 in r && c.1 in r[c.0] && r.Keys == t.Keys + {c.0}
    ensures forall x, y :: x in t && y in t[x] ==> x in r && y in r[x]
  {
    var ys := if c.0 in t then t[c.0] else map[];
    var zs := if c.1 in ys then ys[c.1] else map[];
    t[c.0 := ys[c.1 := zs[c.2 := v]]]
  }

  /** `Assign` is what the three steps of `setVoxel` do: create the x level
      if missing, create the y level if missing, write the slot. */
  lemma AssignInSteps<V>(t: Table<V>, c: Coord, v: Option<V>)
    ensures var t1 := if c.0 in t then t else t[c.0 := map[]];
      var t2 := if c.1 in t1[c.0] then t1 else t1[c.0 := t1[c.0][c.1 := map[]]];
      Assign(t, c, v) == t2[c.0 := t2[c.0][c.1 := t2[c.0][c.1][c.2 := v]]]
  {
    var t1 := if c.0 in t then t else t[c.0 := map[]];
    var t2 := if c.1 in t1[c.0] then t1 else t1[c.0 := t1[c.0][c.1 := map[]]];
    var ys := if c.0 in t then t[c.0] else map[];
    var zs := if c.1 in ys then ys[c.1] else map[];
    assert t1[c.0] == ys;
    if c.1 in ys {
      assert ys[c.1 := zs] == ys;
    }
    assert t2 == t[c.0 := ys[c.1 := zs]];
    assert t2[c.0][c.1 := zs[c.2 := v]] == ys[c.1 := zs[c.2 := v]];
    assert t2[c.0 := ys[c.1 := zs[c.2 := v]]] == t[c.0 := ys[c.1 := zs[c.2 := v]]];
  }

  /** Writing an id below `n` keeps every id in the table below `n`. */
  lemma AssignKeepsIds(t: Table<int>, c: Coord, v: Option<int>, n: int)
    requires forall c' :: Lookup(t, c').Some? ==> 0 <= Lookup(t, c').value < n
    requires v.Some? ==> 0 <= v.value < n
    ensures forall c' :: Lookup(Assign(t, c, v), c').Some? ==> 0 <= Lookup(Assign(t, c, v), c').value < n
  {
    var r := Assign(t, c, v);
    forall c' | Lookup(r, c').Some? ensures 0 <= Lookup(r, c').value < n {
      if c' != c {
        assert Lookup(r, c') == Lookup(t, c');
      }
    }
  }

  /** The table after a sequence of `setVoxel` calls on an empty table. */
  function Replay<V>(writes: seq<(Coord, Option<V>)>): Table<V>
  {
    if writes == [] then map[]
    else Assign(Replay(writes[..|writes| - 1]), writes[|writes| - 1].0, writes[|writes| - 1].1)
  }

  /** A coordinate never written reads as absent, whichever levels exist. */
  lemma {:induction false} NeverSetIsAbsent<V>(writes: seq<(Coord, Option<V>)>, c: Coord)
    requires forall i :: 0 <= i < |writes| ==> writes[i].0 != c
    ensures Lookup(Replay(writes), c) == None
  {
    if writes != [] {
      NeverSetIsAbsent(writes[..|writes| - 1], c);
    }
  }

  /** A lookup reads the last value written at that coordinate. */
  lemma {:induction false} LastWriteWins<V>(writes: seq<(Coord, Option<V>)>, i: nat)
    requires i < |writes|
    requires forall j :: i < j < |writes| ==> writes[j].0 != writes[i].0
    ensures Lookup(Replay(writes), writes[i].0) == writes[i].1
  {
    if i < |writes| - 1 {
      LastWriteWins(writes[..|writes| - 1], i);
    }
  }

  /** The six neighbouring slots of `pos`, in `Neighbors` order. */
  function Slots<V>(t: Table<V>, pos: Coord): (s: seq<Option<V>>)
    ensures |s| == |Neighbors|
    ensures forall k :: 0 <= k < |s| ==> s[k] == Lookup(t, Add(pos, Neighbors[k]))
  {
    seq(|Neighbors|, k requires 0 <= k < |Neighbors| => Lookup(t, Add(pos, Neighbors[k])))
  }

  /** The values present in `s`, in order (the filtering half of
      `mapFiltered`). */
  function Present<V>(s: seq<Option<V>>): seq<V>
  {
    if s == [] then []
    else (if s[0].Some? then [s[0].value] else []) + Present(s[1..])
  }

  lemma {:induction false} PresentConcat<V>(a: seq<Option<V>>, b: seq<Option<V>>)
    ensures Present(a + b) == Present(a) + Present(b)
  {
    if a == [] {
      assert a + b == b;
    } else {
      var head := if a[0].Some? then [a[0].value] else [];
      assert (a + b)[0] == a[0];
      assert (a + b)[1..] == a[1..] + b;
      PresentConcat(a[1..], b);
      calc {
        Present(a + b);
        head + Present(a[1..] + b);
        head + (Present(a[1..]) + Present(b));
        (head + Present(a[1..])) + Present(b);
        Present(a) + Present(b);
      }
    }
  }

  /** Nothing is invented: `Present(s)` is no longer than `s` and each of
      its elements sits in a present slot of `s`. */
  lemma {:induction false} PresentFromSlots<V>(s: seq<Option<V>>)
    ensures |Present(s)| <= |s|
    ensures forall x :: x in Present(s) ==> Some(x) in s
  {
    if s != [] {
      PresentFromSlots(s[1..]);
      assert forall x :: Some(x) in s[1..] ==> Some(x) in s;
    }
  }

  /** Nothing is lost: a present slot `k` appears in `Present(s)` at index
      `|Present(s[..k])|`. */
  lemma PresentAt<V>(s: seq<Option<V>>, k: nat)
    requires k < |s| && s[k].Some?
    ensures |Present(s[..k])| < |Present(s)| && Present(s)[|Present(s[..k])|] == s[k].value
  {
    assert s == s[..k] + s[k..];
    PresentConcat(s[..k], s[k..]);
    assert s[k..] == [s[k]] + s[k + 1..];
    PresentConcat([s[k]], s[k + 1..]);
  }

  /** Present slots keep their relative order: a present slot before
      another lands at a smaller index. */
  lemma PresentOrdered<V>(s: seq<Option<V>>, k1: nat, k2: nat)
    requires k1 < k2 <= |s| && s[k1].Some?
    ensures |Present(s[..k1])| < |Present(s[..k2])|
  {
    assert s[..k2] == s[..k1] + s[k1..k2];
    PresentConcat(s[..k1], s[k1..k2]);
    assert s[k1..k2] == [s[k1]] + s[k1..k2][1..];
    PresentConcat([s[k1]], s[k1..k2][1..]);
  }

  /** `getNeighbors`: the voxels in the six neighbouring slots, empty slots
      dropped. */
  function GetNeighbors<V>(t: Table<V>, pos: Coord): (r: seq<V>)
    ensures |r| <= 6
    ensures forall i :: 0 <= i < |r| ==>
      exists k :: 0 <= k < 6 && Lookup(t, Add(pos, Neighbors[k])) == Some(r[i])
  {
    var s := Slots(t, pos);
    PresentFromSlots(s);
    Present(s)
  }

  /** No occupied neighbour is dropped: the voxel in direction `k` sits in
      `getNeighbors` at index `|Present(Slots(t, pos)[..k])|`, the number of
      occupied directions before `k`. */
  lemma NeighborAt<V>(t: Table<V>, pos: Coord, k: nat)
    requires k < 6 && Lookup(t, Add(pos, Neighbors[k])).Some?
    ensures var i := |Present(Slots(t, pos)[..k])|;
      i < |GetNeighbors(t, pos)| && GetNeighbors(t, pos)[i] == Lookup(t, Add(pos, Neighbors[k])).value
  {
    PresentAt(Slots(t, pos), k);
  }

  /** The order of `getNeighbors` is the order of `Neighbors`: of two
      occupied directions, the earlier one's voxel comes first. */
  lemma NeighborsInOrder<V>(t: Table<V>, pos: Coord, k1: nat, k2: nat)
    requires k1 < k2 < 6
    requires Lookup(t, Add(pos, Neighbors[k1])).Some? && Lookup(t, Add(pos, Neighbors[k2])).Some?
    ensures |Present(Slots(t, pos)[..k1])| < |Present(Slots(t, pos)[..k2])| < |GetNeighbors(t, pos)|
  {
    PresentOrdered(Slots(t, pos), k1, k2);
    PresentAt(Slots(t, pos), k2);
  }

  /** A cell is never its own neighbour, so clearing it does not change its
      neighbour list. */
  lemma NeighborsIgnoreCentre<V>(t: Table<V>, pos: Coord, v: Option<V>)
    ensures GetNeighbors(Assign(t, pos, v), pos) == GetNeighbors(t, pos)
  {
    assert Slots(Assign(t, pos, v), pos) == Slots(t, pos);
  }
}
