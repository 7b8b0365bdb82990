/** The authoritative block table of main.js (`blocks`, keyed by "x,y,z")
    seen as a value, with the read-only queries built on it: getBlockAt,
    isSolidBlock, getGroundHeight and the one-block step-up gate of the
    movement code. */
module Store {
  import opened Options
  import opened Blocks

  /** An integer cell (x, y, z); the string key "x,y,z" stands for it. */
  type Cell = (int, int, int)

  /** A continuous position (a mesh position, a player position). */
  type Point = (real, real, real)

  /** What each occupied cell holds; an absent key is air. */
  type Table = map<Cell, Block>

  const WorldHeight: int := 32

  /** getBlockAt on the table: the kind at `c`, or None for air. */
  function Lookup(t: Table, c: Cell): (r: Option<Block>)
    ensures r.None? <==> c !in t
    ensures r.Some? ==> t[c] == r.value
  {
    if c in t then Some(t[c]) else None
  }

  /** Two tables that agree on every lookup are equal. */
  lemma LookupExtensional(a: Table, b: Table)
    requires forall c :: Lookup(a, c) == Lookup(b, c)
    ensures a == b
  {
    assert a.Keys == b.Keys by {
      forall c ensures c in a <==> c in b {
        assert Lookup(a, c) == Lookup(b, c);
      }
    }
    forall c | c in a ensures a[c] == b[c] {
      assert Lookup(a, c) == Lookup(b, c);
    }
  }

  /** A cell blocks movement when it holds anything but leaves. */
  predicate SolidCell(t: Table, c: Cell)
  {
    c in t && t[c] != Leaves
  }

  /** The cell containing a point: each coordinate floored. */
  function CellAt(x: real, y: real, z: real): (c: Cell)
    ensures c.0 as real <= x < c.0 as real + 1.0
    ensures c.1 as real <= y < c.1 as real + 1.0
    ensures c.2 as real <= z < c.2 as real + 1.0
  {
    (x.Floor, y.Floor, z.Floor)
  }

  /** isSolidBlock(x, y, z). */
  predicate IsSolidBlock(t: Table, x: real, y: real, z: real)
  {
    SolidCell(t, CellAt(x, y, z))
  }

  /** isSolidBlock holds exactly at points inside a cell that holds a block
      other than leaves; leaves and air are never solid. */
  lemma IsSolidBlockSpec(t: Table, x: real, y: real, z: real, c: Cell)
    requires c.0 as real <= x < c.0 as real + 1.0
    requires c.1 as real <= y < c.1 as real + 1.0
    requires c.2 as real <= z < c.2 as real + 1.0
    ensures IsSolidBlock(t, x, y, z) <==> c in t && t[c] != Leaves
    ensures Lookup(t, c) == Some(Leaves) ==> !IsSolidBlock(t, x, y, z)
    ensures Lookup(t, c).None? ==> !IsSolidBlock(t, x, y, z)
  {
    assert CellAt(x, y, z) == c;
  }

  /** Where setBlock puts the mesh of cell `c`: its centre. */
  function Centre(c: Cell): (p: Point)
    ensures CellAt(p.0, p.1, p.2) == c
  {
    (c.0 as real + 0.5, c.1 as real + 0.5, c.2 as real + 0.5)
  }

  /** How the mousedown handler recovers a cell from a mesh position:
      subtract 0.5 from each coordinate and floor. */
  function MeshCell(p: Point): Cell
  {
    CellAt(p.0 - 0.5, p.1 - 0.5, p.2 - 0.5)
  }

  /** A mesh placed at the centre of a cell leads the mining code back to
      that very cell, so distinct cells have distinct mesh positions. */
  lemma MeshCellRoundTrip(c: Cell, d: Cell)
    ensures MeshCell(Centre(c)) == c
    ensures Centre(c) == Centre(d) ==> c == d
  {
    assert MeshCell(Centre(c)).0 == c.0;
  }

  /** The downward scan of getGroundHeight, started at height `y`. */
  function GroundScan(t: Table, cx: int, cz: int, y: int): int
    decreases y + 1
  {
    if y < 0 then 0
    else if SolidCell(t, (cx, y, cz)) then y + 1
    else GroundScan(t, cx, cz, y - 1)
  }

  /** getGroundHeight(x, z): the scan from WORLD_HEIGHT down to 0. */
  function GroundHeight(t: Table, x: real, z: real): int
  {
    GroundScan(t, x.Floor, z.Floor, WorldHeight)
  }

  /** A scan from `y` returns one above the highest solid cell at or below
      `y` (0 when there is none): every cell above the answer is not solid. */
  lemma {:induction false} GroundScanSpec(t: Table, cx: int, cz: int, y: int)
    requires y >= -1
    ensures 0 <= GroundScan(t, cx, cz, y) <= y + 1
    ensures GroundScan(t, cx, cz, y) > 0 ==> SolidCell(t, (cx, GroundScan(t, cx, cz, y) - 1, cz))
    ensures forall k :: GroundScan(t, cx, cz, y) <= k <= y ==> !SolidCell(t, (cx, k, cz))
  {
    if y >= 0 && !SolidCell(t, (cx, y, cz)) {
      GroundScanSpec(t, cx, cz, y - 1);
    }
  }

  /** The ground height lies in [0, WORLD_HEIGHT + 1]; when it is positive
      the block just below it is solid, and no cell between it and
      WORLD_HEIGHT in the column is solid. So a result of 0 means the column
      holds no solid block in [0, WORLD_HEIGHT]. */
  lemma GroundHeightSpec(t: Table, x: real, z: real)
    ensures 0 <= GroundHeight(t, x, z) <= WorldHeight + 1
    ensures GroundHeight(t, x, z) > 0 ==>
      IsSolidBlock(t, x, (GroundHeight(t, x, z) - 1) as real, z)
    ensures forall k :: GroundHeight(t, x, z) <= k <= WorldHeight ==>
      !SolidCell(t, (x.Floor, k, z.Floor))
  {
    GroundScanSpec(t, x.Floor, z.Floor, WorldHeight);
    var g := GroundHeight(t, x, z);
    if g > 0 {
      assert CellAt(x, (g - 1) as real, z) == (x.Floor, g - 1, z.Floor);
    }
  }

  /** getGroundHeight as the source runs it: a loop from WORLD_HEIGHT down
      that returns at the first solid cell. */
  method GetGroundHeight(t: Table, x: real, z: real) returns (h: int)
    ensures h == GroundHeight(t, x, z)
  {
    var cx, cz := x.Floor, z.Floor;
    var y := WorldHeight;
    while y >= 0
      invariant -1 <= y <= WorldHeight
      invariant GroundScan(t, cx, cz, y) == GroundHeight(t, x, z)
    {
      if (cx, y, cz) in t && t[(cx, y, cz)] != Leaves {
        return y + 1;
      }
      y := y - 1;
    }
    return 0;
  }

  /** The horizontal move of one animation step is accepted when the
      ground at the destination is at most one block above the ground
      here. */
  predicate StepAccepted(t: Table, x: real, z: real, nextX: real, nextZ: real)
  {
    GroundHeight(t, nextX, nextZ) - GroundHeight(t, x, z) <= 1
  }

  /** The gate accepts a move exactly when the destination column holds no
      solid block from one above the current ground height up to
      WORLD_HEIGHT: the player climbs at most one block. */
  lemma StepAcceptedSpec(t: Table, x: real, z: real, nextX: real, nextZ: real)
    ensures StepAccepted(t, x, z, nextX, nextZ) <==>
      forall k :: GroundHeight(t, x, z) + 1 <= k <= WorldHeight ==> !SolidCell(t, (nextX.Floor, k, nextZ.Floor))
  {
    GroundHeightSpec(t, x, z);
    GroundHeightSpec(t, nextX, nextZ);
    var g' := GroundHeight(t, nextX, nextZ);
    if g' > 0 {
      assert SolidCell(t, (nextX.Floor, g' - 1, nextZ.Floor));
    }
  }
}
