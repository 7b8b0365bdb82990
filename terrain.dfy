/** World population (generateTree and generateWorld in main.js) as
    functions on the block table. Each nested `for` loop of the source is a
    "prefix" function: the table after the first n iterations. The methods
    of Scene.World run the loops and are proved equal to these functions;
    the lemmas here say what the functions do cell by cell. */
module Terrain {
  import opened Options
  import opened Blocks
  import opened Store

  /** Half-width of the generated square: columns x, z in [-32, 32). */
  const ChunkSize: int := 32

  /** Probability threshold for a tree on a column. */
  const TreeChance: real := 0.015

  /** One value of Math.random(). */
  type Draw = r: real | 0.0 <= r < 1.0

  /** The random inputs of one generation run: the terrain wave
      sin(x * 0.1) * 2 + cos(z * 0.1) * 2 of each column, the draw that
      decides whether a column gets a tree, and the draw that sets that
      tree's trunk height. */
  datatype Noise = Noise(wave: (int, int) -> real, treeDraw: (int, int) -> Draw, trunkDraw: (int, int) -> Draw)

  function Abs(n: int): nat
  {
    if n < 0 then -n else n
  }

  // ---------------- Column fill ----------------

  /** The kind the column fill writes at height y of a column of height h. */
  function ColumnBlock(h: int, y: int): Block
  {
    if y == h - 1 then Grass else if y > h - 4 then Dirt else Stone
  }

  /** One grass block on top, dirt for the two cells below it, stone
      underneath. */
  lemma ColumnLayers(h: int, y: int)
    requires y < h
    ensures ColumnBlock(h, y) == Grass <==> y == h - 1
    ensures ColumnBlock(h, y) == Dirt <==> h - 4 < y < h - 1
    ensures ColumnBlock(h, y) == Stone <==> y <= h - 4
  {
  }

  /** The table after the first n iterations of `for (y = 0; y < h; y++)`. */
  function ColumnPrefix(t: Table, x: int, z: int, h: int, n: int): Table
    decreases n
  {
    if n <= 0 then t
    else ColumnPrefix(t, x, z, h, n - 1)[(x, n - 1, z) := ColumnBlock(h, n - 1)]
  }

  /** The whole column fill of column (x, z) for height h. */
  function FillColumn(t: Table, x: int, z: int, h: int): Table
  {
    ColumnPrefix(t, x, z, h, h)
  }

  predicate InColumn(x: int, z: int, n: int, c: Cell)
  {
    c.0 == x && c.2 == z && 0 <= c.1 < n
  }

  lemma {:induction false} ColumnPrefixAt(t: Table, x: int, z: int, h: int, n: int, c: Cell)
    ensures Lookup(ColumnPrefix(t, x, z, h, n), c) ==
      if InColumn(x, z, n, c) then Some(ColumnBlock(h, c.1)) else Lookup(t, c)
  {
    if n > 0 {
      ColumnPrefixAt(t, x, z, h, n - 1, c);
    }
  }

  /** The fill writes its layer kind into every cell 0 <= y < h of the
      column, overwriting, and changes no other cell (nothing at y >= h,
      nothing below 0, nothing in another column). */
  lemma FillColumnAt(t: Table, x: int, z: int, h: int, c: Cell)
    ensures Lookup(FillColumn(t, x, z, h), c) ==
      if InColumn(x, z, h, c) then Some(ColumnBlock(h, c.1)) else Lookup(t, c)
  {
    ColumnPrefixAt(t, x, z, h, h, c);
  }

  // ---------------- Trees ----------------

  /** The trunk height 4 + floor(Math.random() * 2). */
  function TrunkHeight(r: Draw): (h: int)
    ensures h == 4 || h == 5
  {
    4 + (r * 2.0).Floor
  }

  /** The table after the first n iterations of the trunk loop. */
  function TrunkPrefix(t: Table, x: int, y: int, z: int, n: int): Table
    decreases n
  {
    if n <= 0 then t
    else TrunkPrefix(t, x, y, z, n - 1)[(x, y + n - 1, z) := Wood]
  }

  predicate InTrunk(x: int, y: int, z: int, h: int, c: Cell)
  {
    c.0 == x && c.2 == z && y <= c.1 < y + h
  }

  lemma {:induction false} TrunkPrefixAt(t: Table, x: int, y: int, z: int, n: int, c: Cell)
    ensures Lookup(TrunkPrefix(t, x, y, z, n), c) ==
      if InTrunk(x, y, z, n, c) then Some(Wood) else Lookup(t, c)
  {
    if n > 0 {
      TrunkPrefixAt(t, x, y, z, n - 1, c);
    }
  }

  /** The canopy's falloff: |dx| + |dz| + dy < 5. */
  predicate InDiamond(dx: int, dz: int, dy: int)
  {
    Abs(dx) + Abs(dz) + dy < 5
  }

  /** The body of the innermost canopy loop: a leaf at offset
      (dx, dy, dz) from (x, top, z) when the offset is inside the diamond
      and the cell is empty. */
  function LeafStep(t: Table, x: int, top: int, z: int, dx: int, dz: int, dy: int): Table
  {
    var c := (x + dx, top + dy, z + dz);
    if InDiamond(dx, dz, dy) && c !in t then t[c := Leaves] else t
  }

  /** The first n iterations of the dy loop. */
  function Pillar(t: Table, x: int, top: int, z: int, dx: int, dz: int, n: int): Table
    decreases n
  {
    if n <= 0 then t
    else LeafStep(Pillar(t, x, top, z, dx, dz, n - 1), x, top, z, dx, dz, n - 1)
  }

  /** The first m iterations of the dz loop (dz = -2, -1, ...). */
  function Row(t: Table, x: int, top: int, z: int, dx: int, m: int): Table
    decreases m
  {
    if m <= 0 then t
    else Pillar(Row(t, x, top, z, dx, m - 1), x, top, z, dx, m - 3, 3)
  }

  /** The first l iterations of the dx loop (dx = -2, -1, ...). */
  function CanopyPrefix(t: Table, x: int, top: int, z: int, l: int): Table
    decreases l
  {
    if l <= 0 then t
    else Row(CanopyPrefix(t, x, top, z, l - 1), x, top, z, l - 3, 5)
  }

  /** The cells inside the diamond over (x, top, z). */
  function CanopyCells(x: int, top: int, z: int): set<Cell>
  {
    set dx: int, dz: int, dy: int | -2 <= dx <= 2 && -2 <= dz <= 2 && 0 <= dy <= 2 && InDiamond(dx, dz, dy)
      :: (x + dx, top + dy, z + dz)
  }

  /** What the three canopy loops (dx, dz in [-2, 2], dy in [0, 2]) leave
      behind: leaves added to every empty cell of the diamond. */
  function Canopy(t: Table, x: int, top: int, z: int): Table
  {
    map c | c in t.Keys + CanopyCells(x, top, z) :: if c in t then t[c] else Leaves
  }

  /** The generated tree: trunk of height h from (x, y, z), canopy on
      top of it. */
  function Tree(t: Table, x: int, y: int, z: int, h: int): Table
  {
    Canopy(TrunkPrefix(t, x, y, z, h), x, y + h, z)
  }

  /** The cells the canopy may fill around the trunk top (x, top, z). */
  predicate InCanopy(x: int, top: int, z: int, c: Cell)
  {
    -2 <= c.0 - x <= 2 && -2 <= c.2 - z <= 2 && 0 <= c.1 - top <= 2
    && InDiamond(c.0 - x, c.2 - z, c.1 - top)
  }

  /** The cells the first n iterations of the dy loop may fill. */
  predicate PillarVisited(x: int, top: int, z: int, dx: int, dz: int, n: int, c: Cell)
  {
    c.0 == x + dx && c.2 == z + dz && 0 <= c.1 - top < n && InDiamond(dx, dz, c.1 - top)
  }

  /** The cells the first m iterations of the dz loop may fill. */
  predicate RowVisited(x: int, top: int, z: int, dx: int, m: int, c: Cell)
  {
    c.0 == x + dx && -2 <= c.2 - z < m - 2 && 0 <= c.1 - top < 3 && InDiamond(dx, c.2 - z, c.1 - top)
  }

  lemma {:induction false} PillarAt(t: Table, x: int, top: int, z: int, dx: int, dz: int, n: int, c: Cell)
    ensures Lookup(Pillar(t, x, top, z, dx, dz, n), c) ==
      if PillarVisited(x, top, z, dx, dz, n, c) && c !in t then Some(Leaves) else Lookup(t, c)
  {
    if n > 0 {
      PillarAt(t, x, top, z, dx, dz, n - 1, c);
      assert PillarVisited(x, top, z, dx, dz, n, c) <==>
        PillarVisited(x, top, z, dx, dz, n - 1, c) || (c == (x + dx, top + n - 1, z + dz) && InDiamond(dx, dz, n - 1));
    }
  }

  lemma RowVisitedStep(x: int, top: int, z: int, dx: int, m: int, c: Cell)
    requires m >= 1
    ensures RowVisited(x, top, z, dx, m, c) <==>
      RowVisited(x, top, z, dx, m - 1, c) || PillarVisited(x, top, z, dx, m - 3, 3, c)
  {
  }

  lemma {:induction false} RowAt(t: Table, x: int, top: int, z: int, dx: int, m: int, c: Cell)
    ensures Lookup(Row(t, x, top, z, dx, m), c) ==
      if RowVisited(x, top, z, dx, m, c) && c !in t then Some(Leaves) else Lookup(t, c)
  {
    if m > 0 {
      var prev := Row(t, x, top, z, dx, m - 1);
      RowAt(t, x, top, z, dx, m - 1, c);
      PillarAt(prev, x, top, z, dx, m - 3, 3, c);
      RowVisitedStep(x, top, z, dx, m, c);
    }
  }

  /** The canopy cells visited by the first l iterations of the dx loop. */
  predicate CanopyVisited(x: int, top: int, z: int, l: int, c: Cell)
  {
    -2 <= c.0 - x < l - 2 && -2 <= c.2 - z <= 2 && 0 <= c.1 - top < 3
    && InDiamond(c.0 - x, c.2 - z, c.1 - top)
  }

  lemma CanopyVisitedAll(x: int, top: int, z: int, c: Cell)
    ensures CanopyVisited(x, top, z, 5, c) == InCanopy(x, top, z, c)
  {
  }

  lemma CanopyVisitedStep(x: int, top: int, z: int, l: int, c: Cell)
    requires l >= 1
    ensures CanopyVisited(x, top, z, l, c) <==>
      CanopyVisited(x, top, z, l - 1, c) || RowVisited(x, top, z, l - 3, 5, c)
  {
  }

  lemma {:induction false} CanopyPrefixAt(t: Table, x: int, top: int, z: int, l: int, c: Cell)
    ensures Lookup(CanopyPrefix(t, x, top, z, l), c) ==
      if CanopyVisited(x, top, z, l, c) && c !in t then Some(Leaves) else Lookup(t, c)
  {
    if l > 0 {
      var prev := CanopyPrefix(t, x, top, z, l - 1);
      CanopyPrefixAt(t, x, top, z, l - 1, c);
      RowAt(prev, x, top, z, l - 3, 5, c);
      CanopyVisitedStep(x, top, z, l, c);
    }
  }

  lemma CanopyCellsSpec(x: int, top: int, z: int, c: Cell)
    ensures c in CanopyCells(x, top, z) <==> InCanopy(x, top, z, c)
  {
    if InCanopy(x, top, z, c) {
      var dx, dz, dy := c.0 - x, c.2 - z, c.1 - top;
      assert (x + dx, top + dy, z + dz) == c;
    }
  }

  /** The canopy is insert-only: a cell inside the diamond becomes leaves
      exactly when it was empty, and every other cell keeps what it had. */
  lemma CanopyAt(t: Table, x: int, top: int, z: int, c: Cell)
    ensures Lookup(Canopy(t, x, top, z), c) ==
      if InCanopy(x, top, z, c) && c !in t then Some(Leaves) else Lookup(t, c)
  {
    CanopyCellsSpec(x, top, z, c);
  }

  /** The three nested canopy loops compute the canopy. */
  lemma CanopyLoops(t: Table, x: int, top: int, z: int)
    ensures CanopyPrefix(t, x, top, z, 5) == Canopy(t, x, top, z)
  {
    forall c
      ensures Lookup(CanopyPrefix(t, x, top, z, 5), c) == Lookup(Canopy(t, x, top, z), c)
    {
      CanopyPrefixAt(t, x, top, z, 5, c);
      CanopyVisitedAll(x, top, z, c);
      CanopyAt(t, x, top, z, c);
    }
    LookupExtensional(CanopyPrefix(t, x, top, z, 5), Canopy(t, x, top, z));
  }

  /** generateTree's loops compute the tree: the trunk loop, then the
      three canopy loops over the trunk top. */
  lemma TreeLoops(t: Table, x: int, y: int, z: int, h: int, trunk: Table, top: int)
    requires trunk == TrunkPrefix(t, x, y, z, h) && top == y + h
    ensures Tree(t, x, y, z, h) == CanopyPrefix(trunk, x, top, z, 5)
  {
    assert Tree(t, x, y, z, h) == Canopy(trunk, x, top, z);
    CanopyLoops(trunk, x, top, z);
  }

  /** What a tree rooted at (x, y, z) with trunk height h does to each
      cell: the trunk cells become wood whatever they held, canopy cells
      that were empty become leaves, and everything else is unchanged. */
  lemma TreeAt(t: Table, x: int, y: int, z: int, h: int, c: Cell)
    ensures Lookup(Tree(t, x, y, z, h), c) ==
      if InTrunk(x, y, z, h, c) then Some(Wood)
      else if InCanopy(x, y + h, z, c) && c !in t then Some(Leaves)
      else Lookup(t, c)
  {
    var trunk := TrunkPrefix(t, x, y, z, h);
    CanopyAt(trunk, x, y + h, z, c);
    TrunkPrefixAt(t, x, y, z, h, c);
    if InCanopy(x, y + h, z, c) {
      assert !InTrunk(x, y, z, h, c);
      assert c in trunk <==> c in t;
    }
  }

  /** The tree's shape: it overwrites its trunk, never overwrites any
      other block, and writes leaves only inside the diamond over the
      trunk top. */
  lemma TreeShape(t: Table, x: int, y: int, z: int, h: int, c: Cell)
    ensures InTrunk(x, y, z, h, c) ==> Lookup(Tree(t, x, y, z, h), c) == Some(Wood)
    ensures c in t && !InTrunk(x, y, z, h, c) ==> Lookup(Tree(t, x, y, z, h), c) == Some(t[c])
    ensures Lookup(Tree(t, x, y, z, h), c) != Lookup(t, c) ==>
      InTrunk(x, y, z, h, c) || (InCanopy(x, y + h, z, c) && Lookup(Tree(t, x, y, z, h), c) == Some(Leaves))
  {
    TreeAt(t, x, y, z, h, c);
  }

  // ---------------- World ----------------

  /** The terrain height 5 + floor(wave) of a column. */
  function ColumnHeight(noise: Noise, x: int, z: int): int
  {
    5 + noise.wave(x, z).Floor
  }

  predicate HasTree(noise: Noise, x: int, z: int)
  {
    noise.treeDraw(x, z) < TreeChance
  }

  function TreeHeight(noise: Noise, x: int, z: int): int
  {
    TrunkHeight(noise.trunkDraw(x, z))
  }

  /** The body of the inner loop of generateWorld for column (x, z):
      the column fill, then possibly a tree rooted on top of it. */
  function ColumnStep(t: Table, noise: Noise, x: int, z: int): Table
  {
    var h := ColumnHeight(noise, x, z);
    var filled := FillColumn(t, x, z, h);
    if HasTree(noise, x, z) then Tree(filled, x, h, z, TreeHeight(noise, x, z)) else filled
  }

  /** A column step is the fill followed, when the column's draw says so,
      by a tree rooted on the filled column. */
  lemma ColumnStepParts(t: Table, noise: Noise, x: int, z: int, filled: Table)
    requires filled == FillColumn(t, x, z, ColumnHeight(noise, x, z))
    ensures !HasTree(noise, x, z) ==> ColumnStep(t, noise, x, z) == filled
    ensures HasTree(noise, x, z) ==>
      ColumnStep(t, noise, x, z) == Tree(filled, x, ColumnHeight(noise, x, z), z, TreeHeight(noise, x, z))
  {
  }

  /** The first m iterations of the z loop for row x. */
  function Strip(t: Table, noise: Noise, x: int, m: int): Table
    decreases m
  {
    if m <= 0 then t
    else ColumnStep(Strip(t, noise, x, m - 1), noise, x, -ChunkSize + m - 1)
  }

  /** The first l iterations of the x loop. */
  function TerrainPrefix(t: Table, noise: Noise, l: int): Table
    decreases l
  {
    if l <= 0 then t
    else Strip(TerrainPrefix(t, noise, l - 1), noise, -ChunkSize + l - 1, 2 * ChunkSize)
  }

  /** generateWorld. */
  function Generate(t: Table, noise: Noise): Table
  {
    TerrainPrefix(t, noise, 2 * ChunkSize)
  }

  /** Column (x, z) still holds its fill and, if it got a tree, the
      tree's trunk rooted at (x, height, z). */
  ghost predicate Intact(t: Table, noise: Noise, x: int, z: int)
  {
    var h := ColumnHeight(noise, x, z);
    && (forall y :: 0 <= y < h ==> Lookup(t, (x, y, z)) == Some(ColumnBlock(h, y)))
    && (HasTree(noise, x, z) ==>
          forall y :: h <= y < h + TreeHeight(noise, x, z) ==> Lookup(t, (x, y, z)) == Some(Wood))
  }

  /** A column step leaves its own column intact. */
  lemma StepEstablishes(t: Table, noise: Noise, x: int, z: int)
    ensures Intact(ColumnStep(t, noise, x, z), noise, x, z)
  {
    var h := ColumnHeight(noise, x, z);
    var filled := FillColumn(t, x, z, h);
    forall y | 0 <= y < h
      ensures Lookup(ColumnStep(t, noise, x, z), (x, y, z)) == Some(ColumnBlock(h, y))
    {
      FillColumnAt(t, x, z, h, (x, y, z));
      if HasTree(noise, x, z) {
        TreeAt(filled, x, h, z, TreeHeight(noise, x, z), (x, y, z));
      }
    }
    if HasTree(noise, x, z) {
      forall y | h <= y < h + TreeHeight(noise, x, z)
        ensures Lookup(ColumnStep(t, noise, x, z), (x, y, z)) == Some(Wood)
      {
        TreeAt(filled, x, h, z, TreeHeight(noise, x, z), (x, y, z));
      }
    }
  }

  /** A column step never disturbs another intact column: it writes only
      its own column, and the leaves it adds elsewhere go into empty cells
      only. */
  lemma StepPreserves(t: Table, noise: Noise, x: int, z: int, x': int, z': int)
    requires (x, z) != (x', z')
    requires Intact(t, noise, x', z')
    ensures Intact(ColumnStep(t, noise, x, z), noise, x', z')
  {
    var h := ColumnHeight(noise, x, z);
    var filled := FillColumn(t, x, z, h);
    forall y | Lookup(t, (x', y, z')).Some?
      ensures Lookup(ColumnStep(t, noise, x, z), (x', y, z')) == Lookup(t, (x', y, z'))
    {
      FillColumnAt(t, x, z, h, (x', y, z'));
      if HasTree(noise, x, z) {
        TreeAt(filled, x, h, z, TreeHeight(noise, x, z), (x', y, z'));
      }
    }
  }

  lemma {:induction false} StripPreserves(t: Table, noise: Noise, x: int, m: int, x': int, z': int)
    requires x != x'
    requires Intact(t, noise, x', z')
    ensures Intact(Strip(t, noise, x, m), noise, x', z')
  {
    if m > 0 {
      StripPreserves(t, noise, x, m - 1, x', z');
      StepPreserves(Strip(t, noise, x, m - 1), noise, x, -ChunkSize + m - 1, x', z');
    }
  }

  lemma {:induction false} StripEstablishes(t: Table, noise: Noise, x: int, m: int, z: int)
    requires -ChunkSize <= z < -ChunkSize + m
    ensures Intact(Strip(t, noise, x, m), noise, x, z)
  {
    var prev := Strip(t, noise, x, m - 1);
    if z == -ChunkSize + m - 1 {
      StepEstablishes(prev, noise, x, z);
    } else {
      StripEstablishes(t, noise, x, m - 1, z);
      StepPreserves(prev, noise, x, -ChunkSize + m - 1, x, z);
    }
  }

  lemma {:induction false} TerrainPrefixIntact(t: Table, noise: Noise, l: int, x: int, z: int)
    requires -ChunkSize <= x < -ChunkSize + l
    requires -ChunkSize <= z < ChunkSize
    ensures Intact(TerrainPrefix(t, noise, l), noise, x, z)
  {
    var prev := TerrainPrefix(t, noise, l - 1);
    if x == -ChunkSize + l - 1 {
      StripEstablishes(prev, noise, x, 2 * ChunkSize, z);
    } else {
      TerrainPrefixIntact(t, noise, l - 1, x, z);
      StripPreserves(prev, noise, -ChunkSize + l - 1, 2 * ChunkSize, x, z);
    }
  }

  /** After generateWorld, every column x, z in [-32, 32) holds its full
      fill (Grass at height - 1, Dirt just below, Stone down to 0), and
      every column that got a tree holds that tree's whole trunk, rooted at
      (x, height, z): no later column or tree overwrites them. */
  lemma GenerateIntact(t: Table, noise: Noise, x: int, z: int)
    requires -ChunkSize <= x < ChunkSize && -ChunkSize <= z < ChunkSize
    ensures forall y :: 0 <= y < ColumnHeight(noise, x, z) ==>
      Lookup(Generate(t, noise), (x, y, z)) == Some(ColumnBlock(ColumnHeight(noise, x, z), y))
    ensures HasTree(noise, x, z) ==> forall y :: ColumnHeight(noise, x, z) <= y < ColumnHeight(noise, x, z) + TreeHeight(noise, x, z) ==>
      Lookup(Generate(t, noise), (x, y, z)) == Some(Wood)
  {
    TerrainPrefixIntact(t, noise, 2 * ChunkSize, x, z);
  }

  /** A cell is near column (x, z) when a column step or tree there could
      write it. */
  predicate NearColumn(x: int, z: int, c: Cell)
  {
    -2 <= c.0 - x <= 2 && -2 <= c.2 - z <= 2
  }

  lemma StepFrame(t: Table, noise: Noise, x: int, z: int, c: Cell)
    requires !NearColumn(x, z, c)
    ensures Lookup(ColumnStep(t, noise, x, z), c) == Lookup(t, c)
  {
    var h := ColumnHeight(noise, x, z);
    FillColumnAt(t, x, z, h, c);
    if HasTree(noise, x, z) {
      TreeAt(FillColumn(t, x, z, h), x, h, z, TreeHeight(noise, x, z), c);
    }
  }

  lemma {:induction false} StripFrame(t: Table, noise: Noise, x: int, m: int, c: Cell)
    requires c.0 < x - 2 || c.0 > x + 2 || c.2 < -ChunkSize - 2 || c.2 > -ChunkSize + m + 1
    ensures Lookup(Strip(t, noise, x, m), c) == Lookup(t, c)
  {
    if m > 0 {
      StripFrame(t, noise, x, m - 1, c);
      StepFrame(Strip(t, noise, x, m - 1), noise, x, -ChunkSize + m - 1, c);
    }
  }

  lemma {:induction false} TerrainPrefixFrame(t: Table, noise: Noise, l: int, c: Cell)
    requires c.0 < -ChunkSize - 2 || c.0 > -ChunkSize + l + 1 || c.2 < -ChunkSize - 2 || c.2 > ChunkSize + 1
    ensures Lookup(TerrainPrefix(t, noise, l), c) == Lookup(t, c)
  {
    if l > 0 {
      TerrainPrefixFrame(t, noise, l - 1, c);
      StripFrame(TerrainPrefix(t, noise, l - 1), noise, -ChunkSize + l - 1, 2 * ChunkSize, c);
    }
  }

  /** generateWorld writes nothing outside x, z in [-34, 34): the
      generated square plus the two-cell overhang of the canopies. */
  lemma GenerateFrame(t: Table, noise: Noise, c: Cell)
    requires c.0 < -ChunkSize - 2 || c.0 >= ChunkSize + 2 || c.2 < -ChunkSize - 2 || c.2 >= ChunkSize + 2
    ensures Lookup(Generate(t, noise), c) == Lookup(t, c)
  {
    TerrainPrefixFrame(t, noise, 2 * ChunkSize, c);
  }
}
