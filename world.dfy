/** The live world of main.js: the `blocks` dictionary of meshes, the
    scene those meshes are added to, and the selected block kind
    `curBlock`, with the operations that change them in place. Each method
    is proved against the functions of Store, Terrain and Editing on the
    block table it induces. */
module Scene {
  import opened Options
  import opened Blocks
  import opened Store
  import opened Terrain
  import opened Editing

  /** A block mesh: what makeBlock creates and setBlock positions. Only
      its kind (userData.blockType) and position matter here. */
  class Mesh {
    const kind: Block
    const position: Point

    constructor (kind: Block, position: Point)
      ensures this.kind == kind && this.position == position
    {
      this.kind := kind;
      this.position := position;
    }
  }

  /** A raycast hit as the mousedown handler receives it: the mesh that was
      hit, the cell reached from the hit point along the face normal, and
      the camera-to-hit distance. */
  datatype Pick = Pick(mesh: Mesh, target: Cell, distance: real)

  /** What the handler computes from a hit before it acts on it. */
  function AimOf(hit: Option<Pick>): Option<Aim>
  {
    match hit
    case None => None
    case Some(p) => Some(Aim(MeshCell(p.mesh.position), p.target, p.distance))
  }

  class World {
    var blocks: map<Cell, Mesh>
    var scene: set<Mesh>
    var curBlock: Block

    /** The scene holds exactly the meshes of the table, and each mesh sits
        at the centre of its own cell (so no cell has two meshes). */
    ghost predicate Valid()
      reads this
    {
      && scene == blocks.Values
      && (forall c :: c in blocks ==> blocks[c].position == Centre(c))
    }

    /** The block table: the kind of the mesh at each occupied cell. */
    function Table(): Table
      reads this
    {
      map c | c in blocks :: blocks[c].kind
    }

    constructor ()
      ensures Valid() && blocks == map[] && scene == {} && curBlock == Grass
    {
      blocks := map[];
      scene := {};
      curBlock := Grass;
    }

    /** Every mesh in the scene is the table's mesh for the cell its
        position leads back to. */
    lemma SceneMeshAt(m: Mesh)
      requires Valid() && m in scene
      ensures MeshCell(m.position) in blocks && blocks[MeshCell(m.position)] == m
    {
      var c :| c in blocks && blocks[c] == m;
      MeshCellRoundTrip(c, c);
    }

    /** getBlockAt: the scene mesh at a cell, if the cell is occupied. */
    function GetBlockAt(x: int, y: int, z: int): (r: Option<Mesh>)
      reads this
      requires Valid()
      ensures r.Some? <==> (x, y, z) in Table()
      ensures r.Some? ==> r.value in scene && r.value.kind == Table()[(x, y, z)]
      ensures r.Some? ==> r.value.position == Centre((x, y, z))
    {
      if (x, y, z) in blocks then Some(blocks[(x, y, z)]) else None
    }

    /** setBlock: a new mesh of the given kind at the cell's centre
        replaces any mesh the cell had, in the table and in the scene. */
    method SetBlock(x: int, y: int, z: int, kind: Block)
      requires Valid()
      modifies this`blocks, this`scene
      ensures Valid()
      ensures Table() == old(Table())[(x, y, z) := kind]
      ensures (x, y, z) in blocks && fresh(blocks[(x, y, z)])
      ensures forall c :: c in old(blocks) && c != (x, y, z) ==> c in blocks && blocks[c] == old(blocks)[c]
      ensures scene == (if (x, y, z) in old(blocks) then old(scene) - {old(blocks)[(x, y, z)]} else old(scene))
                       + {blocks[(x, y, z)]}
    {
      var key := (x, y, z);
      ghost var before, shown := blocks, scene;
      if key in blocks {
        scene := scene - {blocks[key]};
      }
      var mesh := new Mesh(kind, Centre(key));
      scene := scene + {mesh};
      blocks := blocks[key := mesh];
      forall m | m in scene ensures m in blocks.Values {
        if m != mesh {
          assert m in shown && m in before.Values;
          assert key in before ==> m != before[key];
          var c :| c in before && before[c] == m;
          assert c != key && c in blocks && blocks[c] == m;
        } else {
          assert blocks[key] == m;
        }
      }
      forall m | m in blocks.Values ensures m in scene {
        var c :| c in blocks && blocks[c] == m;
        if c != key {
          assert before[c] == m;
          assert key in before ==> before[key].position != m.position;
        }
      }
    }

    /** removeBlock: the cell's mesh leaves the scene and the table
        together; an empty cell is left alone. */
    method RemoveBlock(x: int, y: int, z: int)
      requires Valid()
      modifies this`blocks, this`scene
      ensures Valid()
      ensures Table() == old(Table()) - {(x, y, z)}
      ensures (x, y, z) !in old(blocks) ==> blocks == old(blocks) && scene == old(scene)
      ensures (x, y, z) in old(blocks) ==> scene == old(scene) - {old(blocks)[(x, y, z)]}
      ensures forall c :: c in old(blocks) && c != (x, y, z) ==> c in blocks && blocks[c] == old(blocks)[c]
    {
      var key := (x, y, z);
      if key in blocks {
        ghost var before := blocks;
        scene := scene - {blocks[key]};
        blocks := blocks - {key};
        forall m | m in scene ensures m in blocks.Values {
          var c :| c in before && before[c] == m;
          assert c != key;
          assert blocks[c] == m;
        }
        forall m | m in blocks.Values ensures m in scene {
          var c :| c in blocks && blocks[c] == m;
          assert before[c] == m;
          assert before[key].position != m.position;
        }
      }
    }

    /** generateTree(x, y, z), with the trunk's random draw passed in:
        the trunk loop, then the canopy loop over dx. */
    method GenerateTree(x: int, y: int, z: int, draw: Draw)
      requires Valid()
      modifies this`blocks, this`scene
      ensures Valid()
      ensures Table() == Tree(old(Table()), x, y, z, TrunkHeight(draw))
    {
      ghost var t0 := Table();
      var height := 4 + (draw * 2.0).Floor;
      var i := 0;
      while i < height
        invariant 0 <= i <= height
        invariant Valid()
        invariant Table() == TrunkPrefix(t0, x, y, z, i)
      {
        SetBlock(x, y + i, z, Wood);
        i := i + 1;
      }
      ghost var trunk := Table();
      var topY := y + height;
      GrowCanopy(x, topY, z);
      assert height == TrunkHeight(draw);
      TreeLoops(t0, x, y, z, height, trunk, topY);
    }

    /** The canopy part of generateTree: the dx loop over the diamond above
        the trunk top (x, topY, z). */
    method GrowCanopy(x: int, topY: int, z: int)
      requires Valid()
      modifies this`blocks, this`scene
      ensures Valid()
      ensures Table() == CanopyPrefix(old(Table()), x, topY, z, 5)
    {
      ghost var trunk := Table();
      var dx := -2;
      while dx <= 2
        invariant -2 <= dx <= 3
        invariant Valid()
        invariant Table() == CanopyPrefix(trunk, x, topY, z, dx + 2)
      {
        CanopyRow(x, topY, z, dx);
        dx := dx + 1;
      }
      assert dx == 3;
    }

    /** One iteration of generateTree's dx loop: the dz loop over one
        slice of the diamond. */
    method CanopyRow(x: int, topY: int, z: int, dx: int)
      requires Valid()
      modifies this`blocks, this`scene
      ensures Valid()
      ensures Table() == Row(old(Table()), x, topY, z, dx, 5)
    {
      ghost var rowStart := Table();
      var dz := -2;
      while dz <= 2
        invariant -2 <= dz <= 3
        invariant Valid()
        invariant Table() == Row(rowStart, x, topY, z, dx, dz + 2)
      {
        CanopyPillar(x, topY, z, dx, dz);
        dz := dz + 1;
      }
    }

    /** One iteration of generateTree's dz loop: the dy loop, which adds a
        leaf to each empty cell of the diamond above (x + dx, z + dz). */
    method CanopyPillar(x: int, topY: int, z: int, dx: int, dz: int)
      requires Valid()
      modifies this`blocks, this`scene
      ensures Valid()
      ensures Table() == Pillar(old(Table()), x, topY, z, dx, dz, 3)
    {
      ghost var pillarStart := Table();
      var dy := 0;
      while dy <= 2
        invariant 0 <= dy <= 3
        invariant Valid()
        invariant Table() == Pillar(pillarStart, x, topY, z, dx, dz, dy)
      {
        ghost var before := Table();
        if Abs(dx) + Abs(dz) + dy < 5 {
          var leafX, leafY, leafZ := x + dx, topY + dy, z + dz;
          if GetBlockAt(leafX, leafY, leafZ).None? {
            SetBlock(leafX, leafY, leafZ, Leaves);
          }
        }
        assert Table() == LeafStep(before, x, topY, z, dx, dz, dy);
        dy := dy + 1;
      }
      assert dy == 3;
    }

    /** generateWorld, with the terrain wave and the random draws passed
        in: the loops over x and z in [-32, 32). */
    method GenerateWorld(noise: Noise)
      requires Valid()
      modifies this`blocks, this`scene
      ensures Valid()
      ensures Table() == Generate(old(Table()), noise)
    {
      ghost var t0 := Table();
      var x := -ChunkSize;
      while x < ChunkSize
        invariant -ChunkSize <= x <= ChunkSize
        invariant Valid()
        invariant Table() == TerrainPrefix(t0, noise, x + ChunkSize)
      {
        ghost var stripStart := Table();
        var z := -ChunkSize;
        while z < ChunkSize
          invariant -ChunkSize <= z <= ChunkSize
          invariant Valid()
          invariant Table() == Strip(stripStart, noise, x, z + ChunkSize)
        {
          PopulateColumn(noise, x, z);
          z := z + 1;
        }
        x := x + 1;
      }
    }

    /** The body of generateWorld's z loop for column (x, z): the column
        fill loop over y, then a tree on top when the column's draw is
        below the tree chance. */
    method PopulateColumn(noise: Noise, x: int, z: int)
      requires Valid()
      modifies this`blocks, this`scene
      ensures Valid()
      ensures Table() == ColumnStep(old(Table()), noise, x, z)
    {
      ghost var columnStart := Table();
      var height := 5 + noise.wave(x, z).Floor;
      var y := 0;
      while y < height
        invariant 0 <= y <= if height < 0 then 0 else height
        invariant Valid()
        invariant Table() == ColumnPrefix(columnStart, x, z, height, y)
      {
        if y == height - 1 {
          SetBlock(x, y, z, Grass);
        } else if y > height - 4 {
          SetBlock(x, y, z, Dirt);
        } else {
          SetBlock(x, y, z, Stone);
        }
        y := y + 1;
      }
      assert y == height || (height < 0 && y == 0);
      ghost var filled := Table();
      assert filled == FillColumn(columnStart, x, z, height);
      ColumnStepParts(columnStart, noise, x, z, filled);
      if noise.treeDraw(x, z) < TreeChance {
        GenerateTree(x, height, z, noise.trunkDraw(x, z));
      }
    }

    /** The mousedown handler, given the pointer-lock state, the button and
        the raycast's hit (a mesh of the scene, if any). */
    method MouseDown(locked: bool, button: int, hit: Option<Pick>)
      requires Valid()
      requires hit.Some? ==> hit.value.mesh in scene
      modifies this`blocks, this`scene
      ensures Valid()
      ensures Table() == Edit(old(Table()), curBlock, locked, button, AimOf(hit))
      ensures Ignored(locked, button, AimOf(hit)) ==> blocks == old(blocks) && scene == old(scene)
      ensures !Ignored(locked, button, AimOf(hit)) && button == 0 ==> hit.value.mesh !in scene
      ensures !Ignored(locked, button, AimOf(hit)) && button == 2 && hit.value.target !in old(blocks) ==>
        hit.value.target in blocks && fresh(blocks[hit.value.target])
      ensures forall c :: c in old(blocks) && (hit.None? || (c != MeshCell(hit.value.mesh.position) && c != hit.value.target)) ==>
        c in blocks && blocks[c] == old(blocks)[c]
    {
      if !locked {
        return;
      }
      if hit.None? {
        return;
      }
      var pick := hit.value;
      var pos := pick.mesh.position;
      var hitX, hitY, hitZ := (pos.0 - 0.5).Floor, (pos.1 - 0.5).Floor, (pos.2 - 0.5).Floor;
      if pick.distance > Reach {
        return;
      }
      if button == 0 {
        SceneMeshAt(pick.mesh);
        RemoveBlock(hitX, hitY, hitZ);
      } else if button == 2 {
        var px, py, pz := pick.target.0, pick.target.1, pick.target.2;
        if GetBlockAt(px, py, pz).None? {
          SetBlock(px, py, pz, curBlock);
        }
      }
    }

    /** The digit-key handler. */
    method KeyDown(code: string)
      modifies this`curBlock
      ensures curBlock == SelectBlock(old(curBlock), code)
    {
      if code == "Digit1" { curBlock := Grass; }
      if code == "Digit2" { curBlock := Dirt; }
      if code == "Digit3" { curBlock := Stone; }
      if code == "Digit4" { curBlock := Wood; }
      if code == "Digit5" { curBlock := Leaves; }
    }
  }
}
