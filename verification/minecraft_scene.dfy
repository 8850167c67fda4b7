/**
  The Minecraft scene: a square floor of cobblestone tiles, then Steve, the
  pig, the sky (the sun and a cloud as its children) and, last, the Creeper,
  with the references the frame loop keeps to four of them.
 */
module MinecraftScene {
  import opened Wrappers
  import opened Vectors
  import opened SceneGraph

  const GridSize: int := 100
  /** Tiles run from -Half to Half on both axes. */
  const Half: int := GridSize / 2
  /** Tiles per row: both ends included. */
  const Side: int := 2 * Half + 1
  const TileCount: int := Side * Side
  const Spacing: real := 1.0
  const TileY: real := -1.5

  const CreeperName: string := "Creeper"

  // Ids: the tiles take 0 .. TileCount - 1, in the order they are created.
  const SteveId: nat := TileCount
  const PigId: nat := TileCount + 1
  const SkyId: nat := TileCount + 2
  const SunId: nat := TileCount + 3
  const CloudId: nat := TileCount + 4
  const CreeperId: nat := TileCount + 5

  datatype Scene = Scene(
    objects: seq<Node>,
    creeper: Option<nat>,
    steve: Option<nat>,
    pig: Option<nat>,
    sun: Option<nat>)

  /** The tile created for grid cell (x, z), as the program builds it. */
  function MakeTile(id: nat, x: int, z: int): Node {
    Rotate(Move(Fresh(id, ""), Vec3(x as real * Spacing, TileY, z as real * Spacing)), Vec3(-Pi / 2.0, 0.0, 0.0))
  }

  /** The position in creation order of the tile for cell (x, z): row by row in x, then z. */
  function CellIndex(x: int, z: int): int {
    (x + Half) * Side + (z + Half)
  }

  /** The k-th tile created: the cell is read back off its creation index. */
  function Tile(k: nat): Node
    requires k < TileCount
  {
    MakeTile(k, k / Side - Half, k % Side - Half)
  }

  lemma CellIndexDivMod(x: int, z: int)
    requires -Half <= z <= Half
    ensures CellIndex(x, z) / Side == x + Half
    ensures CellIndex(x, z) % Side == z + Half
  {
    DivModUnique(CellIndex(x, z), Side, x + Half, z + Half);
  }

  /** Quotient and remainder are the only ones that rebuild the number. */
  lemma DivModUnique(n: int, d: int, q: int, r: int)
    requires 0 < d && 0 <= r < d && n == q * d + r
    ensures n / d == q && n % d == r
  {
    var q', r' := n / d, n % d;
    assert n == q' * d + r' && 0 <= r' < d;
    assert (q - q') * d == r' - r;
    MulPastOne(q - q', d);
  }

  lemma MulPastOne(a: int, d: int)
    requires 0 < d
    ensures a >= 1 ==> a * d >= d
    ensures a <= -1 ==> a * d <= -d
  {
    if a >= 1 {
      assert (a - 1) * d >= 0;
    } else if a <= -1 {
      assert (-a - 1) * d >= 0;
    }
  }

  /**
    The tile loops: rows x = -50 .. 50, within each row z = -50 .. 50, one tile
    per cell, appended in that order.
   */
  method BuildTiles() returns (tiles: seq<Node>)
    ensures |tiles| == TileCount
    ensures forall k :: 0 <= k < |tiles| ==> tiles[k] == Tile(k)
  {
    tiles := [];
    var x := -Half;
    while x <= Half
      invariant -Half <= x <= Half + 1
      invariant |tiles| == (x + Half) * Side
      invariant forall k :: 0 <= k < |tiles| ==> tiles[k] == Tile(k)
    {
      var z := -Half;
      while z <= Half
        invariant -Half <= z <= Half + 1
        invariant |tiles| == CellIndex(x, z)
        invariant forall k :: 0 <= k < |tiles| ==> tiles[k] == Tile(k)
      {
        CellIndexDivMod(x, z);
        tiles := tiles + [MakeTile(|tiles|, x, z)];
        z := z + 1;
      }
      x := x + 1;
    }
  }

  /** Every grid cell (x, z) in [-50, 50] x [-50, 50] has its tile, at (x, -1.5, z). */
  lemma TileAtEveryCell(x: int, z: int)
    requires -Half <= x <= Half && -Half <= z <= Half
    ensures 0 <= CellIndex(x, z) < TileCount
    ensures Tile(CellIndex(x, z)).position == Vec3(x as real, TileY, z as real)
  {
    CellIndexDivMod(x, z);
  }

  /** A whole number in [-50, 50]: a coordinate of the tile grid. */
  predicate GridCoord(c: real) {
    c == c.Floor as real && -Half as real <= c <= Half as real
  }

  /** Every tile lies on a grid cell: whole x and z in [-50, 50], height -1.5. */
  lemma TileOnGrid(k: nat)
    requires k < TileCount
    ensures var p := Tile(k).position; p.y == TileY && GridCoord(p.x) && GridCoord(p.z)
  {
    var x, z := k / Side - Half, k % Side - Half;
    RowBound(k);
    assert (x as real).Floor == x;
    assert (z as real).Floor == z;
  }

  /** The creation index of a tile names a row of the grid. */
  lemma RowBound(k: nat)
    requires k < TileCount
    ensures 0 <= k / Side < Side
  {
    var q := k / Side;
    assert k == q * Side + k % Side;
    MulPastOne(q - Side + 1, Side);
  }

  /** No two tiles share a cell, so each cell holds exactly one tile. */
  lemma TilesDistinct(k1: nat, k2: nat)
    requires k1 < TileCount && k2 < TileCount && k1 != k2
    ensures Tile(k1).position != Tile(k2).position
  {
    assert k1 == (k1 / Side) * Side + k1 % Side;
    assert k2 == (k2 / Side) * Side + k2 % Side;
  }

  /**
    The scene as the program builds it. Steve and the pig are referenced as the
    last object when each is appended, the sun as the sky's first child, the
    Creeper as the last object of all.
   */
  method BuildScene() returns (sc: Scene)
    ensures |sc.objects| == TileCount + 4
    ensures forall k :: 0 <= k < TileCount ==> sc.objects[k] == Tile(k)
    ensures sc.objects[TileCount].position == Vec3(0.0, 0.0, 6.0) && sc.steve == Some(sc.objects[TileCount].id)
    ensures sc.objects[TileCount + 1].position == Vec3(0.0, 0.0, -6.0) && sc.pig == Some(sc.objects[TileCount + 1].id)
    ensures var sky := sc.objects[TileCount + 2];
            |sky.children| == 2 && sky.children[0].position == Vec3(-30.0, 40.0, -20.0) &&
            sky.children[1].position == Vec3(-25.0, 42.0, -22.0) && sc.sun == Some(sky.children[0].id)
    ensures var last := sc.objects[|sc.objects| - 1];
            last.name == CreeperName && last.position == Zero && sc.creeper == Some(last.id)
    ensures FindByName(sc.objects, CreeperName) == sc.creeper
    ensures UniqueIds(sc.objects)
    ensures forall k :: 0 <= k < |sc.objects| ==> sc.objects[k].id != SunId
    ensures sc.sun == Some(SunId) && sc.steve == Some(SteveId) && sc.pig == Some(PigId)
    ensures sc.objects[TileCount].name != CreeperName && sc.objects[TileCount + 1].name != CreeperName
  {
    var tiles := BuildTiles();

    var creeper := Fresh(CreeperId, CreeperName);
    creeper := Move(creeper, Zero);
    creeper := Grow(creeper, Vec3(1.5, 1.5, 1.5));

    var steve := Fresh(SteveId, "");
    steve := Grow(steve, Vec3(0.1, 0.1, 0.1));
    steve := Move(steve, Vec3(0.0, 0.0, 6.0));
    steve := SetOrientation(steve, Vec3(0.0, Pi, 0.0));
    var objects := tiles + [steve];
    var steveRef := Some(objects[|objects| - 1].id);
    assert steveRef == Some(SteveId);

    var pig := Fresh(PigId, "");
    pig := Grow(pig, Vec3(0.1, 0.1, 0.1));
    pig := Move(pig, Vec3(0.0, 0.0, -6.0));
    pig := SetOrientation(pig, Vec3(0.0, Pi, 0.0));
    objects := objects + [pig];
    var pigRef := Some(objects[|objects| - 1].id);
    assert pigRef == Some(PigId);

    var sky := Fresh(SkyId, "");
    var cloud := Fresh(CloudId, "");
    var sun := Fresh(SunId, "");
    sun := Move(sun, Vec3(-30.0, 40.0, -20.0));
    sun := Grow(sun, Vec3(0.3, 0.3, 0.3));
    cloud := Move(cloud, Vec3(-25.0, 42.0, -22.0));
    cloud := Grow(cloud, Vec3(1.5, 1.5, 1.5));
    sky := AddChild(sky, sun);
    sky := AddChild(sky, cloud);
    objects := objects + [sky];
    var sunRef := GetChild(objects[|objects| - 1], 0).value.id;

    objects := objects + [creeper];
    sc := Scene(objects, Some(objects[|objects| - 1].id), steveRef, pigRef, Some(sunRef));

    assert objects == tiles + [steve, pig, sky, creeper];
    SceneIds(tiles, objects);
    FindCreeper(objects);
  }

  lemma SceneIds(tiles: seq<Node>, objects: seq<Node>)
    requires |tiles| == TileCount && forall k :: 0 <= k < TileCount ==> tiles[k] == Tile(k)
    requires |objects| == TileCount + 4 && objects[..TileCount] == tiles
    requires objects[TileCount].id == SteveId && objects[TileCount + 1].id == PigId
    requires objects[TileCount + 2].id == SkyId && objects[TileCount + 3].id == CreeperId
    ensures UniqueIds(objects)
    ensures forall k :: 0 <= k < |objects| ==> objects[k].id != SunId
    ensures forall k :: 0 <= k < TileCount ==> objects[k].name == ""
  {
    assert forall k :: 0 <= k < TileCount ==> objects[k] == tiles[k];
    assert forall k :: 0 <= k < |objects| ==> (k < TileCount ==> objects[k].id == k) && (k >= TileCount ==> objects[k].id >= TileCount && objects[k].id != SunId);
  }

  lemma FindCreeper(objects: seq<Node>)
    requires |objects| == TileCount + 4
    requires forall k :: 0 <= k < TileCount ==> objects[k].name == ""
    requires objects[TileCount].name == "" && objects[TileCount + 1].name == "" && objects[TileCount + 2].name == ""
    requires objects[TileCount + 3].name == CreeperName
    ensures FindByName(objects, CreeperName) == Some(objects[TileCount + 3].id)
  {
    var r := FindByName(objects, CreeperName);
    assert r.Some?;
  }
}
