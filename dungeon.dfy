/** The roguelike's dungeon generator: map initialisation, room painting,
    the padded overlap test, player placement, the binary space partition
    with its rooms, and the L-shaped corridors between rooms. Every draw of
    the C `rand()` stream is an explicit parameter. */
module Dungeon {
  import opened Wrappers
  import CombatTypes
  import opened RogueTypes

  /** Every in-map cell of the map satisfies the property. */
  predicate InMapCell(i: int, j: int)
  {
    0 <= i < MapWidth && 0 <= j < MapHeight
  }

  /** InitializeMap: every tile empty, no rooms. */
  method InitializeMap(m: GameMap)
    requires m.Valid()
    modifies m, m.tiles
    ensures m.Valid() && m.roomCount == 0
    ensures forall i, j :: InMapCell(i, j) ==> m.tiles[i, j] == Empty
  {
    var x := 0;
    while x < MapWidth
      invariant 0 <= x <= MapWidth && m.Valid()
      invariant forall i, j :: InMapCell(i, j) && i < x ==> m.tiles[i, j] == Empty
    {
      var y := 0;
      while y < MapHeight
        invariant 0 <= y <= MapHeight && m.Valid()
        invariant forall i, j :: InMapCell(i, j) && (i < x || (i == x && j < y)) ==> m.tiles[i, j] == Empty
      {
        m.tiles[x, y] := Empty;
        y := y + 1;
      }
      x := x + 1;
    }
    m.roomCount := 0;
  }

  /** The room's own cells. */
  predicate Interior(r: Room, i: int, j: int)
  {
    r.x <= i < r.x + r.width && r.y <= j < r.y + r.height
  }

  /** The cells CreateRoom's two wall loops visit: the rows just above and
      below the room and the columns just left and right of it, corners
      included. */
  predicate Ring(r: Room, i: int, j: int)
  {
    (r.x - 1 <= i <= r.x + r.width && (j == r.y - 1 || j == r.y + r.height))
    || (r.y - 1 <= j <= r.y + r.height && (i == r.x - 1 || i == r.x + r.width))
  }

  /** The ring is exactly the one-cell border around the room: the cells of
      the room grown by one on every side that are not the room's own. */
  lemma RingIsBorder(r: Room, i: int, j: int)
    requires r.width >= 0 && r.height >= 0
    ensures Ring(r, i, j) <==>
              r.x - 1 <= i <= r.x + r.width && r.y - 1 <= j <= r.y + r.height && !Interior(r, i, j)
  {
  }

  /** A tile after CreateRoom: floor inside the room, wall on its ring,
      otherwise as before. */
  function RoomCell(t: TileType, i: int, j: int, r: Room): (u: TileType)
    ensures u == Floor || u == Wall || u == t
    ensures r.width >= 0 && r.height >= 0 ==>
              (Interior(r, i, j) ==> u == Floor)
              && (Ring(r, i, j) ==> u == Wall)
              && (!Interior(r, i, j) && !Ring(r, i, j) ==> u == t)
  {
    if Interior(r, i, j) then Floor else if Ring(r, i, j) then Wall else t
  }

  /** A room whose cells all lie on the map. */
  predicate RoomOnMap(r: Room)
  {
    0 <= r.x && 0 <= r.width && r.x + r.width <= MapWidth
    && 0 <= r.y && 0 <= r.height && r.y + r.height <= MapHeight
  }

  /** CreateRoom: the room's cells become floor and the in-map cells of its
      ring become wall; nothing else changes. */
  method CreateRoom(m: GameMap, x: int, y: int, width: int, height: int)
    requires m.Valid() && RoomOnMap(Room(x, y, width, height))
    modifies m.tiles
    ensures forall i, j :: InMapCell(i, j) ==> m.tiles[i, j] == RoomCell(old(m.tiles[i, j]), i, j, Room(x, y, width, height))
  {
    ghost var r := Room(x, y, width, height);
    var i := x;
    while i < x + width
      invariant x <= i <= x + width
      invariant forall a, b :: InMapCell(a, b) ==>
                  m.tiles[a, b] == if x <= a < i && y <= b < y + height then Floor else old(m.tiles[a, b])
    {
      var j := y;
      while j < y + height
        invariant y <= j <= y + height
        invariant forall a, b :: InMapCell(a, b) ==>
                    m.tiles[a, b] == if (x <= a < i && y <= b < y + height) || (a == i && y <= b < j) then Floor
                                     else old(m.tiles[a, b])
      {
        m.tiles[i, j] := Floor;
        j := j + 1;
      }
      i := i + 1;
    }
    i := x - 1;
    while i <= x + width
      invariant x - 1 <= i <= x + width + 1
      invariant forall a, b :: InMapCell(a, b) ==>
                  m.tiles[a, b] == if Interior(r, a, b) then Floor
                                   else if x - 1 <= a < i && (b == y - 1 || b == y + height) then Wall
                                   else old(m.tiles[a, b])
    {
      if i >= 0 && i < MapWidth {
        if y - 1 >= 0 {
          m.tiles[i, y - 1] := Wall;
        }
        if y + height < MapHeight {
          m.tiles[i, y + height] := Wall;
        }
      }
      i := i + 1;
    }
    var j := y - 1;
    while j <= y + height
      invariant y - 1 <= j <= y + height + 1
      invariant forall a, b :: InMapCell(a, b) ==>
                  m.tiles[a, b] == if Interior(r, a, b) then Floor
                                   else if (x - 1 <= a <= x + width && (b == y - 1 || b == y + height))
                                           || (y - 1 <= b < j && (a == x - 1 || a == x + width)) then Wall
                                   else old(m.tiles[a, b])
    {
      if j >= 0 && j < MapHeight {
        if x - 1 >= 0 {
          m.tiles[x - 1, j] := Wall;
        }
        if x + width < MapWidth {
          m.tiles[x + width, j] := Wall;
        }
      }
      j := j + 1;
    }
  }

  /** The padded overlap test: the two rectangles, each grown by two cells
      on every side, meet. */
  predicate Overlaps(existing: Room, r: Room)
  {
    r.x - 2 <= existing.x + existing.width + 2 && r.x + r.width + 2 >= existing.x - 2
    && r.y - 2 <= existing.y + existing.height + 2 && r.y + r.height + 2 >= existing.y - 2
  }

  /** The test does not depend on which room is the new one, rooms that
      share a cell always overlap, and rooms more than four cells apart on
      either axis never do. */
  lemma OverlapsProperties(a: Room, b: Room, i: int, j: int)
    ensures Overlaps(a, b) <==> Overlaps(b, a)
    ensures Interior(a, i, j) && Interior(b, i, j) ==> Overlaps(a, b)
    ensures a.x + a.width + 4 < b.x || a.y + a.height + 4 < b.y ==> !Overlaps(a, b)
  {
  }

  /** CheckRoomOverlap: some room already placed overlaps the new one. */
  method CheckRoomOverlap(m: GameMap, newRoom: Room) returns (overlap: bool)
    requires m.Valid()
    ensures overlap <==> exists k :: 0 <= k < m.roomCount && Overlaps(m.rooms[k], newRoom)
    ensures m.roomCount == 0 ==> !overlap
  {
    var i := 0;
    while i < m.roomCount
      invariant 0 <= i <= m.roomCount
      invariant forall k :: 0 <= k < i ==> !Overlaps(m.rooms[k], newRoom)
    {
      var existing := m.rooms[i];
      if Overlaps(existing, newRoom) {
        return true;
      }
      i := i + 1;
    }
    return false;
  }

  /** The integer centre of a room. */
  function Centre(r: Room): (c: (int, int))
    ensures r.width >= 1 && r.height >= 1 ==> Interior(r, c.0, c.1)
  {
    (r.x + r.width / 2, r.y + r.height / 2)
  }

  /** PlacePlayer: the player moves to the centre of the first room when
      there is one, and is otherwise left where it is; nothing but the
      position changes. The C out-parameter comes back as the result. */
  method PlacePlayer(m: GameMap, player: Player) returns (placed: Player)
    requires m.Valid()
    ensures m.roomCount > 0 ==> placed == player.(x := Centre(m.rooms[0]).0, y := Centre(m.rooms[0]).1)
    ensures m.roomCount <= 0 ==> placed == player
  {
    placed := player;
    if m.roomCount > 0 {
      var firstRoom := m.rooms[0];
      placed := placed.(x := firstRoom.x + firstRoom.width / 2, y := firstRoom.y + firstRoom.height / 2);
    }
  }

  /** A node of the binary space partition: a rectangle, split in two or a
      leaf. */
  datatype Bsp =
    | Leaf(x: int, y: int, width: int, height: int)
    | Split(x: int, y: int, width: int, height: int, left: Bsp, right: Bsp)

  /** The draws one split may consume: the coin choosing the direction of a
      square-ish node and the offset of the cut. */
  datatype SplitDraw = SplitDraw(coin: nat, offset: nat)

  /** SplitNode on a fresh node. A node with either side at most twice the
      minimum stays a leaf; otherwise it is cut across its longer side when
      that side is at least 25% longer (the float ratio test written as
      4w >= 5h), and across a coin-chosen side otherwise, at least `minSize`
      from either edge. */
  function SplitNode(x: int, y: int, width: int, height: int, minSize: int, d: SplitDraw): (r: Bsp)
    requires minSize >= 0
    ensures r.x == x && r.y == y && r.width == width && r.height == height
    ensures r.Split? ==> Halves(r, minSize) && r.left.Leaf? && r.right.Leaf?
  {
    if width <= minSize * 2 || height <= minSize * 2 then Leaf(x, y, width, height)
    else
      var horizontal :=
        if width > height && 4 * width >= 5 * height then false
        else if height > width && 4 * height >= 5 * width then true
        else d.coin % 2 == 0;
      if horizontal then
        var cut := y + minSize + d.offset % (height - minSize * 2);
        Split(x, y, width, height, Leaf(x, y, width, cut - y), Leaf(x, cut, width, height - (cut - y)))
      else
        var cut := x + minSize + d.offset % (width - minSize * 2);
        Split(x, y, width, height, Leaf(x, y, cut - x, height), Leaf(cut, y, width - (cut - x), height))
  }

  /** The two children of a split node tile it exactly: they share one full
      side of the parent, sit side by side, and each is at least `minSize`
      across the cut. */
  predicate Halves(n: Bsp, minSize: int)
    requires n.Split?
  {
    var l := n.left;
    var r := n.right;
    (l.x == n.x && l.y == n.y && l.width == n.width && r.x == n.x && r.width == n.width
     && r.y == n.y + l.height && l.height + r.height == n.height && l.height >= minSize && r.height >= minSize)
    || (l.x == n.x && l.y == n.y && l.height == n.height && r.y == n.y && r.height == n.height
        && r.x == n.x + l.width && l.width + r.width == n.width && l.width >= minSize && r.width >= minSize)
  }

  /** Every split of the tree tiles its node. */
  predicate Tiled(t: Bsp, minSize: int)
  {
    match t
    case Leaf(_, _, _, _) => true
    case Split(_, _, _, _, l, r) => Halves(t, minSize) && Tiled(l, minSize) && Tiled(r, minSize)
  }

  /** SplitNode keeps the node's rectangle; it splits exactly when both
      sides exceed twice the minimum, and then the halves tile the node. */
  lemma SplitNodeTiles(x: int, y: int, width: int, height: int, minSize: int, d: SplitDraw)
    requires minSize >= 0
    ensures var r := SplitNode(x, y, width, height, minSize, d);
            r.x == x && r.y == y && r.width == width && r.height == height
            && (r.Leaf? <==> width <= minSize * 2 || height <= minSize * 2)
            && (r.Split? ==> Halves(r, minSize) && r.left.Leaf? && r.right.Leaf?)
  {
  }

  function Depth(t: Bsp): nat
  {
    match t
    case Leaf(_, _, _, _) => 0
    case Split(_, _, _, _, l, r) => 1 + if Depth(l) < Depth(r) then Depth(r) else Depth(l)
  }

  /** GenerateBSPTree: split the node and, if it split, both children, down
      to `maxDepth` levels. Split attempts read the draw stream in the
      order the C recursion makes them; the result carries the next unread
      position. */
  function GenerateBSPTree(x: int, y: int, width: int, height: int, minSize: int, maxDepth: int,
                           draws: nat -> SplitDraw, k: nat): (r: (Bsp, nat))
    requires minSize >= 0
    ensures r.0.x == x && r.0.y == y && r.0.width == width && r.0.height == height
    ensures r.1 >= k && (maxDepth > 0 <==> r.1 > k)
    decreases maxDepth
  {
    if maxDepth <= 0 then (Leaf(x, y, width, height), k)
    else
      var n := SplitNode(x, y, width, height, minSize, draws(k));
      if n.Leaf? then (n, k + 1)
      else
        var l := GenerateBSPTree(n.left.x, n.left.y, n.left.width, n.left.height, minSize, maxDepth - 1, draws, k + 1);
        var r := GenerateBSPTree(n.right.x, n.right.y, n.right.width, n.right.height, minSize, maxDepth - 1, draws, l.1);
        (Split(x, y, width, height, l.0, r.0), r.1)
  }

  /** The generated tree covers the starting rectangle, every split in it
      tiles its node, and it is at most `maxDepth` deep. */
  lemma {:induction false} GenerateTiles(x: int, y: int, width: int, height: int, minSize: int, maxDepth: int,
                                         draws: nat -> SplitDraw, k: nat)
    requires minSize >= 0
    ensures var t := GenerateBSPTree(x, y, width, height, minSize, maxDepth, draws, k).0;
            t.x == x && t.y == y && t.width == width && t.height == height
            && Tiled(t, minSize) && Depth(t) <= CombatTypes.Max(0, maxDepth)
    decreases maxDepth
  {
    if maxDepth > 0 {
      var n := SplitNode(x, y, width, height, minSize, draws(k));
      SplitNodeTiles(x, y, width, height, minSize, draws(k));
      if n.Split? {
        var l := GenerateBSPTree(n.left.x, n.left.y, n.left.width, n.left.height, minSize, maxDepth - 1, draws, k + 1);
        GenerateTiles(n.left.x, n.left.y, n.left.width, n.left.height, minSize, maxDepth - 1, draws, k + 1);
        GenerateTiles(n.right.x, n.right.y, n.right.width, n.right.height, minSize, maxDepth - 1, draws, l.1);
      }
    }
  }

  /** The rectangle of a node, as a room. */
  function RectOf(t: Bsp): Room
  {
    Room(t.x, t.y, t.width, t.height)
  }

  /** Every leaf of the tree lies on the map. */
  predicate LeavesOnMap(t: Bsp)
  {
    match t
    case Leaf(_, _, _, _) => RoomOnMap(RectOf(t))
    case Split(_, _, _, _, l, r) => LeavesOnMap(l) && LeavesOnMap(r)
  }

  /** A tiled tree whose root lies on the map has all its leaves on the
      map. */
  lemma {:induction false} TiledOnMap(t: Bsp, minSize: int)
    requires minSize >= 0 && Tiled(t, minSize) && RoomOnMap(RectOf(t))
    ensures LeavesOnMap(t)
  {
    match t
    case Leaf(_, _, _, _) =>
    case Split(_, _, _, _, l, r) =>
      TiledOnMap(l, minSize);
      TiledOnMap(r, minSize);
  }

  /** The tree GenerateBSPDungeon grows from the whole map, with the
      minimum room size and depth 5, has every leaf on the map, so it meets
      CreateRoomsInBSP's requirement. */
  lemma GeneratedTreeOnMap(draws: nat -> SplitDraw, k: nat)
    ensures LeavesOnMap(GenerateBSPTree(0, 0, MapWidth, MapHeight, MinRoomSize, 5, draws, k).0)
  {
    var t := GenerateBSPTree(0, 0, MapWidth, MapHeight, MinRoomSize, 5, draws, k).0;
    GenerateTiles(0, 0, MapWidth, MapHeight, MinRoomSize, 5, draws, k);
    TiledOnMap(t, MinRoomSize);
  }

  /** The draws a leaf's room consumes: width, height and the two position
      jitters. */
  datatype RoomDraw = RoomDraw(w: nat, h: nat, dx: nat, dy: nat)

  /** What CreateRoomInNode as written yields: no room for an inner node, a
      room, or undefined behaviour (a remainder by zero). */
  datatype RoomPick = NoRoom | Undefined | Placed(room: Room)

  /** C's `/` truncates towards zero. */
  function CQuot(a: int, b: int): int
    requires b > 0
  {
    if a >= 0 then a / b else -((-a) / b)
  }

  /** C's `%` for a non-negative dividend: the sign of the divisor does not
      matter, and a zero divisor is undefined. */
  function CRem(a: nat, b: int): nat
    requires b != 0
  {
    a % CombatTypes.Abs(b)
  }

  /** A room side and its offset along one axis of the node, then the clamp
      into the node's extent: the code as written. */
  function PlaceAsWritten(start: int, extent: int, minRoomSize: int, sizeDraw: nat, jitterDraw: nat): Option<(int, int)>
  {
    var span := extent - minRoomSize - 2;
    if span == 0 then None
    else
      var size := minRoomSize + CRem(sizeDraw, span);
      var pos := start + CQuot(extent - size, 2) + (jitterDraw % 3 - 1);
      var pos1 := if pos < start then start else pos;
      var pos2 := if pos1 + size > start + extent then start + extent - size else pos1;
      Some((pos2, size))
  }

  /** CreateRoomInNode as written: an inner node gets no room; a leaf whose
      width or height is exactly two more than the minimum room size takes
      a remainder by zero; any other leaf gets a room at least the minimum
      size that the clamp keeps from passing the node's far edges. */
  function CreateRoomInNodeAsWritten(n: Bsp, minRoomSize: int, d: RoomDraw): (r: RoomPick)
    ensures r.NoRoom? <==> n.Split?
    ensures r.Undefined? <==> n.Leaf? && (n.width - minRoomSize - 2 == 0 || n.height - minRoomSize - 2 == 0)
    ensures r.Placed? ==>
              r.room.width >= minRoomSize && r.room.height >= minRoomSize
              && r.room.x + r.room.width <= n.x + n.width && r.room.y + r.room.height <= n.y + n.height
  {
    if n.Split? then NoRoom
    else
      var h := PlaceAsWritten(n.x, n.width, minRoomSize, d.w, d.dx);
      var v := PlaceAsWritten(n.y, n.height, minRoomSize, d.h, d.dy);
      if h.None? || v.None? then Undefined
      else Placed(Room(h.value.0, v.value.0, h.value.1, v.value.1))
  }

  /** A leaf seven cells wide, as the first vertical cut of the 80 x 45 map
      with offset draw 2 leaves it, makes the width remainder a remainder by
      zero; a leaf five cells wide, as offset draw 0 leaves it, with an odd
      width draw gets a six-cell room that the clamp pushes one cell left of
      the node, and off the map. */
  lemma CreateRoomInNodeAsWrittenFails()
    ensures SplitNode(0, 0, MapWidth, MapHeight, MinRoomSize, SplitDraw(0, 2)).left == Leaf(0, 0, 7, 45)
    ensures SplitNode(0, 0, 7, 45, MinRoomSize, SplitDraw(0, 0)) == Leaf(0, 0, 7, 45)
    ensures CreateRoomInNodeAsWritten(Leaf(0, 0, 7, 45), MinRoomSize, RoomDraw(0, 0, 1, 1)) == Undefined
    ensures SplitNode(0, 0, MapWidth, MapHeight, MinRoomSize, SplitDraw(0, 0)).left == Leaf(0, 0, 5, 45)
    ensures CreateRoomInNodeAsWritten(Leaf(0, 0, 5, 45), MinRoomSize, RoomDraw(1, 0, 1, 1)) == Placed(Room(-1, 20, 6, 5))
    ensures !RoomOnMap(Room(-1, 20, 6, 5))
  {
  }

  /** The room side along one axis with the remainder guarded: when the
      node leaves no span to draw from, the room takes the minimum size, cut
      down to the node's extent. */
  function Place(start: int, extent: int, minRoomSize: int, sizeDraw: nat, jitterDraw: nat): (r: (int, int))
    requires extent >= 0 && minRoomSize >= 0
    ensures start <= r.0 && r.0 + r.1 <= start + extent
    ensures r.1 >= CombatTypes.Min(minRoomSize, extent)
  {
    var span := extent - minRoomSize - 2;
    var size := if span > 0 then minRoomSize + sizeDraw % span else CombatTypes.Min(minRoomSize, extent);
    var pos := start + (extent - size) / 2 + (jitterDraw % 3 - 1);
    var pos1 := if pos < start then start else pos;
    var pos2 := if pos1 + size > start + extent then start + extent - size else pos1;
    (pos2, size)
  }

  /** The room of a leaf, with the guarded remainder. */
  function LeafRoom(n: Bsp, minRoomSize: int, d: RoomDraw): (r: Room)
    requires n.width >= 0 && n.height >= 0 && minRoomSize >= 0
    ensures n.x <= r.x && r.x + r.width <= n.x + n.width && n.y <= r.y && r.y + r.height <= n.y + n.height
    ensures r.width >= CombatTypes.Min(minRoomSize, n.width) && r.height >= CombatTypes.Min(minRoomSize, n.height)
  {
    var h := Place(n.x, n.width, minRoomSize, d.w, d.dx);
    var v := Place(n.y, n.height, minRoomSize, d.h, d.dy);
    Room(h.0, v.0, h.1, v.1)
  }

  /** CreateRoomInNode: no room for an inner node; for a leaf, a room inside
      the leaf's rectangle, at least the minimum size where the leaf allows
      it. Where the node leaves room to draw from, this is the code as
      written. The containment and size are LeafRoom's ensures. */
  function CreateRoomInNode(n: Bsp, minRoomSize: int, d: RoomDraw): (r: Option<Room>)
    requires n.width >= 0 && n.height >= 0 && minRoomSize >= 0
    ensures r.None? <==> n.Split?
    ensures r.Some? ==> r.value == LeafRoom(n, minRoomSize, d)
  {
    if n.Split? then None else Some(LeafRoom(n, minRoomSize, d))
  }

  /** Where the leaf is wide and tall enough to draw from, the guarded
      version agrees with the code as written. */
  lemma CreateRoomInNodeAgrees(n: Bsp, minRoomSize: int, d: RoomDraw)
    requires n.Leaf? && minRoomSize >= 0
    requires n.width - minRoomSize - 2 > 0 && n.height - minRoomSize - 2 > 0
    ensures CreateRoomInNodeAsWritten(n, minRoomSize, d) == Placed(LeafRoom(n, minRoomSize, d))
  {
  }

  function LeafCount(t: Bsp): nat
  {
    match t
    case Leaf(_, _, _, _) => 1
    case Split(_, _, _, _, l, r) => LeafCount(l) + LeafCount(r)
  }

  /** The rooms of the leaves in left-to-right order, leaf k taking draw
      first + k. */
  function RoomsOf(t: Bsp, minRoomSize: int, draws: seq<RoomDraw>, first: nat): (rs: seq<Room>)
    requires minRoomSize >= 0 && LeavesOnMap(t) && first + LeafCount(t) <= |draws|
    ensures |rs| == LeafCount(t)
  {
    match t
    case Leaf(_, _, _, _) => [LeafRoom(t, minRoomSize, draws[first])]
    case Split(_, _, _, _, l, r) =>
      RoomsOf(l, minRoomSize, draws, first) + RoomsOf(r, minRoomSize, draws, first + LeafCount(l))
  }

  /** Every room of a tree that lies on the map lies on the map. */
  lemma {:induction false} RoomsOfOnMap(t: Bsp, minRoomSize: int, draws: seq<RoomDraw>, first: nat)
    requires minRoomSize >= 0 && LeavesOnMap(t) && first + LeafCount(t) <= |draws|
    ensures forall k :: 0 <= k < LeafCount(t) ==> RoomOnMap(RoomsOf(t, minRoomSize, draws, first)[k])
  {
    match t
    case Leaf(_, _, _, _) =>
    case Split(_, _, _, _, l, r) =>
      RoomsOfOnMap(l, minRoomSize, draws, first);
      RoomsOfOnMap(r, minRoomSize, draws, first + LeafCount(l));
  }

  /** A tile after CreateRoom has painted each of the rooms in turn. */
  function PaintRooms(t: TileType, i: int, j: int, rooms: seq<Room>): TileType
  {
    if |rooms| == 0 then t else RoomCell(PaintRooms(t, i, j, rooms[..|rooms| - 1]), i, j, rooms[|rooms| - 1])
  }

  /** Painting two batches of rooms is painting the first, then the second. */
  lemma {:induction false} PaintRoomsAppend(t: TileType, i: int, j: int, a: seq<Room>, b: seq<Room>)
    ensures PaintRooms(t, i, j, a + b) == PaintRooms(PaintRooms(t, i, j, a), i, j, b)
    decreases |b|
  {
    if |b| > 0 {
      assert (a + b)[..|a + b| - 1] == a + b[..|b| - 1];
      assert (a + b)[|a + b| - 1] == b[|b| - 1];
      PaintRoomsAppend(t, i, j, a, b[..|b| - 1]);
    } else {
      assert a + b == a;
    }
  }

  /** A painted cell is the last painted room's floor or wall when some
      room covers it, and untouched otherwise. */
  lemma {:induction false} PaintRoomsEffect(t: TileType, i: int, j: int, rooms: seq<Room>)
    ensures var u := PaintRooms(t, i, j, rooms);
            u == t || u == Floor || u == Wall
    ensures (forall k :: 0 <= k < |rooms| ==> !Interior(rooms[k], i, j) && !Ring(rooms[k], i, j)) ==> PaintRooms(t, i, j, rooms) == t
    decreases |rooms|
  {
    if |rooms| > 0 {
      PaintRoomsEffect(t, i, j, rooms[..|rooms| - 1]);
    }
  }

  /** The first `count` slots of the table, then the new rooms, then the
      rest of the table as it was. */
  function Splice(table: seq<Room>, count: int, added: seq<Room>): seq<Room>
    requires 0 <= count && count + |added| <= |table|
  {
    table[..count] + added + table[count + |added|..]
  }

  /** A snapshot of the tile array, indexed [x][y]. */
  ghost function TilesOf(tiles: array2<TileType>): (g: seq<seq<TileType>>)
    reads tiles
    ensures |g| == tiles.Length0
    ensures forall i :: 0 <= i < |g| ==> |g[i]| == tiles.Length1
  {
    seq(tiles.Length0, i requires 0 <= i < tiles.Length0 reads tiles =>
      seq(tiles.Length1, j requires 0 <= j < tiles.Length1 reads tiles => tiles[i, j]))
  }

  /** `after` is `before` with the rooms painted over it, cell by cell. */
  ghost predicate PaintedGrid(before: seq<seq<TileType>>, after: seq<seq<TileType>>, added: seq<Room>)
  {
    |after| == |before|
    && (forall i :: 0 <= i < |before| ==> |after[i]| == |before[i]|)
    && forall i, j :: 0 <= i < |before| && 0 <= j < |before[i]| ==>
         after[i][j] == PaintRooms(before[i][j], i, j, added)
  }

  /** Painting one batch of rooms and then another paints both. */
  lemma PaintedGridCompose(g0: seq<seq<TileType>>, g1: seq<seq<TileType>>, g2: seq<seq<TileType>>,
                           a: seq<Room>, b: seq<Room>)
    requires PaintedGrid(g0, g1, a) && PaintedGrid(g1, g2, b)
    ensures PaintedGrid(g0, g2, a + b)
  {
    forall i, j | 0 <= i < |g0| && 0 <= j < |g0[i]|
      ensures g2[i][j] == PaintRooms(g0[i][j], i, j, a + b)
    {
      PaintRoomsAppend(g0[i][j], i, j, a, b);
    }
  }

  /** The part of the map CreateRoomsInBSP changes: the room count, the
      room table and the tiles. */
  datatype MapState = MapState(count: int, rooms: seq<Room>, tiles: seq<seq<TileType>>)

  ghost function StateOf(m: GameMap): MapState
    reads m, m.rooms, m.tiles
  {
    MapState(m.roomCount, m.rooms[..], TilesOf(m.tiles))
  }

  /** Recording `rooms` in order after the rooms already in the table, and
      painting them, up to the capacity of the room table. */
  ghost predicate RecordedAndPainted(s0: MapState, s1: MapState, rooms: seq<Room>)
  {
    |s0.rooms| == MaxRooms && 0 <= s0.count <= MaxRooms
    && s1.count == CombatTypes.Min(MaxRooms, s0.count + |rooms|)
    && s1.rooms == Splice(s0.rooms, s0.count, rooms[..s1.count - s0.count])
    && PaintedGrid(s0.tiles, s1.tiles, rooms[..s1.count - s0.count])
  }

  /** What CreateRoomsInBSP does to the map: the tree's leaf rooms, left
      to right, are recorded after the rooms already there and painted on
      the tiles, up to the capacity of the room table. */
  ghost predicate PlacedRooms(s0: MapState, s1: MapState, t: Bsp, minRoomSize: int, draws: seq<RoomDraw>, first: nat)
    requires minRoomSize >= 0 && LeavesOnMap(t) && first + LeafCount(t) <= |draws|
  {
    RecordedAndPainted(s0, s1, RoomsOf(t, minRoomSize, draws, first))
  }

  /** Placing one batch of rooms and then another places both, in order. */
  lemma RecordedAndPaintedCompose(s0: MapState, s1: MapState, s2: MapState, ls: seq<Room>, rs: seq<Room>, all: seq<Room>)
    requires RecordedAndPainted(s0, s1, ls) && RecordedAndPainted(s1, s2, rs) && all == ls + rs
    ensures RecordedAndPainted(s0, s2, all)
  {
    var a := ls[..s1.count - s0.count];
    var b := rs[..s2.count - s1.count];
    SplitAdds(ls, rs, s0.count, s1.count, s2.count);
    SpliceTwice(s0.rooms, s0.count, a, b);
    PaintedGridCompose(s0.tiles, s1.tiles, s2.tiles, a, b);
  }

  /** Placing the left subtree's rooms and then the right subtree's places
      the split node's rooms. */
  lemma PlacedRoomsCompose(s0: MapState, s1: MapState, s2: MapState, t: Bsp, minRoomSize: int,
                           draws: seq<RoomDraw>, first: nat)
    requires t.Split? && minRoomSize >= 0 && LeavesOnMap(t) && first + LeafCount(t) <= |draws|
    requires PlacedRooms(s0, s1, t.left, minRoomSize, draws, first)
    requires PlacedRooms(s1, s2, t.right, minRoomSize, draws, first + LeafCount(t.left))
    ensures PlacedRooms(s0, s2, t, minRoomSize, draws, first)
  {
    var ls := RoomsOf(t.left, minRoomSize, draws, first);
    var rs := RoomsOf(t.right, minRoomSize, draws, first + LeafCount(t.left));
    assert RoomsOf(t, minRoomSize, draws, first) == ls + rs;
    RecordedAndPaintedCompose(s0, s1, s2, ls, rs, RoomsOf(t, minRoomSize, draws, first));
  }

  /** The leaf case of CreateRoomsInBSP: the leaf's room is recorded and
      painted when the room table has space. */
  method CreateLeafRoom(t: Bsp, m: GameMap, minRoomSize: int, draws: seq<RoomDraw>, first: nat)
    requires t.Leaf? && m.Valid() && minRoomSize >= 0 && LeavesOnMap(t) && first < |draws|
    modifies m, m.tiles, m.rooms
    ensures m.Valid() && PlacedRooms(old(StateOf(m)), StateOf(m), t, minRoomSize, draws, first)
  {
    var room := CreateRoomInNode(t, minRoomSize, draws[first]);
    if room.Some? {
      if m.roomCount < MaxRooms {
        m.rooms[m.roomCount] := room.value;
        m.roomCount := m.roomCount + 1;
        CreateRoom(m, room.value.x, room.value.y, room.value.width, room.value.height);
        assert [room.value][..0] == [];
      }
    }
    assert RoomsOf(t, minRoomSize, draws, first) == [room.value];
  }

  /** CreateRoomsInBSP: every leaf, left to right, gets its room; the room
      is recorded and painted while the room table has space. So the room
      count never exceeds MAX_ROOMS, earlier rooms are kept, and the map is
      painted with exactly the recorded rooms. */
  method CreateRoomsInBSP(t: Bsp, m: GameMap, minRoomSize: int, draws: seq<RoomDraw>, first: nat)
    requires m.Valid() && minRoomSize >= 0 && LeavesOnMap(t) && first + LeafCount(t) <= |draws|
    modifies m, m.tiles, m.rooms
    ensures m.Valid() && PlacedRooms(old(StateOf(m)), StateOf(m), t, minRoomSize, draws, first)
    decreases t, 1
  {
    if t.Leaf? {
      CreateLeafRoom(t, m, minRoomSize, draws, first);
    } else {
      CreateSplitRooms(t, m, minRoomSize, draws, first);
    }
  }

  /** The split case of CreateRoomsInBSP: the left subtree's rooms, then
      the right subtree's. */
  method CreateSplitRooms(t: Bsp, m: GameMap, minRoomSize: int, draws: seq<RoomDraw>, first: nat)
    requires t.Split? && m.Valid() && minRoomSize >= 0 && LeavesOnMap(t)
    requires first + LeafCount(t) <= |draws|
    modifies m, m.tiles, m.rooms
    ensures m.Valid() && PlacedRooms(old(StateOf(m)), StateOf(m), t, minRoomSize, draws, first)
    decreases t, 0
  {
    ghost var s0 := StateOf(m);
    CreateRoomsInBSP(t.left, m, minRoomSize, draws, first);
    ghost var s1 := StateOf(m);
    CreateRoomsInBSP(t.right, m, minRoomSize, draws, first + LeafCount(t.left));
    ghost var s2 := StateOf(m);
    PlacedRoomsCompose(s0, s1, s2, t, minRoomSize, draws, first);
  }

  /** Splicing in two batches one after the other is splicing in both. */
  lemma SpliceTwice(table: seq<Room>, count: int, a: seq<Room>, b: seq<Room>)
    requires 0 <= count && count + |a| + |b| <= |table|
    ensures Splice(Splice(table, count, a), count + |a|, b) == Splice(table, count, a + b)
  {
    var s := Splice(table, count, a);
    assert s[..count + |a|] == table[..count] + a;
    assert s[count + |a| + |b|..] == table[count + |a| + |b|..];
  }

  /** The two subtrees' additions concatenate to the tree's addition. */
  lemma SplitAdds(ls: seq<Room>, rs: seq<Room>, c0: int, c1: int, c2: int)
    requires 0 <= c0 && c1 == CombatTypes.Min(MaxRooms, c0 + |ls|) && c2 == CombatTypes.Min(MaxRooms, c1 + |rs|)
    requires c0 <= MaxRooms
    ensures 0 <= c1 - c0 <= |ls| && 0 <= c2 - c1 <= |rs|
    ensures c2 == CombatTypes.Min(MaxRooms, c0 + |ls + rs|)
    ensures ls[..c1 - c0] + rs[..c2 - c1] == (ls + rs)[..c2 - c0]
  {
    if c1 - c0 < |ls| {
      assert c2 == c1;
    }
  }

  /** One straight pass of a corridor: a row y from column lo to hi, or a
      column x from row lo to hi. */
  datatype Leg = Row(y: int, lo: int, hi: int) | Column(x: int, lo: int, hi: int)

  /** The cell lies on the leg's carved line. */
  predicate OnLeg(leg: Leg, i: int, j: int)
  {
    match leg
    case Row(y, lo, hi) => lo <= i <= hi && j == y
    case Column(x, lo, hi) => lo <= j <= hi && i == x
  }

  /** The cell flanks the leg's line on either side. */
  predicate BesideLeg(leg: Leg, i: int, j: int)
  {
    match leg
    case Row(y, lo, hi) => lo <= i <= hi && (j == y - 1 || j == y + 1)
    case Column(x, lo, hi) => lo <= j <= hi && (i == x - 1 || i == x + 1)
  }

  /** A tile after one pass: floor on the line, an empty flanking cell
      walled, anything else as before. */
  function CarveCell(t: TileType, i: int, j: int, leg: Leg): (u: TileType)
    ensures OnLeg(leg, i, j) ==> u == Floor
    ensures !OnLeg(leg, i, j) && BesideLeg(leg, i, j) && t == Empty ==> u == Wall
    ensures !OnLeg(leg, i, j) && (!BesideLeg(leg, i, j) || t != Empty) ==> u == t
  {
    if OnLeg(leg, i, j) then Floor else if BesideLeg(leg, i, j) && t == Empty then Wall else t
  }

  /** A tile after the passes, in order. */
  function Corridor(t: TileType, i: int, j: int, legs: seq<Leg>): TileType
  {
    if |legs| == 0 then t else CarveCell(Corridor(t, i, j, legs[..|legs| - 1]), i, j, legs[|legs| - 1])
  }

  predicate OnAnyLeg(legs: seq<Leg>, i: int, j: int)
  {
    exists k :: 0 <= k < |legs| && OnLeg(legs[k], i, j)
  }

  predicate BesideAnyLeg(legs: seq<Leg>, i: int, j: int)
  {
    exists k :: 0 <= k < |legs| && BesideLeg(legs[k], i, j)
  }

  /** Carving only ever makes floor or wall, and wall only out of empty
      (or wall) cells; every cell on a pass ends as floor, whatever later
      passes do; cells beside no pass and on none are untouched. */
  lemma {:induction false} CorridorEffect(t: TileType, i: int, j: int, legs: seq<Leg>)
    ensures var u := Corridor(t, i, j, legs);
            (u == t || u == Floor || u == Wall)
            && (u == Wall ==> t == Empty || t == Wall)
            && (OnAnyLeg(legs, i, j) ==> u == Floor)
            && (!OnAnyLeg(legs, i, j) && !BesideAnyLeg(legs, i, j) ==> u == t)
    decreases |legs|
  {
    if |legs| > 0 {
      var init := legs[..|legs| - 1];
      CorridorEffect(t, i, j, init);
      if OnAnyLeg(legs, i, j) && !OnLeg(legs[|legs| - 1], i, j) {
        var k :| 0 <= k < |legs| && OnLeg(legs[k], i, j);
        assert OnLeg(init[k], i, j);
      }
      if !OnAnyLeg(legs, i, j) && !BesideAnyLeg(legs, i, j) {
        assert !OnLeg(legs[|legs| - 1], i, j) && !BesideLeg(legs[|legs| - 1], i, j);
        assert !OnAnyLeg(init, i, j) by {
          forall k | 0 <= k < |init| ensures !OnLeg(init[k], i, j) {
            assert init[k] == legs[k];
          }
        }
        assert !BesideAnyLeg(init, i, j) by {
          forall k | 0 <= k < |init| ensures !BesideLeg(init[k], i, j) {
            assert init[k] == legs[k];
          }
        }
      }
    }
  }

  /** The row pass of ConnectRooms: floor along row y from lo to hi, and
      each empty cell just above or below it walled. */
  method CarveRow(m: GameMap, y: int, lo: int, hi: int)
    requires m.Valid() && 0 <= y < MapHeight && 0 <= lo <= hi < MapWidth
    modifies m.tiles
    ensures forall i, j :: InMapCell(i, j) ==> m.tiles[i, j] == CarveCell(old(m.tiles[i, j]), i, j, Row(y, lo, hi))
  {
    var x := lo;
    while x <= hi
      invariant lo <= x <= hi + 1
      invariant forall i, j :: InMapCell(i, j) ==>
                  m.tiles[i, j] == CarveCell(old(m.tiles[i, j]), i, j, Row(y, lo, x - 1))
    {
      m.tiles[x, y] := Floor;
      if y - 1 >= 0 && m.tiles[x, y - 1] == Empty {
        m.tiles[x, y - 1] := Wall;
      }
      if y + 1 < MapHeight && m.tiles[x, y + 1] == Empty {
        m.tiles[x, y + 1] := Wall;
      }
      x := x + 1;
    }
  }

  /** The column pass of ConnectRooms: floor down column x from lo to hi,
      and each empty cell just left or right of it walled. */
  method CarveColumn(m: GameMap, x: int, lo: int, hi: int)
    requires m.Valid() && 0 <= x < MapWidth && 0 <= lo <= hi < MapHeight
    modifies m.tiles
    ensures forall i, j :: InMapCell(i, j) ==> m.tiles[i, j] == CarveCell(old(m.tiles[i, j]), i, j, Column(x, lo, hi))
  {
    var y := lo;
    while y <= hi
      invariant lo <= y <= hi + 1
      invariant forall i, j :: InMapCell(i, j) ==>
                  m.tiles[i, j] == CarveCell(old(m.tiles[i, j]), i, j, Column(x, lo, y - 1))
    {
      m.tiles[x, y] := Floor;
      if x - 1 >= 0 && m.tiles[x - 1, y] == Empty {
        m.tiles[x - 1, y] := Wall;
      }
      if x + 1 < MapWidth && m.tiles[x + 1, y] == Empty {
        m.tiles[x + 1, y] := Wall;
      }
      y := y + 1;
    }
  }

  /** The corner of the L: on the first room's row under the second room's
      centre for an even coin, on the second room's row under the first
      room's centre for an odd one. */
  function Corner(c1: (int, int), c2: (int, int), coin: nat): (int, int)
  {
    if coin % 2 == 0 then (c2.0, c1.1) else (c1.0, c2.1)
  }

  /** The three passes as written: along row y1 to the corner, down the
      corner's column from y1 to the corner's row, along the corner's row
      to x2. */
  function CorridorLegsAsWritten(c1: (int, int), c2: (int, int), coin: nat): seq<Leg>
  {
    var (x1, y1) := c1;
    var (x2, y2) := c2;
    var (cx, cy) := Corner(c1, c2, coin);
    [Row(y1, CombatTypes.Min(x1, cx), CombatTypes.Max(x1, cx)),
     Column(cx, CombatTypes.Min(y1, cy), CombatTypes.Max(y1, cy)),
     Row(cy, CombatTypes.Min(cx, x2), CombatTypes.Max(cx, x2))]
  }

  /** The three passes with the column pass spanning y1 to y2. */
  function CorridorLegs(c1: (int, int), c2: (int, int), coin: nat): seq<Leg>
  {
    var (x1, y1) := c1;
    var (x2, y2) := c2;
    var (cx, cy) := Corner(c1, c2, coin);
    [Row(y1, CombatTypes.Min(x1, cx), CombatTypes.Max(x1, cx)),
     Column(cx, CombatTypes.Min(y1, y2), CombatTypes.Max(y1, y2)),
     Row(cy, CombatTypes.Min(cx, x2), CombatTypes.Max(cx, x2))]
  }

  /** A tile after ConnectRooms: a door at a room centre when its draw is
      below 30 in 100, otherwise the carved corridor. */
  function ConnectCell(t: TileType, i: int, j: int, c1: (int, int), c2: (int, int), legs: seq<Leg>,
                       door1: nat, door2: nat): TileType
  {
    DoorCell(Corridor(t, i, j, legs), i, j, c1, c2, door1, door2)
  }

  /** A tile after the door draws: a door at a room centre whose draw is
      below 30 in 100, otherwise as before. */
  function DoorCell(t: TileType, i: int, j: int, c1: (int, int), c2: (int, int), door1: nat, door2: nat): TileType
  {
    if door2 % 100 < 30 && (i, j) == c2 then Door
    else if door1 % 100 < 30 && (i, j) == c1 then Door
    else t
  }

  /** A room whose centre lies on the map. */
  predicate CentreOnMap(r: Room)
  {
    InMap(Centre(r).0, Centre(r).1)
  }

  /** The door draws of ConnectRooms: each room centre becomes a door when
      its draw is below 30 in 100. */
  method PlaceDoors(m: GameMap, c1: (int, int), c2: (int, int), door1: nat, door2: nat)
    requires m.Valid() && InMap(c1.0, c1.1) && InMap(c2.0, c2.1)
    modifies m.tiles
    ensures forall i, j :: InMapCell(i, j) ==> m.tiles[i, j] == DoorCell(old(m.tiles[i, j]), i, j, c1, c2, door1, door2)
  {
    if door1 % 100 < 30 {
      m.tiles[c1.0, c1.1] := Door;
    }
    if door2 % 100 < 30 {
      m.tiles[c2.0, c2.1] := Door;
    }
  }

  /** ConnectRooms as written. */
  method ConnectRoomsAsWritten(m: GameMap, room1: Room, room2: Room, coin: nat, door1: nat, door2: nat)
    requires m.Valid() && CentreOnMap(room1) && CentreOnMap(room2)
    modifies m.tiles
    ensures forall i, j :: InMapCell(i, j) ==>
              m.tiles[i, j] == ConnectCell(old(m.tiles[i, j]), i, j, Centre(room1), Centre(room2),
                                           CorridorLegsAsWritten(Centre(room1), Centre(room2), coin), door1, door2)
  {
    var x1 := room1.x + room1.width / 2;
    var y1 := room1.y + room1.height / 2;
    var x2 := room2.x + room2.width / 2;
    var y2 := room2.y + room2.height / 2;
    var cornerX, cornerY;
    if coin % 2 == 0 {
      cornerX, cornerY := x2, y1;
    } else {
      cornerX, cornerY := x1, y2;
    }
    ghost var legs := [Row(y1, CombatTypes.Min(x1, cornerX), CombatTypes.Max(x1, cornerX)),
                       Column(cornerX, CombatTypes.Min(y1, cornerY), CombatTypes.Max(y1, cornerY)),
                       Row(cornerY, CombatTypes.Min(cornerX, x2), CombatTypes.Max(cornerX, x2))];
    assert legs == CorridorLegsAsWritten(Centre(room1), Centre(room2), coin);
    CarveRow(m, y1, CombatTypes.Min(x1, cornerX), CombatTypes.Max(x1, cornerX));
    label Row:
    CarveColumn(m, cornerX, CombatTypes.Min(y1, cornerY), CombatTypes.Max(y1, cornerY));
    label Column:
    CarveRow(m, cornerY, CombatTypes.Min(cornerX, x2), CombatTypes.Max(cornerX, x2));
    label Carved:
    PlaceDoors(m, (x1, y1), (x2, y2), door1, door2);
    forall i, j | InMapCell(i, j)
      ensures m.tiles[i, j] == ConnectCell(old(m.tiles[i, j]), i, j, (x1, y1), (x2, y2), legs, door1, door2)
    {
      assert m.tiles[i, j] == DoorCell(old@Carved(m.tiles[i, j]), i, j, (x1, y1), (x2, y2), door1, door2);
      assert old@Carved(m.tiles[i, j]) == CarveCell(old@Column(m.tiles[i, j]), i, j, legs[2]);
      assert old@Column(m.tiles[i, j]) == CarveCell(old@Row(m.tiles[i, j]), i, j, legs[1]);
      assert old@Row(m.tiles[i, j]) == CarveCell(old(m.tiles[i, j]), i, j, legs[0]);
      CorridorOfThree(old(m.tiles[i, j]), i, j, legs);
    }
  }

  /** ConnectRooms with the column pass spanning both centres' rows. */
  method ConnectRooms(m: GameMap, room1: Room, room2: Room, coin: nat, door1: nat, door2: nat)
    requires m.Valid() && CentreOnMap(room1) && CentreOnMap(room2)
    modifies m.tiles
    ensures forall i, j :: InMapCell(i, j) ==>
              m.tiles[i, j] == ConnectCell(old(m.tiles[i, j]), i, j, Centre(room1), Centre(room2),
                                           CorridorLegs(Centre(room1), Centre(room2), coin), door1, door2)
  {
    var x1 := room1.x + room1.width / 2;
    var y1 := room1.y + room1.height / 2;
    var x2 := room2.x + room2.width / 2;
    var y2 := room2.y + room2.height / 2;
    var cornerX, cornerY;
    if coin % 2 == 0 {
      cornerX, cornerY := x2, y1;
    } else {
      cornerX, cornerY := x1, y2;
    }
    ghost var legs := [Row(y1, CombatTypes.Min(x1, cornerX), CombatTypes.Max(x1, cornerX)),
                       Column(cornerX, CombatTypes.Min(y1, y2), CombatTypes.Max(y1, y2)),
                       Row(cornerY, CombatTypes.Min(cornerX, x2), CombatTypes.Max(cornerX, x2))];
    assert legs == CorridorLegs(Centre(room1), Centre(room2), coin);
    CarveRow(m, y1, CombatTypes.Min(x1, cornerX), CombatTypes.Max(x1, cornerX));
    label Row:
    CarveColumn(m, cornerX, CombatTypes.Min(y1, y2), CombatTypes.Max(y1, y2));
    label Column:
    CarveRow(m, cornerY, CombatTypes.Min(cornerX, x2), CombatTypes.Max(cornerX, x2));
    label Carved:
    PlaceDoors(m, (x1, y1), (x2, y2), door1, door2);
    forall i, j | InMapCell(i, j)
      ensures m.tiles[i, j] == ConnectCell(old(m.tiles[i, j]), i, j, (x1, y1), (x2, y2), legs, door1, door2)
    {
      assert m.tiles[i, j] == DoorCell(old@Carved(m.tiles[i, j]), i, j, (x1, y1), (x2, y2), door1, door2);
      assert old@Carved(m.tiles[i, j]) == CarveCell(old@Column(m.tiles[i, j]), i, j, legs[2]);
      assert old@Column(m.tiles[i, j]) == CarveCell(old@Row(m.tiles[i, j]), i, j, legs[1]);
      assert old@Row(m.tiles[i, j]) == CarveCell(old(m.tiles[i, j]), i, j, legs[0]);
      CorridorOfThree(old(m.tiles[i, j]), i, j, legs);
    }
  }

  /** Three passes carve as the first, then the second, then the third. */
  lemma CorridorOfThree(t: TileType, i: int, j: int, legs: seq<Leg>)
    requires |legs| == 3
    ensures Corridor(t, i, j, legs) == CarveCell(CarveCell(CarveCell(t, i, j, legs[0]), i, j, legs[1]), i, j, legs[2])
  {
    assert legs[..2][..1] == [legs[0]];
    assert legs[..2][..1][..0] == [];
    assert Corridor(t, i, j, legs[..2][..1]) == CarveCell(t, i, j, legs[0]);
  }

  /** ConnectRooms only walls empty cells, turns no floor or door into
      wall, leaves every cell of its passes as floor except a room centre
      that gets a door, and makes no door anywhere else. */
  lemma ConnectRoomsEffect(t: TileType, i: int, j: int, c1: (int, int), c2: (int, int), coin: nat, door1: nat, door2: nat)
    ensures var u := ConnectCell(t, i, j, c1, c2, CorridorLegs(c1, c2, coin), door1, door2);
            (u == Wall ==> t == Empty || t == Wall)
            && (OnAnyLeg(CorridorLegs(c1, c2, coin), i, j) ==> u == Floor || (u == Door && ((i, j) == c1 || (i, j) == c2)))
            && (u == Door ==> t == Door || (i, j) == c1 || (i, j) == c2)
  {
    CorridorEffect(t, i, j, CorridorLegs(c1, c2, coin));
  }

  /** The straight segment from p to q, when they share a row or a
      column. */
  predicate OnSegment(p: (int, int), q: (int, int), i: int, j: int)
  {
    (p.1 == q.1 && j == p.1 && CombatTypes.Min(p.0, q.0) <= i <= CombatTypes.Max(p.0, q.0))
    || (p.0 == q.0 && i == p.0 && CombatTypes.Min(p.1, q.1) <= j <= CombatTypes.Max(p.1, q.1))
  }

  /** The corrected passes cover the whole L: the segment from the first
      centre to the corner and the segment from the corner to the second
      centre, so both centres are joined by floor. */
  lemma CorridorConnects(c1: (int, int), c2: (int, int), coin: nat, i: int, j: int)
    requires OnSegment(c1, Corner(c1, c2, coin), i, j) || OnSegment(Corner(c1, c2, coin), c2, i, j)
    ensures OnAnyLeg(CorridorLegs(c1, c2, coin), i, j)
  {
    var legs := CorridorLegs(c1, c2, coin);
    if OnLeg(legs[0], i, j) {
    } else if OnLeg(legs[1], i, j) {
    } else {
      assert OnLeg(legs[2], i, j);
    }
  }

  /** As written, an even coin keeps every pass on the first centre's row:
      the corridor never reaches a second room on another row. */
  lemma CorridorAsWrittenStaysOnRow(c1: (int, int), c2: (int, int), coin: nat, i: int, j: int)
    requires coin % 2 == 0 && OnAnyLeg(CorridorLegsAsWritten(c1, c2, coin), i, j)
    ensures j == c1.1
  {
    var legs := CorridorLegsAsWritten(c1, c2, coin);
    var k :| 0 <= k < 3 && OnLeg(legs[k], i, j);
  }

  /** Rooms at (10, 10) and (30, 30), four cells square, on an empty map
      with an even coin and no doors: the cell (32, 20), halfway down the
      intended column to the second centre (32, 32), stays empty as
      written and becomes floor once the column pass spans both rows. */
  lemma ConnectRoomsAsWrittenMisses()
    ensures ConnectCell(Empty, 32, 20, (12, 12), (32, 32), CorridorLegsAsWritten((12, 12), (32, 32), 0), 99, 99) == Empty
    ensures ConnectCell(Empty, 32, 20, (12, 12), (32, 32), CorridorLegs((12, 12), (32, 32), 0), 99, 99) == Floor
    ensures Centre(Room(10, 10, 4, 4)) == (12, 12) && Centre(Room(30, 30, 4, 4)) == (32, 32)
  {
    CorridorOfThree(Empty, 32, 20, CorridorLegsAsWritten((12, 12), (32, 32), 0));
    CorridorOfThree(Empty, 32, 20, CorridorLegs((12, 12), (32, 32), 0));
  }
}
