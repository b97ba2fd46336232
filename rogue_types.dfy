/** The roguelike's shared vocabulary: the map and roster bounds, tile kinds,
    rooms, the player, enemy and item records, and the tile map every
    movement, sight and painting routine works on. */
module RogueTypes {

  const MapWidth := 80
  const MapHeight := 45
  const MaxRooms := 15
  const MinRoomSize := 5
  const MaxRoomSize := 10
  const MaxEnemies := 20
  const MaxItems := 30

  datatype TileType = Floor | Wall | Door | Empty

  datatype Room = Room(x: int, y: int, width: int, height: int)

  datatype Player = Player(x: int, y: int, health: int, maxHealth: int, attack: int, defense: int)

  datatype ItemType = HealthPotion | Weapon | Armor | Gold

  datatype EnemyType = Rat | Goblin | Orc | Troll

  datatype Enemy = Enemy(
    x: int, y: int, name: string, health: int, maxHealth: int, attack: int, defense: int,
    spriteIndex: int, sightRange: int, kind: EnemyType, active: bool, aggro: bool)

  datatype Item = Item(x: int, y: int, name: string, value: int, spriteIndex: int, kind: ItemType, active: bool)

  predicate InMap(x: int, y: int)
  {
    0 <= x < MapWidth && 0 <= y < MapHeight
  }

  /** The tiles an entity may stand on. */
  predicate Walkable(t: TileType)
  {
    t == Floor || t == Door
  }

  /** The dungeon: an 80 x 45 tile array indexed [x, y], the room table and
      the number of rooms in use. */
  class GameMap {
    const tiles: array2<TileType>
    const rooms: array<Room>
    var roomCount: int

    ghost predicate Valid()
      reads this
    {
      tiles.Length0 == MapWidth && tiles.Length1 == MapHeight
      && rooms.Length == MaxRooms && 0 <= roomCount <= MaxRooms
    }

    /** Storage for a map; its tiles and rooms are arbitrary until the map is
        initialised. */
    constructor ()
      ensures Valid() && fresh(tiles) && fresh(rooms) && roomCount == 0
    {
      tiles := new TileType[MapWidth, MapHeight];
      rooms := new Room[MaxRooms];
      roomCount := 0;
    }
  }
}
