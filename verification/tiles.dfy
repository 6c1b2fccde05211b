/**
 * The `Tile`, `Direction` and `Operation` enums of the game logic, with the numeric
 * codes they carry inside a pixel and in a property record.
 */
module Tiles {
  import opened Wrappers

  /** The role of one grid cell; the names and codes are the source enum's. */
  datatype Tile = NONE | CONVEYOR | GRABBER | CONVERTER | INPUT | OUTPUT | WALL | COMPLETE

  datatype Direction = UP | DOWN | LEFT | RIGHT

  datatype Operation = ADD | SUB | MUL | DIV

  function TileCode(t: Tile): nat
  {
    match t
    case NONE => 0
    case CONVEYOR => 1
    case GRABBER => 2
    case CONVERTER => 3
    case INPUT => 4
    case OUTPUT => 5
    case WALL => 6
    case COMPLETE => 7
  }

  /** The tile a numeric code names, if any. */
  function TileOfCode(n: int): (r: Option<Tile>)
    ensures r.Some? <==> 0 <= n < 8
    ensures r.Some? ==> TileCode(r.value) == n
  {
    if n == 0 then Some(NONE)
    else if n == 1 then Some(CONVEYOR)
    else if n == 2 then Some(GRABBER)
    else if n == 3 then Some(CONVERTER)
    else if n == 4 then Some(INPUT)
    else if n == 5 then Some(OUTPUT)
    else if n == 6 then Some(WALL)
    else if n == 7 then Some(COMPLETE)
    else None
  }

  /** Distinct tiles have distinct codes, and every code reads back as its tile. */
  lemma TileCodeRoundTrip(t: Tile)
    ensures TileOfCode(TileCode(t)) == Some(t)
  {
  }

  function DirectionCode(d: Direction): nat
  {
    match d
    case UP => 0
    case DOWN => 1
    case LEFT => 2
    case RIGHT => 3
  }

  function DirectionOfCode(n: int): (r: Option<Direction>)
    ensures r.Some? <==> 0 <= n < 4
    ensures r.Some? ==> DirectionCode(r.value) == n
  {
    if n == 0 then Some(UP)
    else if n == 1 then Some(DOWN)
    else if n == 2 then Some(LEFT)
    else if n == 3 then Some(RIGHT)
    else None
  }

  function OperationCode(o: Operation): nat
  {
    match o
    case ADD => 0
    case SUB => 1
    case MUL => 2
    case DIV => 3
  }

  function OperationOfCode(n: int): (r: Option<Operation>)
    ensures r.Some? <==> 0 <= n < 4
    ensures r.Some? ==> OperationCode(r.value) == n
  {
    if n == 0 then Some(ADD)
    else if n == 1 then Some(SUB)
    else if n == 2 then Some(MUL)
    else if n == 3 then Some(DIV)
    else None
  }
}
