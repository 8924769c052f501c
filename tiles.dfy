/** The tile kind that the floor generator instantiates for each cell code. */
module Tiles {
  import opened Wrappers

  /** One kind per prefab field: street, dirt, cracked, pothole and closed building. */
  datatype TileKind = Street | Dirt | Cracked | Pothole | Closed

  /**
   * The switch of GetPrefabForValue: codes 1, 2, 4, 5 and -1 have a tile;
   * every other code (the footprint code -10 and the obstacle code 3 among
   * them) has none.
   */
  function PrefabForValue(value: int): (r: Option<TileKind>)
    ensures r.Some? <==> value in {1, 2, 4, 5, -1}
    ensures value == -10 || value == 3 ==> r == None
  {
    match value
    case 1 => Some(Street)
    case 2 => Some(Dirt)
    case 4 => Some(Cracked)
    case 5 => Some(Pothole)
    case -1 => Some(Closed)
    case _ => None
  }

  /** The code a tile kind is drawn for: the inverse of PrefabForValue on its domain. */
  function CodeOf(k: TileKind): (v: int)
    ensures forall code :: PrefabForValue(code) == Some(k) <==> code == v
  {
    match k
    case Street => 1
    case Dirt => 2
    case Cracked => 4
    case Pothole => 5
    case Closed => -1
  }
}
