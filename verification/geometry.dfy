/** Positions and bounding boxes of the game's entities. Every position is
 *  measured in whole pixels from the top-left corner of the entity's
 *  containing arena, whose own left and top edges are therefore 0. */
module Geometry {

  /** The rectangular arena an entity lives in. Its left and top edges are
   *  always 0; only its size varies. */
  datatype Container = Container(width: nat, height: nat)

  /** A positioned entity: the offset of its top-left corner inside the
   *  arena and its fixed visual size. */
  datatype Entity = Entity(left: int, top: int, width: nat, height: nat)

  /** The bounding box read from an entity before every move or boundary
   *  check. It is derived on demand, never stored. */
  datatype Box = Box(left: int, right: int, top: int, bottom: int, width: nat, height: nat)

  /** The box of an entity, relative to its arena. */
  function GetBox(e: Entity): (b: Box)
    ensures b.right - b.left == b.width == e.width
    ensures b.bottom - b.top == b.height == e.height
    ensures b.left == e.left && b.top == e.top
  {
    Box(e.left, e.left + e.width, e.top, e.top + e.height, e.width, e.height)
  }
}
