/** The movement capability shared by the player and the descenders: a
 *  single step along one axis, gated by the pause flag, and the wall
 *  predicates evaluated against the entity's current box. */
module Movers {
  import opened Geometry
  import opened GameState

  /** One horizontal step of `distance * vector` pixels (vector -1 is
   *  left, 1 is right). Dropped silently while the game is paused. */
  function MoveX(g: Game, e: Entity, distance: int, vector: int): (r: Entity)
    ensures g.paused ==> r == e
    ensures !g.paused ==> GetBox(r).left == GetBox(e).left + distance * vector
    ensures !g.paused ==> GetBox(r).right == GetBox(e).right + distance * vector
    ensures r.top == e.top && r.width == e.width && r.height == e.height
  {
    if !g.paused then e.(left := GetBox(e).left + distance * vector) else e
  }

  /** One vertical step of `distance * vector` pixels (vector -1 is up,
   *  1 is down). Dropped silently while the game is paused. */
  function MoveY(g: Game, e: Entity, distance: int, vector: int): (r: Entity)
    ensures g.paused ==> r == e
    ensures !g.paused ==> GetBox(r).top == GetBox(e).top + distance * vector
    ensures !g.paused ==> GetBox(r).bottom == GetBox(e).bottom + distance * vector
    ensures r.left == e.left && r.width == e.width && r.height == e.height
  {
    if !g.paused then e.(top := GetBox(e).top + distance * vector) else e
  }

  /** The entity's left edge reaches (or has passed) the arena's left edge. */
  predicate HitsParentLeft(e: Entity)
  {
    GetBox(e).left <= 0
  }

  /** The entity's right edge reaches (or has passed) the arena's right edge. */
  predicate HitsParentRight(parent: Container, e: Entity)
  {
    GetBox(e).right >= parent.width
  }

  /** A step in the opposite direction undoes a step, paused or not. */
  lemma MoveXInverse(g: Game, e: Entity, distance: int, vector: int)
    ensures MoveX(g, MoveX(g, e, distance, vector), distance, -vector) == e
  {
  }

  lemma MoveYInverse(g: Game, e: Entity, distance: int, vector: int)
    ensures MoveY(g, MoveY(g, e, distance, vector), distance, -vector) == e
  {
  }

  /** The wall predicates after an unpaused step are decided by where the
   *  step lands, and are exactly the predicates on the old position while
   *  paused. */
  lemma WallsAfterStep(g: Game, parent: Container, e: Entity, distance: int, vector: int)
    ensures var landed := if g.paused then e.left else e.left + distance * vector;
      HitsParentLeft(MoveX(g, e, distance, vector)) <==> landed <= 0
    ensures var landed := if g.paused then e.left else e.left + distance * vector;
      HitsParentRight(parent, MoveX(g, e, distance, vector)) <==> landed + e.width >= parent.width
  {
  }
}
