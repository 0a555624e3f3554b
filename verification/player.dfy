/** The player's avatar: a mover driven by left/right input, with one
 *  movement lock per direction. A lock is set when a step lands on the
 *  matching wall and is cleared by any step request in the other
 *  direction. */
module PlayerControl {
  import opened Geometry
  import opened GameState
  import opened Movers

  /** Pixels per horizontal step of the player. */
  const PlayerXDistance := 20

  datatype Player = Player(body: Entity, leftDisabled: bool, rightDisabled: bool)

  /** The starting position: horizontally centred and resting on the
   *  arena's bottom edge. The centring halves `parent.width - width`, so
   *  that difference must be even for the position to be a whole pixel. */
  function PlaceCenter(parent: Container, width: nat, height: nat): (e: Entity)
    requires (parent.width - width) % 2 == 0
    ensures GetBox(e).left == parent.width - GetBox(e).right
    ensures GetBox(e).bottom == parent.height
    ensures e.width == width && e.height == height
  {
    Entity((parent.width - width) / 2, parent.height - height, width, height)
  }

  /** A freshly constructed player: centred, with neither direction locked. */
  function NewPlayer(parent: Container, width: nat, height: nat): (p: Player)
    requires (parent.width - width) % 2 == 0
    ensures !p.leftDisabled && !p.rightDisabled
    ensures p.body == PlaceCenter(parent, width, height)
  {
    Player(PlaceCenter(parent, width, height), false, false)
  }

  /** A left-arrow press. */
  function MoveLeft(g: Game, p: Player): (r: Player)
    ensures !r.rightDisabled
    ensures p.leftDisabled ==> r.body == p.body && r.leftDisabled
    ensures !p.leftDisabled ==> r.body == MoveX(g, p.body, PlayerXDistance, -1)
    ensures !p.leftDisabled ==> (r.leftDisabled <==> HitsParentLeft(r.body))
    ensures r.body.top == p.body.top
  {
    var body := if !p.leftDisabled then MoveX(g, p.body, PlayerXDistance, -1) else p.body;
    var left := p.leftDisabled || HitsParentLeft(body);
    Player(body, left, false)
  }

  /** A right-arrow press; the mirror image of `MoveLeft`. */
  function MoveRight(g: Game, parent: Container, p: Player): (r: Player)
    ensures !r.leftDisabled
    ensures p.rightDisabled ==> r.body == p.body && r.rightDisabled
    ensures !p.rightDisabled ==> r.body == MoveX(g, p.body, PlayerXDistance, 1)
    ensures !p.rightDisabled ==> (r.rightDisabled <==> HitsParentRight(parent, r.body))
    ensures r.body.top == p.body.top
  {
    var body := if !p.rightDisabled then MoveX(g, p.body, PlayerXDistance, 1) else p.body;
    var right := p.rightDisabled || HitsParentRight(parent, body);
    Player(body, false, right)
  }

  /** A left press followed by a right press returns the avatar to where it
   *  was, because the left press always re-enables moving right. */
  lemma LeftThenRightRoundTrip(g: Game, parent: Container, p: Player)
    requires !g.paused && !p.leftDisabled
    ensures MoveRight(g, parent, MoveLeft(g, p)).body == p.body
  {
  }

  /** The right-hand mirror of `LeftThenRightRoundTrip`. */
  lemma RightThenLeftRoundTrip(g: Game, parent: Container, p: Player)
    requires !g.paused && !p.rightDisabled
    ensures MoveLeft(g, MoveRight(g, parent, p)).body == p.body
  {
  }

  /** Once the left lock is set, left presses change nothing but the right
   *  lock; a single right press then clears the left lock and, unless the
   *  game is paused, moves the avatar one step right. */
  lemma LeftLockAndRelease(g: Game, parent: Container, p: Player)
    requires p.leftDisabled
    ensures MoveLeft(g, p) == p.(rightDisabled := false)
    ensures !MoveRight(g, parent, MoveLeft(g, p)).leftDisabled
    ensures !g.paused ==>
      MoveRight(g, parent, MoveLeft(g, p)).body.left == p.body.left + PlayerXDistance
  {
  }

  /** `n` left presses in a row. */
  function MoveLeftTimes(g: Game, p: Player, n: nat): Player
    decreases n
  {
    if n == 0 then p else MoveLeftTimes(g, MoveLeft(g, p), n - 1)
  }

  /** Left presses against a set left lock never move the avatar. */
  lemma {:induction false} LockedStaysPut(g: Game, p: Player, n: nat)
    requires p.leftDisabled
    ensures MoveLeftTimes(g, p, n).body == p.body
    ensures MoveLeftTimes(g, p, n).leftDisabled
    decreases n
  {
    if n > 0 {
      LockedStaysPut(g, MoveLeft(g, p), n - 1);
    }
  }

  /** Holding left long enough walks the avatar onto the left wall and locks
   *  it there, having passed the wall by less than one step, and stopping
   *  exactly on it when the step divides its distance to the wall. */
  lemma {:induction false} WalkToLeftWall(g: Game, p: Player, n: nat)
    requires !g.paused && !p.leftDisabled
    requires 0 < p.body.left <= PlayerXDistance * n
    ensures MoveLeftTimes(g, p, n).leftDisabled
    ensures -PlayerXDistance < MoveLeftTimes(g, p, n).body.left <= 0
    ensures p.body.left % PlayerXDistance == 0 ==> MoveLeftTimes(g, p, n).body.left == 0
    decreases n
  {
    var q := MoveLeft(g, p);
    if p.body.left <= PlayerXDistance {
      LockedStaysPut(g, q, n - 1);
    } else {
      WalkToLeftWall(g, q, n - 1);
    }
  }

  /** A right press while paused, then a left press after unpausing, moves
   *  the avatar one step left whatever its locks were: the paused press
   *  clears the left lock without moving. */
  function PausedEscapeLeft(g: Game, parent: Container, p: Player): Player
  {
    var paused := Pause(g, EscapeKeyCode);
    MoveLeft(Pause(paused, EscapeKeyCode), MoveRight(paused, parent, p))
  }

  /** `n` rounds of `PausedEscapeLeft`. */
  function EscapeLeftTimes(g: Game, parent: Container, p: Player, n: nat): Player
    decreases n
  {
    if n == 0 then p else EscapeLeftTimes(g, parent, PausedEscapeLeft(g, parent, p), n - 1)
  }

  /** Repeating that pattern `n` times from a running game carries the
   *  avatar `n` steps left with no bound, so it is not kept inside the
   *  arena; even an avatar locked at the left wall is driven past it. */
  lemma {:induction false} PausedEscapeUnbounded(g: Game, parent: Container, p: Player, n: nat)
    requires !g.paused
    ensures EscapeLeftTimes(g, parent, p, n).body.left == p.body.left - PlayerXDistance * n
    decreases n
  {
    if n > 0 {
      PausedEscapeUnbounded(g, parent, PausedEscapeLeft(g, parent, p), n - 1);
    }
  }
}
