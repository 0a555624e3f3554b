/** The descending formation: its initial layout, the timer-driven tick that
 *  sweeps it sideways, drops it a row and reverses it at the walls, and the
 *  game-end adjudication when it reaches the floor. */
module Descenders {
  import opened Geometry
  import opened GameState
  import opened Movers

  /** Pixels per horizontal step of a descender. */
  const DescenderXDistance := 2
  /** Pixels per vertical step of a descender. */
  const DescenderYDistance := 10

  /** The grid the layout is sized for. */
  const NumCols := 10
  const NumRows := 5
  /** The row the layout loop starts from. Starting at the last row means
   *  only one row of descenders is ever placed. */
  const FirstRow := 5
  const ColumnWidth := 50
  const RowWidth := NumCols * ColumnWidth
  /** Vertical offset per row number. */
  const RowHeight := 40

  /** Delay before the first tick, in milliseconds. */
  const InitialWait := 1000

  /** The formation: the arena it moves in, its descenders in placement
   *  order, the shared horizontal direction (-1 left, 1 right) and the
   *  size of the grid it was configured for. */
  datatype Formation = Formation(
    parent: Container,
    descenders: seq<Entity>,
    xVector: int,
    numStartingDescenders: nat)

  /** What the timer does after a tick: stop, or wake up again after `ms`. */
  datatype Schedule = Halt | Wait(ms: int)

  /** The state after one tick and the re-arming of the timer. */
  datatype Tick = Tick(game: Game, formation: Formation, next: Schedule)

  /** The descender's bottom edge reaches (or has passed) the arena's floor. */
  predicate HitsParentFloor(parent: Container, e: Entity)
  {
    GetBox(e).bottom >= parent.height
  }

  /** After a drop, the floor predicate is decided by where the drop lands,
   *  and is exactly the predicate on the old position while paused. */
  lemma FloorAfterDrop(g: Game, parent: Container, e: Entity)
    ensures var landed := if g.paused then e.top else e.top + DescenderYDistance;
      HitsParentFloor(parent, MoveY(g, e, DescenderYDistance, 1)) <==> landed + e.height >= parent.height
  {
  }

  predicate HitsWall(parent: Container, e: Entity)
  {
    HitsParentLeft(e) || HitsParentRight(parent, e)
  }

  predicate AnyHitsWall(parent: Container, ds: seq<Entity>)
  {
    exists i :: 0 <= i < |ds| && HitsWall(parent, ds[i])
  }

  predicate AnyHitsFloor(parent: Container, ds: seq<Entity>)
  {
    exists i :: 0 <= i < |ds| && HitsParentFloor(parent, ds[i])
  }

  // ---------------------------------------------------------------------
  // Layout

  /** Number of rows the layout loop visits. */
  const PlacedRows := NumRows - FirstRow + 1

  /** Left edge of a descender centred in column `col`: the row is centred
   *  in the arena, and the descender in its column. The halvings are exact
   *  when `parent.width - width` is even. */
  function ColumnLeft(parent: Container, width: nat, col: int): int
  {
    (parent.width - RowWidth + ColumnWidth - width) / 2 + col * ColumnWidth
  }

  /** The descenders of every placed row, row by row and left to right. */
  function PlaceAll(parent: Container, width: nat, height: nat): (ds: seq<Entity>)
    requires (parent.width - width) % 2 == 0
    ensures |ds| == PlacedRows * NumCols == 10
    ensures forall k :: 0 <= k < |ds| ==>
      ds[k].top == FirstRow * RowHeight == 200 && ds[k].width == width && ds[k].height == height
    ensures forall k :: 0 < k < |ds| ==> ds[k].left - ds[k - 1].left == ColumnWidth
    ensures GetBox(ds[0]).left == parent.width - GetBox(ds[|ds| - 1]).right
  {
    seq(PlacedRows * NumCols, k requires 0 <= k < PlacedRows * NumCols =>
      Entity(ColumnLeft(parent, width, k % NumCols), (FirstRow + k / NumCols) * RowHeight, width, height))
  }

  /** The formation as constructed, and the first wake-up of its timer:
   *  moving left first, sized for the full grid. */
  function Start(g: Game, parent: Container, width: nat, height: nat): (t: Tick)
    requires (parent.width - width) % 2 == 0
    ensures t.game == g
    ensures t.formation.parent == parent
    ensures t.formation.xVector == -1
    ensures t.formation.numStartingDescenders == NumCols * NumRows == 50
    ensures t.formation.descenders == PlaceAll(parent, width, height)
    ensures t.next == Wait(InitialWait)
  {
    Tick(g, Formation(parent, PlaceAll(parent, width, height), -1, NumCols * NumRows), Wait(InitialWait))
  }

  // ---------------------------------------------------------------------
  // The tick

  /** Delay before the next tick for `count` descenders: fewer descenders,
   *  faster sweep. */
  function NextWait(count: int): int
  {
    (count - 1) * 2 + 6
  }

  lemma NextWaitScaling(a: int, b: int)
    ensures NextWait(1) == 6
    ensures a < b ==> NextWait(a) < NextWait(b)
    ensures NextWait(b) - NextWait(a) == 2 * (b - a)
  {
  }

  /** Every descender takes one horizontal step in direction `vector`. */
  function SweepX(g: Game, ds: seq<Entity>, vector: int): (r: seq<Entity>)
    ensures |r| == |ds|
    ensures forall i :: 0 <= i < |ds| ==>
      && r[i].left == ds[i].left + (if g.paused then 0 else DescenderXDistance * vector)
      && r[i].top == ds[i].top && r[i].width == ds[i].width && r[i].height == ds[i].height
  {
    seq(|ds|, i requires 0 <= i < |ds| => MoveX(g, ds[i], DescenderXDistance, vector))
  }

  /** Every descender takes one step down. */
  function DropY(g: Game, ds: seq<Entity>): (r: seq<Entity>)
    ensures |r| == |ds|
    ensures forall i :: 0 <= i < |ds| ==>
      && r[i].top == ds[i].top + (if g.paused then 0 else DescenderYDistance)
      && r[i].left == ds[i].left && r[i].width == ds[i].width && r[i].height == ds[i].height
  {
    seq(|ds|, i requires 0 <= i < |ds| => MoveY(g, ds[i], DescenderYDistance, 1))
  }

  /** Floor contact ends the game: won if the formation still has as many
   *  descenders as it started with, lost otherwise. */
  function Resolve(g: Game, count: int, numStarting: int): (r: Game)
    ensures r.over && r.paused
    ensures r.status == (if count == numStarting then Won else Lost)
  {
    End(if count == numStarting then Win(g) else Lose(g))
  }

  /** One wake-up of the descent timer. A stopped game changes nothing and
   *  does not re-arm the timer. Otherwise all descenders step sideways;
   *  if any then touches a side wall, the direction reverses and all step
   *  down, and if any then touches the floor the game is resolved. The
   *  timer is re-armed with a delay set by the descender count. */
  function MoveAll(g: Game, f: Formation): (t: Tick)
    ensures t.formation.parent == f.parent
    ensures t.formation.numStartingDescenders == f.numStartingDescenders
    ensures |t.formation.descenders| == |f.descenders|
    ensures t.next.Halt? <==> g.over
    ensures !g.over ==> t.next == Wait(NextWait(|f.descenders|))
  {
    if g.over then Tick(g, f, Halt)
    else
      var count := |f.descenders|;
      var swept := SweepX(g, f.descenders, f.xVector);
      if !AnyHitsWall(f.parent, swept) then
        Tick(g, f.(descenders := swept), Wait(NextWait(count)))
      else
        var dropped := DropY(g, swept);
        var game := if AnyHitsFloor(f.parent, dropped) then Resolve(g, count, f.numStartingDescenders) else g;
        Tick(game, f.(descenders := dropped, xVector := -f.xVector), Wait(NextWait(count)))
  }

  /** The tick as the two loops of `move_all` in index.js perform it: each descender's wall
   *  check runs right after its own step, the count is accumulated in the
   *  first loop, and the floor check runs right after each drop. It agrees
   *  with the move-all-then-check-all reading `MoveAll`. */
  method MoveAllLoop(g: Game, f: Formation) returns (t: Tick)
    ensures t == MoveAll(g, f)
  {
    if g.over {
      return Tick(g, f, Halt);
    }
    var didHitWall := false;
    var count := 0;
    var ds := f.descenders;
    var i := 0;
    while i < |ds|
      invariant 0 <= i <= |ds| == |f.descenders|
      invariant count == i
      invariant forall k :: 0 <= k < i ==> ds[k] == MoveX(g, f.descenders[k], DescenderXDistance, f.xVector)
      invariant forall k :: i <= k < |ds| ==> ds[k] == f.descenders[k]
      invariant didHitWall <==> exists k :: 0 <= k < i && HitsWall(f.parent, ds[k])
    {
      count := count + 1;
      var d := MoveX(g, ds[i], DescenderXDistance, f.xVector);
      ds := ds[i := d];
      if HitsParentLeft(d) {
        didHitWall := true;
      }
      if HitsParentRight(f.parent, d) {
        didHitWall := true;
      }
      i := i + 1;
    }
    assert ds == SweepX(g, f.descenders, f.xVector);
    var xVector := f.xVector;
    var game := g;
    if didHitWall {
      xVector := -xVector;
      var didHitFloor := false;
      ghost var swept := ds;
      var j := 0;
      while j < |ds|
        invariant 0 <= j <= |ds| == |swept|
        invariant forall k :: 0 <= k < j ==> ds[k] == MoveY(g, swept[k], DescenderYDistance, 1)
        invariant forall k :: j <= k < |ds| ==> ds[k] == swept[k]
        invariant didHitFloor <==> exists k :: 0 <= k < j && HitsParentFloor(f.parent, ds[k])
      {
        var d := MoveY(g, ds[j], DescenderYDistance, 1);
        ds := ds[j := d];
        if HitsParentFloor(f.parent, d) {
          didHitFloor := true;
        }
        j := j + 1;
      }
      assert ds == DropY(g, swept);
      if didHitFloor {
        if count == f.numStartingDescenders {
          game := Win(game);
        } else {
          game := Lose(game);
        }
        game := End(game);
      }
    }
    t := Tick(game, Formation(f.parent, ds, xVector, f.numStartingDescenders), Wait(NextWait(count)));
  }

  // ---------------------------------------------------------------------
  // Properties of one tick

  /** A tick of a stopped game changes nothing: no position, no direction,
   *  no status, and the timer is not re-armed. */
  lemma StoppedGameIsFrozen(g: Game, f: Formation)
    requires g.over
    ensures MoveAll(g, f) == Tick(g, f, Halt)
  {
  }

  /** A side wall is touched after this tick's horizontal step. */
  predicate WallAfterSweep(g: Game, f: Formation)
  {
    exists i :: 0 <= i < |f.descenders| &&
      HitsWall(f.parent, MoveX(g, f.descenders[i], DescenderXDistance, f.xVector))
  }

  /** In a running tick every descender moves sideways by exactly one step
   *  in the shared direction; the direction reverses exactly when some
   *  descender then touches a side wall, and exactly then every descender
   *  also drops one row. Sizes never change. */
  lemma RunningTickSweep(g: Game, f: Formation)
    requires !g.over && !g.paused
    ensures var t := MoveAll(g, f);
      var wall := WallAfterSweep(g, f);
      && (t.formation.xVector == if wall then -f.xVector else f.xVector)
      && forall i :: 0 <= i < |f.descenders| ==>
           var before := f.descenders[i];
           var after := t.formation.descenders[i];
           && after.left == before.left + f.xVector * DescenderXDistance
           && after.top == before.top + (if wall then DescenderYDistance else 0)
           && after.width == before.width && after.height == before.height
  {
    var swept := SweepX(g, f.descenders, f.xVector);
    assert WallAfterSweep(g, f) <==> AnyHitsWall(f.parent, swept) by {
      if WallAfterSweep(g, f) {
        var i :| 0 <= i < |f.descenders| &&
          HitsWall(f.parent, MoveX(g, f.descenders[i], DescenderXDistance, f.xVector));
        assert HitsWall(f.parent, swept[i]);
      }
    }
  }

  /** A tick while paused moves nobody, yet still evaluates the walls on
   *  the frozen positions: a formation paused against a wall reverses
   *  direction on every tick, and a floor contact still ends the game. */
  lemma PausedTickFreezesPositions(g: Game, f: Formation)
    requires !g.over && g.paused
    ensures var t := MoveAll(g, f);
      var frozenLanding := AnyHitsWall(f.parent, f.descenders) && AnyHitsFloor(f.parent, f.descenders);
      && t.formation.descenders == f.descenders
      && (t.formation.xVector == if AnyHitsWall(f.parent, f.descenders) then -f.xVector else f.xVector)
      && (frozenLanding ==> t.game.over && t.game.paused)
      && (!frozenLanding ==> t.game == g)
  {
    assert SweepX(g, f.descenders, f.xVector) == f.descenders;
    assert DropY(g, f.descenders) == f.descenders;
  }

  /** The game ends in a running tick exactly when a wall was touched and,
   *  after the drop, some descender touches the floor; the outcome is won
   *  exactly when the count equals the starting count, and the game is
   *  then over and paused. Otherwise the game record is untouched. */
  lemma FloorResolution(g: Game, f: Formation)
    requires !g.over
    ensures var t := MoveAll(g, f);
      var swept := SweepX(g, f.descenders, f.xVector);
      var landed := AnyHitsWall(f.parent, swept) && AnyHitsFloor(f.parent, DropY(g, swept));
      && (landed ==> t.game == Game(true, true,
                                     if |f.descenders| == f.numStartingDescenders then Won else Lost))
      && (!landed ==> t.game == g)
  {
  }

  /** The formation moves as one rigid body: the offset between any two
   *  descenders is the same after a tick as before. */
  lemma TickIsRigid(g: Game, f: Formation)
    ensures var t := MoveAll(g, f);
      forall i, j :: 0 <= i < |f.descenders| && 0 <= j < |f.descenders| ==>
        && t.formation.descenders[i].left - t.formation.descenders[j].left
             == f.descenders[i].left - f.descenders[j].left
        && t.formation.descenders[i].top - t.formation.descenders[j].top
             == f.descenders[i].top - f.descenders[j].top
  {
  }

  // ---------------------------------------------------------------------
  // Properties of the timer loop

  /** Drive the timer for at most `n` wake-ups, stopping when a tick does
   *  not re-arm it; the game record and formation it leaves behind. */
  function Run(g: Game, f: Formation, n: nat): (Game, Formation)
    decreases n
  {
    if n == 0 then (g, f)
    else
      var t := MoveAll(g, f);
      match t.next
      case Halt => (t.game, t.formation)
      case Wait(_) => Run(t.game, t.formation, n - 1)
  }

  /** A formation whose size differs from the grid it was configured for
   *  can never produce a win, however long the timer runs. */
  lemma {:induction false} RunNeverWins(g: Game, f: Formation, n: nat)
    requires g.status != Won
    requires |f.descenders| != f.numStartingDescenders
    ensures Run(g, f, n).0.status != Won
    decreases n
  {
    if n > 0 {
      var t := MoveAll(g, f);
      if t.next.Wait? {
        FloorResolution(g, f);
        RunNeverWins(t.game, t.formation, n - 1);
      }
    }
  }

  /** The layout places 10 descenders while the win rule compares against
   *  50, so a game started from it is never won: any floor contact
   *  resolves to a loss. */
  lemma WinUnreachable(g: Game, parent: Container, width: nat, height: nat, n: nat)
    requires (parent.width - width) % 2 == 0
    requires g.status == Playing
    ensures var s := Start(g, parent, width, height);
      Run(s.game, s.formation, n).0.status != Won
  {
    var s := Start(g, parent, width, height);
    RunNeverWins(s.game, s.formation, n);
  }

  /** The win rule can never fire for a formation of the layout's size (10)
   *  configured for the full grid (50), whatever arena it moves in. */
  lemma LayoutSizeNeverWins(g: Game, f: Formation, n: nat)
    requires g.status != Won
    requires |f.descenders| == PlacedRows * NumCols
    requires f.numStartingDescenders == NumCols * NumRows
    ensures Run(g, f, n).0.status != Won
  {
    RunNeverWins(g, f, n);
  }

  /** Once the game is over the timer loop is a no-op, so the outcome is
   *  final. */
  lemma {:induction false} OverIsFinal(g: Game, f: Formation, n: nat)
    requires g.over
    ensures Run(g, f, n) == (g, f)
  {
  }

  /** The shared direction stays one of -1 and 1 for as long as the timer
   *  runs. */
  lemma {:induction false} DirectionStaysUnit(g: Game, f: Formation, n: nat)
    requires f.xVector == -1 || f.xVector == 1
    ensures Run(g, f, n).1.xVector == -1 || Run(g, f, n).1.xVector == 1
    decreases n
  {
    if n > 0 {
      var t := MoveAll(g, f);
      if t.next.Wait? {
        DirectionStaysUnit(t.game, t.formation, n - 1);
      }
    }
  }
}
