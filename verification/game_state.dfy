/** The shared game record: whether play is paused, whether the descent
 *  loop has been stopped, and the player's outcome. */
module GameState {

  datatype Status = Playing | Won | Lost

  datatype Game = Game(paused: bool, over: bool, status: Status)

  /** Key code of the escape key, the only key that toggles pausing. */
  const EscapeKeyCode := 27

  /** The record as the game is constructed: running, not over, still
   *  playing. The `over` flag starts undefined, which reads as false. */
  function NewGame(): (g: Game)
    ensures !g.paused && !g.over && g.status == Playing
  {
    Game(false, false, Playing)
  }

  /** The key-down handler: the escape key flips `paused`, every other key
   *  leaves the record alone. */
  function Pause(g: Game, keyCode: int): (r: Game)
    ensures r.paused != g.paused <==> keyCode == EscapeKeyCode
    ensures r.over == g.over && r.status == g.status
  {
    if keyCode == EscapeKeyCode then g.(paused := !g.paused) else g
  }

  /** Pressing escape twice restores the original record. */
  lemma PauseTwiceRestores(g: Game)
    ensures Pause(Pause(g, EscapeKeyCode), EscapeKeyCode) == g
  {
  }

  /** Any other key is a no-op. */
  lemma PauseIgnoresOtherKeys(g: Game, keyCode: int)
    requires keyCode != EscapeKeyCode
    ensures Pause(g, keyCode) == g
  {
  }

  function Win(g: Game): (r: Game)
    ensures r.status == Won
    ensures r.paused == g.paused && r.over == g.over
  {
    g.(status := Won)
  }

  function Lose(g: Game): (r: Game)
    ensures r.status == Lost
    ensures r.paused == g.paused && r.over == g.over
  {
    g.(status := Lost)
  }

  /** Stops the descent loop and freezes player movement; the outcome set
   *  just before is kept. */
  function End(g: Game): (r: Game)
    ensures r.over && r.paused
    ensures r.status == g.status
  {
    g.(over := true, paused := true)
  }

  /** Ending is idempotent. */
  lemma EndIdempotent(g: Game)
    ensures End(End(g)) == End(g)
  {
  }
}
