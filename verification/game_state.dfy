/** The phase of a game and the turn bookkeeping shared by both engines. */
module GameState {
  import opened Seeds

  /** A game is in progress, drawn, or won by one of the two players. */
  datatype State = Playing | Draw | CrossWon | NoughtWon

  /** The player who moves next: anything but a cross hands the turn to the cross. */
  function Other(p: Seed): (q: Seed)
    ensures q != NoSeed && q != p
  {
    if p == Cross then Nought else Cross
  }

  /** The phase announcing that `p` has won; any seed other than a cross counts as the nought. */
  function WonBy(p: Seed): (s: State)
    ensures s != Playing && s != Draw
    ensures s == CrossWon <==> p == Cross
  {
    if p == Cross then CrossWon else NoughtWon
  }

  /** Toggling twice gives back the mover. */
  lemma OtherTwice(p: Seed)
    requires p != NoSeed
    ensures Other(Other(p)) == p
  {
  }
}
