/** Cell colours and the small Option type shared by the board and the agent. */
module Pieces {

  /** The content of one board cell (player_t): empty, or a piece of one of the two colours. */
  datatype Cell = Empty | Blue | Yellow

  /** A value that may be missing; used for reads that can fail. */
  datatype Option<T> = None | Some(value: T)

  /** The colour the computer agent treats as the other side: Yellow for Blue, and
      Blue for anything else (including Empty), exactly as the agent's ternary does. */
  function Opponent(player: Cell): (other: Cell)
    ensures other != Empty && other != player
    ensures player == Empty ==> other == Blue
  {
    if player == Blue then Yellow else Blue
  }
}
