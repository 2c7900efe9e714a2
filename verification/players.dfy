/** The two players and a move (src/game_state.rs, PlayerColor and Move). */
module Players {
  import opened Options
  import Piles
  import Paths

  datatype PlayerColor = Red | White

  /** The stone a player places. */
  function StoneColor(c: PlayerColor): (s: Piles.Stone)
    ensures s != Piles.Neutral
  {
    match c
    case Red => Piles.Red
    case White => Piles.White
  }

  /** The player owning a pile top; neither an empty pile nor a neutral stone belongs to anyone. */
  function FromPileTop(t: Piles.PileTop): (r: Option<PlayerColor>)
    ensures r.None? <==> t == Piles.Empty || t == Piles.NeutralStone
    ensures r.Some? ==> Piles.StoneTop(StoneColor(r.value)) == t
  {
    match t
    case Empty => None
    case NeutralStone => None
    case RedStone => Some(Red)
    case WhiteStone => Some(White)
  }

  /** A player's own stone on top of a pile is recognised as theirs. */
  lemma FromPileTopOfStoneColor(c: PlayerColor)
    ensures FromPileTop(Piles.StoneTop(StoneColor(c))) == Some(c)
  {
  }

  function Opponent(c: PlayerColor): (o: PlayerColor)
    ensures o != c
    ensures StoneColor(o) != StoneColor(c)
  {
    match c
    case Red => White
    case White => Red
  }

  /** Taking the opponent twice gives back the player. */
  lemma OpponentInvolution(c: PlayerColor)
    ensures Opponent(Opponent(c)) == c
  {
  }

  /** The stone to introduce and the path along which the lifted pile is unloaded. */
  datatype Move = Move(newStone: Piles.Stone, path: Paths.Path)
}
