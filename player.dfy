/// A participant of a match: a name, a move-selection strategy, and a
/// win/loss/tie record that only the four recording operations change.
module Players {
  import Rules
  import Game

  /// A strategy picks a column from a view of the game and the symbol it
  /// plays. Its behaviour is not part of this model.
  type Strategy = (Rules.State, char) -> int

  class Player {
    const name: string
    const strategy: Strategy
    var wins: int
    var losses: int
    var ties: int

    /// The number of games recorded.
    ghost function Played(): int
      reads this
    {
      wins + losses + ties
    }

    /// A new player with an empty record.
    constructor (playerName: string, strat: Strategy)
      ensures name == playerName && strategy == strat
      ensures wins == 0 && losses == 0 && ties == 0
    {
      name := playerName;
      strategy := strat;
      wins, losses, ties := 0, 0, 0;
    }

    /// The strategy's choice for the current game, shown a copy of its state.
    method GetMove(game: Game.ConnectFour, symbol: char) returns (col: int)
      requires game.Valid()
      ensures col == strategy(game.State(), symbol)
    {
      col := strategy(game.Snapshot(), symbol);
    }

    function GetName(): (n: string)
      ensures n == name
    {
      name
    }

    function GetWins(): (n: int)
      reads this
      ensures n == wins
    {
      wins
    }

    function GetLosses(): (n: int)
      reads this
      ensures n == losses
    {
      losses
    }

    function GetTies(): (n: int)
      reads this
      ensures n == ties
    {
      ties
    }

    method RecordWin()
      modifies this
      ensures wins == old(wins) + 1 && losses == old(losses) && ties == old(ties)
      ensures Played() == old(Played()) + 1
    {
      wins := wins + 1;
    }

    method RecordLoss()
      modifies this
      ensures losses == old(losses) + 1 && wins == old(wins) && ties == old(ties)
      ensures Played() == old(Played()) + 1
    {
      losses := losses + 1;
    }

    method RecordTie()
      modifies this
      ensures ties == old(ties) + 1 && wins == old(wins) && losses == old(losses)
      ensures Played() == old(Played()) + 1
    {
      ties := ties + 1;
    }

    /// Clears the record; the name and strategy stay.
    method ResetStats()
      modifies this
      ensures wins == 0 && losses == 0 && ties == 0 && Played() == 0
    {
      wins := 0;
      losses := 0;
      ties := 0;
    }
  }
}
