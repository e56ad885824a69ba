/** The statistics records of src/types/stats.ts. */
module StatsTypes {
  import opened GameTypes

  /** `Record<PlayerColor, number>`: one counter per colour. */
  datatype PerColor = PerColor(red: int, blue: int, green: int, yellow: int) {

    function Get(c: Color): int {
      match c
      case Red => red
      case Blue => blue
      case Green => green
      case Yellow => yellow
    }

    /** This record with the counter of `c` replaced by `v`. */
    function Set(c: Color, v: int): (r: PerColor)
      ensures r.Get(c) == v
      ensures forall d :: d != c ==> r.Get(d) == Get(d)
    {
      match c
      case Red => this.(red := v)
      case Blue => this.(blue := v)
      case Green => this.(green := v)
      case Yellow => this.(yellow := v)
    }
  }

  /** `GameStats` without `averageScore`. */
  datatype GameStats = GameStats(
    totalGames: int,
    wins: PerColor,
    highScores: PerColor,
    totalBlocksPlaced: PerColor)

  /** `GameHistory` without `date`. The winner is optional: the source records
      whatever `gameState.winner` holds, which may be null. */
  datatype GameHistory = GameHistory(winner: Option<Color>, scores: PerColor, playerCount: int)

  /** What `updateGameStats` returns. */
  datatype StatsUpdate = StatsUpdate(stats: GameStats, history: seq<GameHistory>)
}
