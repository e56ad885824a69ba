/** The records of the game: colours, points, blocks, players and the game state,
    mirroring src/types/game.ts. */
module GameTypes {

  /** The conventional Some/None datatype, standing in for `T | null`. */
  datatype Option<+T> = None | Some(value: T)

  /** `PlayerColor`: one colour per seat. */
  datatype Color = Red | Blue | Green | Yellow

  /** A board coordinate: `x` is the column, `y` the row. Either may be negative
      when a placement anchor is off the board. */
  datatype Point = Point(x: int, y: int)

  /** A shape is a sequence of rows of booleans; rows may differ in length. */
  type Shape = seq<seq<bool>>

  datatype Block = Block(shape: Shape, color: Color)

  datatype Player = Player(color: Color, blocks: seq<Block>, placedBlocks: seq<Block>)

  /** A board is a sequence of rows; each cell is empty or holds a colour. */
  type Board = seq<seq<Option<Color>>>

  datatype GameState = GameState(
    board: Board,
    players: seq<Player>,
    currentPlayerIndex: int,
    gameOver: bool,
    winner: Option<Color>)

  /** The outcome of a placement check: `Valid`, or one constructor per rejection message. */
  datatype Validation =
    | Valid
    | OutOfBounds          // the block leaves the board
    | Occupied             // a covered cell is already taken
    | AdjacentSameColor    // a covered cell shares an edge with the mover's colour
    | NoCornerConnection   // no covered cell touches the mover's colour diagonally

  const BOARD_SIZE: int := 20

  predicate InBounds(p: Point) {
    0 <= p.x < BOARD_SIZE && 0 <= p.y < BOARD_SIZE
  }

  /** The board is BOARD_SIZE rows of BOARD_SIZE cells. */
  predicate BoardShaped(board: Board) {
    |board| == BOARD_SIZE && forall y :: 0 <= y < BOARD_SIZE ==> |board[y]| == BOARD_SIZE
  }

  /** The content of an in-bounds cell of a shaped board. */
  function At(board: Board, p: Point): Option<Color>
    requires BoardShaped(board) && InBounds(p)
  {
    board[p.y][p.x]
  }

  /** The invariant every state the engine builds keeps: a shaped board and a
      current player that exists. */
  predicate WellFormed(s: GameState) {
    BoardShaped(s.board) && 0 <= s.currentPlayerIndex < |s.players|
  }

  function CurrentPlayer(s: GameState): Player
    requires WellFormed(s)
  {
    s.players[s.currentPlayerIndex]
  }

  /** No two seats share a colour. */
  predicate DistinctColors(players: seq<Player>) {
    forall i, j :: 0 <= i < j < |players| ==> players[i].color != players[j].color
  }
}
