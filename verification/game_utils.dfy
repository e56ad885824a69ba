/** The rules engine of src/utils/gameUtils.ts: the initial state, the placement
    check and the placement transition. */
module GameUtils {
  import opened GameTypes
  import opened Shapes

  /** `INITIAL_BLOCKS`: the nine shapes every player starts with. */
  const INITIAL_BLOCKS: seq<Shape> := [
    [[true]],
    [[true, true]],
    [[true, true, true]],
    [[true, true, true, true]],
    [[true, true], [true, true]],
    [[true, true, true], [true, false, false]],
    [[true, true], [false, true], [false, true]],
    [[true, true, true], [false, true, false]],
    [[true, false], [true, true], [true, false]]
  ]

  /** The seat colours, in seat order. */
  const COLORS: seq<Color> := [Red, Blue, Green, Yellow]

  // ---------------------------------------------------------------------------
  // createInitialGameState

  /** The end index JavaScript's `slice(0, n)` uses on a sequence of length `len`:
      a negative `n` counts from the back, and the result is clamped to `[0, len]`. */
  function SliceEnd(len: nat, n: int): (e: nat)
    ensures e <= len
    ensures 0 <= n <= len ==> e == n
    ensures n > len ==> e == len
    ensures n < 0 ==> e + -n == len || (e == 0 && len < -n)
  {
    if n < 0 then (if len + n < 0 then 0 else len + n)
    else if n > len then len
    else n
  }

  function EmptyBoard(): (b: Board)
    ensures BoardShaped(b)
    ensures forall y, x :: 0 <= y < BOARD_SIZE && 0 <= x < BOARD_SIZE ==> b[y][x] == None
  {
    seq(BOARD_SIZE, _ => seq(BOARD_SIZE, _ => None))
  }

  /** The starting hand: every catalog shape, in catalog order, in colour `c`. */
  function StartingHand(c: Color): (hand: seq<Block>)
    ensures |hand| == |INITIAL_BLOCKS|
    ensures forall k :: 0 <= k < |hand| ==> hand[k] == Block(INITIAL_BLOCKS[k], c)
  {
    seq(|INITIAL_BLOCKS|, k requires 0 <= k < |INITIAL_BLOCKS| => Block(INITIAL_BLOCKS[k], c))
  }

  /** `createInitialGameState(numPlayers)`: an empty 20x20 board and the first
      `numPlayers` seats (as `slice(0, numPlayers)` picks them), each holding the
      whole catalog in its own colour and nothing placed. */
  function CreateInitialGameState(numPlayers: int): (s: GameState)
    ensures |s.players| == SliceEnd(|COLORS|, numPlayers)
    ensures 1 <= numPlayers <= 4 ==> |s.players| == numPlayers
    ensures BoardShaped(s.board)
    ensures forall y, x :: 0 <= y < BOARD_SIZE && 0 <= x < BOARD_SIZE ==> s.board[y][x] == None
    ensures forall i :: 0 <= i < |s.players| ==>
              && s.players[i].color == COLORS[i]
              && s.players[i].blocks == StartingHand(COLORS[i])
              && s.players[i].placedBlocks == []
    ensures DistinctColors(s.players)
    ensures s.currentPlayerIndex == 0 && !s.gameOver && s.winner == None
    ensures 1 <= numPlayers ==> WellFormed(s)
  {
    var colors := COLORS[..SliceEnd(|COLORS|, numPlayers)];
    var players := seq(|colors|, i requires 0 <= i < |colors| =>
                         Player(colors[i], StartingHand(colors[i]), []));
    GameState(EmptyBoard(), players, 0, false, None)
  }

  // ---------------------------------------------------------------------------
  // isValidPlacement

  /** `q` is on the board and holds colour `c`. */
  predicate HoldsColor(board: Board, q: Point, c: Color)
    requires BoardShaped(board)
  {
    InBounds(q) && At(board, q) == Some(c)
  }

  /** One of the four edge-neighbours of `p` (left, right, up, down) holds `c`. */
  predicate EdgeTouches(board: Board, p: Point, c: Color)
    requires BoardShaped(board)
  {
    || HoldsColor(board, Point(p.x - 1, p.y), c)
    || HoldsColor(board, Point(p.x + 1, p.y), c)
    || HoldsColor(board, Point(p.x, p.y - 1), c)
    || HoldsColor(board, Point(p.x, p.y + 1), c)
  }

  /** One of the four diagonal neighbours of `p` holds `c`. */
  predicate CornerTouches(board: Board, p: Point, c: Color)
    requires BoardShaped(board)
  {
    || HoldsColor(board, Point(p.x - 1, p.y - 1), c)
    || HoldsColor(board, Point(p.x + 1, p.y - 1), c)
    || HoldsColor(board, Point(p.x - 1, p.y + 1), c)
    || HoldsColor(board, Point(p.x + 1, p.y + 1), c)
  }

  /** `p` is on the board and empty. */
  predicate Fits(board: Board, p: Point)
    requires BoardShaped(board)
  {
    InBounds(p) && At(board, p) == None
  }

  /** Cells `k` up to (not including) `i` of `cs`, translated by `pos`, all fit. */
  predicate FitsBetween(board: Board, cs: seq<Offset>, pos: Point, k: nat, i: nat)
    requires BoardShaped(board) && k <= i <= |cs|
  {
    forall j :: k <= j < i ==> Fits(board, Translate(pos, cs[j]))
  }

  /** The index of the first cell of `cs`, from `k` on, that does not fit once
      translated by `pos`; `|cs|` when they all fit. */
  function FirstMisfit(board: Board, cs: seq<Offset>, pos: Point, k: nat): (i: nat)
    requires BoardShaped(board) && k <= |cs|
    ensures k <= i <= |cs|
    ensures FitsBetween(board, cs, pos, k, i)
    ensures i < |cs| ==> !Fits(board, Translate(pos, cs[i]))
    decreases |cs| - k
  {
    if k == |cs| || !Fits(board, Translate(pos, cs[k])) then k
    else FirstMisfit(board, cs, pos, k + 1)
  }

  /** The first loop of `isValidPlacement`, from cell `k` of `cs` on: the first
      translated cell that is off the board or taken decides the message. */
  function FitScan(board: Board, cs: seq<Offset>, pos: Point, k: nat): (r: Validation)
    requires BoardShaped(board) && k <= |cs|
    ensures var i := FirstMisfit(board, cs, pos, k);
            && (r == Valid <==> i == |cs|)
            && (r == OutOfBounds <==> i < |cs| && !InBounds(Translate(pos, cs[i])))
            && (r == Occupied <==> i < |cs| && InBounds(Translate(pos, cs[i])))
    decreases |cs| - k
  {
    if k == |cs| then Valid
    else
      var p := Translate(pos, cs[k]);
      if !InBounds(p) then OutOfBounds
      else if At(board, p).Some? then Occupied
      else FitScan(board, cs, pos, k + 1)
  }

  /** The second loop of `isValidPlacement`, from cell `k` of `cs` on: any
      translated cell with an edge-neighbour of colour `c` rejects at once;
      otherwise `hasCorner` collects whether some cell touches `c` diagonally,
      and the scan ends rejecting only when nothing touched and the mover has
      already placed a block. */
  function AdjacencyScan(board: Board, cs: seq<Offset>, pos: Point, c: Color, k: nat,
                         hasCorner: bool, hasPlaced: bool): (r: Validation)
    requires BoardShaped(board) && k <= |cs|
    ensures r == Valid || r == AdjacentSameColor || r == NoCornerConnection
    ensures r == AdjacentSameColor <==>
              exists i :: k <= i < |cs| && EdgeTouches(board, Translate(pos, cs[i]), c)
    ensures r == NoCornerConnection <==>
              && (forall i :: k <= i < |cs| ==> !EdgeTouches(board, Translate(pos, cs[i]), c))
              && hasPlaced && !hasCorner
              && (forall i :: k <= i < |cs| ==> !CornerTouches(board, Translate(pos, cs[i]), c))
    decreases |cs| - k
  {
    if k == |cs| then
      (if !hasCorner && hasPlaced then NoCornerConnection else Valid)
    else
      var p := Translate(pos, cs[k]);
      if EdgeTouches(board, p, c) then AdjacentSameColor
      else AdjacencyScan(board, cs, pos, c, k + 1, hasCorner || CornerTouches(board, p, c), hasPlaced)
  }

  /** `isValidPlacement(state, block, position)`: the first loop's verdict when
      it rejects, otherwise the second loop's. It accepts exactly the `Legal`
      placements, and each rejection message is characterised over the shape's
      true cells: the first misfitting cell in row-major order decides between
      the bounds and the occupancy message, and the two contact messages need
      every cell to fit. */
  function IsValidPlacement(s: GameState, block: Block, position: Point): (r: Validation)
    requires WellFormed(s)
    ensures r == Valid <==> Legal(s, block, position)
    ensures r == OutOfBounds <==> FirstMisfitOffBoard(s.board, block.shape, position)
    ensures r == Occupied <==> FirstMisfitTaken(s.board, block.shape, position)
    ensures r == AdjacentSameColor <==>
              AllFit(s.board, block.shape, position) && AnyEdgeTouch(s.board, block.shape, position, CurrentPlayer(s).color)
    ensures r == NoCornerConnection <==>
              && AllFit(s.board, block.shape, position)
              && !AnyEdgeTouch(s.board, block.shape, position, CurrentPlayer(s).color)
              && |CurrentPlayer(s).placedBlocks| > 0
              && !AnyCornerTouch(s.board, block.shape, position, CurrentPlayer(s).color)
  {
    var cs := Cells(block.shape);
    var mover := CurrentPlayer(s);
    FitScanOffBoard(s.board, block.shape, position);
    FitScanTaken(s.board, block.shape, position);
    AllFitIndex(s.board, block.shape, position);
    EdgeIndex(s.board, block.shape, position, mover.color);
    CornerIndex(s.board, block.shape, position, mover.color);
    var fit := FitScan(s.board, cs, position, 0);
    if fit != Valid then fit
    else AdjacencyScan(s.board, cs, position, mover.color, 0, false, |mover.placedBlocks| > 0)
  }

  // ---------------------------------------------------------------------------
  // What the placement check decides, stated over the shape's true cells.

  /** Every true cell, translated by `pos`, is on the board and empty. */
  ghost predicate AllFit(board: Board, shape: Shape, pos: Point)
    requires BoardShaped(board)
  {
    forall o :: IsCell(shape, o) ==> Fits(board, Translate(pos, o))
  }

  /** Every true cell before `o` in row-major order fits. */
  ghost predicate EarlierFit(board: Board, shape: Shape, pos: Point, o: Offset)
    requires BoardShaped(board)
  {
    forall o' :: IsCell(shape, o') && Before(o', o) ==> Fits(board, Translate(pos, o'))
  }

  /** The first misfitting true cell in row-major order is off the board. */
  ghost predicate FirstMisfitOffBoard(board: Board, shape: Shape, pos: Point)
    requires BoardShaped(board)
  {
    exists o :: IsCell(shape, o) && !InBounds(Translate(pos, o)) && EarlierFit(board, shape, pos, o)
  }

  /** The first misfitting true cell in row-major order is on the board but taken. */
  ghost predicate FirstMisfitTaken(board: Board, shape: Shape, pos: Point)
    requires BoardShaped(board)
  {
    exists o :: IsCell(shape, o) && InBounds(Translate(pos, o))
             && At(board, Translate(pos, o)).Some? && EarlierFit(board, shape, pos, o)
  }

  ghost predicate AnyEdgeTouch(board: Board, shape: Shape, pos: Point, c: Color)
    requires BoardShaped(board)
  {
    exists o :: IsCell(shape, o) && EdgeTouches(board, Translate(pos, o), c)
  }

  ghost predicate AnyCornerTouch(board: Board, shape: Shape, pos: Point, c: Color)
    requires BoardShaped(board)
  {
    exists o :: IsCell(shape, o) && CornerTouches(board, Translate(pos, o), c)
  }

  /** The placement rules the code enforces: every cell on the board and empty,
      no cell edge-touching the mover's colour, and, once the mover has placed
      something, some cell corner-touching it. */
  ghost predicate Legal(s: GameState, block: Block, pos: Point)
    requires WellFormed(s)
  {
    var c := CurrentPlayer(s).color;
    && AllFit(s.board, block.shape, pos)
    && !AnyEdgeTouch(s.board, block.shape, pos, c)
    && (|CurrentPlayer(s).placedBlocks| == 0 || AnyCornerTouch(s.board, block.shape, pos, c))
  }

  /** For a true cell `o` at index `i` of the enumeration, "every earlier index
      fits" and "every earlier cell in row-major order fits" agree. */
  lemma EarlierFitIndex(board: Board, shape: Shape, pos: Point, i: nat)
    requires BoardShaped(board) && i < |Cells(shape)|
    ensures FitsBetween(board, Cells(shape), pos, 0, i) <==> EarlierFit(board, shape, pos, Cells(shape)[i])
  {
    var cs := Cells(shape);
    var o := cs[i];
    assert o in cs;
    if FitsBetween(board, cs, pos, 0, i) {
      forall o' | IsCell(shape, o') && Before(o', o)
        ensures Fits(board, Translate(pos, o'))
      {
        assert o' in cs;
        var j :| 0 <= j < |cs| && cs[j] == o';
      }
    }
    if EarlierFit(board, shape, pos, o) {
      forall j | 0 <= j < i
        ensures Fits(board, Translate(pos, cs[j]))
      {
        assert cs[j] in cs;
        assert Before(cs[j], cs[i]);
      }
    }
  }

  /** Every enumerated cell fits exactly when every true cell fits. */
  lemma AllFitIndex(board: Board, shape: Shape, pos: Point)
    requires BoardShaped(board)
    ensures FitsBetween(board, Cells(shape), pos, 0, |Cells(shape)|) <==> AllFit(board, shape, pos)
  {
    var cs := Cells(shape);
    if FitsBetween(board, cs, pos, 0, |cs|) {
      forall o | IsCell(shape, o) ensures Fits(board, Translate(pos, o)) {
        assert o in cs;
      }
    }
    if AllFit(board, shape, pos) {
      forall j | 0 <= j < |cs| ensures Fits(board, Translate(pos, cs[j])) {
        assert cs[j] in cs;
      }
    }
  }

  /** The first misfit is the true cell `o` exactly when `o` does not fit and
      every true cell before it in row-major order fits. */
  lemma FirstMisfitIsEarliest(board: Board, shape: Shape, pos: Point, o: Offset)
    requires BoardShaped(board) && IsCell(shape, o)
    ensures var cs := Cells(shape);
            var i := FirstMisfit(board, cs, pos, 0);
            (i < |cs| && cs[i] == o) <==> !Fits(board, Translate(pos, o)) && EarlierFit(board, shape, pos, o)
  {
    var cs := Cells(shape);
    var i := FirstMisfit(board, cs, pos, 0);
    assert o in cs;
    var j :| 0 <= j < |cs| && cs[j] == o;
    EarlierFitIndex(board, shape, pos, j);
    if !Fits(board, Translate(pos, o)) && EarlierFit(board, shape, pos, o) {
      if j < i {
        assert false;
      } else if i < j {
        assert false;
      }
    }
  }

  /** The first scan stops at an off-board cell exactly when the first
      misfitting cell in row-major order is off the board. */
  lemma FitScanOffBoard(board: Board, shape: Shape, pos: Point)
    requires BoardShaped(board)
    ensures FitScan(board, Cells(shape), pos, 0) == OutOfBounds <==> FirstMisfitOffBoard(board, shape, pos)
  {
    var cs := Cells(shape);
    var i := FirstMisfit(board, cs, pos, 0);
    if FitScan(board, cs, pos, 0) == OutOfBounds {
      assert cs[i] in cs;
      FirstMisfitIsEarliest(board, shape, pos, cs[i]);
    }
    if FirstMisfitOffBoard(board, shape, pos) {
      var o :| IsCell(shape, o) && !InBounds(Translate(pos, o)) && EarlierFit(board, shape, pos, o);
      FirstMisfitIsEarliest(board, shape, pos, o);
    }
  }

  /** The first scan stops at a taken cell exactly when the first misfitting
      cell in row-major order is on the board but taken. */
  lemma FitScanTaken(board: Board, shape: Shape, pos: Point)
    requires BoardShaped(board)
    ensures FitScan(board, Cells(shape), pos, 0) == Occupied <==> FirstMisfitTaken(board, shape, pos)
  {
    var cs := Cells(shape);
    var i := FirstMisfit(board, cs, pos, 0);
    if FitScan(board, cs, pos, 0) == Occupied {
      assert cs[i] in cs;
      FirstMisfitIsEarliest(board, shape, pos, cs[i]);
    }
    if FirstMisfitTaken(board, shape, pos) {
      var o :| IsCell(shape, o) && InBounds(Translate(pos, o))
               && At(board, Translate(pos, o)).Some? && EarlierFit(board, shape, pos, o);
      FirstMisfitIsEarliest(board, shape, pos, o);
    }
  }

  /** Some enumerated cell edge-touches `c` exactly when some true cell does. */
  lemma EdgeIndex(board: Board, shape: Shape, pos: Point, c: Color)
    requires BoardShaped(board)
    ensures (exists i :: 0 <= i < |Cells(shape)| && EdgeTouches(board, Translate(pos, Cells(shape)[i]), c))
            <==> AnyEdgeTouch(board, shape, pos, c)
  {
    var cs := Cells(shape);
    if AnyEdgeTouch(board, shape, pos, c) {
      var o :| IsCell(shape, o) && EdgeTouches(board, Translate(pos, o), c);
      assert o in cs;
    }
    if exists i :: 0 <= i < |cs| && EdgeTouches(board, Translate(pos, cs[i]), c) {
      var i :| 0 <= i < |cs| && EdgeTouches(board, Translate(pos, cs[i]), c);
      assert cs[i] in cs;
    }
  }

  /** Some enumerated cell corner-touches `c` exactly when some true cell does. */
  lemma CornerIndex(board: Board, shape: Shape, pos: Point, c: Color)
    requires BoardShaped(board)
    ensures (exists i :: 0 <= i < |Cells(shape)| && CornerTouches(board, Translate(pos, Cells(shape)[i]), c))
            <==> AnyCornerTouch(board, shape, pos, c)
  {
    var cs := Cells(shape);
    if AnyCornerTouch(board, shape, pos, c) {
      var o :| IsCell(shape, o) && CornerTouches(board, Translate(pos, o), c);
      assert o in cs;
    }
    if exists i :: 0 <= i < |cs| && CornerTouches(board, Translate(pos, cs[i]), c) {
      var i :| 0 <= i < |cs| && CornerTouches(board, Translate(pos, cs[i]), c);
      assert cs[i] in cs;
    }
  }

  /** With nothing placed and no cell of the mover's colour on the board, a
      placement is accepted exactly when it fits: there is no board-corner rule. */
  lemma FirstMoveNeedsOnlyFit(s: GameState, block: Block, pos: Point)
    requires WellFormed(s)
    requires |CurrentPlayer(s).placedBlocks| == 0
    requires forall y, x :: 0 <= y < BOARD_SIZE && 0 <= x < BOARD_SIZE ==> s.board[y][x] != Some(CurrentPlayer(s).color)
    ensures IsValidPlacement(s, block, pos) == Valid <==> AllFit(s.board, block.shape, pos)
  {
  }

  /** An accepted placement lies on the board, so the transition may apply it. */
  lemma ValidIsInsideBoard(s: GameState, block: Block, pos: Point)
    requires WellFormed(s) && IsValidPlacement(s, block, pos) == Valid
    ensures InsideBoard(block.shape, pos)
    ensures forall o :: IsCell(block.shape, o) ==> At(s.board, Translate(pos, o)) == None
  {
  }

  // ---------------------------------------------------------------------------
  // placeBlock

  /** `board` with the in-bounds point `p` set to colour `c`. */
  function SetCell(board: Board, p: Point, c: Color): (b: Board)
    requires BoardShaped(board) && InBounds(p)
    ensures BoardShaped(b)
    ensures forall y, x :: 0 <= y < BOARD_SIZE && 0 <= x < BOARD_SIZE ==>
              b[y][x] == (if Point(x, y) == p then Some(c) else board[y][x])
  {
    board[p.y := board[p.y][p.x := Some(c)]]
  }

  lemma HitsCons(cs: seq<Offset>, pos: Point, p: Point)
    requires |cs| > 0
    ensures Hits(cs, pos, p) <==> Translate(pos, cs[0]) == p || Hits(cs[1..], pos, p)
  {
    if Hits(cs[1..], pos, p) {
      var i :| 0 <= i < |cs[1..]| && Translate(pos, cs[1..][i]) == p;
      assert Translate(pos, cs[i + 1]) == p;
    }
    if Hits(cs, pos, p) && Translate(pos, cs[0]) != p {
      var i :| 0 <= i < |cs| && Translate(pos, cs[i]) == p;
      assert Translate(pos, cs[1..][i - 1]) == p;
    }
  }

  /** The painting loop of `placeBlock`: each cell of `cs`, translated by `pos`,
      is set to `c`, in order. */
  function Paint(board: Board, cs: seq<Offset>, pos: Point, c: Color): (b: Board)
    requires BoardShaped(board)
    requires forall i :: 0 <= i < |cs| ==> InBounds(Translate(pos, cs[i]))
    ensures BoardShaped(b)
    ensures forall y, x :: 0 <= y < BOARD_SIZE && 0 <= x < BOARD_SIZE ==>
              b[y][x] == (if Hits(cs, pos, Point(x, y)) then Some(c) else board[y][x])
    decreases |cs|
  {
    if |cs| == 0 then board
    else
      var b := Paint(SetCell(board, Translate(pos, cs[0]), c), cs[1..], pos, c);
      assert forall y, x :: 0 <= y < BOARD_SIZE && 0 <= x < BOARD_SIZE ==>
               (Hits(cs, pos, Point(x, y)) <==> Translate(pos, cs[0]) == Point(x, y) || Hits(cs[1..], pos, Point(x, y))) by {
        forall y, x | 0 <= y < BOARD_SIZE && 0 <= x < BOARD_SIZE {
          HitsCons(cs, pos, Point(x, y));
        }
      }
      b
  }

  /** The painting loop over a whole shape: exactly the covered points take
      colour `c`. */
  function PaintShape(board: Board, shape: Shape, pos: Point, c: Color): (b: Board)
    requires BoardShaped(board) && InsideBoard(shape, pos)
    ensures BoardShaped(b)
    ensures forall y, x :: 0 <= y < BOARD_SIZE && 0 <= x < BOARD_SIZE ==>
              b[y][x] == (if Covers(shape, pos, Point(x, y)) then Some(c) else board[y][x])
  {
    var cs := Cells(shape);
    assert forall i :: 0 <= i < |cs| ==> InBounds(Translate(pos, cs[i])) by {
      forall i | 0 <= i < |cs| ensures InBounds(Translate(pos, cs[i])) {
        assert cs[i] in cs;
      }
    }
    var b := Paint(board, cs, pos, c);
    assert forall y, x :: 0 <= y < BOARD_SIZE && 0 <= x < BOARD_SIZE ==>
             (Hits(cs, pos, Point(x, y)) <==> Covers(shape, pos, Point(x, y))) by {
      forall y, x | 0 <= y < BOARD_SIZE && 0 <= x < BOARD_SIZE {
        CellsHitCovered(shape, pos, Point(x, y));
      }
    }
    b
  }

  /** `blocks[i]` is the first block whose shape equals `shape`. */
  predicate FirstShapeMatch(blocks: seq<Block>, shape: Shape, i: int) {
    0 <= i < |blocks| && blocks[i].shape == shape && forall j :: 0 <= j < i ==> blocks[j].shape != shape
  }

  /** `findIndex` by shape equality: the index of the first block of that shape, or -1. */
  function FindIndex(blocks: seq<Block>, shape: Shape): (i: int)
    ensures i == -1 || FirstShapeMatch(blocks, shape, i)
    ensures i == -1 <==> forall j :: 0 <= j < |blocks| ==> blocks[j].shape != shape
  {
    if |blocks| == 0 then -1
    else if blocks[0].shape == shape then 0
    else
      var i := FindIndex(blocks[1..], shape);
      if i == -1 then -1 else i + 1
  }

  /** The mover's bookkeeping in `placeBlock`: when the hand holds a block of the
      placed shape, the first such block leaves the hand and the placed block is
      appended to `placedBlocks`; otherwise the player is unchanged. */
  function MoveBlock(p: Player, block: Block): (p': Player)
    ensures p'.color == p.color
    ensures (forall j :: 0 <= j < |p.blocks| ==> p.blocks[j].shape != block.shape) ==> p' == p
    ensures (exists j :: 0 <= j < |p.blocks| && p.blocks[j].shape == block.shape) ==>
              && p'.placedBlocks == p.placedBlocks + [block]
              && exists i :: FirstShapeMatch(p.blocks, block.shape, i) && p'.blocks == p.blocks[..i] + p.blocks[i + 1..]
  {
    var i := FindIndex(p.blocks, block.shape);
    if i == -1 then p
    else p.(blocks := p.blocks[..i] + p.blocks[i + 1..], placedBlocks := p.placedBlocks + [block])
  }

  /** `placeBlock(state, block, position)`: paints the covered cells with the
      block's colour, moves the block from the mover's hand to its placed list,
      and passes the turn to the next seat. The caller has validated the
      placement, so every covered cell is on the board. */
  function PlaceBlock(s: GameState, block: Block, position: Point): (s': GameState)
    requires WellFormed(s)
    requires InsideBoard(block.shape, position)
    ensures WellFormed(s')
    ensures forall y, x :: 0 <= y < BOARD_SIZE && 0 <= x < BOARD_SIZE ==>
              s'.board[y][x] == (if Covers(block.shape, position, Point(x, y)) then Some(block.color) else s.board[y][x])
    ensures |s'.players| == |s.players|
    ensures s'.players[s.currentPlayerIndex] == MoveBlock(CurrentPlayer(s), block)
    ensures forall i :: 0 <= i < |s.players| && i != s.currentPlayerIndex ==> s'.players[i] == s.players[i]
    ensures s'.currentPlayerIndex == (s.currentPlayerIndex + 1) % |s.players|
    ensures s'.gameOver == s.gameOver && s'.winner == s.winner
  {
    var board := PaintShape(s.board, block.shape, position, block.color);
    var players := s.players[s.currentPlayerIndex := MoveBlock(CurrentPlayer(s), block)];
    s.(board := board, players := players, currentPlayerIndex := (s.currentPlayerIndex + 1) % |s.players|)
  }

  // ---------------------------------------------------------------------------
  // Validation and transition together

  /** Every point a fitting shape covers is an empty board cell. */
  lemma FitCoversOnlyEmpty(board: Board, shape: Shape, pos: Point)
    requires BoardShaped(board) && AllFit(board, shape, pos)
    ensures forall y, x :: 0 <= y < BOARD_SIZE && 0 <= x < BOARD_SIZE && Covers(shape, pos, Point(x, y)) ==>
              board[y][x] == None
  {
    forall y, x | 0 <= y < BOARD_SIZE && 0 <= x < BOARD_SIZE && Covers(shape, pos, Point(x, y))
      ensures board[y][x] == None
    {
      var o := Offset(y - pos.y, x - pos.x);
      assert Translate(pos, o) == Point(x, y);
      assert Fits(board, Translate(pos, o));
    }
  }

  /** Applying an accepted placement never changes a cell that already held a
      colour, and colours exactly the covered cells, which were empty. */
  lemma ValidPlacementNoOverwrite(s: GameState, block: Block, pos: Point)
    requires WellFormed(s) && IsValidPlacement(s, block, pos) == Valid
    ensures InsideBoard(block.shape, pos)
    ensures forall y, x :: 0 <= y < BOARD_SIZE && 0 <= x < BOARD_SIZE && s.board[y][x].Some? ==>
              PlaceBlock(s, block, pos).board[y][x] == s.board[y][x]
    ensures forall y, x :: 0 <= y < BOARD_SIZE && 0 <= x < BOARD_SIZE && s.board[y][x] == None ==>
              PlaceBlock(s, block, pos).board[y][x] == (if Covers(block.shape, pos, Point(x, y)) then Some(block.color) else None)
  {
    FitCoversOnlyEmpty(s.board, block.shape, pos);
  }

  /** Seat colours never change, so distinct colours stay distinct. */
  lemma PlaceBlockKeepsColors(s: GameState, block: Block, pos: Point)
    requires WellFormed(s) && InsideBoard(block.shape, pos)
    ensures forall i :: 0 <= i < |s.players| ==> PlaceBlock(s, block, pos).players[i].color == s.players[i].color
    ensures DistinctColors(s.players) ==> DistinctColors(PlaceBlock(s, block, pos).players)
  {
  }

  // ---------------------------------------------------------------------------
  // Scenarios

  const MONOMINO: Shape := [[true]]

  /** On a fresh board with any number of seats, red may open with a single
      cell away from every board corner. */
  lemma OpeningAwayFromCorner(n: int)
    requires 1 <= n <= 4
    ensures IsValidPlacement(CreateInitialGameState(n), Block(MONOMINO, Red), Point(1, 1)) == Valid
  {
    var s := CreateInitialGameState(n);
    FirstMoveNeedsOnlyFit(s, Block(MONOMINO, Red), Point(1, 1));
    forall o | IsCell(MONOMINO, o) ensures Fits(s.board, Translate(Point(1, 1), o)) {
      MonominoCells(o);
    }
  }

  lemma MonominoCells(o: Offset)
    ensures IsCell(MONOMINO, o) <==> o == Offset(0, 0)
  {
  }

  /** In a one-seat game where red has placed nothing and the board is empty,
      red's single cell at (0, 0) leaves red to move again with one placed block
      and (0, 0) as the only coloured cell. */
  lemma CornerCellState(s0: GameState)
    requires WellFormed(s0) && s0.currentPlayerIndex == 0 && |s0.players| == 1
    requires forall y, x :: 0 <= y < BOARD_SIZE && 0 <= x < BOARD_SIZE ==> s0.board[y][x] == None
    requires s0.players[0].color == Red && s0.players[0].blocks == StartingHand(Red) && s0.players[0].placedBlocks == []
    ensures InsideBoard(MONOMINO, Point(0, 0))
    ensures var s := PlaceBlock(s0, Block(MONOMINO, Red), Point(0, 0));
            && WellFormed(s)
            && CurrentPlayer(s).color == Red
            && |CurrentPlayer(s).placedBlocks| == 1
            && forall y, x :: 0 <= y < BOARD_SIZE && 0 <= x < BOARD_SIZE ==>
                 s.board[y][x] == (if x == 0 && y == 0 then Some(Red) else None)
  {
    assert s0.players[0].blocks[0].shape == MONOMINO;
    forall o | IsCell(MONOMINO, o) ensures InBounds(Translate(Point(0, 0), o)) {
      MonominoCells(o);
    }
    var s := PlaceBlock(s0, Block(MONOMINO, Red), Point(0, 0));
    forall y, x | 0 <= y < BOARD_SIZE && 0 <= x < BOARD_SIZE
      ensures s.board[y][x] == (if x == 0 && y == 0 then Some(Red) else None)
    {
      MonominoCells(Offset(y, x));
    }
  }

  /** A fitting placement with an edge contact is refused for that contact. */
  lemma RefusedOnEdgeContact(s: GameState, block: Block, pos: Point)
    requires WellFormed(s) && AllFit(s.board, block.shape, pos)
    requires AnyEdgeTouch(s.board, block.shape, pos, CurrentPlayer(s).color)
    ensures IsValidPlacement(s, block, pos) == AdjacentSameColor
  {
  }

  /** Whenever red is to move, holds (0, 0) and (1, 0) is empty, a red single
      cell at (1, 0) is refused for edge contact, whatever else the board holds. */
  lemma EdgeContactForbidden(s: GameState)
    requires WellFormed(s) && CurrentPlayer(s).color == Red
    requires s.board[0][0] == Some(Red) && s.board[0][1] == None
    ensures IsValidPlacement(s, Block(MONOMINO, Red), Point(1, 0)) == AdjacentSameColor
  {
    var pos := Point(1, 0);
    forall o | IsCell(MONOMINO, o) ensures Fits(s.board, Translate(pos, o)) {
      MonominoCells(o);
    }
    assert IsCell(MONOMINO, Offset(0, 0));
    assert HoldsColor(s.board, Point(0, 0), Red);
    assert EdgeTouches(s.board, Translate(pos, Offset(0, 0)), Red);
    RefusedOnEdgeContact(s, Block(MONOMINO, Red), pos);
  }

  /** Once red's only cell is at (0, 0) and red has placed a block, a red
      single cell may go corner-to-corner at (1, 1). */
  lemma CornerContactAllowed(s: GameState)
    requires WellFormed(s) && CurrentPlayer(s).color == Red && |CurrentPlayer(s).placedBlocks| > 0
    requires forall y, x :: 0 <= y < BOARD_SIZE && 0 <= x < BOARD_SIZE ==>
               s.board[y][x] == (if x == 0 && y == 0 then Some(Red) else None)
    ensures IsValidPlacement(s, Block(MONOMINO, Red), Point(1, 1)) == Valid
  {
    forall o | IsCell(MONOMINO, o)
      ensures Fits(s.board, Translate(Point(1, 1), o))
      ensures !EdgeTouches(s.board, Translate(Point(1, 1), o), Red)
    {
      MonominoCells(o);
    }
    assert HoldsColor(s.board, Point(0, 0), Red);
    assert CornerTouches(s.board, Translate(Point(1, 1), Offset(0, 0)), Red);
  }
}
