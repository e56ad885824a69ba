/** The bookkeeping of src/utils/statsUtils.ts: initial statistics, scores and the
    update made at the end of a game. Loading and saving are left to the caller:
    the previous statistics and history come in as parameters and the new ones
    are returned. */
module StatsUtils {
  import opened GameTypes
  import opened Shapes
  import opened StatsTypes
  import GameUtils

  /** Number of games the history keeps. */
  const HISTORY_LIMIT: nat := 10

  function Zeros(): PerColor {
    PerColor(0, 0, 0, 0)
  }

  /** `getInitialStats()`. */
  function GetInitialStats(): (st: GameStats)
    ensures st.totalGames == 0
    ensures forall c :: st.wins.Get(c) == 0 && st.highScores.Get(c) == 0 && st.totalBlocksPlaced.Get(c) == 0
  {
    GameStats(0, Zeros(), Zeros(), Zeros())
  }

  /** The number of board cells the blocks cover when placed: the sum, front to
      back, of the lengths of their cell enumerations. */
  function Area(blocks: seq<Block>): nat {
    if |blocks| == 0 then 0 else |Cells(blocks[0].shape)| + Area(blocks[1..])
  }

  lemma {:induction false} AreaAppend(a: seq<Block>, b: Block)
    ensures Area(a + [b]) == Area(a) + |Cells(b.shape)|
    decreases |a|
  {
    if |a| == 0 {
      assert a + [b] == [b];
    } else {
      assert (a + [b])[1..] == a[1..] + [b];
      AreaAppend(a[1..], b);
    }
  }

  /** Total of the cell counts of `blocks`, folded from the left like `reduce`:
      exactly the number of cells the blocks cover. */
  function SumCells(blocks: seq<Block>): (n: nat)
    ensures n == Area(blocks)
    decreases |blocks|
  {
    if |blocks| == 0 then 0
    else
      var init := blocks[..|blocks| - 1];
      var last := blocks[|blocks| - 1];
      assert blocks == init + [last];
      AreaAppend(init, last);
      CellCountIsCells(last.shape);
      SumCells(init) + CellCount(last.shape)
  }

  /** A player's score: the number of cells its placed blocks cover. */
  function Score(p: Player): (n: nat)
    ensures n == Area(p.placedBlocks)
  {
    SumCells(p.placedBlocks)
  }

  /** Placing a block the mover holds raises the mover's score by exactly the
      number of cells it covers; no other seat's score moves, and a block the
      mover does not hold changes no score. */
  lemma PlacingAddsArea(s: GameState, block: Block, pos: Point)
    requires WellFormed(s) && InsideBoard(block.shape, pos)
    ensures var s' := GameUtils.PlaceBlock(s, block, pos);
            && (forall i :: 0 <= i < |s.players| && i != s.currentPlayerIndex ==> Score(s'.players[i]) == Score(s.players[i]))
            && ((exists j :: 0 <= j < |CurrentPlayer(s).blocks| && CurrentPlayer(s).blocks[j].shape == block.shape)
                  ==> Score(s'.players[s.currentPlayerIndex]) == Score(CurrentPlayer(s)) + |Cells(block.shape)|)
            && ((forall j :: 0 <= j < |CurrentPlayer(s).blocks| ==> CurrentPlayer(s).blocks[j].shape != block.shape)
                  ==> Score(s'.players[s.currentPlayerIndex]) == Score(CurrentPlayer(s)))
  {
    AreaAppend(CurrentPlayer(s).placedBlocks, block);
  }

  function Max(a: int, b: int): int {
    if b > a then b else a
  }

  /** Running totals of the per-player loop. */
  datatype Tally = Tally(scores: PerColor, stats: GameStats)

  /** The body of the `forEach` over players: record the player's score, raise
      its colour's high score, and add its placed-block count. Only the
      player's colour changes, and the game count and wins are untouched. */
  function TallyPlayer(p: Player, t: Tally): (r: Tally)
    ensures r.scores.Get(p.color) == Score(p)
    ensures r.stats.highScores.Get(p.color) == Max(t.stats.highScores.Get(p.color), Score(p))
    ensures r.stats.totalBlocksPlaced.Get(p.color) == t.stats.totalBlocksPlaced.Get(p.color) + |p.placedBlocks|
    ensures forall d :: d != p.color ==>
              && r.scores.Get(d) == t.scores.Get(d)
              && r.stats.highScores.Get(d) == t.stats.highScores.Get(d)
              && r.stats.totalBlocksPlaced.Get(d) == t.stats.totalBlocksPlaced.Get(d)
    ensures r.stats.totalGames == t.stats.totalGames && r.stats.wins == t.stats.wins
  {
    var score := Score(p);
    var c := p.color;
    var hs := t.stats.highScores;
    var tb := t.stats.totalBlocksPlaced;
    Tally(
      t.scores.Set(c, score),
      t.stats.(highScores := if score > hs.Get(c) then hs.Set(c, score) else hs,
               totalBlocksPlaced := tb.Set(c, tb.Get(c) + |p.placedBlocks|)))
  }

  /** The `forEach` over players, in seat order. It touches only the three
      per-colour tables it updates. */
  function TallyPlayers(players: seq<Player>, t: Tally): (r: Tally)
    ensures r.stats.totalGames == t.stats.totalGames
    ensures r.stats.wins == t.stats.wins
    decreases |players|
  {
    if |players| == 0 then t else TallyPlayers(players[1..], TallyPlayer(players[0], t))
  }

  /** A colour with no seat keeps its score, high score and block count. */
  lemma {:induction false} TallyLeavesAbsent(players: seq<Player>, t: Tally, c: Color)
    requires forall i :: 0 <= i < |players| ==> players[i].color != c
    ensures TallyPlayers(players, t).scores.Get(c) == t.scores.Get(c)
    ensures TallyPlayers(players, t).stats.highScores.Get(c) == t.stats.highScores.Get(c)
    ensures TallyPlayers(players, t).stats.totalBlocksPlaced.Get(c) == t.stats.totalBlocksPlaced.Get(c)
    decreases |players|
  {
    if |players| > 0 {
      TallyLeavesAbsent(players[1..], TallyPlayer(players[0], t), c);
    }
  }

  /** With distinct colours, the colour of seat `i` ends with that seat's score,
      the larger of its old high score and that score, and its old block count
      plus the seat's placed blocks. */
  lemma {:induction false} TallySeat(players: seq<Player>, t: Tally, i: nat)
    requires DistinctColors(players) && i < |players|
    ensures var c := players[i].color;
            var r := TallyPlayers(players, t);
            && r.scores.Get(c) == Score(players[i])
            && r.stats.highScores.Get(c) == Max(t.stats.highScores.Get(c), Score(players[i]))
            && r.stats.totalBlocksPlaced.Get(c) == t.stats.totalBlocksPlaced.Get(c) + |players[i].placedBlocks|
    decreases |players|
  {
    var rest := players[1..];
    if i == 0 {
      forall j | 0 <= j < |rest| ensures rest[j].color != players[0].color {
        assert rest[j] == players[j + 1];
      }
      TallyLeavesAbsent(rest, TallyPlayer(players[0], t), players[0].color);
    } else {
      assert rest[i - 1] == players[i];
      assert players[0].color != players[i].color;
      TallySeat(rest, TallyPlayer(players[0], t), i - 1);
    }
  }

  /** `history.push(entry)` followed by one `shift` when more than ten are
      kept: the entry comes last, only the oldest entry can be dropped, and a
      history of at most ten stays at most ten. */
  function AppendBounded(history: seq<GameHistory>, entry: GameHistory): (h: seq<GameHistory>)
    ensures |h| > 0 && h[|h| - 1] == entry
    ensures |history| < HISTORY_LIMIT ==> h[..|h| - 1] == history
    ensures |history| >= HISTORY_LIMIT ==> h[..|h| - 1] == history[1..]
    ensures |h| == (if |history| < HISTORY_LIMIT then |history| + 1 else |history|)
  {
    var h := history + [entry];
    if |h| > HISTORY_LIMIT then h[1..] else h
  }

  /** The pure part of `updateGameStats(gameState)`, given the loaded statistics
      and history. */
  function UpdateGameStats(stats: GameStats, history: seq<GameHistory>, gs: GameState): (r: StatsUpdate)
    ensures r.stats.totalGames == stats.totalGames + 1
    ensures gs.winner.Some? ==> r.stats.wins.Get(gs.winner.value) == stats.wins.Get(gs.winner.value) + 1
    ensures forall c :: gs.winner != Some(c) ==> r.stats.wins.Get(c) == stats.wins.Get(c)
  {
    var counted := stats.(totalGames := stats.totalGames + 1);
    var t := TallyPlayers(gs.players, Tally(Zeros(), counted));
    var st := if gs.winner.Some? then
                t.stats.(wins := t.stats.wins.Set(gs.winner.value, t.stats.wins.Get(gs.winner.value) + 1))
              else t.stats;
    var entry := GameHistory(gs.winner, t.scores, |gs.players|);
    StatsUpdate(st, AppendBounded(history, entry))
  }

  /** Some seat has colour `c`. */
  predicate Playing(gs: GameState, c: Color) {
    exists i :: 0 <= i < |gs.players| && gs.players[i].color == c
  }

  /** The history gains the new game as its last entry, recording the winner,
      the seat count and each colour's score (zero for colours with no seat).
      Up to ten entries are kept: a history that already held ten loses only its
      oldest entry. */
  lemma UpdateHistory(stats: GameStats, history: seq<GameHistory>, gs: GameState)
    requires DistinctColors(gs.players)
    ensures var h := UpdateGameStats(stats, history, gs).history;
            && |h| > 0
            && h[|h| - 1].winner == gs.winner
            && h[|h| - 1].playerCount == |gs.players|
            && (forall i :: 0 <= i < |gs.players| ==> h[|h| - 1].scores.Get(gs.players[i].color) == Score(gs.players[i]))
            && (forall c :: !Playing(gs, c) ==> h[|h| - 1].scores.Get(c) == 0)
            && (|history| < HISTORY_LIMIT ==> h[..|h| - 1] == history)
            && (|history| >= HISTORY_LIMIT ==> h[..|h| - 1] == history[1..])
            && (|history| <= HISTORY_LIMIT ==> |h| == (if |history| + 1 < HISTORY_LIMIT then |history| + 1 else HISTORY_LIMIT))
  {
    var t := TallyPlayers(gs.players, Tally(Zeros(), stats.(totalGames := stats.totalGames + 1)));
    forall i | 0 <= i < |gs.players| ensures t.scores.Get(gs.players[i].color) == Score(gs.players[i]) {
      TallySeat(gs.players, Tally(Zeros(), stats.(totalGames := stats.totalGames + 1)), i);
    }
    forall c | !Playing(gs, c) ensures t.scores.Get(c) == 0 {
      TallyLeavesAbsent(gs.players, Tally(Zeros(), stats.(totalGames := stats.totalGames + 1)), c);
    }
  }

  /** Each seat's colour keeps the larger of its old high score and the seat's
      score; colours with no seat keep theirs. */
  lemma UpdateHighScores(stats: GameStats, history: seq<GameHistory>, gs: GameState)
    requires DistinctColors(gs.players)
    ensures var hs := UpdateGameStats(stats, history, gs).stats.highScores;
            && (forall i :: 0 <= i < |gs.players| ==>
                  hs.Get(gs.players[i].color) == Max(stats.highScores.Get(gs.players[i].color), Score(gs.players[i])))
            && (forall c :: !Playing(gs, c) ==> hs.Get(c) == stats.highScores.Get(c))
  {
    var t0 := Tally(Zeros(), stats.(totalGames := stats.totalGames + 1));
    var t := TallyPlayers(gs.players, t0);
    assert UpdateGameStats(stats, history, gs).stats.highScores == t.stats.highScores;
    forall i | 0 <= i < |gs.players| {
      TallySeat(gs.players, t0, i);
    }
    forall c | !Playing(gs, c) {
      TallyLeavesAbsent(gs.players, t0, c);
    }
  }

  /** Each seat's colour adds the seat's placed-block count to its total;
      colours with no seat keep theirs. */
  lemma UpdateBlocksPlaced(stats: GameStats, history: seq<GameHistory>, gs: GameState)
    requires DistinctColors(gs.players)
    ensures var tb := UpdateGameStats(stats, history, gs).stats.totalBlocksPlaced;
            && (forall i :: 0 <= i < |gs.players| ==>
                  tb.Get(gs.players[i].color) == stats.totalBlocksPlaced.Get(gs.players[i].color) + |gs.players[i].placedBlocks|)
            && (forall c :: !Playing(gs, c) ==> tb.Get(c) == stats.totalBlocksPlaced.Get(c))
  {
    var t0 := Tally(Zeros(), stats.(totalGames := stats.totalGames + 1));
    var t := TallyPlayers(gs.players, t0);
    assert UpdateGameStats(stats, history, gs).stats.totalBlocksPlaced == t.stats.totalBlocksPlaced;
    forall i | 0 <= i < |gs.players| {
      TallySeat(gs.players, t0, i);
    }
    forall c | !Playing(gs, c) {
      TallyLeavesAbsent(gs.players, t0, c);
    }
  }
}
