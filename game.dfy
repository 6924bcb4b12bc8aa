/** The game session of `src/game.py`: the consecutive-pass counter, placing a
    stone and rolling it back when the group manager rejects the move, and the
    area-scoring flood fill. The group manager's own capture, suicide and ko
    analysis is not part of this model: its verdict on a move is an input. */
module GoGame {
  import opened Wrappers
  import opened Stones
  import opened Board
  import opened Regions

  /** The two ways the group manager rejects a move. */
  datatype RuleViolation = SelfDestruct | Ko

  /** What the group manager's `resolve_board` does with the stone just placed:
      `removed` are the stones it takes off the board and `blackTaken`/`whiteTaken`
      what it adds to the captured counts. Either the move stands, and `ko` is the
      bookkeeping `update_state` then commits; or it raises `violation` after those
      changes, and `update_state` is never reached. */
  datatype Resolution =
    | Resolved(removed: set<Pos>, blackTaken: nat, whiteTaken: nat, ko: Option<Pos>)
    | Violated(violation: RuleViolation, removed: set<Pos>, blackTaken: nat, whiteTaken: nat)

  /** The board after stone `s` is placed on `p` and the group manager resolves the
      move as `res`, with the caller's rollback of `p` when the move is rejected. */
  function AfterPlacement(g: Grid, n: nat, p: Pos, s: Stone, res: Resolution): (r: Grid)
    requires IsBoard(g, n) && InBounds(n, p)
    ensures IsBoard(r, n)
    ensures res.Resolved? ==> At(r, p) == if p in res.removed then Empty else s
    ensures res.Violated? ==> At(r, p) == Empty
    ensures forall q :: InBounds(n, q) && q != p ==> At(r, q) == if q in res.removed then Empty else At(g, q)
  {
    var resolved := RemoveAll(Place(g, n, p, s), n, res.removed);
    if res.Violated? then Place(resolved, n, p, Empty) else resolved
  }

  /** A rejected move leaves cell `p` EMPTY and every other cell as the group
      manager left it: the rollback restores nothing but the placed cell. */
  lemma RejectedMoveClearsOnlyPlacedCell(g: Grid, n: nat, p: Pos, s: Stone, res: Resolution)
    requires IsBoard(g, n) && InBounds(n, p) && res.Violated?
    ensures At(AfterPlacement(g, n, p, s, res), p) == Empty
    ensures forall q :: InBounds(n, q) && q != p ==>
      At(AfterPlacement(g, n, p, s, res), q) == if q in res.removed then Empty else At(g, q)
  {
  }

  /** When the group manager took nothing off the board before rejecting a move on
      an empty cell, the board is exactly what it was before the attempt. */
  lemma RejectedMoveRestoresBoard(g: Grid, n: nat, p: Pos, s: Stone, res: Resolution)
    requires IsBoard(g, n) && InBounds(n, p) && At(g, p) == Empty
    requires res.Violated? && res.removed == {}
    ensures AfterPlacement(g, n, p, s, res) == g
  {
    var r := AfterPlacement(g, n, p, s, res);
    forall i | 0 <= i < n ensures r[i] == g[i] {
      forall j | 0 <= j < n ensures r[i][j] == g[i][j] {
        assert At(r, Pos(i, j)) == At(g, Pos(i, j));
      }
    }
  }

  /** An accepted move that takes no stone off the board only places the stone. */
  lemma AcceptedMoveOnlyPlaces(g: Grid, n: nat, p: Pos, s: Stone, res: Resolution)
    requires IsBoard(g, n) && InBounds(n, p) && res.Resolved? && res.removed == {}
    ensures AfterPlacement(g, n, p, s, res) == Place(g, n, p, s)
  {
    var r := AfterPlacement(g, n, p, s, res);
    var placed := Place(g, n, p, s);
    forall i | 0 <= i < n ensures r[i] == placed[i] {
      forall j | 0 <= j < n ensures r[i][j] == placed[i][j] {
        assert At(r, Pos(i, j)) == At(placed, Pos(i, j));
      }
    }
  }

  /** Nothing checks that the cell was empty: a rejected move on an occupied cell
      leaves that cell EMPTY, so the stone that was there is lost. */
  lemma RejectedMoveOnOccupiedCellLosesStone(g: Grid, n: nat, p: Pos, s: Stone, res: Resolution)
    requires IsBoard(g, n) && InBounds(n, p) && At(g, p) != Empty && res.Violated?
    ensures AfterPlacement(g, n, p, s, res) != g
  {
    assert At(AfterPlacement(g, n, p, s, res), p) != At(g, p);
  }

  /** Every empty cell of the board is marked in `traversed` exactly when it is in `s`. */
  ghost predicate Marks(traversed: array2<bool>, g: Grid, n: nat, s: set<Pos>)
    requires IsBoard(g, n) && traversed.Length0 == n && traversed.Length1 == n
    reads traversed
  {
    forall p {:trigger IsEmptyCell(g, n, p)} :: IsEmptyCell(g, n, p) ==> (traversed[p.y, p.x] <==> p in s)
  }

  /** Every empty cell of the board is marked in `traversed` exactly when it is in
      `s` or in `t`. */
  ghost predicate MarksBeside(traversed: array2<bool>, g: Grid, n: nat, s: set<Pos>, t: set<Pos>)
    requires IsBoard(g, n) && traversed.Length0 == n && traversed.Length1 == n
    reads traversed
  {
    forall p {:trigger IsEmptyCell(g, n, p)} :: IsEmptyCell(g, n, p) ==> (traversed[p.y, p.x] <==> p in s || p in t)
  }

  /** What the flood fill knows about the colours `met` so far: `stone` is the first
      colour met, if any, and `isNeutral` says whether both colours were met. */
  predicate ColourState(stone: Option<Stone>, isNeutral: bool, met: set<Stone>)
  {
    && met <= {Black, White}
    && (stone.None? <==> met == {})
    && (stone.Some? ==> stone.value in met)
    && (isNeutral <==> Black in met && White in met)
  }

  /** Counting a new region as the flood fill reports it adds the region's size to the
      colour it is credited to, and nothing when it is neutral or borders no stone. */
  lemma TallyRegion(g: Grid, n: nat, done: set<Pos>, a: Pos, score: nat, stone: Option<Stone>)
    requires IsBoard(g, n) && IsEmptyCell(g, n, a) && Region(g, n, a) !! done
    requires stone.None? <==> BorderColours(g, n, Region(g, n, a)) == {}
    requires stone.Some? ==> stone.value == OwnerOf(g, n, Region(g, n, a))
    requires score == if stone == Some(Empty) then 0 else |Region(g, n, a)|
    ensures |OwnedIn(g, n, done + Region(g, n, a), Black)|
         == |OwnedIn(g, n, done, Black)| + if stone == Some(Black) then score else 0
    ensures |OwnedIn(g, n, done + Region(g, n, a), White)|
         == |OwnedIn(g, n, done, White)| + if stone == Some(White) then score else 0
  {
    var r := Region(g, n, a);
    RegionShape(g, n, a);
    var o := Owner(g, n, a);
    assert o == OwnerOf(g, n, r);
    if stone.None? {
      assert BorderColours(g, n, r) == {};
    }
    RegionCredit(g, n, done, a, Black);
    RegionCredit(g, n, done, a, White);
  }

  /** The flood fill's (score, stone) for the region of `a` credits colour `c` with
      exactly that region's gain. */
  lemma FloodGain(g: Grid, n: nat, a: Pos, score: nat, stone: Option<Stone>, c: Stone)
    requires IsBoard(g, n) && IsEmptyCell(g, n, a) && c != Empty
    requires stone.None? <==> BorderColours(g, n, Region(g, n, a)) == {}
    requires stone.Some? ==> stone.value == OwnerOf(g, n, Region(g, n, a))
    requires score == if stone == Some(Empty) then 0 else |Region(g, n, a)|
    ensures (if stone == Some(c) then score else 0) == Gain(g, n, a, c)
  {
    if Owner(g, n, a) == c {
      assert BorderColours(g, n, Region(g, n, a)) == {c};
    }
  }

  /** Adding a whole region to a closed set of empty cells keeps it closed. */
  lemma AbsorbRegion(g: Grid, n: nat, done: set<Pos>, a: Pos)
    requires IsBoard(g, n) && IsEmptyCell(g, n, a)
    requires done <= EmptyCells(g, n) && Closed(g, n, done)
    ensures a in done + Region(g, n, a)
    ensures done + Region(g, n, a) <= EmptyCells(g, n) && Closed(g, n, done + Region(g, n, a))
  {
    RegionShape(g, n, a);
  }

  /** The colour the flood fill reports for a set of bordering colours is the colour
      that set is credited to: EMPTY when both colours were met, else the one met. */
  lemma ColourStateOwner(stone: Option<Stone>, isNeutral: bool, met: set<Stone>)
    requires ColourState(stone, isNeutral, met) && stone.Some?
    ensures (if isNeutral then Empty else stone.value)
         == (if met == {Black} then Black else if met == {White} then White else Empty)
  {
    if !isNeutral {
      if stone.value == Black {
        assert White !in met;
        assert met == {Black};
      } else {
        assert Black !in met;
        assert met == {White};
      }
    }
  }

  /** Meeting a stone of colour `c` keeps the colour bookkeeping of the flood fill
      in step with the set of colours met. */
  lemma ColourStateMeet(stone: Option<Stone>, isNeutral: bool, met: set<Stone>, c: Stone)
    requires ColourState(stone, isNeutral, met) && c != Empty
    ensures var first := Some(FirstTruthy(stone, c));
            ColourState(first, isNeutral || first != Some(c), met + {c})
  {
  }

  class Game {
    /** The side of the square board. */
    const size: nat
    /** The board, row by row. */
    var board: Grid
    /** The number of consecutive passes. */
    var countPass: nat
    /** The number of captured black stones and of captured white stones. */
    var blackCaptured: nat
    var whiteCaptured: nat
    /** The group manager's ko bookkeeping, as last committed by `update_state`. */
    var koGuard: Option<Pos>

    ghost predicate Valid()
      reads this
    {
      IsBoard(board, size)
    }

    constructor (boardSize: nat)
      ensures Valid() && size == boardSize && board == EmptyBoard(boardSize)
      ensures countPass == 0 && blackCaptured == 0 && whiteCaptured == 0 && koGuard == None
    {
      size := boardSize;
      board := EmptyBoard(boardSize);
      countPass := 0;
      blackCaptured, whiteCaptured := 0, 0;
      koGuard := None;
    }

    /** Pass this turn. */
    method PassTurn()
      modifies this`countPass
      ensures countPass == old(countPass) + 1
    {
      countPass := countPass + 1;
    }

    /** The game is over after two consecutive passes. */
    function IsOver(): (r: bool)
      reads this
      ensures r <==> countPass >= 2
    {
      countPass >= 2
    }

    /** Both coordinates lie on the board. */
    function IsWithinBounds(y: int, x: int): (r: bool)
      reads this
      ensures r <==> 0 <= y < size && 0 <= x < size
    {
      InBounds(size, Pos(y, x))
    }

    /** Place `stone` at (y, x) and let the group manager resolve the move as `res`.
        Placing EMPTY does nothing. A rejected move takes the placed stone off again
        and raises the group manager's violation; an accepted one resets the pass
        counter and commits the group manager's state. */
    method PlaceStone(stone: Stone, y: int, x: int, res: Resolution) returns (raised: Option<RuleViolation>)
      requires Valid() && InBounds(size, Pos(y, x))
      modifies this
      ensures Valid()
      ensures stone == Empty ==> raised == None && unchanged(this)
      ensures stone != Empty ==>
        && board == AfterPlacement(old(board), size, Pos(y, x), stone, res)
        && blackCaptured == old(blackCaptured) + res.blackTaken
        && whiteCaptured == old(whiteCaptured) + res.whiteTaken
      ensures stone != Empty && res.Violated? ==>
        raised == Some(res.violation) && countPass == old(countPass) && koGuard == old(koGuard)
      ensures stone != Empty && res.Resolved? ==>
        raised == None && countPass == 0 && koGuard == res.ko
    {
      if stone == Empty {
        return None;
      }
      var p := Pos(y, x);
      board := Place(board, size, p, stone);
      // the group manager's resolve_board
      board := RemoveAll(board, size, res.removed);
      blackCaptured := blackCaptured + res.blackTaken;
      whiteCaptured := whiteCaptured + res.whiteTaken;
      match res
      case Violated(v, _, _, _) =>
        board := Place(board, size, p, Empty);
        return Some(v);
      case Resolved(_, _, _, ko) =>
        countPass := 0;
        // the group manager's update_state
        koGuard := ko;
        return None;
    }

    /** Place a black stone at (y, x). */
    method PlaceBlack(y: int, x: int, res: Resolution) returns (raised: Option<RuleViolation>)
      requires Valid() && InBounds(size, Pos(y, x))
      modifies this
      ensures Valid()
      ensures board == AfterPlacement(old(board), size, Pos(y, x), Black, res)
      ensures blackCaptured == old(blackCaptured) + res.blackTaken
      ensures whiteCaptured == old(whiteCaptured) + res.whiteTaken
      ensures res.Violated? ==> raised == Some(res.violation) && countPass == old(countPass) && koGuard == old(koGuard)
      ensures res.Resolved? ==> raised == None && countPass == 0 && koGuard == res.ko
    {
      raised := PlaceStone(Black, y, x, res);
    }

    /** Place a white stone at (y, x). */
    method PlaceWhite(y: int, x: int, res: Resolution) returns (raised: Option<RuleViolation>)
      requires Valid() && InBounds(size, Pos(y, x))
      modifies this
      ensures Valid()
      ensures board == AfterPlacement(old(board), size, Pos(y, x), White, res)
      ensures blackCaptured == old(blackCaptured) + res.blackTaken
      ensures whiteCaptured == old(whiteCaptured) + res.whiteTaken
      ensures res.Violated? ==> raised == Some(res.violation) && countPass == old(countPass) && koGuard == old(koGuard)
      ensures res.Resolved? ==> raised == None && countPass == 0 && koGuard == res.ko
    {
      raised := PlaceStone(White, y, x, res);
    }

    /** The score of each colour: the empty cells of the regions credited to it,
        less the number of its own stones that were captured. */
    method GetScores() returns (scores: map<Stone, int>)
      requires Valid()
      ensures scores.Keys == {Black, White}
      ensures scores[Black] == Territory(board, size, Black) - blackCaptured
      ensures scores[White] == Territory(board, size, White) - whiteCaptured
    {
      var counts := ScoreBoard(board, size);
      var black, white := counts[Black] - blackCaptured, counts[White] - whiteCaptured;
      scores := map[Black := black, White := white];
    }
  }

  /** The two nested loops of the scorer, from a `traversed` array with no cell
      marked: each colour's count is its territory. */
  method ScoreBoard(g: Grid, size: nat) returns (scores: map<Stone, int>)
    requires IsBoard(g, size)
    ensures scores.Keys == {Black, White}
    ensures scores[Black] == Territory(g, size, Black) && scores[White] == Territory(g, size, White)
  {
    var traversed := new bool[size, size]((_, _) => false);
    scores := map[Black := 0, White := 0];
    ghost var done: set<Pos> := {};
    var y := 0;
    while y < size
      invariant 0 <= y <= size
      invariant Marks(traversed, g, size, done)
      invariant Flooded(g, size, done)
      invariant ScannedUpTo(g, size, done, y, 0)
      invariant Tallied(g, size, done, scores)
    {
      scores, done := ScoreRow(g, size, traversed, y, scores, done);
      NextRow(g, size, done, y);
      y := y + 1;
    }
    AllScanned(g, size, done);
    assert scores.Keys == {Black, White};
  }

  /** The cells of `done` are empty and form whole regions. */
  ghost predicate Flooded(g: Grid, n: nat, done: set<Pos>)
    requires IsBoard(g, n)
  {
    done <= EmptyCells(g, n) && Closed(g, n, done)
  }

  /** Every empty cell before (y, x), row by row, is in `done`. */
  ghost predicate ScannedUpTo(g: Grid, n: nat, done: set<Pos>, y: int, x: int)
    requires IsBoard(g, n)
  {
    forall p {:trigger IsEmptyCell(g, n, p)} ::
      IsEmptyCell(g, n, p) && (p.y < y || (p.y == y && p.x < x)) ==> p in done
  }

  /** The scores count exactly the cells of `done` credited to each colour. */
  ghost predicate Tallied(g: Grid, n: nat, done: set<Pos>, scores: map<Stone, int>)
    requires IsBoard(g, n)
  {
    && scores.Keys == {Black, White}
    && scores[Black] == |OwnedIn(g, n, done, Black)|
    && scores[White] == |OwnedIn(g, n, done, White)|
  }

  /** A finished row is the start of the next one. */
  lemma NextRow(g: Grid, n: nat, done: set<Pos>, y: int)
    requires IsBoard(g, n) && ScannedUpTo(g, n, done, y, n)
    ensures ScannedUpTo(g, n, done, y + 1, 0)
  {
  }

  /** Once every row is scanned, the flooded cells are all the empty cells. */
  lemma AllScanned(g: Grid, n: nat, done: set<Pos>)
    requires IsBoard(g, n) && Flooded(g, n, done) && ScannedUpTo(g, n, done, n, 0)
    ensures done == EmptyCells(g, n)
  {
  }

  /** One pass of the scorer's inner loop: row `y`, left to right, flooding from each
      empty cell not yet marked and crediting its region. */
  method ScoreRow(g: Grid, size: nat, traversed: array2<bool>, y: int, scores: map<Stone, int>, ghost done: set<Pos>)
    returns (scores': map<Stone, int>, ghost done': set<Pos>)
    requires IsBoard(g, size) && 0 <= y < size
    requires traversed.Length0 == size && traversed.Length1 == size
    requires Marks(traversed, g, size, done) && Flooded(g, size, done)
    requires ScannedUpTo(g, size, done, y, 0) && Tallied(g, size, done, scores)
    modifies traversed
    ensures Marks(traversed, g, size, done') && Flooded(g, size, done')
    ensures ScannedUpTo(g, size, done', y, size) && Tallied(g, size, done', scores')
  {
    scores', done' := scores, done;
    var x := 0;
    while x < size
      invariant 0 <= x <= size
      invariant Marks(traversed, g, size, done') && Flooded(g, size, done')
      invariant ScannedUpTo(g, size, done', y, x) && Tallied(g, size, done', scores')
    {
      scores', done' := ScoreCell(g, size, traversed, y, x, scores', done');
      x := x + 1;
    }
  }

  /** The body of the scorer's inner loop at cell (y, x): when the cell is empty and not
      yet marked, flood its region and credit it to the colour that owns it. */
  method ScoreCell(g: Grid, size: nat, traversed: array2<bool>, y: int, x: int,
                   scores: map<Stone, int>, ghost done: set<Pos>)
    returns (scores': map<Stone, int>, ghost done': set<Pos>)
    requires IsBoard(g, size) && 0 <= y < size && 0 <= x < size
    requires traversed.Length0 == size && traversed.Length1 == size
    requires Marks(traversed, g, size, done) && Flooded(g, size, done)
    requires ScannedUpTo(g, size, done, y, x) && Tallied(g, size, done, scores)
    modifies traversed
    ensures Marks(traversed, g, size, done') && Flooded(g, size, done')
    ensures ScannedUpTo(g, size, done', y, x + 1) && Tallied(g, size, done', scores')
  {
    if !traversed[y, x] && g[y][x] == Empty {
      scores', done' := ScoreRegion(g, size, traversed, y, x, scores, done);
    } else {
      scores', done' := scores, done;
    }
  }

  /** What crediting the region of the empty cell `a` adds to colour `c`'s score:
      the region's size when it is credited to `c`, otherwise nothing. */
  ghost function Gain(g: Grid, n: nat, a: Pos, c: Stone): nat
    requires IsBoard(g, n)
  {
    if Owner(g, n, a) == c then |Region(g, n, a)| else 0
  }

  /** Floods the region of the untraversed empty cell (y, x) and credits it. */
  method ScoreRegion(g: Grid, size: nat, traversed: array2<bool>, y: int, x: int,
                     scores: map<Stone, int>, ghost done: set<Pos>)
    returns (scores': map<Stone, int>, ghost done': set<Pos>)
    requires IsBoard(g, size) && 0 <= y < size && 0 <= x < size
    requires traversed.Length0 == size && traversed.Length1 == size
    requires !traversed[y, x] && g[y][x] == Empty
    requires Marks(traversed, g, size, done) && Flooded(g, size, done)
    requires ScannedUpTo(g, size, done, y, x) && Tallied(g, size, done, scores)
    modifies traversed
    ensures Marks(traversed, g, size, done') && Flooded(g, size, done')
    ensures ScannedUpTo(g, size, done', y, x + 1) && Tallied(g, size, done', scores')
    ensures done' == done + Region(g, size, Pos(y, x))
    ensures scores'[Black] == scores[Black] + Gain(g, size, Pos(y, x), Black)
    ensures scores'[White] == scores[White] + Gain(g, size, Pos(y, x), White)
  {
    var start := Pos(y, x);
    ghost var region := Region(g, size, start);
    var score, stone := Traverse(g, size, traversed, y, x, done);
    TalliedStep(g, size, done, start, scores, score, stone);
    FloodGain(g, size, start, score, stone, Black);
    FloodGain(g, size, start, score, stone, White);
    AbsorbRegion(g, size, done, start);
    ScannedStep(g, size, done, region, y, x);
    done' := done + region;
    scores' := Credit(scores, stone, score);
  }

  /** Once the cell (y, x) is flooded, the scan has passed it. */
  lemma ScannedStep(g: Grid, n: nat, done: set<Pos>, s: set<Pos>, y: int, x: int)
    requires IsBoard(g, n) && ScannedUpTo(g, n, done, y, x) && Pos(y, x) in s
    ensures ScannedUpTo(g, n, done + s, y, x + 1)
  {
  }

  /** Crediting the flood fill's (score, stone) for a new region keeps the scores
      equal to the credited cells of the flooded set. */
  lemma TalliedStep(g: Grid, n: nat, done: set<Pos>, a: Pos, scores: map<Stone, int>, score: nat, stone: Option<Stone>)
    requires IsBoard(g, n) && IsEmptyCell(g, n, a) && Region(g, n, a) !! done
    requires stone.None? <==> BorderColours(g, n, Region(g, n, a)) == {}
    requires stone.Some? ==> stone.value == OwnerOf(g, n, Region(g, n, a))
    requires score == if stone == Some(Empty) then 0 else |Region(g, n, a)|
    requires Tallied(g, n, done, scores)
    ensures Tallied(g, n, done + Region(g, n, a), Credit(scores, stone, score))
  {
    TallyRegion(g, n, done, a, score, stone);
  }

  /** `scores[stone] += score` for a flood fill that ended on a colour; no change when
      it met no stone or ended neutral. */
  function Credit(scores: map<Stone, int>, stone: Option<Stone>, score: int): (r: map<Stone, int>)
    requires scores.Keys == {Black, White}
    ensures r.Keys == {Black, White}
    ensures r[Black] == scores[Black] + if stone == Some(Black) then score else 0
    ensures r[White] == scores[White] + if stone == Some(White) then score else 0
  {
    if stone.Some? && stone.value != Empty then
      assert stone.value.Black? || stone.value.White?;
      scores[stone.value := scores[stone.value] + score]
    else scores
  }


  /** The flood fill from the untraversed empty cell (y, x): it marks the cell's
      whole region in `traversed` and reports the region's size and colour, or
      (0, EMPTY) when both colours border it. `done` are the empty cells marked
      before. */
  method Traverse(g: Grid, size: nat, traversed: array2<bool>, y: int, x: int, ghost done: set<Pos>)
    returns (score: nat, stone: Option<Stone>)
    requires IsBoard(g, size)
    requires traversed.Length0 == size && traversed.Length1 == size
    requires IsEmptyCell(g, size, Pos(y, x))
    requires Marks(traversed, g, size, done) && Pos(y, x) !in done
    requires done <= EmptyCells(g, size) && Closed(g, size, done)
    modifies traversed
    ensures Marks(traversed, g, size, done + Region(g, size, Pos(y, x)))
    ensures Region(g, size, Pos(y, x)) !! done
    ensures stone.None? <==> BorderColours(g, size, Region(g, size, Pos(y, x))) == {}
    ensures stone.Some? ==> stone.value == OwnerOf(g, size, Region(g, size, Pos(y, x)))
    ensures score == if stone == Some(Empty) then 0 else |Region(g, size, Pos(y, x))|
  {
    var start := Pos(y, x);
    ghost var region := Region(g, size, start);
    RegionShape(g, size, start);
    var count, isNeutral;
    ghost var visited;
    count, stone, isNeutral, visited := Flood(g, size, traversed, start, done, region);
    ClosedApart(g, size, visited, done);
    ClosedContainsRegion(g, size, visited, start);
    assert visited == region;
    if stone.Some? {
      ColourStateOwner(stone, isNeutral, BorderColours(g, size, visited));
    }
    if isNeutral {
      return 0, Some(Empty);
    }
    return count, stone;
  }

  /** The flood fill's stack discipline: the cells reached are those processed and
      those still on the stack. */
  ghost predicate Stacked(search: seq<Pos>, processed: set<Pos>, visited: set<Pos>)
  {
    && (forall v :: v in search ==> v in visited)
    && processed <= visited
    && (forall v :: v in visited ==> v in processed || v in search)
  }

  /** Every empty neighbour of a processed cell has been reached, now or before. */
  ghost predicate Explored(g: Grid, size: nat, processed: set<Pos>, visited: set<Pos>, done: set<Pos>)
    requires IsBoard(g, size)
  {
    forall p, q {:trigger q in LibertyCoords(size, p)} ::
      p in processed && q in LibertyCoords(size, p) && At(g, q) == Empty ==> q in visited || q in done
  }

  /** From (`search`, `visited`) to (`search'`, `visited'`) the stack only grew, by
      cells newly reached. */
  ghost predicate Grown(search: seq<Pos>, visited: set<Pos>, search': seq<Pos>, visited': set<Pos>)
  {
    && (forall v :: v in search ==> v in search')
    && (forall v :: v in search' ==> v in search || v in visited')
    && (forall v :: v in visited' ==> v in visited || v in search')
  }

  /** Two growth steps make one. */
  lemma GrownTrans(s0: seq<Pos>, v0: set<Pos>, s1: seq<Pos>, v1: set<Pos>, s2: seq<Pos>, v2: set<Pos>)
    requires v0 <= v1 <= v2 && Grown(s0, v0, s1, v1) && Grown(s1, v1, s2, v2)
    ensures Grown(s0, v0, s2, v2)
  {
  }

  /** Taking the last element off a stack keeps every other element on it. */
  lemma PopMembers(s: seq<Pos>)
    requires s != []
    ensures forall v :: v in s ==> v == s[|s| - 1] || v in s[..|s| - 1]
  {
    assert s == s[..|s| - 1] + [s[|s| - 1]];
  }

  /** The loop of the flood fill: a depth-first search from `start` over the empty
      cells not yet marked, marking each cell it reaches and every neighbour it
      looks at, and recording the colours of the stones it meets. `region` is any
      closed set of empty cells holding `start`; the cells reached stay inside it. */
  method Flood(g: Grid, size: nat, traversed: array2<bool>, start: Pos, ghost done: set<Pos>, ghost region: set<Pos>)
    returns (count: nat, stone: Option<Stone>, isNeutral: bool, ghost visited: set<Pos>)
    requires IsBoard(g, size)
    requires traversed.Length0 == size && traversed.Length1 == size
    requires IsEmptyCell(g, size, start)
    requires Marks(traversed, g, size, done) && start !in done
    requires start in region && region <= EmptyCells(g, size) && Closed(g, size, region)
    modifies traversed
    ensures MarksBeside(traversed, g, size, done, visited)
    ensures start in visited && visited <= region && visited !! done
    ensures ClosedBeside(g, size, visited, done)
    ensures count == |visited|
    ensures ColourState(stone, isNeutral, BorderColours(g, size, visited))
  {
    traversed[start.y, start.x] := true;
    var search := [start];
    stone := None;
    count := 1;
    isNeutral := false;
    visited := {start};
    ghost var processed: set<Pos> := {};

    while search != []
      invariant MarksBeside(traversed, g, size, done, visited)
      invariant start in visited && visited <= region && visited !! done
      invariant Stacked(search, processed, visited)
      invariant Explored(g, size, processed, visited, done)
      invariant count == |visited|
      invariant ColourState(stone, isNeutral, BorderColours(g, size, processed))
      decreases |region| - count, |search|
    {
      SubsetCard(visited, region);
      search, count, stone, isNeutral, visited, processed :=
        FloodStep(g, size, traversed, done, region, search, count, stone, isNeutral, visited, processed);
    }
    assert processed == visited;
  }

  /** One turn of the flood fill's loop: take the top cell off the stack, look at
      its neighbours, and count it as processed. */
  method FloodStep(g: Grid, size: nat, traversed: array2<bool>, ghost done: set<Pos>, ghost region: set<Pos>,
                   search: seq<Pos>, count: nat, stone: Option<Stone>, isNeutral: bool,
                   ghost visited: set<Pos>, ghost processed: set<Pos>)
    returns (search': seq<Pos>, count': nat, stone': Option<Stone>, isNeutral': bool,
             ghost visited': set<Pos>, ghost processed': set<Pos>)
    requires IsBoard(g, size)
    requires traversed.Length0 == size && traversed.Length1 == size
    requires region <= EmptyCells(g, size) && Closed(g, size, region)
    requires search != []
    requires MarksBeside(traversed, g, size, done, visited)
    requires visited <= region && visited !! done
    requires Stacked(search, processed, visited)
    requires Explored(g, size, processed, visited, done)
    requires count == |visited|
    requires ColourState(stone, isNeutral, BorderColours(g, size, processed))
    modifies traversed
    ensures MarksBeside(traversed, g, size, done, visited')
    ensures visited <= visited' <= region && visited' !! done
    ensures Stacked(search', processed', visited')
    ensures Explored(g, size, processed', visited', done)
    ensures count' == |visited'|
    ensures ColourState(stone', isNeutral', BorderColours(g, size, processed'))
    ensures count <= count' && (count' == count ==> |search'| < |search|)
  {
    var p := search[|search| - 1];
    var rest := search[..|search| - 1];
    BorderColoursAdd(g, size, processed, p);
    var neighbours := LibertyCoords(size, p);
    search', count', stone', isNeutral', visited' :=
      VisitNeighbours(g, size, traversed, neighbours, done, region, rest, count, stone, isNeutral, visited,
                      BorderColours(g, size, processed));
    processed' := processed + {p};
    StackedStep(search, processed, visited, search', visited');
    ExploredStep(g, size, processed, visited, visited', done, p);
  }

  /** Popping the top cell, processing it and pushing newly reached cells keeps the
      stack discipline. */
  lemma StackedStep(search: seq<Pos>, processed: set<Pos>, visited: set<Pos>, search': seq<Pos>, visited': set<Pos>)
    requires search != [] && Stacked(search, processed, visited)
    requires visited <= visited' && Grown(search[..|search| - 1], visited, search', visited')
    ensures Stacked(search', processed + {search[|search| - 1]}, visited')
  {
    PopMembers(search);
  }

  /** Once every empty neighbour of `p` has been reached, `p` counts as explored. */
  lemma ExploredStep(g: Grid, size: nat, processed: set<Pos>, visited: set<Pos>, visited': set<Pos>,
                     done: set<Pos>, p: Pos)
    requires IsBoard(g, size)
    requires Explored(g, size, processed, visited, done) && visited <= visited'
    requires forall q :: q in LibertyCoords(size, p) && IsEmptyCell(g, size, q) ==> q in visited' || q in done
    ensures Explored(g, size, processed + {p}, visited', done)
  {
    forall a, q | a in processed + {p} && q in LibertyCoords(size, a) && At(g, q) == Empty
      ensures q in visited' || q in done
    {
      if a == p {
        assert IsEmptyCell(g, size, q);
      }
    }
  }

  /** One step of the flood fill: look at each of the `neighbours` of the cell just
      taken off the stack. `met` are the colours met so far; the empty neighbours
      all lie in `region`. */
  method VisitNeighbours(g: Grid, size: nat, traversed: array2<bool>, neighbours: seq<Pos>, ghost done: set<Pos>,
                         ghost region: set<Pos>, search: seq<Pos>, count: nat, stone: Option<Stone>,
                         isNeutral: bool, ghost visited: set<Pos>, ghost met: set<Stone>)
    returns (search': seq<Pos>, count': nat, stone': Option<Stone>, isNeutral': bool, ghost visited': set<Pos>)
    requires IsBoard(g, size)
    requires traversed.Length0 == size && traversed.Length1 == size
    requires forall k :: 0 <= k < |neighbours| ==> InBounds(size, neighbours[k])
    requires forall q :: q in neighbours && IsEmptyCell(g, size, q) ==> q in region
    requires MarksBeside(traversed, g, size, done, visited)
    requires visited <= region && visited !! done
    requires count == |visited|
    requires ColourState(stone, isNeutral, met)
    modifies traversed
    ensures MarksBeside(traversed, g, size, done, visited')
    ensures visited <= visited' <= region && visited' !! done
    ensures count' == |visited'|
    ensures Grown(search, visited, search', visited')
    ensures forall q :: q in neighbours && IsEmptyCell(g, size, q) ==> q in visited' || q in done
    ensures ColourState(stone', isNeutral', met + ColoursAt(g, size, neighbours))
    ensures count <= count' && (count' == count ==> search' == search)
  {
    search', count', stone', isNeutral', visited' := search, count, stone, isNeutral, visited;
    ghost var seen := met;
    var i := 0;
    while i < |neighbours|
      invariant 0 <= i <= |neighbours|
      invariant MarksBeside(traversed, g, size, done, visited')
      invariant visited <= visited' <= region && visited' !! done
      invariant count' == |visited'|
      invariant Grown(search, visited, search', visited')
      invariant Reached(g, size, neighbours, i, visited', done)
      invariant seen == met + ColoursAt(g, size, neighbours[..i])
      invariant ColourState(stone', isNeutral', seen)
      invariant count <= count' && (count' == count ==> search' == search)
    {
      ColoursAtSnoc(g, size, neighbours, i);
      ghost var search0, visited0 := search', visited';
      search', count', stone', isNeutral', visited', seen :=
        VisitLiberty(g, size, traversed, neighbours[i], done, region, search', count', stone', isNeutral', visited', seen);
      GrownTrans(search, visited, search0, visited0, search', visited');
      ReachedStep(g, size, neighbours, i, visited0, visited', done);
      i := i + 1;
    }
    assert neighbours[..i] == neighbours;
    ReachedAll(g, size, neighbours, visited', done);
  }

  /** Every empty cell among the first `i` neighbours has been reached. */
  ghost predicate Reached(g: Grid, size: nat, neighbours: seq<Pos>, i: nat, visited: set<Pos>, done: set<Pos>)
    requires IsBoard(g, size) && i <= |neighbours|
  {
    forall k :: 0 <= k < i && IsEmptyCell(g, size, neighbours[k]) ==> neighbours[k] in visited || neighbours[k] in done
  }

  /** Reaching the next neighbour extends what has been reached. */
  lemma ReachedStep(g: Grid, size: nat, neighbours: seq<Pos>, i: nat, visited: set<Pos>, visited': set<Pos>,
                    done: set<Pos>)
    requires IsBoard(g, size) && i < |neighbours|
    requires Reached(g, size, neighbours, i, visited, done) && visited <= visited'
    requires IsEmptyCell(g, size, neighbours[i]) ==> neighbours[i] in visited' || neighbours[i] in done
    ensures Reached(g, size, neighbours, i + 1, visited', done)
  {
  }

  /** When all neighbours are looked at, each empty one has been reached. */
  lemma ReachedAll(g: Grid, size: nat, neighbours: seq<Pos>, visited: set<Pos>, done: set<Pos>)
    requires IsBoard(g, size) && Reached(g, size, neighbours, |neighbours|, visited, done)
    ensures forall q :: q in neighbours && IsEmptyCell(g, size, q) ==> q in visited || q in done
  {
    forall q | q in neighbours && IsEmptyCell(g, size, q) ensures q in visited || q in done {
      var k :| 0 <= k < |neighbours| && neighbours[k] == q;
    }
  }

  /** The body of the flood fill's inner loop, for the neighbour `q`: note the colour
      of a stone on it; push it when it is empty and not marked; mark it. */
  method VisitLiberty(g: Grid, size: nat, traversed: array2<bool>, q: Pos, ghost done: set<Pos>,
                      ghost region: set<Pos>, search: seq<Pos>, count: nat, stone: Option<Stone>,
                      isNeutral: bool, ghost visited: set<Pos>, ghost seen: set<Stone>)
    returns (search': seq<Pos>, count': nat, stone': Option<Stone>, isNeutral': bool, ghost visited': set<Pos>,
             ghost seen': set<Stone>)
    requires IsBoard(g, size) && InBounds(size, q)
    requires traversed.Length0 == size && traversed.Length1 == size
    requires IsEmptyCell(g, size, q) ==> q in region
    requires MarksBeside(traversed, g, size, done, visited)
    requires visited <= region && visited !! done
    requires count == |visited|
    requires ColourState(stone, isNeutral, seen)
    modifies traversed
    ensures MarksBeside(traversed, g, size, done, visited')
    ensures visited <= visited' <= region && visited' !! done
    ensures count' == |visited'|
    ensures Grown(search, visited, search', visited')
    ensures IsEmptyCell(g, size, q) ==> q in visited' || q in done
    ensures seen' == seen + if At(g, q) != Empty then {At(g, q)} else {}
    ensures ColourState(stone', isNeutral', seen')
    ensures count <= count' && (count' == count ==> search' == search)
  {
    search', count', stone', isNeutral', visited', seen' := search, count, stone, isNeutral, visited, seen;
    var thisStone := g[q.y][q.x];
    assert IsEmptyCell(g, size, q) <==> thisStone == Empty;
    if thisStone != Empty {
      ColourStateMeet(stone', isNeutral', seen', thisStone);
      stone' := Some(FirstTruthy(stone', thisStone));
      if stone' != Some(thisStone) {
        isNeutral' := true;
      }
      seen' := seen' + {thisStone};
    }
    if !traversed[q.y, q.x] && thisStone == Empty {
      count' := count' + 1;
      search' := search' + [q];
      visited' := visited' + {q};
    }
    traversed[q.y, q.x] := true;
  }
}
