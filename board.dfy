/** The square grid the game is played on, with the geometric queries and the
    cell writes the game relies on. The board's own implementation is not part of
    this model: these are the abstract grid operations it is used through. */
module Board {
  import opened Stones

  /** A (row, column) coordinate. */
  datatype Pos = Pos(y: int, x: int)

  type Grid = seq<seq<Stone>>

  /** `g` is an `n` by `n` grid. */
  predicate IsBoard(g: Grid, n: nat)
  {
    |g| == n && forall i :: 0 <= i < n ==> |g[i]| == n
  }

  /** Both coordinates lie in [0, n). */
  predicate InBounds(n: int, p: Pos)
  {
    0 <= p.y < n && 0 <= p.x < n
  }

  function Abs(a: int): nat
  {
    if a < 0 then -a else a
  }

  /** Manhattan distance. */
  function Dist(p: Pos, q: Pos): nat
  {
    Abs(p.y - q.y) + Abs(p.x - q.x)
  }

  /** The stone on cell `p`. */
  function At(g: Grid, p: Pos): Stone
    requires 0 <= p.y < |g| && 0 <= p.x < |g[p.y]|
  {
    g[p.y][p.x]
  }

  /** Every cell of an `n` by `n` board. */
  function Cells(n: nat): (r: set<Pos>)
    ensures forall p {:trigger p in r} :: p in r <==> InBounds(n, p)
  {
    var s := set y, x | 0 <= y < n && 0 <= x < n :: Pos(y, x);
    assert forall p :: InBounds(n, p) ==> Pos(p.y, p.x) in s;
    s
  }

  /** The board of a new game: every cell EMPTY. */
  function EmptyBoard(n: nat): (r: Grid)
    ensures IsBoard(r, n)
    ensures forall p :: InBounds(n, p) ==> At(r, p) == Empty
  {
    Make2DArray(n, n, Empty)
  }

  /** The board with stone `s` written into cell `p` (placing a stone, or removing
      one when `s` is EMPTY). Nothing else changes. */
  function Place(g: Grid, n: nat, p: Pos, s: Stone): (r: Grid)
    requires IsBoard(g, n) && InBounds(n, p)
    ensures IsBoard(r, n)
    ensures At(r, p) == s
    ensures forall q :: InBounds(n, q) && q != p ==> At(r, q) == At(g, q)
  {
    g[p.y := g[p.y][p.x := s]]
  }

  /** The board with every stone on a cell of `removed` taken off. */
  function RemoveAll(g: Grid, n: nat, removed: set<Pos>): (r: Grid)
    requires IsBoard(g, n)
    ensures IsBoard(r, n)
    ensures forall q :: InBounds(n, q) ==> At(r, q) == if q in removed then Empty else At(g, q)
  {
    seq(n, i requires 0 <= i < n => seq(n, j requires 0 <= j < n => if Pos(i, j) in removed then Empty else g[i][j]))
  }

  /** The positions of `ps` that lie on an `n` by `n` board, in order. */
  function KeepInBounds(n: nat, ps: seq<Pos>): (r: seq<Pos>)
    ensures forall q :: q in r <==> q in ps && InBounds(n, q)
  {
    if ps == [] then []
    else (if InBounds(n, ps[0]) then [ps[0]] else []) + KeepInBounds(n, ps[1..])
  }

  /** The in-bounds 4-neighbours of `p`: up, down, left, right. */
  function LibertyCoords(n: nat, p: Pos): (r: seq<Pos>)
    ensures forall q :: q in r <==> InBounds(n, q) && Dist(p, q) == 1
    ensures forall k :: 0 <= k < |r| ==> InBounds(n, r[k]) && Dist(p, r[k]) == 1
  {
    var around := [Pos(p.y - 1, p.x), Pos(p.y + 1, p.x), Pos(p.y, p.x - 1), Pos(p.y, p.x + 1)];
    assert forall q :: Dist(p, q) == 1 ==> q in around by {
      forall q | Dist(p, q) == 1 ensures q in around {
        if q.y == p.y - 1 { assert q == around[0]; }
        else if q.y == p.y + 1 { assert q == around[1]; }
        else if q.x == p.x - 1 { assert q == around[2]; }
        else { assert q == around[3]; }
      }
    }
    KeepInBounds(n, around)
  }

  /** Adjacency is symmetric: `p` is among the neighbours of each of its neighbours. */
  lemma NeighbourSymmetric(n: nat, p: Pos, q: Pos)
    requires InBounds(n, p) && q in LibertyCoords(n, p)
    ensures p in LibertyCoords(n, q)
  {
  }
}
