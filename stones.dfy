/** The stone encoding and the small helpers of `src/utils.py`. */
module Stones {
  import opened Wrappers

  /** A cell of the board: no stone, a black stone or a white stone. */
  datatype Stone = Empty | Black | White

  /** The integer each stone constant stands for (EMPTY = 0, BLACK = 1, WHITE = 2).
      EMPTY being 0 makes it the only falsy stone in a Python boolean context. */
  function Code(s: Stone): (r: int)
    ensures 0 <= r <= 2
    ensures r == 0 <==> s == Empty
  {
    match s
    case Empty => 0
    case Black => 1
    case White => 2
  }

  /** The three stone constants are pairwise distinct. */
  lemma CodeInjective(a: Stone, b: Stone)
    requires Code(a) == Code(b)
    ensures a == b
  {
  }

  /** Python's `a or b` where `a` is `None` or a stone and `b` a stone: `a` when it is
      truthy (a stone whose code is not 0), otherwise `b`. The flood fill of the scorer
      writes `stone = stone or this_stone` to remember the first colour it met. */
  function FirstTruthy(a: Option<Stone>, b: Stone): (r: Stone)
    ensures a.Some? && a.value != Empty ==> r == a.value
    ensures a.None? || a.value == Empty ==> r == b
    ensures b != Empty ==> r != Empty
  {
    if a.Some? && Code(a.value) != 0 then a.value else b
  }

  /** A drawing colour as an RGB triple. */
  datatype Rgb = Rgb(red: int, green: int, blue: int)

  /** The colour a stone is drawn with; an empty cell has none. */
  function GetColor(s: Stone): (r: Option<Rgb>)
    ensures r.None? <==> s == Empty
    ensures s == Black ==> r == Some(Rgb(0, 0, 0))
    ensures s == White ==> r == Some(Rgb(255, 255, 255))
  {
    match s
    case Black => Some(Rgb(0, 0, 0))
    case White => Some(Rgb(255, 255, 255))
    case Empty => None
  }

  /** The stone of the other player. The source asserts its argument is not EMPTY. */
  function GetOppositeStone(s: Stone): (r: Stone)
    requires s != Empty
    ensures r != Empty && r != s
  {
    if s == Black then White else Black
  }

  /** Taking the opposite twice gives the stone back. */
  lemma OppositeIsInvolution(s: Stone)
    requires s != Empty
    ensures GetOppositeStone(GetOppositeStone(s)) == s
  {
  }

  /** An `h` by `w` table whose every cell holds `d` (the value the source's
      `default()` thunk produces). */
  function Make2DArray<T>(h: nat, w: nat, d: T): (r: seq<seq<T>>)
    ensures |r| == h
    ensures forall i :: 0 <= i < h ==> |r[i]| == w
    ensures forall i, j :: 0 <= i < h && 0 <= j < w ==> r[i][j] == d
  {
    seq(h, _ => seq(w, _ => d))
  }
}
