/** What area scoring counts: the maximal 4-connected regions of empty cells,
    the stone colours bordering each region, and the territory credited to a
    colour. The flood fill of `Game.GetScores` is proved to compute exactly this. */
module Regions {
  import opened Stones
  import opened Board

  /** `p` is an empty cell of the board. */
  predicate IsEmptyCell(g: Grid, n: nat, p: Pos)
    requires IsBoard(g, n)
  {
    InBounds(n, p) && At(g, p) == Empty
  }

  /** Every empty cell of the board. */
  function EmptyCells(g: Grid, n: nat): (r: set<Pos>)
    requires IsBoard(g, n)
    ensures forall p {:trigger p in r} :: p in r <==> IsEmptyCell(g, n, p)
  {
    set p {:trigger IsEmptyCell(g, n, p)} | p in Cells(n) && IsEmptyCell(g, n, p)
  }

  /** A walk over empty cells, each step to a 4-neighbour. */
  ghost predicate IsEmptyPath(g: Grid, n: nat, path: seq<Pos>)
    requires IsBoard(g, n)
  {
    && |path| >= 1
    && (forall i :: 0 <= i < |path| ==> IsEmptyCell(g, n, path[i]))
    && (forall i, j :: 0 <= i && j == i + 1 && j < |path| ==> Dist(path[i], path[j]) == 1)
  }

  /** `b` can be reached from `a` without leaving the empty cells. */
  ghost predicate Reaches(g: Grid, n: nat, a: Pos, b: Pos)
    requires IsBoard(g, n)
  {
    exists path {:trigger IsEmptyPath(g, n, path)} :: IsEmptyPath(g, n, path) && path[0] == a && path[|path| - 1] == b
  }

  /** The maximal 4-connected region of empty cells that contains `a`. */
  ghost function Region(g: Grid, n: nat, a: Pos): set<Pos>
    requires IsBoard(g, n)
  {
    set p {:trigger Reaches(g, n, a, p)} | p in Cells(n) && Reaches(g, n, a, p)
  }

  /** No empty neighbour of a member of `s` lies outside `s`. */
  ghost predicate Closed(g: Grid, n: nat, s: set<Pos>)
    requires IsBoard(g, n)
  {
    forall p, q {:trigger q in LibertyCoords(n, p)} ::
      p in s && q in LibertyCoords(n, p) && At(g, q) == Empty ==> q in s
  }

  /** No empty neighbour of a member of `s` lies outside both `s` and `t`. */
  ghost predicate ClosedBeside(g: Grid, n: nat, s: set<Pos>, t: set<Pos>)
    requires IsBoard(g, n)
  {
    forall p, q {:trigger q in LibertyCoords(n, p)} ::
      p in s && q in LibertyCoords(n, p) && At(g, q) == Empty ==> q in s || q in t
  }

  /** The colours of the stones on the cells of `qs`, gathered in order. */
  function ColoursAt(g: Grid, n: nat, qs: seq<Pos>): (r: set<Stone>)
    requires IsBoard(g, n)
    ensures r <= {Black, White}
  {
    if qs == [] then {}
    else
      var last := qs[|qs| - 1];
      ColoursAt(g, n, qs[..|qs| - 1]) + (if InBounds(n, last) && At(g, last) != Empty then {At(g, last)} else {})
  }

  /** The colours of the stones next to some cell of `s`. */
  ghost function BorderColours(g: Grid, n: nat, s: set<Pos>): (r: set<Stone>)
    requires IsBoard(g, n)
    ensures r <= {Black, White}
  {
    set p, q {:trigger q in LibertyCoords(n, p)} | p in s && q in LibertyCoords(n, p) && InBounds(n, q) && At(g, q) != Empty :: At(g, q)
  }

  /** The colour a region of empty cells is credited to: the single colour bordering
      it, or EMPTY when both colours or no stone at all border it. */
  ghost function OwnerOf(g: Grid, n: nat, s: set<Pos>): Stone
    requires IsBoard(g, n)
  {
    var b := BorderColours(g, n, s);
    if b == {Black} then Black else if b == {White} then White else Empty
  }

  /** The colour the region of the empty cell `p` is credited to. */
  ghost function Owner(g: Grid, n: nat, p: Pos): Stone
    requires IsBoard(g, n)
  {
    OwnerOf(g, n, Region(g, n, p))
  }

  /** The cells of `s` whose region is credited to colour `c`. */
  ghost function OwnedIn(g: Grid, n: nat, s: set<Pos>, c: Stone): (r: set<Pos>)
    requires IsBoard(g, n)
    ensures forall p {:trigger p in r} :: p in r <==> p in s && Owner(g, n, p) == c
  {
    set p {:trigger Owner(g, n, p)} | p in s && Owner(g, n, p) == c
  }

  /** The territory of colour `c`: the number of empty cells whose region is credited to `c`. */
  ghost function Territory(g: Grid, n: nat, c: Stone): nat
    requires IsBoard(g, n)
  {
    |OwnedIn(g, n, EmptyCells(g, n), c)|
  }

  // ---------------------------------------------------------------------------
  // Reachability

  lemma ReachesSelf(g: Grid, n: nat, a: Pos)
    requires IsBoard(g, n) && IsEmptyCell(g, n, a)
    ensures Reaches(g, n, a, a)
  {
    assert IsEmptyPath(g, n, [a]);
  }

  /** A walk to `p` extends to any empty neighbour of `p`. */
  lemma ReachesStep(g: Grid, n: nat, a: Pos, p: Pos, q: Pos)
    requires IsBoard(g, n) && Reaches(g, n, a, p)
    requires IsEmptyCell(g, n, q) && Dist(p, q) == 1
    ensures Reaches(g, n, a, q)
  {
    var path :| IsEmptyPath(g, n, path) && path[0] == a && path[|path| - 1] == p;
    var path' := path + [q];
    assert IsEmptyPath(g, n, path');
  }

  lemma ReachesSymmetric(g: Grid, n: nat, a: Pos, b: Pos)
    requires IsBoard(g, n) && Reaches(g, n, a, b)
    ensures Reaches(g, n, b, a)
  {
    var path :| IsEmptyPath(g, n, path) && path[0] == a && path[|path| - 1] == b;
    var back := seq(|path|, i requires 0 <= i < |path| => path[|path| - 1 - i]);
    forall i, j | 0 <= i && j == i + 1 && j < |back| ensures Dist(back[i], back[j]) == 1 {
      assert back[i] == path[|path| - 1 - i] && back[j] == path[|path| - 1 - j];
      assert Dist(path[|path| - 1 - j], path[|path| - 1 - i]) == 1;
    }
    assert IsEmptyPath(g, n, back);
  }

  lemma ReachesTransitive(g: Grid, n: nat, a: Pos, b: Pos, c: Pos)
    requires IsBoard(g, n) && Reaches(g, n, a, b) && Reaches(g, n, b, c)
    ensures Reaches(g, n, a, c)
  {
    var p1 :| IsEmptyPath(g, n, p1) && p1[0] == a && p1[|p1| - 1] == b;
    var p2 :| IsEmptyPath(g, n, p2) && p2[0] == b && p2[|p2| - 1] == c;
    var path := p1 + p2[1..];
    forall i, j | 0 <= i && j == i + 1 && j < |path| ensures Dist(path[i], path[j]) == 1 {
      if j < |p1| {
        assert path[i] == p1[i] && path[j] == p1[j];
      } else if j == |p1| {
        assert path[i] == p2[0] && path[j] == p2[1];
      } else {
        assert path[i] == p2[i - |p1| + 1] && path[j] == p2[j - |p1| + 1];
      }
    }
    assert IsEmptyPath(g, n, path);
  }

  /** A walk from a cell of a closed set of empty cells never leaves that set. */
  lemma {:induction false} ClosedContainsWalk(g: Grid, n: nat, s: set<Pos>, path: seq<Pos>, k: nat)
    requires IsBoard(g, n) && Closed(g, n, s)
    requires IsEmptyPath(g, n, path) && path[0] in s
    requires k < |path|
    ensures path[k] in s
  {
    if k > 0 {
      ClosedContainsWalk(g, n, s, path, k - 1);
      assert Dist(path[k - 1], path[k]) == 1;
      assert path[k] in LibertyCoords(n, path[k - 1]);
    }
  }

  /** A closed set of empty cells holding `a` holds the whole region of `a`. */
  lemma ClosedContainsRegion(g: Grid, n: nat, s: set<Pos>, a: Pos)
    requires IsBoard(g, n) && Closed(g, n, s) && a in s
    ensures Region(g, n, a) <= s
  {
    forall p | p in Region(g, n, a) ensures p in s {
      var path :| IsEmptyPath(g, n, path) && path[0] == a && path[|path| - 1] == p;
      ClosedContainsWalk(g, n, s, path, |path| - 1);
    }
  }

  /** Empty cells that are closed but for a closed set they do not meet are closed:
      an empty neighbour in that other set would pull the cell itself into it. */
  lemma ClosedApart(g: Grid, n: nat, s: set<Pos>, t: set<Pos>)
    requires IsBoard(g, n) && ClosedBeside(g, n, s, t) && Closed(g, n, t)
    requires s !! t && s <= EmptyCells(g, n)
    ensures Closed(g, n, s)
  {
    forall p, q | p in s && q in LibertyCoords(n, p) && At(g, q) == Empty ensures q in s {
      if q in t {
        NeighbourSymmetric(n, p, q);
        assert false;
      }
    }
  }

  /** A region holds only empty cells, holds its own seed, and is closed. */
  lemma RegionShape(g: Grid, n: nat, a: Pos)
    requires IsBoard(g, n) && IsEmptyCell(g, n, a)
    ensures a in Region(g, n, a)
    ensures Region(g, n, a) <= EmptyCells(g, n)
    ensures Closed(g, n, Region(g, n, a))
  {
    ReachesSelf(g, n, a);
    forall p | p in Region(g, n, a) ensures IsEmptyCell(g, n, p) {
      var path :| IsEmptyPath(g, n, path) && path[0] == a && path[|path| - 1] == p;
    }
    forall p, q | p in Region(g, n, a) && q in LibertyCoords(n, p) && At(g, q) == Empty
      ensures q in Region(g, n, a)
    {
      ReachesStep(g, n, a, p, q);
    }
  }

  /** A region takes in every empty neighbour of its cells. */
  lemma RegionStep(g: Grid, n: nat, a: Pos, p: Pos, q: Pos)
    requires IsBoard(g, n) && p in Region(g, n, a)
    requires q in LibertyCoords(n, p) && At(g, q) == Empty
    ensures q in Region(g, n, a)
  {
    ReachesStep(g, n, a, p, q);
  }

  /** Every cell of a region has that same region. */
  lemma RegionOfMember(g: Grid, n: nat, a: Pos, p: Pos)
    requires IsBoard(g, n) && p in Region(g, n, a)
    ensures Region(g, n, p) == Region(g, n, a)
  {
    ReachesSymmetric(g, n, a, p);
    forall q | q in Region(g, n, p) ensures q in Region(g, n, a) {
      ReachesTransitive(g, n, a, p, q);
    }
    forall q | q in Region(g, n, a) ensures q in Region(g, n, p) {
      ReachesTransitive(g, n, p, a, q);
    }
  }

  /** The whole region of an empty cell is credited to one colour: every cell of
      the region has the same owner as its seed. */
  lemma RegionOwnerUniform(g: Grid, n: nat, a: Pos, p: Pos)
    requires IsBoard(g, n) && p in Region(g, n, a)
    ensures Owner(g, n, p) == Owner(g, n, a)
  {
    RegionOfMember(g, n, a, p);
  }

  // ---------------------------------------------------------------------------
  // Colours met while flooding

  lemma ColoursAtSnoc(g: Grid, n: nat, qs: seq<Pos>, i: nat)
    requires IsBoard(g, n) && i < |qs| && InBounds(n, qs[i])
    ensures ColoursAt(g, n, qs[..i + 1])
         == ColoursAt(g, n, qs[..i]) + (if At(g, qs[i]) != Empty then {At(g, qs[i])} else {})
  {
    assert qs[..i + 1][..i] == qs[..i];
  }

  /** A colour is gathered from `qs` exactly when a stone of it stands on a cell of `qs`. */
  lemma {:induction false} ColoursAtMembers(g: Grid, n: nat, qs: seq<Pos>, c: Stone)
    requires IsBoard(g, n)
    ensures c in ColoursAt(g, n, qs) <==> exists q :: q in qs && InBounds(n, q) && At(g, q) != Empty && At(g, q) == c
    decreases |qs|
  {
    if qs != [] {
      var init := qs[..|qs| - 1];
      ColoursAtMembers(g, n, init, c);
      assert qs == init + [qs[|qs| - 1]];
    }
  }

  lemma BorderColoursAdd(g: Grid, n: nat, s: set<Pos>, p: Pos)
    requires IsBoard(g, n)
    ensures BorderColours(g, n, s + {p}) == BorderColours(g, n, s) + ColoursAt(g, n, LibertyCoords(n, p))
  {
    forall c ensures c in BorderColours(g, n, s + {p}) <==> c in BorderColours(g, n, s) || c in ColoursAt(g, n, LibertyCoords(n, p)) {
      ColoursAtMembers(g, n, LibertyCoords(n, p), c);
    }
  }

  // ---------------------------------------------------------------------------
  // Crediting

  /** Adding to `before` the new set `r` when `o` is `c`, and nothing otherwise,
      adds `|r|` exactly when `o` is `c`. */
  lemma CreditDisjoint<T>(before: set<T>, after: set<T>, done: set<T>, r: set<T>, o: Stone, c: Stone)
    requires before <= done && r !! done
    requires forall p :: p in after <==> p in before || (p in r && o == c)
    ensures |after| == |before| + if o == c then |r| else 0
  {
    if o == c {
      assert after == before + r;
    } else {
      assert after == before;
    }
  }

  /** Adding a whole region that was not yet counted adds its cell count to the
      colour it is credited to, and nothing to any other colour. */
  lemma RegionCredit(g: Grid, n: nat, done: set<Pos>, a: Pos, c: Stone)
    requires IsBoard(g, n) && IsEmptyCell(g, n, a)
    requires Region(g, n, a) !! done
    ensures |OwnedIn(g, n, done + Region(g, n, a), c)|
         == |OwnedIn(g, n, done, c)| + if Owner(g, n, a) == c then |Region(g, n, a)| else 0
  {
    var r := Region(g, n, a);
    var o := Owner(g, n, a);
    var before := OwnedIn(g, n, done, c);
    var after := OwnedIn(g, n, done + r, c);
    forall p ensures p in after <==> p in before || (p in r && o == c) {
      if p in r {
        RegionOwnerUniform(g, n, a, p);
      }
    }
    CreditDisjoint(before, after, done, r, o, c);
  }

  // ---------------------------------------------------------------------------
  // Totals

  /** A subset has no more elements than its superset. */
  lemma {:induction false} SubsetCard<T>(a: set<T>, b: set<T>)
    requires a <= b
    ensures |a| <= |b|
    decreases |a|
  {
    if a != {} {
      var x :| x in a;
      SubsetCard(a - {x}, b - {x});
    }
  }

  /** No cell is credited to both colours, so the two territories together cover at
      most the empty cells of the board. */
  lemma TerritoryBound(g: Grid, n: nat)
    requires IsBoard(g, n)
    ensures Territory(g, n, Black) + Territory(g, n, White) <= |EmptyCells(g, n)|
  {
    var b := OwnedIn(g, n, EmptyCells(g, n), Black);
    var w := OwnedIn(g, n, EmptyCells(g, n), White);
    assert b !! w;
    assert |b + w| == |b| + |w|;
    SubsetCard(b + w, EmptyCells(g, n));
  }

  /** On a board without stones no region borders a stone, so neither colour has
      territory. */
  lemma EmptyBoardNoTerritory(n: nat, c: Stone)
    requires c != Empty
    ensures Territory(EmptyBoard(n), n, c) == 0
  {
    var g := EmptyBoard(n);
    forall p | p in EmptyCells(g, n) ensures Owner(g, n, p) == Empty {
      var r := Region(g, n, p);
      assert BorderColours(g, n, r) == {};
    }
    assert OwnedIn(g, n, EmptyCells(g, n), c) == {};
  }
}
