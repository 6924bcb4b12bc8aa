/** The parts of the terminal front end that do not talk to the player: reading a
    move typed as "y x" or "pass", checking it against the board, finding the
    empty cell nearest to a point, and handing the turn over. */
module GameUI {
  import opened Wrappers
  import opened Stones
  import opened Board
  import opened Regions
  import opened GoGame

  /** Why a typed move could not be read. `InvalidInput` is the front end's own
      exception; `UnpackError` is the failure to split the input into exactly two
      labels; `OrdError` is the failure of `ord` on a label longer than one letter. */
  datatype InputError = InvalidInput | UnpackError | OrdError

  /* ---------- Characters (ASCII classification) ---------- */

  predicate IsDigit(c: char)
  {
    '0' <= c <= '9'
  }

  predicate IsLetter(c: char)
  {
    'A' <= c <= 'Z' || 'a' <= c <= 'z'
  }

  /** The ASCII whitespace `str.split()` separates words on: space, tab, line feed,
      vertical tab, form feed, carriage return and the four separators 0x1C-0x1F. */
  predicate IsSpace(c: char)
    ensures IsSpace(c) ==> !IsDigit(c) && !IsLetter(c)
  {
    c == ' ' || 9 <= c as int <= 13 || 28 <= c as int <= 31
  }

  /** `str.isnumeric()`: not empty and all digits. A numeral is one word and never
      passes the letter test. */
  predicate IsNumeric(s: string)
    ensures IsNumeric(s) ==> IsWord(s) && !IsAlpha(s)
  {
    |s| > 0 && forall i :: 0 <= i < |s| ==> IsDigit(s[i])
  }

  /** `str.isalpha()`: not empty and all letters. Every ASCII letter sorts at or
      after "A", so the source's `label >= "A"` test never rejects such a word. */
  predicate IsAlpha(s: string)
    ensures IsAlpha(s) ==> IsWord(s) && !LexLess(s, "A")
  {
    |s| > 0 && forall i :: 0 <= i < |s| ==> IsLetter(s[i])
  }

  /** `int(s)` for a string of decimal digits. */
  function DecimalValue(s: string): (r: nat)
    requires forall i :: 0 <= i < |s| ==> IsDigit(s[i])
    ensures |s| == 1 ==> r == s[0] as int - '0' as int
  {
    if s == [] then 0
    else
      var init := s[..|s| - 1];
      assert forall i :: 0 <= i < |init| ==> IsDigit(init[i]);
      assert IsDigit(s[|s| - 1]);
      10 * DecimalValue(init) + (s[|s| - 1] as int - '0' as int)
  }

  /** A numeral is below 10 exactly when all its digits but the last are zeros. */
  lemma {:induction false} DecimalValueBelowTen(s: string)
    requires |s| > 0 && forall i :: 0 <= i < |s| ==> IsDigit(s[i])
    ensures DecimalValue(s) < 10 <==> forall i :: 0 <= i < |s| - 1 ==> s[i] == '0'
    decreases |s|
  {
    var init := s[..|s| - 1];
    if |s| > 1 {
      DecimalValueBelowTen(init);
      if DecimalValue(s) < 10 {
        assert DecimalValue(init) == 0;
        ZeroNumeral(init);
      } else {
        forall i | 0 <= i < |init| ensures init[i] == '0' || DecimalValue(init) > 0 {
          if init[i] != '0' { PositiveNumeral(init, i); }
        }
      }
    }
  }

  lemma {:induction false} ZeroNumeral(s: string)
    requires forall i :: 0 <= i < |s| ==> IsDigit(s[i])
    requires DecimalValue(s) == 0
    ensures forall i :: 0 <= i < |s| ==> s[i] == '0'
    decreases |s|
  {
    if s != [] {
      var init := s[..|s| - 1];
      ZeroNumeral(init);
      assert forall i :: 0 <= i < |init| ==> s[i] == init[i];
    }
  }

  lemma {:induction false} PositiveNumeral(s: string, k: int)
    requires forall i :: 0 <= i < |s| ==> IsDigit(s[i])
    requires 0 <= k < |s| && s[k] != '0'
    ensures DecimalValue(s) > 0
    decreases |s|
  {
    var init := s[..|s| - 1];
    if k < |s| - 1 {
      assert init[k] == s[k];
      PositiveNumeral(init, k);
    }
  }

  /** Python's `a < b` on strings: lexicographic by code point, a proper prefix first. */
  predicate LexLess(a: string, b: string)
    ensures LexLess(a, b) ==> |b| > 0 && (|a| > 0 ==> a[0] <= b[0])
    decreases |a|
  {
    |b| > 0 && (|a| == 0 || a[0] < b[0] || (a[0] == b[0] && LexLess(a[1..], b[1..])))
  }

  /** The string order is strict: never both ways, never a string before itself. */
  lemma {:induction false} LexLessStrict(a: string, b: string)
    ensures !(LexLess(a, b) && LexLess(b, a))
    ensures !LexLess(a, a)
    decreases |a|
  {
    if |a| > 0 && |b| > 0 && a[0] == b[0] {
      LexLessStrict(a[1..], b[1..]);
    }
    if |a| > 0 {
      LexLessStrict(a[1..], a[1..]);
    }
  }

  /* ---------- Labels and moves ---------- */

  /** `_label_to_coord`: a numeral below 10 names itself, a single letter names
      10 + its distance from 'A' (so 'A' is 10 and 'C' is 12); any other label is
      rejected. A word of several letters passes the source's letter test but then
      makes `ord` fail. */
  function LabelToCoord(name: string): (r: Result<int, InputError>)
    ensures r.Ok? <==>
      || (IsNumeric(name) && forall i :: 0 <= i < |name| - 1 ==> name[i] == '0')
      || (|name| == 1 && IsLetter(name[0]))
    ensures r == Err(OrdError) <==> IsAlpha(name) && |name| > 1
    ensures r.Ok? ==> 0 <= r.value && (r.value < 10 <==> IsNumeric(name))
    ensures r.Ok? && r.value < 10 ==> r.value == name[|name| - 1] as int - '0' as int
    ensures r.Ok? && r.value >= 10 ==> r.value == 10 + (name[0] as int - 'A' as int)
    ensures IsNumeric(name) && DecimalValue(name) >= 10 ==> r == Err(InvalidInput)
    ensures r.Err? && r != Err(OrdError) ==> r == Err(InvalidInput)
  {
    if IsNumeric(name) then
      DecimalValueBelowTen(name);
      var coord := DecimalValue(name);
      if coord >= 10 then Err(InvalidInput)
      else
        assert DecimalValue(name) == DecimalValue(name[..|name| - 1]) * 10 + (name[|name| - 1] as int - '0' as int);
        ZeroPrefix(name);
        Ok(coord)
    else if IsAlpha(name) && !LexLess(name, "A") then
      if |name| != 1 then Err(OrdError)
      else
        var diff := name[0] as int - 'A' as int;
        if diff < 0 then Err(InvalidInput)
        else Ok(10 + diff)
    else
      assert IsAlpha(name) ==> !LexLess(name, "A");
      Err(InvalidInput)
  }

  /** A numeral whose leading digits are all zeros is worth its last digit. */
  lemma {:induction false} ZeroPrefix(s: string)
    requires |s| > 0 && forall i :: 0 <= i < |s| ==> IsDigit(s[i])
    requires forall i :: 0 <= i < |s| - 1 ==> s[i] == '0'
    ensures DecimalValue(s[..|s| - 1]) == 0
    decreases |s|
  {
    var init := s[..|s| - 1];
    if |init| > 0 {
      assert init[..|init| - 1] == s[..|s| - 2];
      ZeroPrefix(init);
    }
  }

  /** The label that names coordinate `k`: '0'..'9', then 'A', 'B', ... */
  function CoordLabel(k: int): (r: string)
    requires 0 <= k < 36
    ensures |r| == 1
  {
    if k < 10 then [('0' as int + k) as char] else [('A' as int + k - 10) as char]
  }

  /** Reading back the label of a coordinate gives the coordinate. */
  lemma LabelRoundTrip(k: int)
    requires 0 <= k < 36
    ensures LabelToCoord(CoordLabel(k)) == Ok(k)
  {
  }

  /** The longest prefix of `s` with no whitespace. */
  function TakeWord(s: string): (r: string)
    ensures |r| <= |s|
    ensures s != [] && !IsSpace(s[0]) ==> |r| > 0
    ensures forall i :: 0 <= i < |r| ==> r[i] == s[i] && !IsSpace(r[i])
  {
    if s == [] || IsSpace(s[0]) then [] else [s[0]] + TakeWord(s[1..])
  }

  /** `s` without its leading whitespace. */
  function DropSpace(s: string): (r: string)
    ensures |r| <= |s|
    ensures r == [] || !IsSpace(r[0])
  {
    if s != [] && IsSpace(s[0]) then DropSpace(s[1..]) else s
  }

  /** `str.split()` with no separator: the maximal runs of non-whitespace, in order.
      Leading and trailing whitespace is ignored, so the source's `strip()` before
      `split()` changes nothing. */
  function Words(s: string): (r: seq<string>)
    ensures forall i :: 0 <= i < |r| ==> IsWord(r[i])
    decreases |s|
  {
    var t := DropSpace(s);
    if t == [] then []
    else
      var w := TakeWord(t);
      [w] + Words(t[|w|..])
  }

  /** A word: not empty and free of whitespace. */
  predicate IsWord(w: string)
  {
    |w| > 0 && forall i :: 0 <= i < |w| ==> !IsSpace(w[i])
  }

  /** `s` with its whitespace removed. */
  function Squeeze(s: string): (r: string)
    ensures forall i :: 0 <= i < |r| ==> !IsSpace(r[i])
  {
    if s == [] then [] else if IsSpace(s[0]) then Squeeze(s[1..]) else [s[0]] + Squeeze(s[1..])
  }

  /** The words of a list, run together. */
  function Concat(ws: seq<string>): string
  {
    if ws == [] then [] else ws[0] + Concat(ws[1..])
  }

  /** Removing whitespace distributes over joining. */
  lemma {:induction false} SqueezeAppend(a: string, b: string)
    ensures Squeeze(a + b) == Squeeze(a) + Squeeze(b)
    decreases |a|
  {
    if a == [] {
      assert a + b == b;
    } else {
      assert (a + b)[1..] == a[1..] + b;
      SqueezeAppend(a[1..], b);
    }
  }

  /** Leading whitespace contributes nothing. */
  lemma {:induction false} SqueezeDropSpace(s: string)
    ensures Squeeze(DropSpace(s)) == Squeeze(s)
    decreases |s|
  {
    if s != [] && IsSpace(s[0]) {
      SqueezeDropSpace(s[1..]);
    }
  }

  /** A word has no whitespace to remove. */
  lemma {:induction false} SqueezeWord(w: string)
    requires forall i :: 0 <= i < |w| ==> !IsSpace(w[i])
    ensures Squeeze(w) == w
    decreases |w|
  {
    if w != [] {
      SqueezeWord(w[1..]);
    }
  }

  /** The words of `s` hold exactly its non-whitespace characters, in order. */
  lemma {:induction false} WordsContent(s: string)
    ensures Concat(Words(s)) == Squeeze(s)
    decreases |s|
  {
    var t := DropSpace(s);
    SqueezeDropSpace(s);
    if t != [] {
      var w := TakeWord(t);
      var rest := t[|w|..];
      assert t == w + rest;
      SqueezeAppend(w, rest);
      SqueezeWord(w);
      WordsContent(rest);
      assert Words(s) == [w] + Words(rest);
    }
  }

  /** A word ends at the first whitespace, whatever follows. */
  lemma {:induction false} TakeWordAppend(t: string, x: string)
    requires |x| > 0 && IsSpace(x[0])
    ensures TakeWord(t + x) == TakeWord(t)
    decreases |t|
  {
    if t == [] {
      assert t + x == x;
    } else {
      assert (t + x)[1..] == t[1..] + x;
      TakeWordAppend(t[1..], x);
    }
  }

  /** Once the leading whitespace of `a` ends inside `a`, what follows is kept. */
  lemma {:induction false} DropSpaceAppend(a: string, x: string)
    ensures DropSpace(a) != [] ==> DropSpace(a + x) == DropSpace(a) + x
    ensures DropSpace(a) == [] ==> DropSpace(a + x) == DropSpace(x)
    decreases |a|
  {
    if a == [] {
      assert a + x == x;
    } else {
      assert (a + x)[1..] == a[1..] + x;
      DropSpaceAppend(a[1..], x);
    }
  }

  /** Leading whitespace does not change the words. */
  lemma WordsDropSpace(s: string)
    ensures Words(DropSpace(s)) == Words(s)
  {
    DropSpaceTwice(s);
  }

  lemma {:induction false} DropSpaceTwice(s: string)
    ensures DropSpace(DropSpace(s)) == DropSpace(s)
    decreases |s|
  {
    if s != [] && IsSpace(s[0]) {
      DropSpaceTwice(s[1..]);
    }
  }

  /** A whitespace character separates the words before it from those after it:
      words are the maximal runs of non-whitespace. */
  lemma {:induction false} WordsSplitAt(a: string, c: char, b: string)
    requires IsSpace(c)
    ensures Words(a + [c] + b) == Words(a) + Words(b)
    decreases |a|, 1
  {
    if DropSpace(a) == [] {
      WordsSplitAfterSpace(a, c, b);
    } else {
      WordsSplitAfterWord(a, c, b);
    }
  }

  /** When `a` is all whitespace, the words after `c` are all the words. */
  lemma WordsSplitAfterSpace(a: string, c: char, b: string)
    requires IsSpace(c) && DropSpace(a) == []
    ensures Words(a + [c] + b) == Words(a) + Words(b)
  {
    DropSpaceAppend(a, [c] + b);
    assert a + [c] + b == a + ([c] + b);
    assert DropSpace([c] + b) == DropSpace(b);
    WordsDropSpace(a + [c] + b);
    WordsDropSpace(b);
    assert Words(a) == [];
  }

  /** When `a` holds a word, that word comes first on both sides. */
  lemma {:induction false} WordsSplitAfterWord(a: string, c: char, b: string)
    requires IsSpace(c) && DropSpace(a) != []
    ensures Words(a + [c] + b) == Words(a) + Words(b)
    decreases |a|, 0
  {
    var x := [c] + b;
    var t := DropSpace(a);
    var w := TakeWord(t);
    var rest := t[|w|..];
    DropSpaceAppend(a, x);
    TakeWordAppend(t, x);
    assert (t + x)[|w|..] == rest + x;
    WordsCons(a + x, w, rest + x);
    WordsCons(a, w, rest);
    assert rest + x == rest + [c] + b;
    WordsSplitAt(rest, c, b);
    assert a + [c] + b == a + x;
    assert [w] + (Words(rest) + Words(b)) == ([w] + Words(rest)) + Words(b);
  }

  /** One word off the front. */
  lemma WordsCons(s: string, w: string, rest: string)
    requires DropSpace(s) != [] && w == TakeWord(DropSpace(s)) && rest == DropSpace(s)[|w|..]
    ensures Words(s) == [w] + Words(rest)
  {
  }

  /** Words joined by single spaces. */
  function Unwords(ws: seq<string>): (r: string)
  {
    if |ws| == 0 then [] else if |ws| == 1 then ws[0] else ws[0] + " " + Unwords(ws[1..])
  }

  lemma {:induction false} TakeWordOfWord(w: string, rest: string)
    requires IsWord(w) && (rest == [] || IsSpace(rest[0]))
    ensures TakeWord(w + rest) == w
    decreases |w|
  {
    assert (w + rest)[1..] == w[1..] + rest;
    if |w| > 1 {
      TakeWordOfWord(w[1..], rest);
      assert w == [w[0]] + w[1..];
    }
  }

  /** Splitting words joined by spaces gives the words back. */
  lemma {:induction false} WordsUnwords(ws: seq<string>)
    requires forall i :: 0 <= i < |ws| ==> IsWord(ws[i])
    ensures Words(Unwords(ws)) == ws
    decreases |ws|
  {
    if |ws| == 1 {
      TakeWordOfWord(ws[0], []);
      assert ws[0] + [] == ws[0];
      assert DropSpace(ws[0]) == ws[0];
      assert ws[0][|ws[0]|..] == [];
      assert Words([]) == [];
    } else if |ws| > 1 {
      var rest := " " + Unwords(ws[1..]);
      assert Unwords(ws) == ws[0] + rest;
      TakeWordOfWord(ws[0], rest);
      assert DropSpace(Unwords(ws)) == Unwords(ws);
      assert (ws[0] + rest)[|ws[0]|..] == rest;
      assert DropSpace(rest) == DropSpace(Unwords(ws[1..]));
      WordsUnwords(ws[1..]);
    }
  }

  /** `_parse_coordinates`: exactly two words, each a name. The row name is read first,
      so its error wins. */
  function ParseCoordinates(move: string): (r: Result<Pos, InputError>)
    ensures |Words(move)| != 2 ==> r == Err(UnpackError)
    ensures r.Ok? <==>
      |Words(move)| == 2 && LabelToCoord(Words(move)[0]).Ok? && LabelToCoord(Words(move)[1]).Ok?
    ensures r.Ok? ==> r.value == Pos(LabelToCoord(Words(move)[0]).value, LabelToCoord(Words(move)[1]).value)
    ensures |Words(move)| == 2 && LabelToCoord(Words(move)[0]).Err? ==>
      r == Err(LabelToCoord(Words(move)[0]).error)
    ensures |Words(move)| == 2 && LabelToCoord(Words(move)[0]).Ok? && LabelToCoord(Words(move)[1]).Err? ==>
      r == Err(LabelToCoord(Words(move)[1]).error)
  {
    var ws := Words(move);
    if |ws| != 2 then Err(UnpackError)
    else
      match LabelToCoord(ws[0])
      case Err(e) => Err(e)
      case Ok(y) =>
        match LabelToCoord(ws[1])
        case Err(e) => Err(e)
        case Ok(x) => Ok(Pos(y, x))
  }

  /** A typed move: a pass, or the coordinates of a stone to place. */
  datatype Move = Pass | Place(pos: Pos)

  /** `_parse_move`: the exact text "pass" is a pass; anything else is read as
      coordinates. */
  function ParseMove(move: string): (r: Result<Move, InputError>)
    ensures r == Ok(Pass) <==> move == "pass"
    ensures move != "pass" ==> (r.Ok? <==> ParseCoordinates(move).Ok?)
    ensures move != "pass" && r.Ok? ==> r.value == Place(ParseCoordinates(move).value)
    ensures move != "pass" && r.Err? ==> r.error == ParseCoordinates(move).error
  {
    if move == "pass" then Ok(Pass)
    else
      match ParseCoordinates(move)
      case Err(e) => Err(e)
      case Ok(p) => Ok(Place(p))
  }

  /** What a player types for a move. */
  function MoveText(m: Move): (r: string)
    requires m.Place? ==> 0 <= m.pos.y < 36 && 0 <= m.pos.x < 36
  {
    match m
    case Pass => "pass"
    case Place(p) => Unwords([CoordLabel(p.y), CoordLabel(p.x)])
  }

  /** Reading back what a player types for a move gives the move. */
  lemma {:induction false} ParseMoveText(m: Move)
    requires m.Place? ==> 0 <= m.pos.y < 36 && 0 <= m.pos.x < 36
    ensures ParseMove(MoveText(m)) == Ok(m)
  {
    if m.Place? {
      var ws := [CoordLabel(m.pos.y), CoordLabel(m.pos.x)];
      assert IsWord(CoordLabel(m.pos.y)) && IsWord(CoordLabel(m.pos.x));
      WordsUnwords(ws);
      LabelRoundTrip(m.pos.y);
      LabelRoundTrip(m.pos.x);
      assert MoveText(m) != "pass";
    }
  }

  /** `_is_valid_input`: "pass", or two labels naming a cell of the board. The prompt
      starts from no input at all (`None`), which is not valid. */
  function IsValidInput(size: nat, move: Option<string>): (r: bool)
    ensures r <==>
      && move.Some?
      && ParseMove(move.value).Ok?
      && (ParseMove(move.value).value.Place? ==> InBounds(size, ParseMove(move.value).value.pos))
  {
    match move
    case None => false
    case Some(m) =>
      if m == "pass" then true
      else
        match ParseCoordinates(m)
        case Err(_) => false
        case Ok(p) => InBounds(size, p)
  }

  /* ---------- Rings around a point and the nearest empty cell ---------- */

  /** `out_off_bounds`: a coordinate is off the board when either part is negative or
      at least the board size. */
  function OutOfBounds(n: int, p: Pos): (r: bool)
    ensures r <==> !InBounds(n, p)
  {
    p.y < 0 || p.x < 0 || p.y >= n || p.x >= n
  }

  /** `a` comes before `b` in the order the ring generator yields positions: by row,
      then from right to left. */
  predicate Before(a: Pos, b: Pos)
  {
    a.y < b.y || (a.y == b.y && a.x > b.x)
  }

  /** The inner loop of `get_surrounding_positions` for row offset `dy`: column
      offsets from `dx` down to `-k`, keeping the positions at distance `k` that are
      on the board. */
  function RingRow(n: int, c: Pos, k: nat, dy: int, dx: int): (r: seq<Pos>)
    requires dx >= -(k as int) - 1
    ensures forall p :: p in r <==>
      p.y == c.y + dy && p.x <= c.x + dx && InBounds(n, p) && Dist(p, c) == k
    ensures forall i, j :: 0 <= i < j < |r| ==> r[i].y == r[j].y && r[i].x > r[j].x
    decreases dx + k + 1
  {
    if dx < -(k as int) then []
    else
      var p := Pos(c.y + dy, c.x + dx);
      (if Abs(dy) + Abs(dx) != k || OutOfBounds(n, p) then [] else [p]) + RingRow(n, c, k, dy, dx - 1)
  }

  /** The outer loop of `get_surrounding_positions`: row offsets from `dy` up to `k`. */
  function RingRows(n: int, c: Pos, k: nat, dy: int): (r: seq<Pos>)
    requires dy >= -(k as int)
    ensures forall p :: p in r <==> p.y >= c.y + dy && InBounds(n, p) && Dist(p, c) == k
    ensures forall i, j :: 0 <= i < j < |r| ==> Before(r[i], r[j])
    decreases k + 1 - dy
  {
    if dy > k then []
    else
      var row := RingRow(n, c, k, dy, k);
      var rest := RingRows(n, c, k, dy + 1);
      assert forall i :: 0 <= i < |row| ==> row[i] in row;
      assert forall j :: 0 <= j < |rest| ==> rest[j] in rest;
      row + rest
  }

  /** `get_surrounding_positions(center, k)`: the positions on the board at Manhattan
      distance exactly `k` from `center`, each once, by row and then right to left. */
  function SurroundingPositions(n: int, center: Pos, k: nat): (r: seq<Pos>)
    ensures forall p :: p in r <==> InBounds(n, p) && Dist(p, center) == k
    ensures forall i, j :: 0 <= i < j < |r| ==> Before(r[i], r[j])
  {
    RingRows(n, center, k, -(k as int))
  }

  /** The first empty cell of `ps`, if any. */
  function FirstEmpty(g: Grid, n: nat, ps: seq<Pos>): (r: Option<Pos>)
    requires IsBoard(g, n)
    ensures r.None? <==> forall p :: p in ps ==> !IsEmptyCell(g, n, p)
    ensures r.Some? ==> r.value in ps && IsEmptyCell(g, n, r.value)
    ensures r.Some? ==> exists i :: 0 <= i < |ps| && ps[i] == r.value &&
                          forall j :: 0 <= j < i ==> !IsEmptyCell(g, n, ps[j])
  {
    if ps == [] then None
    else if InBounds(n, ps[0]) && At(g, ps[0]) == Empty then
      assert IsEmptyCell(g, n, ps[0]);
      Some(ps[0])
    else FirstEmpty(g, n, ps[1..])
  }

  /** Why no position could be proposed. */
  datatype SearchError = BoardFull

  /** The loop of `next_best_position` from ring `k` up to, but not including, ring
      `limit`: the first empty cell of the first ring that has one. */
  function SearchRings(g: Grid, n: nat, center: Pos, k: nat, limit: nat): (r: Result<Pos, SearchError>)
    requires IsBoard(g, n)
    ensures r.Ok? ==>
      && IsEmptyCell(g, n, r.value) && k <= Dist(r.value, center) < limit
      && forall q :: IsEmptyCell(g, n, q) && k <= Dist(q, center) ==> Dist(r.value, center) <= Dist(q, center)
    ensures r.Err? <==> forall q :: IsEmptyCell(g, n, q) && k <= Dist(q, center) ==> limit <= Dist(q, center)
    decreases limit - k
  {
    if k >= limit then Err(BoardFull)
    else
      match FirstEmpty(g, n, SurroundingPositions(n, center, k))
      case Some(p) => Ok(p)
      case None => SearchRings(g, n, center, k + 1, limit)
  }

  /** `next_best_position` as written: searches rings 0 to n - 1 only. It returns an
      empty cell nearest to `center` when one lies within distance n - 1, and reports a
      full board when none does, even if an empty cell lies farther away. */
  function NextBestPosition(g: Grid, n: nat, center: Pos): (r: Result<Pos, SearchError>)
    requires IsBoard(g, n)
    ensures r.Ok? ==>
      && IsEmptyCell(g, n, r.value) && Dist(r.value, center) < n
      && forall q :: IsEmptyCell(g, n, q) ==> Dist(r.value, center) <= Dist(q, center)
    ensures r.Err? <==> forall q :: IsEmptyCell(g, n, q) ==> n <= Dist(q, center)
  {
    SearchRings(g, n, center, 0, n)
  }

  /** Among the empty cells of the nearest ring, the search returns the first one the
      ring generator yields. */
  lemma NextBestPositionFirstInRing(g: Grid, n: nat, center: Pos)
    requires IsBoard(g, n) && NextBestPosition(g, n, center).Ok?
    ensures var p := NextBestPosition(g, n, center).value;
      FirstEmpty(g, n, SurroundingPositions(n, center, Dist(p, center))) == Some(p)
  {
    SearchRingsFirstInRing(g, n, center, 0, n);
  }

  lemma {:induction false} SearchRingsFirstInRing(g: Grid, n: nat, center: Pos, k: nat, limit: nat)
    requires IsBoard(g, n) && SearchRings(g, n, center, k, limit).Ok?
    ensures var p := SearchRings(g, n, center, k, limit).value;
      FirstEmpty(g, n, SurroundingPositions(n, center, Dist(p, center))) == Some(p)
    decreases limit - k
  {
    var ring := FirstEmpty(g, n, SurroundingPositions(n, center, k));
    if ring.None? {
      SearchRingsFirstInRing(g, n, center, k + 1, limit);
    } else {
      assert ring.value in SurroundingPositions(n, center, k);
    }
  }

  /** The point the hover cursor is sent to first: the middle of the board. */
  function DefaultCentre(n: nat): (r: Pos)
    ensures n > 0 ==> InBounds(n, r)
    ensures r.y == r.x && n - 1 <= 2 * r.y <= n
  {
    Pos(n / 2, n / 2)
  }

  /** On a board of even size n whose only empty cell is the corner (0, 0), searched
      from its default centre (n/2, n/2), that corner lies at distance n/2 + n/2 = n,
      one ring beyond the last ring `next_best_position` looks at: it reports a full
      board although a cell is free. */
  lemma NextBestPositionMissesFarCell(g: Grid, n: nat)
    requires IsBoard(g, n) && n >= 2 && n % 2 == 0
    requires forall q :: IsEmptyCell(g, n, q) <==> q == Pos(0, 0)
    ensures IsEmptyCell(g, n, Pos(0, 0))
    ensures NextBestPosition(g, n, DefaultCentre(n)) == Err(BoardFull)
  {
    var c := DefaultCentre(n);
    forall q | IsEmptyCell(g, n, q) ensures n <= Dist(q, c) {
      assert q == Pos(0, 0);
      assert Dist(q, c) == n / 2 + n / 2;
    }
    var r := NextBestPosition(g, n, c);
    assert r.Err?;
    assert r.error == BoardFull;
  }

  /** The smallest such board: [[Empty, Black], [Black, White]]. */
  lemma NextBestPositionMissesFarCellOnTwoByTwo()
    ensures var g := [[Empty, Black], [Black, White]];
      && IsEmptyCell(g, 2, Pos(0, 0))
      && NextBestPosition(g, 2, DefaultCentre(2)) == Err(BoardFull)
  {
    var g := [[Empty, Black], [Black, White]];
    assert IsBoard(g, 2);
    forall q | IsEmptyCell(g, 2, q) ensures q == Pos(0, 0) {
      OnlyCornerEmpty(q);
    }
    NextBestPositionMissesFarCell(g, 2);
  }

  /** In [[Empty, Black], [Black, White]] only the corner (0, 0) is empty. */
  lemma OnlyCornerEmpty(q: Pos)
    requires IsBoard([[Empty, Black], [Black, White]], 2)
    requires IsEmptyCell([[Empty, Black], [Black, White]], 2, q)
    ensures q == Pos(0, 0)
  {
    var g := [[Empty, Black], [Black, White]];
    assert g[0][1] == Black && g[1][0] == Black && g[1][1] == White;
    assert q.y == 0 || q.y == 1;
    assert q.x == 0 || q.x == 1;
  }

  /** The largest distance from `a` to a coordinate in [0, n). */
  function Span(n: nat, a: int): (r: nat)
    ensures r >= Abs(a) && r >= Abs(n - 1 - a)
  {
    if Abs(a) >= Abs(n - 1 - a) then Abs(a) else Abs(n - 1 - a)
  }

  /** Every cell of the board lies within this distance of `center`. */
  function Reach(n: nat, center: Pos): (r: nat)
    ensures forall q :: InBounds(n, q) ==> Dist(q, center) <= r
  {
    Span(n, center.y) + Span(n, center.x)
  }

  /** The search the nearest-position helper evidently intends: every ring that holds
      a cell of the board, so that it reports a full board only when no cell is empty. */
  function NearestEmpty(g: Grid, n: nat, center: Pos): (r: Result<Pos, SearchError>)
    requires IsBoard(g, n)
    ensures r.Ok? ==>
      && IsEmptyCell(g, n, r.value)
      && forall q :: IsEmptyCell(g, n, q) ==> Dist(r.value, center) <= Dist(q, center)
    ensures r.Err? <==> forall q :: !IsEmptyCell(g, n, q)
  {
    SearchRings(g, n, center, 0, Reach(n, center) + 1)
  }

  /** Where both searches find something, they agree. */
  lemma NearestEmptyExtendsNextBest(g: Grid, n: nat, center: Pos)
    requires IsBoard(g, n)
    ensures NextBestPosition(g, n, center).Ok? ==> NearestEmpty(g, n, center) == NextBestPosition(g, n, center)
  {
    var r := NextBestPosition(g, n, center);
    if r.Ok? {
      var limit := Reach(n, center) + 1;
      assert InBounds(n, r.value);
      assert Dist(r.value, center) < limit;
      SearchRingsLimit(g, n, center, 0, n, limit);
      assert NearestEmpty(g, n, center) == SearchRings(g, n, center, 0, limit);
    }
  }

  /** A search that succeeds finds the same cell under any limit beyond that cell's ring. */
  lemma {:induction false} SearchRingsLimit(g: Grid, n: nat, center: Pos, k: nat, limit: nat, limit': nat)
    requires IsBoard(g, n)
    requires SearchRings(g, n, center, k, limit).Ok?
    requires Dist(SearchRings(g, n, center, k, limit).value, center) < limit'
    ensures SearchRings(g, n, center, k, limit') == SearchRings(g, n, center, k, limit)
    decreases limit - k
  {
    assert k < limit;
    var ring := FirstEmpty(g, n, SurroundingPositions(n, center, k));
    if ring.None? {
      assert SearchRings(g, n, center, k, limit) == SearchRings(g, n, center, k + 1, limit);
      assert SearchRings(g, n, center, k, limit') == SearchRings(g, n, center, k + 1, limit');
      SearchRingsLimit(g, n, center, k + 1, limit, limit');
    }
  }

  /** On the boards above, the full search finds the empty corner. */
  lemma NearestEmptyFindsFarCell(g: Grid, n: nat)
    requires IsBoard(g, n) && n >= 2 && n % 2 == 0
    requires forall q :: IsEmptyCell(g, n, q) <==> q == Pos(0, 0)
    ensures NearestEmpty(g, n, DefaultCentre(n)) == Ok(Pos(0, 0))
  {
    assert IsEmptyCell(g, n, Pos(0, 0));
    var r := NearestEmpty(g, n, DefaultCentre(n));
    assert r.Ok?;
    assert IsEmptyCell(g, n, r.value);
  }

  /** On [[Empty, Black], [Black, White]] the full search finds the corner (0, 0). */
  lemma NearestEmptyFindsFarCellOnTwoByTwo()
    ensures NearestEmpty([[Empty, Black], [Black, White]], 2, DefaultCentre(2)) == Ok(Pos(0, 0))
  {
    var g := [[Empty, Black], [Black, White]];
    assert IsBoard(g, 2);
    forall q | IsEmptyCell(g, 2, q) ensures q == Pos(0, 0) {
      OnlyCornerEmpty(q);
    }
    NearestEmptyFindsFarCell(g, 2);
  }

  /* ---------- Turns ---------- */

  /** `_switch_turns`: white hands over to black, anything else to white. */
  function NextTurn(t: Stone): (r: Stone)
    ensures r != Empty
    ensures t != Empty ==> r == GetOppositeStone(t)
    ensures t == Empty ==> r == White
  {
    if t == White then Black else White
  }

  /** The front end: the game it drives and whose turn it is. */
  class GameUI {
    const game: Game
    const boardSize: nat
    var turn: Stone

    constructor (boardSize: nat)
      ensures fresh(game) && game.Valid() && game.size == boardSize && this.boardSize == boardSize
      ensures game.board == EmptyBoard(boardSize) && game.countPass == 0
      ensures game.blackCaptured == 0 && game.whiteCaptured == 0 && game.koGuard == None
      ensures turn == Black
    {
      game := new Game(boardSize);
      this.boardSize := boardSize;
      turn := Black;
    }

    /** Hand the turn to the other player. */
    method SwitchTurns()
      modifies this`turn
      ensures turn == NextTurn(old(turn))
    {
      turn := NextTurn(turn);
    }

    /** `_place_stone` of the front end: play the current player's stone at `p`, with
        the group manager resolving it as `res`. The turn is over unless the move was
        rejected; with no player to move nothing is placed and the turn is over. */
    method PlaceMove(p: Pos, res: Resolution) returns (isTurnOver: bool)
      requires game.Valid() && InBounds(game.size, p)
      modifies game
      ensures game.Valid()
      ensures isTurnOver <==> turn == Empty || res.Resolved?
      ensures turn != Empty ==>
        && game.board == AfterPlacement(old(game.board), game.size, p, turn, res)
        && game.blackCaptured == old(game.blackCaptured) + res.blackTaken
        && game.whiteCaptured == old(game.whiteCaptured) + res.whiteTaken
      ensures turn != Empty && res.Violated? ==> game.countPass == old(game.countPass) && game.koGuard == old(game.koGuard)
      ensures turn != Empty && res.Resolved? ==> game.countPass == 0 && game.koGuard == res.ko
      ensures turn == Empty ==> unchanged(game)
    {
      var raised: Option<RuleViolation> := None;
      if turn == Black {
        raised := game.PlaceBlack(p.y, p.x, res);
      } else if turn == White {
        raised := game.PlaceWhite(p.y, p.x, res);
      }
      isTurnOver := raised.None?;
    }
  }
}
