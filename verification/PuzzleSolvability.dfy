/** The solvability test of the N-puzzle is exact: every solvable puzzle has a run of moves to the solution. */
module PuzzleSolvability {
  import opened DivMod
  import opened Permutations
  import opened Inversions
  import opened SlidingPuzzle
  import opened SnakeOrder

  // ---------------------------------------------------------------------------
  // The board along the snake
  // ---------------------------------------------------------------------------

  function Column(n: nat, i: nat, j: nat): nat
    requires j < n
  {
    if i % 2 == 0 then j else n - 1 - j
  }

  /** Where on the board place `k` of the snake is, and the other way round. */
  function SnakePlace(n: nat, k: nat): nat
    requires n > 0
  {
    n * (k / n) + Column(n, k / n, k % n)
  }

  lemma RowBelow(n: nat, k: nat)
    requires n > 0 && k < n * n
    ensures k / n < n
  {
    if k / n >= n { ProductMonotone(n, n, k / n); }
  }

  lemma SnakePlaceIs(n: nat, k: nat)
    requires n > 0 && k < n * n
    ensures k / n < n && SnakePlace(n, k) < n * n
    ensures SnakePlace(n, k) / n == k / n && SnakePlace(n, k) % n == Column(n, k / n, k % n)
    ensures SnakePlace(n, SnakePlace(n, k)) == k
  {
    var i, j := k / n, k % n;
    RowBelow(n, k);
    Recompose(n, k);
    PlaceOfCell(n, i, Column(n, i, j));
    BackOnSnake(n, i, Column(n, i, j), SnakePlace(n, k));
  }

  lemma Recompose(n: nat, k: nat)
    requires n > 0
    ensures k == n * (k / n) + k % n
  {
  }

  lemma BackOnSnake(n: nat, i: nat, c: nat, x: nat)
    requires n > 0 && c < n && x / n == i && x % n == c
    ensures SnakePlace(n, x) == n * i + Column(n, i, c)
  {
  }

  lemma SnakePlacesDiffer(n: nat, a: nat, b: nat)
    requires n > 0 && a < n * n && b < n * n && a != b
    ensures SnakePlace(n, a) != SnakePlace(n, b)
  {
    SnakePlaceIs(n, a);
    SnakePlaceIs(n, b);
  }

  ghost function Snake(n: nat, cells: seq<int>): (t: seq<int>)
    requires n > 0 && |cells| == n * n
    ensures |t| == n * n
  {
    seq(n * n, k requires 0 <= k < n * n => SnakePlaceIs(n, k); cells[SnakePlace(n, k)])
  }

  lemma SnakeAt(n: nat, cells: seq<int>, k: nat)
    requires n > 0 && |cells| == n * n && k < n * n
    ensures SnakePlace(n, k) < n * n && Snake(n, cells)[k] == cells[SnakePlace(n, k)]
    ensures cells[k] == Snake(n, cells)[SnakePlace(n, k)]
  {
    SnakePlaceIs(n, k);
    SnakePlaceIs(n, SnakePlace(n, k));
  }

  lemma SameSnake(n: nat, a: seq<int>, b: seq<int>)
    requires n > 0 && |a| == |b| == n * n && Snake(n, a) == Snake(n, b)
    ensures a == b
  {
    forall k: nat | k < n * n ensures a[k] == b[k] {
      SnakeAt(n, a, k);
      SnakeAt(n, b, k);
    }
  }

  lemma SnakeExchange(n: nat, cells: seq<int>, a: nat, b: nat)
    requires n > 0 && |cells| == n * n && a < n * n && b < n * n && a != b
    ensures SnakePlace(n, a) < n * n && SnakePlace(n, b) < n * n
    ensures Snake(n, Exchange(cells, SnakePlace(n, a), SnakePlace(n, b))) == Exchange(Snake(n, cells), a, b)
  {
    SnakePlaceIs(n, a);
    SnakePlaceIs(n, b);
    var x, y := SnakePlace(n, a), SnakePlace(n, b);
    var t, u := Exchange(Snake(n, cells), a, b), Snake(n, Exchange(cells, x, y));
    forall k: nat | k < n * n ensures u[k] == t[k] {
      SnakeAt(n, cells, k);
      SnakeAt(n, Exchange(cells, x, y), k);
      if k != a { SnakePlacesDiffer(n, k, a); }
      if k != b { SnakePlacesDiffer(n, k, b); }
    }
  }

  lemma SnakePermutation(n: nat, cells: seq<int>)
    requires n > 0 && |cells| == n * n && Permutation(cells)
    ensures Permutation(Snake(n, cells))
  {
    var t := Snake(n, cells);
    forall i: nat, j: nat | i < j < n * n ensures t[i] != t[j] {
      SnakeAt(n, cells, i);
      SnakeAt(n, cells, j);
      SnakePlacesDiffer(n, i, j);
      DifferAt(cells, SnakePlace(n, i), SnakePlace(n, j));
    }
    forall i: nat | i < n * n ensures 0 <= t[i] < n * n { SnakeAt(n, cells, i); }
  }

  lemma DifferAt(s: seq<int>, i: nat, j: nat)
    requires Distinct(s) && i < |s| && j < |s| && i != j
    ensures s[i] != s[j]
  {
    if i < j { assert s[i] != s[j]; } else { assert s[j] != s[i]; }
  }

  // ---------------------------------------------------------------------------
  // Steps of the blank are moves
  // ---------------------------------------------------------------------------

  predicate Adjacent(n: nat, x: nat, y: nat)
    requires n > 0
  {
    Abs(x / n - y / n) + Abs(x % n - y % n) == 1
  }

  /** Neighbours on the snake follow each other in a row, or are in successive rows that end on the same side. */
  lemma NearRows(n: nat, a: nat, b: nat)
    requires n > 0 && Near(n, a, b)
    ensures (b / n == a / n && b % n == a % n + 1) || (b / n == a / n + 1 && a % n + b % n + 1 == n)
  {
    var i, j := a / n, a % n;
    assert a == n * i + j;
    if b == a + 1 {
      NextOnSnake(n, i, j, b);
    } else {
      var r, k := b / n, b % n;
      assert b == n * r + k;
      OppositeColumn(n, i, j, r, k, a, b);
    }
  }

  lemma NextOnSnake(n: nat, i: nat, j: nat, b: nat)
    requires n > 0 && j < n && b == n * i + j + 1
    ensures if j + 1 < n then b / n == i && b % n == j + 1 else b / n == i + 1 && b % n == 0
  {
    if j + 1 < n {
      DivModUnique(b, n, i, j + 1);
    } else {
      assert n * (i + 1) == n * i + n;
      DivModUnique(b, n, i + 1, 0);
    }
  }

  lemma OppositeColumn(n: nat, i: nat, j: nat, r: nat, k: nat, a: nat, b: nat)
    requires a == n * i + j && b == n * r + k && r == i + 1 && a + b + 1 == 2 * (n * r)
    ensures j + k + 1 == n
  {
    assert n * (i + 1) == n * i + n;
  }

  lemma ColumnStep(n: nat, i: nat, j: nat, r: nat, k: nat)
    requires j < n && k < n && ((r == i && k == j + 1) || (r == i + 1 && j + k + 1 == n))
    ensures Abs(i - r) + Abs(Column(n, i, j) - Column(n, r, k)) == 1
  {
  }

  lemma AdjacentCells(n: nat, x: nat, y: nat, i: nat, j: nat, r: nat, k: nat)
    requires n > 0 && x / n == i && x % n == j && y / n == r && y % n == k && Abs(i - r) + Abs(j - k) == 1
    ensures Adjacent(n, x, y) && Adjacent(n, y, x)
  {
  }

  lemma StepIsAdjacent(n: nat, x: nat, y: nat, i: nat, j: nat, r: nat, k: nat)
    requires n > 0 && j < n && k < n && ((r == i && k == j + 1) || (r == i + 1 && j + k + 1 == n))
    requires x / n == i && x % n == Column(n, i, j) && y / n == r && y % n == Column(n, r, k)
    ensures Adjacent(n, x, y) && Adjacent(n, y, x)
  {
    ColumnStep(n, i, j, r, k);
    AdjacentCells(n, x, y, i, Column(n, i, j), r, Column(n, r, k));
  }

  lemma RowAndColumn(n: nat, a: nat) returns (i: nat, j: nat)
    requires n > 0
    ensures i == a / n && j == a % n && j < n
  {
    i, j := a / n, a % n;
  }

  /** Such places are neighbours on the board. */
  lemma NearIsAdjacent(n: nat, a: nat, b: nat)
    requires n > 0 && a < n * n && b < n * n && Near(n, a, b)
    ensures Adjacent(n, SnakePlace(n, a), SnakePlace(n, b)) && Adjacent(n, SnakePlace(n, b), SnakePlace(n, a))
  {
    var i, j := RowAndColumn(n, a);
    var r, k := RowAndColumn(n, b);
    NearRows(n, a, b);
    SnakePlaceIs(n, a);
    SnakePlaceIs(n, b);
    StepIsAdjacent(n, SnakePlace(n, a), SnakePlace(n, b), i, j, r, k);
  }

  lemma OneBlank(s: seq<int>, i: nat, j: nat)
    requires Distinct(s) && i < |s| && j < |s| && s[i] == s[j]
    ensures i == j
  {
    if i != j { DifferAt(s, i, j); }
  }

  lemma BlankAt(p: Puzzle, x: nat)
    requires Good(p) && x < |p.cells| && p.cells[x] == 0
    ensures x / p.n == p.zi && x % p.n == p.zj && x == p.n * p.zi + p.zj
  {
    PlaceOfCell(p.n, p.zi, p.zj);
    var z: nat := p.n * p.zi + p.zj;
    OneBlank(p.cells, x, z);
  }

  /** Some move takes the tile from the next row or column. */
  lemma MoveFrom(p: Puzzle, i: nat, j: nat) returns (m: Move)
    requires p.valid && i < p.n && j < p.n && Abs(p.zi - i) + Abs(p.zj - j) == 1
    ensures Possible(p, m) && Source(p, m) == (i, j)
  {
    m := if i == p.zi + 1 then Up else if i + 1 == p.zi then Down else if j == p.zj + 1 then Left else Right;
  }

  lemma MovedTo(p: Puzzle, m: Move, i: nat, j: nat)
    requires InBounds(p) && Possible(p, m) && Source(p, m) == (i, j)
    ensures Apply(p, m).zi == i && Apply(p, m).zj == j
  {
  }

  lemma CellOf(n: nat, y: nat) returns (i: nat, j: nat)
    requires n > 0 && y < n * n
    ensures i < n && j < n && y == n * i + j && i == y / n && j == y % n
  {
    i, j := RowAndColumn(n, y);
    RowBelow(n, y);
  }

  lemma BesideBlank(p: Puzzle, x: nat, y: nat) returns (i: nat, j: nat)
    requires Good(p) && x < |p.cells| && y < |p.cells| && p.cells[x] == 0 && Adjacent(p.n, x, y)
    ensures i < p.n && j < p.n && y == p.n * i + j && Abs(p.zi - i) + Abs(p.zj - j) == 1
  {
    i, j := CellOf(p.n, y);
    BlankAt(p, x);
  }

  /** The blank can move to any adjacent place. */
  lemma MoveToward(p: Puzzle, x: nat, y: nat) returns (m: Move)
    requires Good(p) && x < |p.cells| && y < |p.cells| && p.cells[x] == 0 && Adjacent(p.n, x, y)
    ensures InBounds(p) && Possible(p, m) && Apply(p, m).cells == Exchange(p.cells, x, y)
  {
    var i, j := BesideBlank(p, x, y);
    m := MoveFrom(p, i, j);
    var z, q := MoveSlides(p, m);
    MovedTo(p, m, i, j);
    OneBlank(p.cells, x, z);
    SlidBoard(p, Apply(p, m), x, q, y);
  }

  lemma SlidBoard(p: Puzzle, r: Puzzle, z: nat, q: nat, y: nat)
    requires Good(p) && Slides(p, r, z, q) && p.cells[z] == 0 && p.n * r.zi + r.zj == y
    ensures y == q && r.cells == Exchange(p.cells, z, y)
  {
    SlideBoard(p.n, p.cells, z, q);
  }

  lemma HopIsMove(p: Puzzle, u: seq<int>, a: nat, b: nat) returns (m: Move)
    requires Good(p) && |p.cells| == p.n * p.n && HopAt(p.n, Snake(p.n, p.cells), u, a, b)
    ensures InBounds(p) && Possible(p, m) && |Apply(p, m).cells| == p.n * p.n
    ensures Snake(p.n, Apply(p, m).cells) == u
  {
    var n := p.n;
    if Near(n, a, b) { NearIsAdjacent(n, a, b); } else { NearIsAdjacent(n, b, a); }
    SnakeAt(n, p.cells, a);
    SnakeAt(n, p.cells, b);
    BlankMoves(n, a, b);
    m := MoveToward(p, SnakePlace(n, a), SnakePlace(n, b));
    SnakeExchange(n, p.cells, a, b);
  }

  lemma BlankMoves(n: nat, a: nat, b: nat)
    requires n > 0 && (Near(n, a, b) || Near(n, b, a))
    ensures a != b
  {
  }

  lemma HopLeads(n: nat, p: Puzzle, u: seq<int>, a: nat, b: nat) returns (m: Move, r: Puzzle)
    requires Good(p) && p.n == n && |p.cells| == n * n && HopAt(n, Snake(n, p.cells), u, a, b)
    ensures InBounds(p) && Possible(p, m) && r == Apply(p, m) && Good(r) && r.n == n
    ensures |r.cells| == n * n && Snake(n, r.cells) == u
  {
    m := HopIsMove(p, u, a, b);
    MoveKeeps(p, m);
    r := Apply(p, m);
  }

  lemma RunFirst(p: Puzzle, m: Move, rest: seq<Move>)
    requires InBounds(p) && Possible(p, m) && Legal(Apply(p, m), rest)
    ensures Legal(p, [m] + rest) && Play(p, [m] + rest) == Play(Apply(p, m), rest)
  {
    var ms := [m] + rest;
    assert ms[0] == m && ms[1..] == rest;
  }

  /** A walk of the blank is a run of moves. */
  lemma {:induction false} WalkIsRun(n: nat, p: Puzzle, t: seq<int>, u: seq<int>, k: nat) returns (ms: seq<Move>)
    requires Good(p) && p.n == n && |p.cells| == n * n && Snake(n, p.cells) == t && Walk(n, t, u, k)
    ensures Legal(p, ms)
    ensures |Play(p, ms).cells| == n * n && Snake(n, Play(p, ms).cells) == u
    decreases k
  {
    if k == 0 {
      ms := [];
    } else {
      var w, a, b, j := FirstHop(n, t, u, k);
      var m, r := HopLeads(n, p, w, a, b);
      var rest := WalkIsRun(n, r, w, u, j);
      RunFirst(p, m, rest);
      ms := [m] + rest;
    }
  }

  lemma FirstHop(n: nat, t: seq<int>, u: seq<int>, k: nat)
    returns (w: seq<int>, a: nat, b: nat, j: nat)
    requires n > 0 && k > 0 && Walk(n, t, u, k)
    ensures HopAt(n, t, w, a, b) && j < k && Walk(n, w, u, j)
  {
    j := k - 1;
    w :| Hop(n, t, w) && Walk(n, w, u, j);
    a, b :| HopAt(n, t, w, a, b);
  }

  // ---------------------------------------------------------------------------
  // Every solvable puzzle can be solved
  // ---------------------------------------------------------------------------

  /** The tiles in their order, without the blank at place `b`. */
  function Tiles(t: seq<int>, b: nat): (s: seq<int>)
    requires b < |t|
    ensures |s| == |t| - 1
  {
    t[..b] + t[b + 1..]
  }

  lemma TilesInsert(t: seq<int>, b: nat)
    requires b < |t| && t[b] == 0
    ensures Insert(Tiles(t, b), b) == t
    ensures multiset(Tiles(t, b)) == multiset(t) - multiset{0}
  {
    var x, y := t[..b], t[b + 1..];
    assert t == x + [0] + y;
    assert multiset(t) == multiset(x) + multiset{0} + multiset(y);
    assert multiset(x + y) == multiset(x) + multiset(y);
  }

  lemma {:induction false} DistinctOnce(s: seq<int>, v: int)
    requires Distinct(s)
    ensures multiset(s)[v] == if v in s then 1 else 0
  {
    if s != [] {
      var front, last := s[..|s| - 1], s[|s| - 1];
      assert s == front + [last];
      assert multiset(s) == multiset(front) + multiset{last};
      DistinctOnce(front, v);
    }
  }

  lemma SameTiles(a: seq<int>, b: seq<int>)
    requires Permutation(a) && Permutation(b) && |a| == |b|
    ensures multiset(a) == multiset(b)
  {
    forall v ensures multiset(a)[v] == multiset(b)[v] {
      DistinctOnce(a, v);
      DistinctOnce(b, v);
      if 0 <= v < |a| {
        var i := PlaceOf(a, v);
        var j := PlaceOf(b, v);
      }
    }
  }

  lemma SolutionIsBoard(n: nat)
    requires n > 0
    ensures Permutation(SolutionCells(n))
  {
  }

  /** Two orders that differ by an exchange of two tiles do so as boards. */
  lemma ExchangeBehindBlank(s: seq<int>, c: nat, i: nat, j: nat) returns (x: nat, y: nat)
    requires c <= |s| && i < |s| && j < |s| && i != j
    ensures x < |s| + 1 && y < |s| + 1 && x != y && x != c && y != c
    ensures Insert(Exchange(s, i, j), c) == Exchange(Insert(s, c), x, y)
  {
    x, y := if i < c then i else i + 1, if j < c then j else j + 1;
  }

  lemma ExchangedEntries(n: nat, x: nat, y: nat)
    requires n > 0 && x < n * n && y < n * n
    ensures Entries(n, Exchange(SolutionCells(n), x, y)) == Exchange(Entries(n, SolutionCells(n)), x, y)
  {
  }

  /** Exchanging two entries of the solution makes the number of inversions odd. */
  lemma ExchangedParity(n: nat, x: nat, y: nat)
    requires n > 0 && x < n * n && y < n * n && x != y
    ensures Count(Entries(n, Exchange(SolutionCells(n), x, y))) % 2 == 1
  {
    var sol, a, b := SolutionCells(n), if x < y then x else y, if x < y then y else x;
    assert Exchange(sol, x, y) == Exchange(sol, a, b);
    ExchangedEntries(n, a, b);
    SolutionIsBoard(n);
    EntriesDistinct(n, sol);
    ExchangeParity(Entries(n, sol), a, b);
    SolutionAscends(n);
  }

  /** A board with two tiles of the solution exchanged is not solvable. */
  lemma ExchangedIsOdd(p: Puzzle, x: nat, y: nat)
    requires Good(p) && IsExchanged(p, x, y)
    ensures !Solvable(p)
  {
    ExchangedParity(p.n, x, y);
    BlankAt(p, p.n * p.n - 1);
    CornerPlace(p.n, p.zi, p.zj);
  }

  /** All tiles read along the snake are their order with the blank put in. */
  lemma OrderOf(t: seq<int>) returns (s: seq<int>, b: nat)
    requires Permutation(t) && t != []
    ensures b <= |s| == |t| - 1 && t == Insert(s, b) && multiset(s) == multiset(t) - multiset{0}
  {
    b := PlaceOf(t, 0);
    TilesInsert(t, b);
    s := Tiles(t, b);
  }

  /** The board that shows the solution with two tiles exchanged. */
  lemma ExchangedBoard(n: nat, cells: seq<int>, target: seq<int>, c: nat)
    returns (x: nat, y: nat)
    requires n >= 2 && |cells| == |target| + 1 == n * n && |target| >= 2 && c <= |target|
    requires Snake(n, SolutionCells(n)) == Insert(target, c)
    requires Snake(n, cells) == Insert(Exchange(target, |target| - 2, |target| - 1), c)
    ensures x < n * n && y < n * n && x != y && SolutionCells(n)[x] != 0 && SolutionCells(n)[y] != 0
    ensures cells == Exchange(SolutionCells(n), x, y)
  {
    var sol := SolutionCells(n);
    var i, j := ExchangeBehindBlank(target, c, |target| - 2, |target| - 1);
    x, y := SnakePlace(n, i), SnakePlace(n, j);
    SnakeExchange(n, sol, i, j);
    SameSnake(n, cells, Exchange(sol, x, y));
    SnakePlacesDiffer(n, i, j);
    BlankOfSolution(n, target, c, i);
    BlankOfSolution(n, target, c, j);
  }

  lemma BlankOfSolution(n: nat, target: seq<int>, c: nat, i: nat)
    requires n >= 2 && |target| + 1 == n * n && c <= |target| && i < n * n && i != c
    requires Snake(n, SolutionCells(n)) == Insert(target, c)
    ensures SnakePlace(n, i) < n * n && SolutionCells(n)[SnakePlace(n, i)] != 0
  {
    var sol := SolutionCells(n);
    SolutionIsBoard(n);
    SnakePermutation(n, sol);
    SnakeAt(n, sol, i);
    DifferAt(Snake(n, sol), i, c);
  }

  lemma WalkOf(n: nat, t: seq<int>, u: seq<int>) returns (k: nat)
    requires n > 0 && Linked(n, t, u)
    ensures Walk(n, t, u, k)
  {
    k :| Walk(n, t, u, k);
  }

  lemma SquareOf(n: nat, m: nat)
    requires n >= 2 && m == n * n
    ensures m >= 4
  {
    ProductMonotone(n, 2, n);
  }

  /** The blank can walk until the tiles are in a given order, up to the last two. */
  lemma WalkToOrder(n: nat, m: nat, t: seq<int>, w: seq<int>)
    returns (u: seq<int>, target: seq<int>, c: nat, k: nat)
    requires n >= 2 && |t| == |w| == m == n * n && m >= 4 && Permutation(t) && Permutation(w)
    ensures |u| == |target| == m - 1 && c <= |target| && w == Insert(target, c)
    ensures u == target || u == Exchange(target, m - 3, m - 2)
    ensures Walk(n, t, Insert(u, c), k)
  {
    var s, b := OrderOf(t);
    target, c := OrderOf(w);
    SameTiles(t, w);
    u := AnyOrder(n, s, b, target, c);
    k := WalkOf(n, t, Insert(u, c));
  }

  /** Where such a walk ends. */
  lemma WalkEnds(p: Puzzle, u: seq<int>, target: seq<int>, c: nat) returns (x: nat, y: nat)
    requires Good(p) && p.n >= 2 && |p.cells| == |target| + 1 == p.n * p.n && |u| == |target| >= 2
    requires c <= |target| && (u == target || u == Exchange(target, |target| - 2, |target| - 1))
    requires Snake(p.n, SolutionCells(p.n)) == Insert(target, c) && Snake(p.n, p.cells) == Insert(u, c)
    ensures Solved(p) || IsExchanged(p, x, y)
  {
    x, y := 0, 0;
    if u == target {
      SameSnake(p.n, p.cells, SolutionCells(p.n));
    } else {
      x, y := ExchangedBoard(p.n, p.cells, target, c);
    }
  }

  /** Some run brings the tiles home, or all but two of them. */
  lemma RunToSolution(p: Puzzle) returns (ms: seq<Move>, x: nat, y: nat)
    requires Good(p) && p.n >= 2
    ensures Legal(p, ms) && Good(Play(p, ms))
    ensures Solved(Play(p, ms)) || IsExchanged(Play(p, ms), x, y)
  {
    var n, t, sol := p.n, Snake(p.n, p.cells), SolutionCells(p.n);
    SolutionIsBoard(n);
    SnakePermutation(n, p.cells);
    SnakePermutation(n, sol);
    SquareOf(n, |t|);
    var u, target, c, k := WalkToOrder(n, |t|, t, Snake(n, sol));
    ms := WalkIsRun(n, p, t, Insert(u, c), k);
    RunKeeps(p, ms);
    x, y := WalkEnds(Play(p, ms), u, target, c);
  }

  ghost predicate IsExchanged(p: Puzzle, x: nat, y: nat) {
    && p.n > 0 && x < p.n * p.n && y < p.n * p.n && x != y
    && SolutionCells(p.n)[x] != 0 && SolutionCells(p.n)[y] != 0 && p.cells == Exchange(SolutionCells(p.n), x, y)
  }

  /** Every solvable puzzle can be solved. */
  lemma SolvableIsSolved(p: Puzzle) returns (ms: seq<Move>)
    requires Good(p) && Solvable(p)
    ensures Legal(p, ms) && Solved(Play(p, ms))
  {
    if p.n == 1 {
      ms := [];
      assert p.cells == SolutionCells(1);
    } else {
      var x, y;
      ms, x, y := RunToSolution(p);
      RunKeeps(p, ms);
      if !Solved(Play(p, ms)) {
        ExchangedIsOdd(Play(p, ms), x, y);
      }
    }
  }

  ghost predicate Solves(p: Puzzle, ms: seq<Move>) {
    Legal(p, ms) && Solved(Play(p, ms))
  }

  /** The test is exact: a puzzle is solvable if and only if some run of moves leads to the solution. */
  lemma SolvableExactly(p: Puzzle)
    requires Good(p)
    ensures Solvable(p) <==> exists ms: seq<Move> :: Solves(p, ms)
  {
    if Solvable(p) {
      var ms := SolvableIsSolved(p);
      assert Solves(p, ms);
    }
    if ms: seq<Move> :| Solves(p, ms) {
      LowerBoundHolds(p, ms);
    }
  }
}
