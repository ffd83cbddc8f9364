/** The N-puzzle: moves with an incremental distance, the solvability test, and what a run of moves keeps. */
module SlidingPuzzle {
  import opened DivMod
  import opened Permutations
  import opened Inversions

  /** Place n*i + j of `cells` holds the tile in row i and column j, 0 where the blank is. */
  datatype Puzzle = Puzzle(n: nat, cells: seq<int>, valid: bool, zi: nat, zj: nat, distance: int)

  datatype Move = Up | Down | Left | Right

  /** A number kept in a signed byte. */
  function Byte(x: int): int {
    (x + 128) % 256 - 128
  }

  // ---------------------------------------------------------------------------
  // Distances
  // ---------------------------------------------------------------------------

  /** How far tile `t` at place `p` is from where the solution has it. */
  function Away(n: nat, t: int, p: nat): nat
    requires n > 0
  {
    if t == 0 then 0 else Abs((t - 1) / n - p / n) + Abs((t - 1) % n - p % n)
  }

  /** The Manhattan distance of the first k places. */
  function Distance(n: nat, cells: seq<int>, k: nat): nat
    requires n > 0 && k <= |cells|
  {
    if k == 0 then 0 else Distance(n, cells, k - 1) + Away(n, cells[k - 1], k - 1)
  }

  lemma {:induction false} DistanceUpdate(n: nat, cells: seq<int>, k: nat, p: nat, t: int)
    requires n > 0 && k <= |cells| && p < |cells|
    ensures Distance(n, cells[p := t], k) ==
              Distance(n, cells, k) + if p < k then Away(n, t, p) - Away(n, cells[p], p) else 0
  {
    if k > 0 { DistanceUpdate(n, cells, k - 1, p, t); }
  }

  // ---------------------------------------------------------------------------
  // Boards
  // ---------------------------------------------------------------------------

  ghost predicate Board(n: nat, cells: seq<int>) {
    n > 0 && |cells| == n * n && Permutation(cells)
  }

  /** The recomputed Manhattan distance. */
  function Total(p: Puzzle): nat {
    if p.n == 0 then 0 else Distance(p.n, p.cells, |p.cells|)
  }

  /** A valid puzzle: every tile once, the blank where the coordinates say, and the distance up to date. */
  ghost predicate Good(p: Puzzle) {
    && Board(p.n, p.cells) && p.valid && p.zi < p.n && p.zj < p.n
    && p.n * p.zi + p.zj < |p.cells| && p.cells[p.n * p.zi + p.zj] == 0
    && p.distance == Byte(Total(p))
  }

  /** The tiles with the blank counted as the largest. */
  function Entries(n: nat, cells: seq<int>): (r: seq<int>)
    ensures |r| == |cells| && forall k :: 0 <= k < |cells| ==> r[k] == if cells[k] == 0 then n * n else cells[k]
  {
    seq(|cells|, k requires 0 <= k < |cells| => if cells[k] == 0 then n * n else cells[k])
  }

  /** Inversions plus the blank's distance from the lower right corner are even. */
  ghost predicate Solvable(p: Puzzle) {
    p.valid && (Count(Entries(p.n, p.cells)) + 2 * p.n - 2 - p.zi - p.zj) % 2 == 0
  }

  // ---------------------------------------------------------------------------
  // Moves
  // ---------------------------------------------------------------------------

  predicate Possible(p: Puzzle, m: Move) {
    p.valid &&
    match m
    case Up => p.zi != p.n - 1
    case Down => p.zi != 0
    case Left => p.zj != p.n - 1
    case Right => p.zj != 0
  }

  ghost predicate InBounds(p: Puzzle) {
    p.n > 0 && |p.cells| == p.n * p.n && p.zi < p.n && p.zj < p.n
  }

  /** tile_up */
  function TileUp(p: Puzzle): Puzzle
    requires InBounds(p)
  {
    if !p.valid then p
    else if p.zi == p.n - 1 then p.(valid := false)
    else
      PlaceOfCell(p.n, p.zi, p.zj);
      PlaceOfCell(p.n, p.zi + 1, p.zj);
      var t := p.cells[p.n * (p.zi + 1) + p.zj];
      p.(distance := Byte(p.distance + Abs((t - 1) / p.n - p.zi) - Abs((t - 1) / p.n - (p.zi + 1))),
         cells := p.cells[p.n * p.zi + p.zj := t][p.n * (p.zi + 1) + p.zj := 0], zi := p.zi + 1)
  }

  /** tile_down */
  function TileDown(p: Puzzle): Puzzle
    requires InBounds(p)
  {
    if !p.valid then p
    else if p.zi == 0 then p.(valid := false)
    else
      PlaceOfCell(p.n, p.zi, p.zj);
      PlaceOfCell(p.n, p.zi - 1, p.zj);
      var t := p.cells[p.n * (p.zi - 1) + p.zj];
      p.(distance := Byte(p.distance + Abs((t - 1) / p.n - p.zi) - Abs((t - 1) / p.n - (p.zi - 1))),
         cells := p.cells[p.n * p.zi + p.zj := t][p.n * (p.zi - 1) + p.zj := 0], zi := p.zi - 1)
  }

  /** tile_left */
  function TileLeft(p: Puzzle): Puzzle
    requires InBounds(p)
  {
    if !p.valid then p
    else if p.zj == p.n - 1 then p.(valid := false)
    else
      PlaceOfCell(p.n, p.zi, p.zj);
      PlaceOfCell(p.n, p.zi, p.zj + 1);
      var t := p.cells[p.n * p.zi + (p.zj + 1)];
      p.(distance := Byte(p.distance + Abs((t - 1) % p.n - p.zj) - Abs((t - 1) % p.n - (p.zj + 1))),
         cells := p.cells[p.n * p.zi + p.zj := t][p.n * p.zi + (p.zj + 1) := 0], zj := p.zj + 1)
  }

  /** tile_right */
  function TileRight(p: Puzzle): Puzzle
    requires InBounds(p)
  {
    if !p.valid then p
    else if p.zj == 0 then p.(valid := false)
    else
      PlaceOfCell(p.n, p.zi, p.zj);
      PlaceOfCell(p.n, p.zi, p.zj - 1);
      var t := p.cells[p.n * p.zi + (p.zj - 1)];
      p.(distance := Byte(p.distance + Abs((t - 1) % p.n - p.zj) - Abs((t - 1) % p.n - (p.zj - 1))),
         cells := p.cells[p.n * p.zi + p.zj := t][p.n * p.zi + (p.zj - 1) := 0], zj := p.zj - 1)
  }

  function Apply(p: Puzzle, m: Move): Puzzle
    requires InBounds(p)
  {
    match m
    case Up => TileUp(p)
    case Down => TileDown(p)
    case Left => TileLeft(p)
    case Right => TileRight(p)
  }

  /** Where the tile that moves comes from. */
  function Source(p: Puzzle, m: Move): (int, int) {
    match m
    case Up => (p.zi + 1, p.zj)
    case Down => (p.zi - 1, p.zj)
    case Left => (p.zi, p.zj + 1)
    case Right => (p.zi, p.zj - 1)
  }

  lemma SlideBoard(n: nat, cells: seq<int>, z: nat, q: nat)
    requires Board(n, cells) && z < |cells| && q < |cells| && z != q && cells[z] == 0
    ensures cells[q] != 0 && Board(n, cells[z := cells[q]][q := 0])
    ensures cells[z := cells[q]][q := 0] == Exchange(cells, z, q)
  {
    var a, b := if z < q then z else q, if z < q then q else z;
    assert cells[a] != cells[b];
    ExchangeDistinct(cells, z, q);
  }

  lemma SlideDistance(n: nat, cells: seq<int>, z: nat, q: nat)
    requires n > 0 && z < |cells| && q < |cells| && z != q && cells[z] == 0
    ensures Distance(n, cells[z := cells[q]][q := 0], |cells|) ==
              Distance(n, cells, |cells|) + Away(n, cells[q], z) - Away(n, cells[q], q)
  {
    DistanceUpdate(n, cells, |cells|, z, cells[q]);
    DistanceUpdate(n, cells[z := cells[q]], |cells|, q, 0);
  }

  lemma EntriesDistinct(n: nat, cells: seq<int>)
    requires Board(n, cells)
    ensures Distinct(Entries(n, cells))
  {
    var e := Entries(n, cells);
    forall i, j | 0 <= i < j < |e| ensures e[i] != e[j] { assert cells[i] != cells[j]; }
  }

  lemma SlideParity(n: nat, cells: seq<int>, z: nat, q: nat)
    requires Board(n, cells) && z < |cells| && q < |cells| && z != q && cells[z] == 0
    ensures (Count(Entries(n, Exchange(cells, z, q))) + Count(Entries(n, cells))) % 2 == 1
  {
    var a, b := if z < q then z else q, if z < q then q else z;
    var e := Entries(n, cells);
    EntriesDistinct(n, cells);
    assert Entries(n, Exchange(cells, z, q)) == Exchange(e, a, b);
    ExchangeParity(e, a, b);
  }

  /** What a possible move does: the blank at `z` and the tile at `q`, one step away, change places. */
  ghost predicate Slides(p: Puzzle, r: Puzzle, z: nat, q: nat) {
    && p.n > 0 && z < |p.cells| && q < |p.cells| && z != q
    && r.n == p.n && r.valid && r.zi < p.n && r.zj < p.n && p.n * r.zi + r.zj == q
    && r.cells == p.cells[z := p.cells[q]][q := 0]
    && Abs(r.zi - p.zi) + Abs(r.zj - p.zj) == 1
    && r.distance == Byte(p.distance + Away(p.n, p.cells[q], z) - Away(p.n, p.cells[q], q))
    && Abs(Away(p.n, p.cells[q], z) - Away(p.n, p.cells[q], q)) == 1
  }

  lemma UpSlides(p: Puzzle, z: nat, q: nat)
    requires Good(p) && Possible(p, Up) && z == p.n * p.zi + p.zj && q == p.n * (p.zi + 1) + p.zj
    requires z < |p.cells| && q < |p.cells| && z != q && p.cells[q] != 0
    ensures InBounds(p) && Slides(p, TileUp(p), z, q)
  {
    AwayAt(p.n, p.cells[q], p.zi, p.zj, z);
    AwayAt(p.n, p.cells[q], p.zi + 1, p.zj, q);
  }

  lemma DownSlides(p: Puzzle, z: nat, q: nat)
    requires Good(p) && Possible(p, Down) && z == p.n * p.zi + p.zj && q == p.n * (p.zi - 1) + p.zj
    requires z < |p.cells| && q < |p.cells| && z != q && p.cells[q] != 0
    ensures InBounds(p) && Slides(p, TileDown(p), z, q)
  {
    AwayAt(p.n, p.cells[q], p.zi, p.zj, z);
    AwayAt(p.n, p.cells[q], p.zi - 1, p.zj, q);
  }

  lemma LeftSlides(p: Puzzle, z: nat, q: nat)
    requires Good(p) && Possible(p, Left) && z == p.n * p.zi + p.zj && q == p.n * p.zi + (p.zj + 1)
    requires z < |p.cells| && q < |p.cells| && z != q && p.cells[q] != 0
    ensures InBounds(p) && Slides(p, TileLeft(p), z, q)
  {
    AwayAt(p.n, p.cells[q], p.zi, p.zj, z);
    AwayAt(p.n, p.cells[q], p.zi, p.zj + 1, q);
  }

  lemma RightSlides(p: Puzzle, z: nat, q: nat)
    requires Good(p) && Possible(p, Right) && z == p.n * p.zi + p.zj && q == p.n * p.zi + (p.zj - 1)
    requires z < |p.cells| && q < |p.cells| && z != q && p.cells[q] != 0
    ensures InBounds(p) && Slides(p, TileRight(p), z, q)
  {
    AwayAt(p.n, p.cells[q], p.zi, p.zj, z);
    AwayAt(p.n, p.cells[q], p.zi, p.zj - 1, q);
  }

  lemma MoveSlides(p: Puzzle, m: Move) returns (z: nat, q: nat)
    requires Good(p) && Possible(p, m)
    ensures InBounds(p) && Slides(p, Apply(p, m), z, q) && p.cells[z] == 0
  {
    var (i, j) := Source(p, m);
    PlaceOfCell(p.n, p.zi, p.zj);
    PlaceOfCell(p.n, i, j);
    z, q := p.n * p.zi + p.zj, p.n * i + j;
    SlideBoard(p.n, p.cells, z, q);
    match m
    case Up => UpSlides(p, z, q);
    case Down => DownSlides(p, z, q);
    case Left => LeftSlides(p, z, q);
    case Right => RightSlides(p, z, q);
  }

  lemma AwayAt(n: nat, t: int, i: nat, j: nat, p: nat)
    requires i < n && j < n && t != 0 && p == n * i + j
    ensures Away(n, t, p) == Abs((t - 1) / n - i) + Abs((t - 1) % n - j)
  {
    PlaceOfCell(n, i, j);
  }

  // ---------------------------------------------------------------------------
  // Runs of moves
  // ---------------------------------------------------------------------------

  /** A possible move keeps the puzzle good and its solvability, and changes the distance by one. */
  lemma MoveKeeps(p: Puzzle, m: Move)
    requires Good(p) && Possible(p, m)
    ensures InBounds(p) && Good(Apply(p, m)) && Apply(p, m).n == p.n && (Solvable(Apply(p, m)) <==> Solvable(p))
    ensures Abs(Total(Apply(p, m)) - Total(p)) == 1
  {
    var z, q := MoveSlides(p, m);
    SlideKeeps(p, Apply(p, m), z, q);
  }

  lemma SlideKeeps(p: Puzzle, r: Puzzle, z: nat, q: nat)
    requires Good(p) && Slides(p, r, z, q) && p.cells[z] == 0
    ensures Good(r) && (Solvable(r) <==> Solvable(p))
    ensures Abs(Total(r) - Total(p)) == 1
  {
    SlideBoard(p.n, p.cells, z, q);
    SlideDistance(p.n, p.cells, z, q);
    ByteAdd(Distance(p.n, p.cells, |p.cells|), Away(p.n, p.cells[q], z) - Away(p.n, p.cells[q], q));
    SlideSolvable(p, r, z, q);
  }

  lemma SlideSolvable(p: Puzzle, r: Puzzle, z: nat, q: nat)
    requires Board(p.n, p.cells) && p.valid && Slides(p, r, z, q) && p.cells[z] == 0
    ensures Solvable(r) <==> Solvable(p)
  {
    SlideBoard(p.n, p.cells, z, q);
    SlideParity(p.n, p.cells, z, q);
    ParityKept(Count(Entries(p.n, p.cells)), Count(Entries(p.n, r.cells)), p.n, p.zi, p.zj, r.zi, r.zj);
  }

  lemma ByteAdd(x: int, d: int)
    ensures Byte(Byte(x) + d) == Byte(x + d)
  {
  }

  lemma ParityKept(c: nat, c': nat, n: nat, i: nat, j: nat, i': nat, j': nat)
    requires (c' + c) % 2 == 1 && Abs(i' - i) + Abs(j' - j) == 1
    ensures (c' + 2 * n - 2 - i' - j') % 2 == (c + 2 * n - 2 - i - j) % 2
  {
  }

  /** The tile below, above, right or left of the blank moves up, down, left or right into the blank's cell,
      the blank takes its place, and nothing else changes. It can exactly if there is such a tile. */
  lemma TileMoves(p: Puzzle, m: Move, i: int, j: int)
    requires Good(p)
    requires (i, j) == if m == Up then (p.zi + 1, p.zj) else if m == Down then (p.zi - 1, p.zj)
                       else if m == Left then (p.zi, p.zj + 1) else (p.zi, p.zj - 1)
    ensures InBounds(p) && (Apply(p, m).valid <==> 0 <= i < p.n && 0 <= j < p.n)
    ensures Apply(p, m).valid ==>
              var r, z, q := Apply(p, m), p.n * p.zi + p.zj, p.n * i + j;
              && (r.zi, r.zj) == (i, j) && 0 <= z < |p.cells| && 0 <= q < |p.cells| == |r.cells|
              && r.cells[z] == p.cells[q] && r.cells[q] == 0
              && forall k :: 0 <= k < |p.cells| && k != z && k != q ==> r.cells[k] == p.cells[k]
  {
    if 0 <= i < p.n && 0 <= j < p.n {
      PlaceOfCell(p.n, p.zi, p.zj);
      PlaceOfCell(p.n, i, j);
    }
  }

  function Opposite(m: Move): Move {
    match m
    case Up => Down
    case Down => Up
    case Left => Right
    case Right => Left
  }

  /** The opposite move is possible and takes the puzzle back, the stored distance included. */
  lemma MoveUndone(p: Puzzle, m: Move)
    requires Good(p) && Possible(p, m)
    ensures InBounds(p) && InBounds(Apply(p, m)) && Possible(Apply(p, m), Opposite(m))
    ensures Apply(Apply(p, m), Opposite(m)) == p
  {
    var z, q := MoveSlides(p, m);
    var r := Apply(p, m);
    SlideKeeps(p, r, z, q);
    BlankBack(p, m);
    var q', z' := MoveSlides(r, Opposite(m));
    var b := Apply(r, Opposite(m));
    SlideKeeps(r, b, q', z');
    SlideBack(p, r, b, z, q, q', z');
  }

  lemma SlideBack(p: Puzzle, r: Puzzle, b: Puzzle, z: nat, q: nat, q': nat, z': nat)
    requires Good(p) && Good(r) && Good(b) && b.zi == p.zi && b.zj == p.zj
    requires Slides(p, r, z, q) && p.cells[z] == 0 && Slides(r, b, q', z') && r.cells[q'] == 0
    ensures b == p
  {
    OneBlank(p, z);
    OneBlank(r, q');
    assert b.cells == p.cells;
  }

  lemma OneBlank(p: Puzzle, z: nat)
    requires Good(p) && z < |p.cells| && p.cells[z] == 0
    ensures z == p.n * p.zi + p.zj
  {
  }

  lemma BlankBack(p: Puzzle, m: Move)
    requires InBounds(p) && Possible(p, m) && InBounds(Apply(p, m))
    ensures Possible(Apply(p, m), Opposite(m))
    ensures Apply(Apply(p, m), Opposite(m)).zi == p.zi && Apply(Apply(p, m), Opposite(m)).zj == p.zj
  {
  }

  /** An impossible move makes the puzzle invalid, and it stays so. */
  lemma ImpossibleMove(p: Puzzle, m: Move)
    requires InBounds(p) && !Possible(p, m)
    ensures Apply(p, m) == p.(valid := false)
  {
  }

  ghost predicate Legal(p: Puzzle, ms: seq<Move>)
    decreases |ms|
  {
    ms == [] || (InBounds(p) && Possible(p, ms[0]) && Legal(Apply(p, ms[0]), ms[1..]))
  }

  ghost function Play(p: Puzzle, ms: seq<Move>): Puzzle
    requires Legal(p, ms)
    decreases |ms|
  {
    if ms == [] then p else Play(Apply(p, ms[0]), ms[1..])
  }

  /** Over any run of moves the stored distance is the recomputed one, solvability does not change, and
      the distance falls by at most one a move. */
  lemma {:induction false} RunKeeps(p: Puzzle, ms: seq<Move>)
    requires Good(p) && Legal(p, ms)
    ensures Good(Play(p, ms)) && Play(p, ms).n == p.n && (Solvable(Play(p, ms)) <==> Solvable(p))
    ensures Total(p) <= Total(Play(p, ms)) + |ms|
    decreases |ms|
  {
    if ms != [] {
      var r := Apply(p, ms[0]);
      MoveKeeps(p, ms[0]);
      RunKeeps(r, ms[1..]);
      assert Play(p, ms) == Play(r, ms[1..]);
    }
  }

  // ---------------------------------------------------------------------------
  // The solution
  // ---------------------------------------------------------------------------

  function SolutionCells(n: nat): (r: seq<int>)
    requires n > 0
    ensures |r| == n * n && forall k :: 0 <= k < n * n ==> r[k] == if k == n * n - 1 then 0 else k + 1
  {
    seq(n * n, k => if k == n * n - 1 then 0 else k + 1)
  }

  lemma {:induction false} SolutionAtHome(n: nat, k: nat)
    requires n > 0 && k <= n * n
    ensures Distance(n, SolutionCells(n), k) == 0
  {
    if k > 0 { SolutionAtHome(n, k - 1); }
  }

  lemma {:induction false} AscendingHasNone(s: seq<int>)
    requires forall i, j :: 0 <= i < j < |s| ==> s[i] < s[j]
    ensures Count(s) == 0
  {
    if s != [] {
      AscendingHasNone(s[1..]);
      NoneBelow(s[1..], s[0]);
    }
  }

  lemma {:induction false} NoneBelow(s: seq<int>, v: int)
    requires forall i :: 0 <= i < |s| ==> v < s[i]
    ensures CountBelow(s, v) == 0
  {
    if s != [] { NoneBelow(s[1..], v); }
  }

  ghost predicate Solved(p: Puzzle) {
    Good(p) && p.cells == SolutionCells(p.n)
  }

  lemma SolutionAscends(n: nat)
    requires n > 0
    ensures Count(Entries(n, SolutionCells(n))) == 0
  {
    AscendingHasNone(Entries(n, SolutionCells(n)));
  }

  lemma CornerPlace(n: nat, i: nat, j: nat)
    requires i < n && j < n && n * i + j == n * n - 1
    ensures i == n - 1 && j == n - 1
  {
    PlaceOfCell(n, i, j);
    PlaceOfCell(n, n - 1, n - 1);
    assert n * (n - 1) + (n - 1) == n * n - 1;
  }

  lemma BlankLast(p: Puzzle)
    requires Solved(p)
    ensures p.zi == p.n - 1 && p.zj == p.n - 1
  {
    CornerPlace(p.n, p.zi, p.zj);
  }

  lemma SolvedIsEven(p: Puzzle)
    requires p.valid && p.n > 0 && p.cells == SolutionCells(p.n) && p.zi == p.zj == p.n - 1
    ensures Solvable(p)
  {
    SolutionAscends(p.n);
  }

  lemma SolvedIsSolvable(p: Puzzle)
    requires Solved(p)
    ensures Solvable(p) && Total(p) == 0
  {
    BlankLast(p);
    SolvedIsEven(p);
    SolutionAtHome(p.n, |p.cells|);
  }

  /** lower_bound */
  function LowerBound(p: Puzzle): int {
    if p.valid then p.distance else p.n * p.n * p.n
  }

  /** Only solvable puzzles reach the solution, and the lower bound is one, also where the distance
      wraps in its byte. */
  lemma LowerBoundHolds(p: Puzzle, ms: seq<Move>)
    requires Good(p) && Legal(p, ms) && Solved(Play(p, ms))
    ensures Solvable(p) && Total(p) <= |ms|
    ensures LowerBound(p) <= |ms|
  {
    RunKeeps(p, ms);
    SolvedIsSolvable(Play(p, ms));
    ByteAtMost(Total(p));
  }

  /** It is the Manhattan distance exactly if that fits in the byte, and so always on boards of up to four rows. */
  lemma LowerBoundExact(p: Puzzle)
    requires Good(p)
    ensures LowerBound(p) == Total(p) <==> Total(p) < 128
    ensures p.n <= 4 ==> LowerBound(p) == Total(p)
  {
    if p.n <= 4 {
      DistanceAtMost(p.n, p.cells, |p.cells|);
      SmallBoards(p.n);
    }
  }

  lemma SmallBoards(n: nat)
    requires 0 < n <= 4
    ensures n * n * (2 * n - 2) < 128
  {
    assert n == 1 || n == 2 || n == 3 || n == 4;
  }

  lemma {:induction false} DistanceAtMost(n: nat, cells: seq<int>, k: nat)
    requires Board(n, cells) && k <= |cells|
    ensures Distance(n, cells, k) <= k * (2 * n - 2)
  {
    if k > 0 {
      DistanceAtMost(n, cells, k - 1);
      AwayAtMost(n, cells[k - 1], k - 1);
      assert k * (2 * n - 2) == (k - 1) * (2 * n - 2) + (2 * n - 2);
    }
  }

  /** No tile is farther away than one corner from the other. */
  lemma AwayAtMost(n: nat, t: int, p: nat)
    requires n > 0 && 0 <= t < n * n && p < n * n
    ensures Away(n, t, p) <= 2 * n - 2
  {
    RowBelow(n, p);
    if t > 0 { RowBelow(n, t - 1); }
  }

  lemma RowBelow(n: nat, p: nat)
    requires n > 0 && p < n * n
    ensures 0 <= p / n < n && 0 <= p % n < n
  {
    var i, j := p / n, p % n;
    assert p == n * i + j;
  }

  /** Wrapping into a byte never makes a distance larger. */
  lemma ByteAtMost(x: nat)
    ensures Byte(x) <= x
  {
  }

  // ---------------------------------------------------------------------------
  // The loops
  // ---------------------------------------------------------------------------

  /** The double loop over the pairs of entries. */
  method CountInversions(e: seq<int>) returns (parity: nat)
    ensures parity == Count(e)
  {
    parity := 0;
    for i := 0 to |e|
      invariant parity + Count(e[i..]) == Count(e)
    {
      ghost var before := parity;
      assert e[i..][0] == e[i] && e[i..][1..] == e[i + 1..];
      for j := i + 1 to |e|
        invariant parity + CountBelow(e[j..], e[i]) == before + CountBelow(e[i + 1..], e[i])
      {
        assert e[j..][0] == e[j] && e[j..][1..] == e[j + 1..];
        if e[i] > e[j] {
          parity := parity + 1;
        }
      }
    }
  }

  /** solvable */
  method IsSolvable(p: Puzzle) returns (b: bool)
    requires InBounds(p)
    ensures b <==> Solvable(p)
  {
    if !p.valid {
      return false;
    }
    var entries: seq<int> := [];
    for k := 0 to |p.cells|
      invariant |entries| == k
      invariant forall a :: 0 <= a < k ==> entries[a] == if p.cells[a] == 0 then p.n * p.n else p.cells[a]
    {
      entries := entries + [if p.cells[k] == 0 then p.n * p.n else p.cells[k]];
    }
    assert entries == Entries(p.n, p.cells);
    var parity := CountInversions(entries);
    parity := parity + 2 * p.n - 2 - p.zi - p.zj;
    return parity % 2 == 0;
  }

  /** The loop over the list: the tiles met, the place of the blank and the distance. */
  method ScanList(n: nat, list: seq<int>)
    returns (cells: seq<int>, check: set<int>, zi: nat, zj: nat, distance: int)
    requires n > 0 && |list| == n * n
    ensures Scanned(n, list, |list|, cells, check, zi, zj, distance)
  {
    cells, check, zi, zj, distance := [], {}, 0, 0, 0;
    var k := 0;
    ghost var x: Scan := ScanState(n, list, 0, [], {}, 0, 0, 0);
    for i := 0 to n
      invariant k == n * i && x == ScanState(n, list, k, cells, check, zi, zj, distance)
    {
      for j := 0 to n
        invariant k == n * i + j && x == ScanState(n, list, k, cells, check, zi, zj, distance)
      {
        x := ScanNext(x, i, j);
        var t := list[k];
        cells := cells + [Byte(t)];
        check := check + {t};
        if t == 0 {
          zi, zj := i, j;
        } else {
          distance := Farther(n, t, i, j, distance);
        }
        k := k + 1;
      }
      assert n * (i + 1) == n * i + n;
    }
  }

  /** Tiles kept in signed bytes. */
  ghost predicate Stored(list: seq<int>, cells: seq<int>) {
    |cells| == |list| && forall k :: 0 <= k < |list| ==> cells[k] == Byte(list[k])
  }

  lemma SmallBoard(n: nat)
    ensures n <= 11 <==> n * n <= 128
  {
    if n >= 12 { ProductMonotone(n, 12, n); ProductMonotone(12, 12, n); } else { ProductMonotone(n, n, 11); }
  }

  /** The tiles fit in their bytes exactly on boards of at most 11 rows. */
  lemma StoredTiles(n: nat, list: seq<int>, cells: seq<int>)
    requires |list| == n * n && Permutation(list) && Stored(list, cells)
    ensures n <= 11 ==> cells == list
    ensures n > 11 ==> !Permutation(cells)
  {
    SmallBoard(n);
    if n > 11 {
      var k := PlaceOf(list, 128);
      assert cells[k] == -128;
    }
  }

  lemma CoordinatesFit(n: nat, zi: nat, zj: nat)
    requires n <= 11 && zi < n && zj < n
    ensures zi % 0x100 == zi && zj % 0x100 == zj
  {
  }

  lemma BuiltPuzzle(n: nat, list: seq<int>, p: Puzzle, zi: nat, zj: nat)
    requires 0 < n && |list| == n * n && Permutation(list) && Stored(list, p.cells) && p.n == n && p.valid
    requires zi < n && zj < n && 0 <= n * zi + zj < |list| && list[n * zi + zj] == 0
    requires p.zi == zi % 0x100 && p.zj == zj % 0x100 && p.distance == Byte(Distance(n, list, |list|))
    ensures Good(p) <==> n <= 11
    ensures n <= 11 ==> p.cells == list
  {
    StoredTiles(n, list, p.cells);
    if n <= 11 { CoordinatesFit(n, zi, zj); }
  }

  /** The puzzle built from a list of tiles: valid exactly when the list holds every tile, with the
      distance computed from the list.  Its cells are the tiles exactly on boards of at most 11 rows. */
  method FromList(n: nat, list: seq<int>) returns (p: Puzzle)
    requires 0 < n && |list| == n * n && forall k :: 0 <= k < n * n ==> 0 <= list[k] < n * n
    ensures p.valid <==> Permutation(list)
    ensures p.n == n && Stored(list, p.cells) && p.distance == Byte(Distance(n, list, |list|))
    ensures p.valid ==> (Good(p) <==> n <= 11) && (n <= 11 ==> p.cells == list)
  {
    var cells, check, zi, zj, distance := ScanList(n, list);
    assert list[..|list|] == list;
    var all := AllMet(list, check);
    p := Puzzle(n, cells, all, zi % 0x100, zj % 0x100, distance);
    if all {
      assert 0 in list;
      BuiltPuzzle(n, list, p, zi, zj);
    }
  }

  /** The loop over the tiles that should have been met. */
  method AllMet(list: seq<int>, check: set<int>) returns (all: bool)
    requires forall x :: x in check <==> x in list
    requires forall k :: 0 <= k < |list| ==> 0 <= list[k] < |list|
    ensures all <==> Permutation(list)
    ensures all ==> forall x :: 0 <= x < |list| ==> x in list
  {
    for v := 0 to |list|
      invariant forall x :: 0 <= x < v ==> x in list
    {
      if v !in check {
        NotAPermutation(list, v);
        return false;
      }
    }
    OntoIsDistinct(list);
    return true;
  }

  lemma DistanceStep(n: nat, list: seq<int>, i: nat, j: nat, k: nat, distance: int)
    requires i < n && j < n && k == n * i + j && k < |list| && distance == Byte(Distance(n, list, k))
    ensures list[k] == 0 ==> distance == Byte(Distance(n, list, k + 1))
    ensures list[k] != 0 ==> Farther(n, list[k], i, j, distance) == Byte(Distance(n, list, k + 1))
  {
    if list[k] != 0 {
      AwayAt(n, list[k], i, j, k);
      var x, y := Abs((list[k] - 1) / n - i), Abs((list[k] - 1) % n - j);
      ByteAdd(Distance(n, list, k), x);
      ByteAdd(Distance(n, list, k) + x, y);
    }
  }

  /** The stored distance with that of tile `t` in row i and column j added, in two steps. */
  function Farther(n: nat, t: int, i: nat, j: nat, distance: int): int
    requires n > 0
  {
    Byte(Byte(distance + Abs((t - 1) / n - i)) + Abs((t - 1) % n - j))
  }

  /** What the loop over the list has found in its first `k` tiles. */
  ghost predicate Scanned(n: nat, list: seq<int>, k: nat, cells: seq<int>, check: set<int>, zi: nat, zj: nat,
      distance: int)
  {
    && 0 < n && k <= |list| == n * n && zi < n && zj < n
    && (forall x :: x in check <==> x in list[..k])
    && (0 in list[..k] ==> 0 <= n * zi + zj < |list| && list[n * zi + zj] == 0)
    && distance == Byte(Distance(n, list, k)) && Stored(list[..k], cells)
  }

  datatype ScanState =
    ScanState(n: nat, list: seq<int>, k: nat, cells: seq<int>, check: set<int>, zi: nat, zj: nat, distance: int)

  lemma NothingScanned()
    ensures Scanned(1, [0], 0, [], {}, 0, 0, 0)
  {
  }

  type Scan = x: ScanState | Scanned(x.n, x.list, x.k, x.cells, x.check, x.zi, x.zj, x.distance)
    ghost witness (NothingScanned(); ScanState(1, [0], 0, [], {}, 0, 0, 0))

  /** The next tile. */
  function AddTile(x: ScanState, i: nat, j: nat): ScanState
    requires x.n > 0 && x.k < |x.list|
  {
    var t := x.list[x.k];
    var y := x.(k := x.k + 1, cells := x.cells + [Byte(t)], check := x.check + {t});
    if t == 0 then y.(zi := i, zj := j) else y.(distance := Farther(x.n, t, i, j, x.distance))
  }

  lemma OneMoreTile(list: seq<int>, k: nat, check: set<int>)
    requires k < |list| && forall x :: x in check <==> x in list[..k]
    ensures forall x :: x in check + {list[k]} <==> x in list[..k + 1]
    ensures 0 in list[..k + 1] <==> 0 in list[..k] || list[k] == 0
  {
    assert list[..k + 1] == list[..k] + [list[k]];
  }

  lemma OneMoreStored(list: seq<int>, k: nat, cells: seq<int>)
    requires k < |list| && Stored(list[..k], cells)
    ensures Stored(list[..k + 1], cells + [Byte(list[k])])
  {
  }

  lemma ScanNext(x: Scan, i: nat, j: nat) returns (y: Scan)
    requires i < x.n && j < x.n && x.k == x.n * i + j
    ensures x.k < |x.list| && y == AddTile(x, i, j)
  {
    PlaceOfCell(x.n, i, j);
    DistanceStep(x.n, x.list, i, j, x.k, x.distance);
    OneMoreTile(x.list, x.k, x.check);
    OneMoreStored(x.list, x.k, x.cells);
    y := AddTile(x, i, j);
  }

  lemma NotAPermutation(list: seq<int>, v: int)
    requires 0 <= v < |list| && v !in list
    ensures !Permutation(list)
  {
    if Permutation(list) {
      var i := PlaceOf(list, v);
    }
  }
}
