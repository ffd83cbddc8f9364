/** Square-and-multiply on matrices kept in flat arrays of 32-bit words. */
module MatrixPower {
  import opened DivMod

  type Matrix = seq<seq<int>>

  ghost predicate Square(a: Matrix, m: nat) {
    |a| == m && forall i :: 0 <= i < m ==> |a[i]| == m
  }

  // ---------------------------------------------------------------------------
  // Matrices of integers
  // ---------------------------------------------------------------------------

  /** The sum of a[i][l] * b[l][j] over l below k. */
  ghost function Dot(a: Matrix, b: Matrix, m: nat, i: nat, j: nat, k: nat): int
    requires Square(a, m) && Square(b, m) && i < m && j < m && k <= m
  {
    if k == 0 then 0 else Dot(a, b, m, i, j, k - 1) + a[i][k - 1] * b[k - 1][j]
  }

  ghost function Mul(a: Matrix, b: Matrix, m: nat): (r: Matrix)
    requires Square(a, m) && Square(b, m)
    ensures Square(r, m)
    ensures forall i, j :: 0 <= i < m && 0 <= j < m ==> r[i][j] == Dot(a, b, m, i, j, m)
  {
    seq(m, i requires 0 <= i < m => seq(m, j requires 0 <= j < m => Dot(a, b, m, i, j, m)))
  }

  ghost function Identity(m: nat): (r: Matrix)
    ensures Square(r, m)
    ensures forall i, j :: 0 <= i < m && 0 <= j < m ==> r[i][j] == if i == j then 1 else 0
  {
    seq(m, i requires 0 <= i < m => seq(m, j requires 0 <= j < m => if i == j then 1 else 0))
  }

  ghost function Power(a: Matrix, m: nat, n: nat): (r: Matrix)
    requires Square(a, m)
    ensures Square(r, m)
  {
    if n == 0 then Identity(m) else Mul(a, Power(a, m, n - 1), m)
  }

  /** The double sum of a[i][l] * b[l][k] * c[k][j] over k below p and l below q, row by row. */
  ghost function RowSum(a: Matrix, b: Matrix, c: Matrix, m: nat, i: nat, j: nat, p: nat, q: nat): int
    requires Square(a, m) && Square(b, m) && Square(c, m) && i < m && j < m && p <= m && q <= m
  {
    if p == 0 then 0 else RowSum(a, b, c, m, i, j, p - 1, q) + Dot(a, b, m, i, p - 1, q) * c[p - 1][j]
  }

  /** One more l adds a[i][q] times an entry of b * c. */
  lemma {:induction false} RowSumStep(a: Matrix, b: Matrix, c: Matrix, m: nat, i: nat, j: nat, p: nat, q: nat)
    requires Square(a, m) && Square(b, m) && Square(c, m) && i < m && j < m && p <= m && q < m
    ensures RowSum(a, b, c, m, i, j, p, q + 1) == RowSum(a, b, c, m, i, j, p, q) + a[i][q] * Dot(b, c, m, q, j, p)
  {
    if p > 0 {
      RowSumStep(a, b, c, m, i, j, p - 1, q);
      var d, x, y, z := Dot(a, b, m, i, p - 1, q), a[i][q], b[q][p - 1], c[p - 1][j];
      assert Dot(a, b, m, i, p - 1, q + 1) == d + x * y;
      Distribute(d, x, y, z, Dot(b, c, m, q, j, p - 1));
    }
  }

  lemma Distribute(d: int, x: int, y: int, z: int, e: int)
    ensures (d + x * y) * z == d * z + x * y * z
    ensures x * (e + y * z) == x * e + x * y * z
  {
  }

  lemma {:induction false} RowSumIsDot(a: Matrix, b: Matrix, c: Matrix, m: nat, i: nat, j: nat, q: nat)
    requires Square(a, m) && Square(b, m) && Square(c, m) && i < m && j < m && q <= m
    ensures RowSum(a, b, c, m, i, j, m, q) == Dot(a, Mul(b, c, m), m, i, j, q)
  {
    if q > 0 {
      RowSumIsDot(a, b, c, m, i, j, q - 1);
      RowSumStep(a, b, c, m, i, j, m, q - 1);
    } else {
      RowSumEmpty(a, b, c, m, i, j, m);
    }
  }

  lemma {:induction false} RowSumEmpty(a: Matrix, b: Matrix, c: Matrix, m: nat, i: nat, j: nat, p: nat)
    requires Square(a, m) && Square(b, m) && Square(c, m) && i < m && j < m && p <= m
    ensures RowSum(a, b, c, m, i, j, p, 0) == 0
  {
    if p > 0 { RowSumEmpty(a, b, c, m, i, j, p - 1); }
  }

  lemma {:induction false} DotIsRowSum(a: Matrix, b: Matrix, c: Matrix, m: nat, i: nat, j: nat, p: nat)
    requires Square(a, m) && Square(b, m) && Square(c, m) && i < m && j < m && p <= m
    ensures Dot(Mul(a, b, m), c, m, i, j, p) == RowSum(a, b, c, m, i, j, p, m)
  {
    if p > 0 { DotIsRowSum(a, b, c, m, i, j, p - 1); }
  }

  lemma Same(a: Matrix, b: Matrix, m: nat)
    requires Square(a, m) && Square(b, m)
    requires forall i, j :: 0 <= i < m && 0 <= j < m ==> a[i][j] == b[i][j]
    ensures a == b
  {
    forall i | 0 <= i < m ensures a[i] == b[i] { }
  }

  /** Multiplication is associative. */
  lemma MulAssociative(a: Matrix, b: Matrix, c: Matrix, m: nat)
    requires Square(a, m) && Square(b, m) && Square(c, m)
    ensures Mul(Mul(a, b, m), c, m) == Mul(a, Mul(b, c, m), m)
  {
    forall i, j | 0 <= i < m && 0 <= j < m
      ensures Mul(Mul(a, b, m), c, m)[i][j] == Mul(a, Mul(b, c, m), m)[i][j]
    {
      DotIsRowSum(a, b, c, m, i, j, m);
      RowSumIsDot(a, b, c, m, i, j, m);
    }
    Same(Mul(Mul(a, b, m), c, m), Mul(a, Mul(b, c, m), m), m);
  }

  lemma {:induction false} DotIdentity(a: Matrix, m: nat, i: nat, j: nat, k: nat)
    requires Square(a, m) && i < m && j < m && k <= m
    ensures Dot(Identity(m), a, m, i, j, k) == if i < k then a[i][j] else 0
    ensures Dot(a, Identity(m), m, i, j, k) == if j < k then a[i][j] else 0
  {
    if k > 0 { DotIdentity(a, m, i, j, k - 1); }
  }

  lemma MulIdentity(a: Matrix, m: nat)
    requires Square(a, m)
    ensures Mul(Identity(m), a, m) == a && Mul(a, Identity(m), m) == a
  {
    forall i, j | 0 <= i < m && 0 <= j < m
      ensures Mul(Identity(m), a, m)[i][j] == a[i][j] && Mul(a, Identity(m), m)[i][j] == a[i][j]
    {
      DotIdentity(a, m, i, j, m);
    }
    Same(Mul(Identity(m), a, m), a, m);
    Same(Mul(a, Identity(m), m), a, m);
  }

  /** (a * a)^h is a^(2h). */
  lemma {:induction false} PowerOfSquare(a: Matrix, m: nat, h: nat)
    requires Square(a, m)
    ensures Power(Mul(a, a, m), m, h) == Power(a, m, 2 * h)
  {
    if h > 0 {
      PowerOfSquare(a, m, h - 1);
      MulAssociative(a, a, Power(a, m, 2 * h - 2), m);
      assert Power(a, m, 2 * h) == Mul(a, Power(a, m, 2 * h - 1), m);
    }
  }

  /** What a round of square-and-multiply keeps: ans * t^n. */
  lemma RoundKeeps(ans: Matrix, t: Matrix, m: nat, n: nat)
    requires Square(ans, m) && Square(t, m) && n > 0
    ensures Mul(ans, Power(t, m, n), m) ==
              Mul(if n % 2 == 1 then Mul(ans, t, m) else ans, Power(Mul(t, t, m), m, n / 2), m)
  {
    var h := n / 2;
    PowerOfSquare(t, m, h);
    if n % 2 == 1 {
      assert n == 2 * h + 1 && Power(t, m, n) == Mul(t, Power(t, m, 2 * h), m);
      MulAssociative(ans, t, Power(t, m, 2 * h), m);
    } else {
      assert n == 2 * h;
    }
  }

  // ---------------------------------------------------------------------------
  // Flat arrays of words
  // ---------------------------------------------------------------------------

  function Residue(x: int): nat {
    x % W
  }

  /** m[i * M + j] */
  function Cell(m: nat, i: nat, j: nat): nat {
    m * i + j
  }

  /** The first p cells hold the entries of `a` modulo 2^32, row by row. */
  ghost predicate Filled(cells: seq<nat>, a: Matrix, m: nat, p: nat) {
    && Square(a, m) && |cells| == m * m && p <= m * m
    && forall i: nat, j: nat {:trigger Cell(m, i, j)} :: i < m && j < m && Cell(m, i, j) < p ==>
         Cell(m, i, j) < |cells| && cells[Cell(m, i, j)] == Residue(a[i][j])
  }

  datatype FilledState = FilledState(cells: seq<nat>, a: Matrix, m: nat, p: nat)

  type Filling = f: FilledState | Filled(f.cells, f.a, f.m, f.p) ghost witness FilledState([], [], 0, 0)

  lemma StartFilling(cells: seq<nat>, a: Matrix, m: nat) returns (f: Filling)
    requires Square(a, m) && |cells| == m * m
    ensures f == FilledState(cells, a, m, 0)
  {
    f := FilledState(cells, a, m, 0);
  }

  lemma FillEntry(cells: seq<nat>, a: Matrix, m: nat, i: nat, j: nat, v: nat, i': nat, j': nat)
    requires i < m && j < m && Filled(cells, a, m, Cell(m, i, j)) && v == Residue(a[i][j]) && Cell(m, i, j) < |cells|
    requires i' < m && j' < m && Cell(m, i', j') <= Cell(m, i, j)
    ensures Cell(m, i', j') < |cells| && cells[Cell(m, i, j) := v][Cell(m, i', j')] == Residue(a[i'][j'])
  {
    if Cell(m, i', j') == Cell(m, i, j) {
      PlaceOfCell(m, i, j);
      PlaceOfCell(m, i', j');
    }
  }

  /** The next cell in row-by-row order is written. */
  lemma FillNext(f: Filling, i: nat, j: nat, v: nat) returns (g: Filling)
    requires i < f.m && j < f.m && f.p == Cell(f.m, i, j) && v == Residue(f.a[i][j])
    ensures f.p < |f.cells| && g == FilledState(f.cells[f.p := v], f.a, f.m, f.p + 1)
  {
    PlaceOfCell(f.m, i, j);
    forall i': nat, j': nat | i' < f.m && j' < f.m && Cell(f.m, i', j') <= f.p
      ensures Cell(f.m, i', j') < |f.cells| && f.cells[f.p := v][Cell(f.m, i', j')] == Residue(f.a[i'][j'])
    {
      FillEntry(f.cells, f.a, f.m, i, j, v, i', j');
    }
    g := FilledState(f.cells[f.p := v], f.a, f.m, f.p + 1);
  }

  /** An entry read back. */
  lemma ReadEntry(f: Filling, i: nat, j: nat)
    requires f.p == f.m * f.m && i < f.m && j < f.m
    ensures Cell(f.m, i, j) < |f.cells| && f.cells[Cell(f.m, i, j)] == Residue(f.a[i][j])
  {
    PlaceOfCell(f.m, i, j);
  }

  lemma AddProduct(c: int, x: int, y: int)
    ensures Residue(Residue(c) + Residue(x) * Residue(y)) == Residue(c + x * y)
  {
    var a, b, k := x / W, y / W, c / W;
    assert x == W * a + x % W && y == W * b + y % W && c == W * k + c % W;
    var q := k + W * a * b + a * (y % W) + b * (x % W);
    assert x * y == W * (W * a * b + a * (y % W) + b * (x % W)) + (x % W) * (y % W);
    WholeMultiple(c % W + (x % W) * (y % W), q);
  }

  lemma WholeMultiple(r: int, q: int)
    ensures (W * q + r) % W == r % W
  {
    DivModUnique(W * q + r, W, q + r / W, r % W);
  }

  /** put and get are m[i * M + j]; the loops run over all cells in row-by-row order. */
  class Fib {
    const m: nat
    const A: array<nat>
    const T: array<nat>
    const ans: array<nat>
    const tmp: array<nat>

    ghost predicate Valid() {
      && A.Length == T.Length == ans.Length == tmp.Length == m * m
      && A != T && A != ans && A != tmp && T != ans && T != tmp && ans != tmp
    }

    /** bench_fib_prepare */
    constructor (m: nat)
      ensures this.m == m && Valid() && fresh(A) && fresh(T) && fresh(ans) && fresh(tmp)
    {
      this.m := m;
      A := new nat[m * m];
      T := new nat[m * m];
      ans := new nat[m * m];
      tmp := new nat[m * m];
    }

    /** The innermost loop of mult. */
    method MultEntry(c: array<nat>, a: array<nat>, b: array<nat>, i: nat, j: nat, ghost x: Filling, ghost y: Filling)
      requires c != a && c != b && i < m && j < m && c.Length == m * m
      requires x == FilledState(a[..], x.a, m, m * m) && y == FilledState(b[..], y.a, m, m * m)
      requires Cell(m, i, j) < c.Length
      modifies c
      ensures c[..] == old(c[..])[Cell(m, i, j) := Residue(Dot(x.a, y.a, m, i, j, m))]
    {
      ghost var before := c[..];
      var at := Cell(m, i, j);
      c[at] := 0;
      for k := 0 to m
        invariant c[..] == before[at := Residue(Dot(x.a, y.a, m, i, j, k))]
        invariant a[..] == x.cells && b[..] == y.cells
      {
        ReadEntry(x, i, k);
        ReadEntry(y, k, j);
        AddProduct(Dot(x.a, y.a, m, i, j, k), x.a[i][k], y.a[k][j]);
        var u, v := Cell(m, i, k), Cell(m, k, j);
        assert a[u] == x.cells[u] && b[v] == y.cells[v];
        c[at] := Residue(c[at] + a[u] * b[v]);
      }
    }

    /** mult: c becomes a * b. */
    method Mult(c: array<nat>, a: array<nat>, b: array<nat>, ghost x: Filling, ghost y: Filling)
      returns (ghost z: Filling)
      requires c != a && c != b && c.Length == m * m
      requires x == FilledState(a[..], x.a, m, m * m) && y == FilledState(b[..], y.a, m, m * m)
      modifies c
      ensures z == FilledState(c[..], Mul(x.a, y.a, m), m, m * m)
    {
      z := StartFilling(c[..], Mul(x.a, y.a, m), m);
      for i := 0 to m
        invariant z == FilledState(c[..], Mul(x.a, y.a, m), m, m * i)
        invariant a[..] == x.cells && b[..] == y.cells
      {
        for j := 0 to m
          invariant z == FilledState(c[..], Mul(x.a, y.a, m), m, m * i + j)
          invariant a[..] == x.cells && b[..] == y.cells
        {
          z := FillNext(z, i, j, Residue(Dot(x.a, y.a, m, i, j, m)));
          MultEntry(c, a, b, i, j, x, y);
        }
        assert m * (i + 1) == m * i + m;
      }
    }

    /** assign: a becomes b. */
    method Assign(a: array<nat>, b: array<nat>, ghost y: Filling) returns (ghost z: Filling)
      requires a != b && a.Length == m * m && y == FilledState(b[..], y.a, m, m * m)
      modifies a
      ensures z == FilledState(a[..], y.a, m, m * m)
    {
      z := StartFilling(a[..], y.a, m);
      for i := 0 to m
        invariant z == FilledState(a[..], y.a, m, m * i) && b[..] == y.cells
      {
        for j := 0 to m
          invariant z == FilledState(a[..], y.a, m, m * i + j) && b[..] == y.cells
        {
          var at := Cell(m, i, j);
          ReadEntry(y, i, j);
          z := FillNext(z, i, j, b[at]);
          a[at] := b[at];
        }
        assert m * (i + 1) == m * i + m;
      }
    }

    /** The first loop of bench_fib_run: A and T become the step matrix, ans the identity. */
    method Prepare() returns (ghost t: Filling, ghost r: Filling)
      requires Valid()
      modifies A, T, ans
      ensures t == FilledState(T[..], StepMatrix(m), m, m * m) && r == FilledState(ans[..], Identity(m), m, m * m)
    {
      t := StartFilling(T[..], StepMatrix(m), m);
      r := StartFilling(ans[..], Identity(m), m);
      for i := 0 to m
        invariant t == FilledState(T[..], StepMatrix(m), m, m * i) && r == FilledState(ans[..], Identity(m), m, m * i)
      {
        for j := 0 to m
          invariant t == FilledState(T[..], StepMatrix(m), m, m * i + j)
          invariant r == FilledState(ans[..], Identity(m), m, m * i + j)
        {
          t, r := PrepareCell(i, j, t, r);
        }
        assert m * (i + 1) == m * i + m;
      }
    }

    /** Its body. */
    method PrepareCell(i: nat, j: nat, ghost t: Filling, ghost r: Filling)
      returns (ghost t': Filling, ghost r': Filling)
      requires Valid() && i < m && j < m
      requires t == FilledState(T[..], StepMatrix(m), m, Cell(m, i, j))
      requires r == FilledState(ans[..], Identity(m), m, Cell(m, i, j))
      modifies A, T, ans
      ensures t' == FilledState(T[..], StepMatrix(m), m, Cell(m, i, j) + 1)
      ensures r' == FilledState(ans[..], Identity(m), m, Cell(m, i, j) + 1)
    {
      var at := Cell(m, i, j);
      var x := if i == m - 1 || j == i + 1 then 1 else 0;
      t' := FillNext(t, i, j, x);
      r' := FillNext(r, i, j, if i == j then 1 else 0);
      A[at] := x;
      T[at] := x;
      ans[at] := if i == j then 1 else 0;
    }

    /** bench_fib_run for any exponent: ans is that power of the step matrix, modulo 2^32. */
    method Run(exponent: nat) returns (ghost r: Filling)
      requires Valid()
      modifies A, T, ans, tmp
      ensures r == FilledState(ans[..], Power(StepMatrix(m), m, exponent), m, m * m)
    {
      ghost var t;
      t, r := Prepare();
      MulIdentity(Power(StepMatrix(m), m, exponent), m);
      var n := exponent;
      while n > 0
        invariant t == FilledState(T[..], t.a, m, m * m) && r == FilledState(ans[..], r.a, m, m * m)
        invariant Mul(r.a, Power(t.a, m, n), m) == Power(StepMatrix(m), m, exponent)
      {
        RoundKeeps(r.a, t.a, m, n);
        ghost var p;
        if n % 2 == 1 {
          p := Mult(tmp, ans, T, r, t);
          r := Assign(ans, tmp, p);
        }
        p := Mult(tmp, T, T, t, t);
        t := Assign(T, tmp, p);
        n := n / 2;
      }
      MulIdentity(r.a, m);
    }
  }

  // ---------------------------------------------------------------------------
  // What the power counts
  // ---------------------------------------------------------------------------

  /** Ones in the last row and right above the diagonal. */
  ghost function StepMatrix(m: nat): (r: Matrix)
    ensures Square(r, m)
    ensures forall i, j :: 0 <= i < m && 0 <= j < m ==> r[i][j] == if i == m - 1 || j == i + 1 then 1 else 0
  {
    seq(m, i requires 0 <= i < m => seq(m, j requires 0 <= j < m => if i == m - 1 || j == i + 1 then 1 else 0))
  }

  /** f(k): zeros, then a one at place m - 1, then each the sum of the m before it. */
  function Sequence(m: nat, k: nat): nat
    requires m > 0
    decreases k, 2
  {
    if k < m - 1 then 0 else if k == m - 1 then 1 else WindowSum(m, k - m, m)
  }

  function WindowSum(m: nat, s: nat, c: nat): nat
    requires m > 0
    decreases s + c, 1
  {
    if c == 0 then 0 else WindowSum(m, s, c - 1) + Sequence(m, s + c - 1)
  }

  /** The last column of the n-th power lists m consecutive numbers of the sequence. */
  lemma {:induction false} PowerIsSequence(m: nat, n: nat, i: nat)
    requires i < m
    ensures Power(StepMatrix(m), m, n)[i][m - 1] == Sequence(m, n + i)
  {
    if n > 0 {
      var p := Power(StepMatrix(m), m, n - 1);
      forall l: nat | l < m ensures p[l][m - 1] == Sequence(m, n - 1 + l) {
        PowerIsSequence(m, n - 1, l);
      }
      StepSequence(m, p, n - 1, i);
      assert Power(StepMatrix(m), m, n) == Mul(StepMatrix(m), p, m);
    }
  }

  /** Multiplying by the step matrix moves the window by one. */
  lemma StepSequence(m: nat, p: Matrix, s: nat, i: nat)
    requires i < m && Square(p, m) && forall l: nat :: l < m ==> p[l][m - 1] == Sequence(m, s + l)
    ensures Dot(StepMatrix(m), p, m, i, m - 1, m) == Sequence(m, s + 1 + i)
  {
    if i == m - 1 {
      LastRowSums(m, p, s, m);
    } else {
      RowShifts(m, p, i, m);
    }
  }

  lemma {:induction false} LastRowSums(m: nat, p: Matrix, s: nat, c: nat)
    requires m > 0 && Square(p, m) && c <= m && forall l: nat :: l < m ==> p[l][m - 1] == Sequence(m, s + l)
    ensures Dot(StepMatrix(m), p, m, m - 1, m - 1, c) == WindowSum(m, s, c)
  {
    if c > 0 { LastRowSums(m, p, s, c - 1); }
  }

  lemma {:induction false} RowShifts(m: nat, p: Matrix, i: nat, c: nat)
    requires Square(p, m) && i < m - 1 && c <= m
    ensures Dot(StepMatrix(m), p, m, i, m - 1, c) == if c > i + 1 then p[i + 1][m - 1] else 0
  {
    if c > 0 { RowShifts(m, p, i, c - 1); }
  }
}
