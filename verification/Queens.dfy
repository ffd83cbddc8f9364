/** Counting the placements of non-attacking queens with the attacked columns held in words. */
module Queens {
  import opened DivMod
  import opened Bits
  import opened Digits
  import opened Permutations

  // ---------------------------------------------------------------------------
  // Placements
  // ---------------------------------------------------------------------------

  /** Two queens do not share a column or a diagonal; row i holds its queen at column b[i]. */
  predicate Peaceful(b: seq<nat>, i: nat, j: nat)
    requires i < j < |b|
  {
    b[i] != b[j] && b[i] + (j - i) != b[j] && b[i] != b[j] + (j - i)
  }

  ghost predicate Safe(b: seq<nat>) {
    forall i, j :: 0 <= i < j < |b| ==> Peaceful(b, i, j)
  }

  /** Every way to put a queen in each of `k` rows of `n` columns. */
  ghost function Boards(n: nat, k: nat): set<seq<nat>> {
    if k == 0 then {[]} else set b, c: nat | b in Boards(n, k - 1) && c in Columns(n) :: b + [c]
  }

  lemma {:induction false} BoardsMembers(n: nat, k: nat, b: seq<nat>)
    ensures b in Boards(n, k) <==> |b| == k && forall i :: 0 <= i < k ==> b[i] < n
  {
    if k > 0 {
      if b != [] {
        var front, c := b[..|b| - 1], b[|b| - 1];
        assert b == front + [c];
        BoardsMembers(n, k - 1, front);
        if b in Boards(n, k) {
          var b', c': nat :| b' in Boards(n, k - 1) && c' in Columns(n) && b == b' + [c'];
          assert b' == front && c' == c;
        }
      }
    }
  }

  ghost function Columns(n: nat): (r: set<nat>)
    ensures forall c: nat :: c in r <==> c < n
  {
    if n == 0 then {} else Columns(n - 1) + {n - 1}
  }

  /** The placements of n non-attacking queens whose first rows are `q`. */
  ghost function Placements(n: nat, q: seq<nat>): set<seq<nat>> {
    set b | b in Boards(n, n) && Safe(b) && q <= b
  }

  // ---------------------------------------------------------------------------
  // One row
  // ---------------------------------------------------------------------------

  /** A queen in the next row at column `c` attacks none of `q`. */
  ghost predicate Free(q: seq<nat>, c: nat) {
    forall i :: 0 <= i < |q| ==> q[i] != c && q[i] + (|q| - i) != c && q[i] != c + (|q| - i)
  }

  lemma SafeNext(q: seq<nat>, c: nat)
    requires Safe(q)
    ensures Safe(q + [c]) <==> Free(q, c)
  {
    var b := q + [c];
    if Free(q, c) {
      forall i, j | 0 <= i < j < |b| ensures Peaceful(b, i, j) {
        if j < |q| { assert Peaceful(q, i, j); }
      }
    }
    if Safe(b) {
      forall i | 0 <= i < |q| ensures q[i] != c && q[i] + (|q| - i) != c && q[i] != c + (|q| - i) {
        assert Peaceful(b, i, |q|);
      }
    }
  }

  lemma SafePrefix(b: seq<nat>, q: seq<nat>)
    requires Safe(b) && q <= b
    ensures Safe(q)
  {
    forall i, j | 0 <= i < j < |q| ensures Peaceful(q, i, j) {
      assert Peaceful(b, i, j);
    }
  }

  /** The placements that put the queen of the next row in one of the columns `s`. */
  ghost function Through(n: nat, q: seq<nat>, s: set<nat>): set<seq<nat>> {
    set b | b in Placements(n, q) && |q| < |b| && b[|q|] in s
  }

  lemma ThroughNext(n: nat, q: seq<nat>, s: set<nat>, c: nat)
    requires |q| < n && c !in s
    ensures |Through(n, q, s + {c})| == |Through(n, q, s)| + |Placements(n, q + [c])|
  {
    var a, b := Through(n, q, s), Placements(n, q + [c]);
    forall x | x in b ensures x in Through(n, q, s + {c}) && x !in a {
      assert x[|q|] == (q + [c])[|q|] == c;
      assert q <= q + [c] <= x;
    }
    forall x | x in Through(n, q, s + {c}) && x !in a ensures x in b {
      assert x[..|q| + 1] == q + [c];
    }
    assert Through(n, q, s + {c}) == a + b;
  }

  /** Only free columns lead to placements. */
  lemma ThroughAll(n: nat, q: seq<nat>, s: set<nat>)
    requires |q| < n && forall c: nat :: c in s <==> c < n && Free(q, c)
    ensures Through(n, q, s) == Placements(n, q)
  {
    forall b | b in Placements(n, q) ensures b in Through(n, q, s) {
      BoardsMembers(n, n, b);
      var c := b[|q|];
      assert b[..|q| + 1] == q + [c];
      SafePrefix(b, q + [c]);
      SafePrefix(q + [c], q);
      SafeNext(q, c);
    }
  }

  lemma WholeBoard(n: nat, q: seq<nat>)
    requires |q| == n && Safe(q) && q in Boards(n, n)
    ensures Placements(n, q) == {q}
  {
    forall b | b in Placements(n, q) ensures b == q {
      BoardsMembers(n, n, b);
      assert b == b[..n] == q;
    }
  }

  // ---------------------------------------------------------------------------
  // Words of attacked columns
  // ---------------------------------------------------------------------------

  /** The next row meets a queen's diagonals at column `c`: one leads up, the other down. */
  ghost predicate OnLeft(q: seq<nat>, c: nat) {
    exists i :: 0 <= i < |q| && q[i] + (|q| - i) == c
  }

  ghost predicate OnRight(q: seq<nat>, c: nat) {
    exists i :: 0 <= i < |q| && q[i] == c + (|q| - i)
  }

  /** row, ld and rd hold the columns of the queens and those their diagonals meet in the next row. */
  ghost predicate Attacks(n: nat, q: seq<nat>, row: nat, ld: nat, rd: nat) {
    && row < W && ld < W && rd < W
    && (forall c: nat :: Bit(row, c) <==> c in q)
    && (forall c: nat :: c < n ==> (Bit(ld, c) <==> OnLeft(q, c)))
    && (forall c: nat :: Bit(rd, c) <==> OnRight(q, c))
  }

  lemma DiagonalsNext(q: seq<nat>, k: nat, c: nat)
    ensures OnLeft(q + [k], c) <==> c == k + 1 || (c > 0 && OnLeft(q, c - 1))
    ensures OnRight(q + [k], c) <==> c + 1 == k || OnRight(q, c + 1)
  {
    var b := q + [k];
    if OnLeft(b, c) {
      var i :| 0 <= i < |b| && b[i] + (|b| - i) == c;
      assert i < |q| ==> q[i] + (|q| - i) == c - 1;
    }
    if OnRight(b, c) {
      var i :| 0 <= i < |b| && b[i] == c + (|b| - i);
      assert i < |q| ==> q[i] == c + 1 + (|q| - i);
    }
    if c > 0 && OnLeft(q, c - 1) {
      var i :| 0 <= i < |q| && q[i] + (|q| - i) == c - 1;
      assert b[i] + (|b| - i) == c;
    }
    if OnRight(q, c + 1) {
      var i :| 0 <= i < |q| && q[i] == c + 1 + (|q| - i);
      assert b[i] == c + (|b| - i);
    }
    assert b[|q|] == k;
  }

  /** row | p, (ld | p) << 1 and (rd | p) >> 1 for the next row. */
  lemma AttacksNext(n: nat, q: seq<nat>, row: nat, ld: nat, rd: nat, k: nat)
    requires n < 32 && k < n && Attacks(n, q, row, ld, rd)
    ensures Attacks(n, q + [k], BitOr(row, Pow2(k)), 2 * BitOr(ld, Pow2(k)) % W, BitOr(rd, Pow2(k)) / 2)
  {
    var p := Pow2(k);
    Pow2Words();
    Pow2Less(k, 32);
    OrBelow(row, p, 32);
    OrBelow(rd, p, 32);
    forall c: nat ensures Bit(BitOr(row, p), c) <==> c in q + [k] {
      OrBit(row, p, c);
      Pow2Bit(k, c);
    }
    forall c: nat | c < n ensures Bit(2 * BitOr(ld, p) % W, c) <==> OnLeft(q + [k], c) {
      LeftNext(ld, k, c);
      DiagonalsNext(q, k, c);
    }
    forall c: nat ensures Bit(BitOr(rd, p) / 2, c) <==> OnRight(q + [k], c) {
      RightNext(rd, k, c);
      DiagonalsNext(q, k, c);
    }
  }

  lemma LeftNext(ld: nat, k: nat, c: nat)
    requires c < 32
    ensures Bit(2 * BitOr(ld, Pow2(k)) % W, c) <==> c > 0 && (Bit(ld, c - 1) || c - 1 == k)
  {
    var l := BitOr(ld, Pow2(k));
    Pow2Words();
    ModBit(2 * l, 32, c);
    if c > 0 {
      assert 2 * l / 2 == l;
      OrBit(ld, Pow2(k), c - 1);
      Pow2Bit(k, c - 1);
    }
  }

  lemma RightNext(rd: nat, k: nat, c: nat)
    ensures Bit(BitOr(rd, Pow2(k)) / 2, c) <==> Bit(rd, c + 1) || c + 1 == k
  {
    OrBit(rd, Pow2(k), c + 1);
    Pow2Bit(k, c + 1);
  }

  /** FULL & ~(row | ld | rd) */
  function Open(full: nat, row: nat, ld: nat, rd: nat): nat {
    BitAnd(full, Complement(BitOr(BitOr(row, ld), rd), W))
  }

  /** The words leave the free columns. */
  lemma FreeColumns(n: nat, q: seq<nat>, row: nat, ld: nat, rd: nat, pos: nat)
    requires n < 32 && Attacks(n, q, row, ld, rd) && pos == Open(Pow2(n) - 1, row, ld, rd)
    ensures pos < W && forall c: nat :: Bit(pos, c) <==> c < n && Free(q, c)
  {
    Pow2Words();
    Pow2Less(n, 32);
    AndBelow(Pow2(n) - 1, Complement(BitOr(BitOr(row, ld), rd), W));
    forall c: nat ensures Bit(pos, c) <==> c < n && Free(q, c) {
      OpenBit(n, row, ld, rd, c);
      if c < n { FreeIsNoAttack(q, c); }
    }
  }

  lemma OpenBit(n: nat, row: nat, ld: nat, rd: nat, c: nat)
    requires n < 32 && row < W && ld < W && rd < W
    ensures Bit(Open(Pow2(n) - 1, row, ld, rd), c) <==> c < n && !Bit(row, c) && !Bit(ld, c) && !Bit(rd, c)
  {
    Pow2Words();
    OrBelow(row, ld, 32);
    OrBelow(BitOr(row, ld), rd, 32);
    var taken := BitOr(BitOr(row, ld), rd);
    AndBit(Pow2(n) - 1, Complement(taken, W), c);
    FullBit(n, c);
    NotBit(taken, 32, c);
    OrBit(BitOr(row, ld), rd, c);
    OrBit(row, ld, c);
  }

  lemma FullBit(n: nat, c: nat)
    ensures Bit(Pow2(n) - 1, c) <==> c < n
  {
    NotBit(0, n, c);
    ZeroBit(c);
  }

  lemma FreeIsNoAttack(q: seq<nat>, c: nat)
    ensures Free(q, c) <==> c !in q && !OnLeft(q, c) && !OnRight(q, c)
  {
  }

  /** row == FULL says that every row has its queen. */
  lemma FullRow(n: nat, q: seq<nat>, row: nat)
    requires n < 32 && row < W && |q| <= n && Safe(q) && (forall i :: 0 <= i < |q| ==> q[i] < n)
    requires forall c: nat :: Bit(row, c) <==> c in q
    ensures row == Pow2(n) - 1 <==> |q| == n
  {
    forall i, j | 0 <= i < j < |q| ensures q[i] != q[j] { assert Peaceful(q, i, j); }
    Pow2Words();
    Pow2Less(n, 32);
    if |q| == n {
      forall c: nat | c < 32 ensures Bit(row, c) <==> Bit(Pow2(n) - 1, c) {
        FullBit(n, c);
        if c < n { var i := PlaceOf(q, c); }
      }
      SameBits(row, Pow2(n) - 1, 32);
    }
    if row == Pow2(n) - 1 {
      forall c: nat | c < n ensures c in q { FullBit(n, c); }
      AllBelow(q, n);
    }
  }

  // ---------------------------------------------------------------------------
  // The search
  // ---------------------------------------------------------------------------

  class Search {
    var full: nat

    /** FULL = (1 << size) - 1 */
    constructor (n: nat)
      requires n < 32
      ensures full == Pow2(n) - 1
    {
      ShlIsProduct(1, n);
      full := Shl(1, n) - 1;
    }

    /** dfs: the number of placements that extend `q`, in a word. */
    method Dfs(row: nat, ld: nat, rd: nat, ghost n: nat, ghost q: seq<nat>) returns (r: nat)
      requires n < 32 && full == Pow2(n) - 1 && |q| <= n && Safe(q) && (forall i :: 0 <= i < |q| ==> q[i] < n)
      requires Attacks(n, q, row, ld, rd)
      ensures r == |Placements(n, q)| % W
      decreases n - |q|
    {
      FullRow(n, q, row);
      if row == full {
        BoardsMembers(n, n, q);
        WholeBoard(n, q);
        return 1;
      }
      var pos: nat := Open(full, row, ld, rd);
      FreeColumns(n, q, row, ld, rd, pos);
      var ans := 0;
      ghost var done: set<nat> := {};
      while pos > 0
        invariant ans == |Through(n, q, done)| % W && pos < W
        invariant forall c: nat :: Bit(pos, c) <==> c < n && Free(q, c) && c !in done
        invariant forall c :: c in done ==> c < n && Free(q, c)
        decreases pos
      {
        var p := BitAnd(pos, (Complement(pos, W) + 1) % W);
        ghost var k, rest := TakeLowest(pos, p);
        pos := pos - p;
        SafeNext(q, k);
        AttacksNext(n, q, row, ld, rd, k);
        var f := Dfs(BitOr(row, p), 2 * BitOr(ld, p) % W, BitOr(rd, p) / 2, n, q + [k]);
        CountNext(n, q, done, k, ans, f);
        ans := (ans + f) % W;
        done := done + {k};
      }
      NoBits();
      ThroughAll(n, q, done);
      r := ans;
    }
  }

  lemma Negated(x: nat)
    requires 0 < x < W
    ensures (Complement(x, W) + 1) % W == W - x
  {
    DivModUnique(Complement(x, W) + 1, W, 0, W - x);
  }

  lemma TakeLowest(pos: nat, p: nat) returns (k: nat, rest: nat)
    requires 0 < pos < W && p == BitAnd(pos, (Complement(pos, W) + 1) % W)
    ensures p == Pow2(k) && Bit(pos, k)
    ensures pos == p + rest && forall c: nat :: Bit(rest, c) <==> Bit(pos, c) && c != k
  {
    Pow2Words();
    Negated(pos);
    k, rest := LowestOne(pos, 32);
  }

  lemma CountNext(n: nat, q: seq<nat>, s: set<nat>, c: nat, ans: nat, f: nat)
    requires |q| < n && c !in s && ans == |Through(n, q, s)| % W && f == |Placements(n, q + [c])| % W
    ensures (ans + f) % W == |Through(n, q, s + {c})| % W
  {
    ThroughNext(n, q, s, c);
  }

  lemma NoBits()
    ensures forall c: nat :: !Bit(0, c)
  {
    forall c: nat ensures !Bit(0, c) { ZeroBit(c); }
  }

  /** dfs(0, 0, 0) starts with no queen placed. */
  method CountPlacements(n: nat) returns (ans: nat)
    requires n < 32
    ensures ans == |set b | b in Boards(n, n) && Safe(b)| % W
  {
    var search := new Search(n);
    NoBits();
    ans := search.Dfs(0, 0, 0, n, []);
    assert Placements(n, []) == set b | b in Boards(n, n) && Safe(b);
  }
}
