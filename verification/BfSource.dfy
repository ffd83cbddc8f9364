/** Brainf**k sources: which brackets match, and what a source does when it is interpreted directly. */
module BfSource {

  const DATA_SIZE: nat := 4096

  predicate IsCommand(c: char) {
    c == '>' || c == '<' || c == '+' || c == '-' || c == '.' || c == ',' || c == '[' || c == ']'
  }

  // ---------------------------------------------------------------------------
  // Brackets
  // ---------------------------------------------------------------------------

  /** How many brackets are open before place `k`. */
  function Depth(src: string, k: nat): int
    requires k <= |src|
  {
    if k == 0 then 0
    else Depth(src, k - 1) + if src[k - 1] == '[' then 1 else if src[k - 1] == ']' then -1 else 0
  }

  ghost predicate NeverBelow(src: string, k: nat)
    requires k <= |src|
  {
    forall j :: 0 <= j <= k ==> Depth(src, j) >= 0
  }

  /** Every bracket has its partner. */
  ghost predicate Balanced(src: string) {
    NeverBelow(src, |src|) && Depth(src, |src|) == 0
  }

  /** The bracket opened at `i` is still open at `k`. */
  ghost predicate IsOpen(src: string, i: nat, k: nat)
    requires i < k <= |src|
  {
    forall j :: i < j <= k ==> Depth(src, j) > Depth(src, i)
  }

  /** The bracket opened at `i` is closed at `j`. */
  ghost predicate Match(src: string, i: nat, j: nat) {
    && i < j < |src| && src[i] == '[' && src[j] == ']'
    && IsOpen(src, i, j) && Depth(src, j) == Depth(src, i) + 1
  }

  /** The places of the commands before place `k`. */
  function Positions(src: string, k: nat): (r: seq<nat>)
    requires k <= |src|
    ensures forall i :: 0 <= i < |r| ==> r[i] < k && IsCommand(src[r[i]])
    ensures |r| <= k
  {
    if k == 0 then []
    else if IsCommand(src[k - 1]) then Positions(src, k - 1) + [k - 1] else Positions(src, k - 1)
  }

  lemma {:induction false} PositionsPrefix(src: string, j: nat, k: nat)
    requires j <= k <= |src|
    ensures Positions(src, j) <= Positions(src, k)
  {
    if j < k { PositionsPrefix(src, j, k - 1); }
  }

  /** Commands are only added at the end. */
  lemma PositionsGrow(src: string, k: nat, i: nat)
    requires 0 < k <= |src| && i <= |Positions(src, k - 1)|
    ensures i <= |Positions(src, k)| && Positions(src, k)[..i] == Positions(src, k - 1)[..i]
  {
  }

  /** The i-th command has i commands before it. */
  lemma {:induction false} PositionAt(src: string, k: nat, i: nat)
    requires k <= |src| && i < |Positions(src, k)|
    ensures Positions(src, Positions(src, k)[i]) == Positions(src, k)[..i]
    ensures Positions(src, Positions(src, k)[i] + 1) == Positions(src, k)[..i + 1]
  {
    if IsCommand(src[k - 1]) && i == |Positions(src, k - 1)| {
      assert Positions(src, k)[..i] == Positions(src, k - 1);
      assert Positions(src, k)[..i + 1] == Positions(src, k);
    } else {
      PositionAt(src, k - 1, i);
      PositionsGrow(src, k, i);
      PositionsGrow(src, k, i + 1);
    }
  }

  lemma {:induction false} PositionsIncrease(src: string, k: nat, i: nat, j: nat)
    requires k <= |src| && i < j < |Positions(src, k)|
    ensures Positions(src, k)[i] < Positions(src, k)[j]
  {
    if j < |Positions(src, k - 1)| {
      PositionsIncrease(src, k - 1, i, j);
    }
  }

  // ---------------------------------------------------------------------------
  // Direct interpretation
  // ---------------------------------------------------------------------------

  /** Scans forward from `k` for the bracket that closes `depth` open ones. */
  function CloseFrom(src: string, k: nat, depth: nat): (r: nat)
    requires k <= |src|
    ensures r <= |src|
    decreases |src| - k
  {
    if k == |src| then |src|
    else if src[k] == '[' then CloseFrom(src, k + 1, depth + 1)
    else if src[k] != ']' then CloseFrom(src, k + 1, depth)
    else if depth <= 1 then k
    else CloseFrom(src, k + 1, depth - 1)
  }

  /** Scans backward from before `k` for the bracket that opened `depth` levels. */
  function OpenFrom(src: string, k: nat, depth: nat): (r: nat)
    requires k <= |src|
    ensures r <= k
  {
    if k == 0 then 0
    else if src[k - 1] == ']' then OpenFrom(src, k - 1, depth + 1)
    else if src[k - 1] != '[' then OpenFrom(src, k - 1, depth)
    else if depth <= 1 then k - 1
    else OpenFrom(src, k - 1, depth - 1)
  }

  lemma {:induction false} CloseFromFinds(src: string, i: nat, j: nat, k: nat)
    requires Match(src, i, j) && i < k <= j
    ensures CloseFrom(src, k, Depth(src, k) - Depth(src, i)) == j
    decreases j - k
  {
    if k < j {
      CloseFromFinds(src, i, j, k + 1);
    }
  }

  lemma {:induction false} OpenFromFinds(src: string, i: nat, j: nat, k: nat)
    requires Match(src, i, j) && i < k <= j
    ensures OpenFrom(src, k, Depth(src, k) - Depth(src, i)) == i
  {
    if k > i + 1 {
      OpenFromFinds(src, i, j, k - 1);
    }
  }

  /** The scans find the partners. */
  lemma ScansFindPartners(src: string, i: nat, j: nat)
    requires Match(src, i, j)
    ensures CloseFrom(src, i + 1, 1) == j && OpenFrom(src, j, 1) == i
  {
    CloseFromFinds(src, i, j, i + 1);
    OpenFromFinds(src, i, j, j);
  }

  /** What a program changes: the pointer, the cells, how much input it read, and its output. */
  datatype Machine = Machine(ptr: nat, data: seq<nat>, read: nat, output: seq<nat>)

  ghost predicate Sound(m: Machine) {
    |m.data| == DATA_SIZE && forall i :: 0 <= i < DATA_SIZE ==> m.data[i] < 0x1_0000
  }

  /** The bytes of the input, and whether the target's char is signed. */
  datatype Input = Input(bytes: seq<nat>, signed: bool)

  /** A byte of the input, widened from char to 16 bits; zeros follow the input. */
  function InputByte(input: Input, k: nat): nat {
    var b := if k < |input.bytes| then input.bytes[k] % 0x100 else 0;
    if input.signed && b >= 0x80 then 0xFF00 + b else b
  }

  /** The cell holds the char's value in two's complement, negative if the char is signed and its byte is from
      0x80 on; written out again it is the byte. */
  lemma InputByteIs(input: Input, k: nat)
    ensures var r, b := InputByte(input, k), if k < |input.bytes| then input.bytes[k] % 0x100 else 0;
            && 0 <= r < 0x1_0000 && r % 0x100 == b
            && (r == b || r + 0x100 == b + 0x1_0000) && (r >= 0x8000 <==> input.signed && b >= 0x80)
  {
  }

  /** One command at place `p`: the next place and the machine after it. Cells are 16 bits wide, the
      pointer 32, and a byte is written out. */
  function SourceStep(src: string, input: Input, p: nat, m: Machine): (nat, Machine)
    requires p < |src| && m.ptr < |m.data|
  {
    var cell := m.data[m.ptr];
    match src[p]
    case '>' => (p + 1, m.(ptr := m.ptr + 1))
    case '<' => (p + 1, m.(ptr := if m.ptr == 0 then 0xFFFF_FFFF else m.ptr - 1))
    case '+' => (p + 1, m.(data := m.data[m.ptr := if cell == 0xFFFF then 0 else cell + 1]))
    case '-' => (p + 1, m.(data := m.data[m.ptr := if cell == 0 then 0xFFFF else cell - 1]))
    case '.' => (p + 1, m.(output := m.output + [cell % 0x100]))
    case ',' => (p + 1, m.(data := m.data[m.ptr := InputByte(input, m.read)], read := m.read + 1))
    case '[' => (if cell == 0 then CloseFrom(src, p + 1, 1) + 1 else p + 1, m)
    case ']' => (if cell != 0 then OpenFrom(src, p, 1) + 1 else p + 1, m)
    case _ => (p + 1, m)
  }

  /** Up to `n` commands from place `p`; a pointer beyond the cells ends the run. */
  function SourceRun(src: string, input: Input, p: nat, m: Machine, n: nat): (nat, Machine)
    decreases n, if p <= |src| then |src| - p else 0
  {
    if n == 0 || p >= |src| || m.ptr >= DATA_SIZE || m.ptr >= |m.data| then (p, m)
    else if !IsCommand(src[p]) then SourceRun(src, input, p + 1, m, n)
    else
      var (p', m') := SourceStep(src, input, p, m);
      SourceRun(src, input, p', m', n - 1)
  }
}
