/** The Brainf**k compiler, which pairs brackets with a stack, and the loop that runs its programs. */
module BfCompiler {
  import opened BfSource

  const OP_END: nat := 0
  const OP_INC_DP: nat := 1
  const OP_DEC_DP: nat := 2
  const OP_INC_VAL: nat := 3
  const OP_DEC_VAL: nat := 4
  const OP_OUT: nat := 5
  const OP_IN: nat := 6
  const OP_JMP_FWD: nat := 7
  const OP_JMP_BCK: nat := 8

  const PROGRAM_SIZE: nat := 4096
  const STACK_SIZE: nat := 512

  datatype Instruction = Instruction(operator: nat, operand: nat)

  function OpCode(c: char): nat {
    match c
    case '>' => OP_INC_DP
    case '<' => OP_DEC_DP
    case '+' => OP_INC_VAL
    case '-' => OP_DEC_VAL
    case '.' => OP_OUT
    case ',' => OP_IN
    case '[' => OP_JMP_FWD
    case ']' => OP_JMP_BCK
    case _ => OP_END
  }

  /** The sources that fit: balanced, with room for the end mark and for every open bracket on the stack. */
  ghost predicate Compilable(src: string) {
    && Balanced(src) && |Positions(src, |src|)| < PROGRAM_SIZE
    && forall k :: 0 <= k <= |src| ==> Depth(src, k) <= STACK_SIZE
  }

  // ---------------------------------------------------------------------------
  // Compilation up to a place
  // ---------------------------------------------------------------------------

  /** The jumps of the brackets that are closed before place `p` lead to their partners. */
  ghost predicate Paired(src: string, p: nat, prog: seq<Instruction>)
    requires p <= |src|
  {
    var pos := Positions(src, p);
    && |pos| <= |prog|
    && (forall i {:trigger prog[i]} :: 0 <= i < |pos| && src[pos[i]] == '[' && !IsOpen(src, pos[i], p) ==>
          prog[i].operand < |pos| && Match(src, pos[i], pos[prog[i].operand]))
    && forall i {:trigger prog[i]} :: 0 <= i < |pos| && src[pos[i]] == ']' ==>
          prog[i].operand < |pos| && Match(src, pos[prog[i].operand], pos[i])
  }

  ghost predicate Coded(src: string, p: nat, prog: seq<Instruction>)
    requires p <= |src|
  {
    var pos := Positions(src, p);
    |pos| <= |prog| && forall i {:trigger prog[i]} :: 0 <= i < |pos| ==> prog[i].operator == OpCode(src[pos[i]])
  }

  /** The stack holds the open brackets, the k-th of them at depth k. */
  ghost predicate Stacked(src: string, p: nat, stack: seq<nat>, sp: nat)
    requires p <= |src|
  {
    var pos := Positions(src, p);
    && NeverBelow(src, p) && sp == Depth(src, p) && sp <= |stack|
    && forall k :: 0 <= k < sp ==>
         stack[k] < |pos| && src[pos[stack[k]]] == '['
          && Depth(src, pos[stack[k]]) == k && IsOpen(src, pos[stack[k]], p)
  }

  ghost predicate DepthWithin(src: string, p: nat)
    requires p <= |src|
  {
    forall k :: 0 <= k <= p ==> Depth(src, k) <= STACK_SIZE
  }

  /** What the compiler has built from the source before place `p`. */
  datatype State = State(src: string, p: nat, prog: seq<Instruction>, stack: seq<nat>, sp: nat)

  ghost predicate Compiled(s: State) {
    && s.p <= |s.src| && |s.prog| == PROGRAM_SIZE && |s.stack| == STACK_SIZE
    && Coded(s.src, s.p, s.prog) && Paired(s.src, s.p, s.prog) && Stacked(s.src, s.p, s.stack, s.sp)
    && DepthWithin(s.src, s.p)
  }

  lemma NothingCompiled()
    ensures Compiled(State("", 0, seq(PROGRAM_SIZE, _ => Instruction(0, 0)), seq(STACK_SIZE, _ => 0), 0))
  {
  }

  type Compilation = s: State | Compiled(s)
    ghost witness (
      NothingCompiled();
      State("", 0, seq(PROGRAM_SIZE, _ => Instruction(0, 0)), seq(STACK_SIZE, _ => 0), 0))

  /** The program counter. */
  ghost function Pc(s: Compilation): nat {
    |Positions(s.src, s.p)|
  }

  lemma OpenNext(src: string, i: nat, p: nat)
    requires i < p < |src|
    ensures IsOpen(src, i, p + 1) <==> IsOpen(src, i, p) && Depth(src, p + 1) > Depth(src, i)
  {
  }

  lemma OpensKept(src: string, p: nat)
    requires p < |src| && src[p] != ']'
    ensures forall i :: 0 <= i < p ==> (IsOpen(src, i, p + 1) <==> IsOpen(src, i, p))
  {
    forall i | 0 <= i < p ensures IsOpen(src, i, p + 1) <==> IsOpen(src, i, p) { OpenNext(src, i, p); }
  }

  lemma NextPlace(src: string, p: nat)
    requires p < |src| && NeverBelow(src, p) && Depth(src, p + 1) >= 0
    ensures NeverBelow(src, p + 1)
  {
  }

  /** A comment. */
  lemma SkipComment(s: Compilation) returns (s': Compilation)
    requires s.p < |s.src| && !IsCommand(s.src[s.p])
    ensures s' == s.(p := s.p + 1) && Pc(s') == Pc(s)
  {
    OpensKept(s.src, s.p);
    s' := State(s.src, s.p + 1, s.prog, s.stack, s.sp);
  }

  lemma PairedPlain(src: string, p: nat, prog: seq<Instruction>, e: Instruction)
    requires p < |src| && src[p] != '[' && src[p] != ']' && |Positions(src, p)| < |prog| && Paired(src, p, prog)
    ensures Paired(src, p + 1, prog[|Positions(src, p)| := e])
  {
    OpensKept(src, p);
  }

  lemma StackedPlain(src: string, p: nat, stack: seq<nat>, sp: nat)
    requires p < |src| && src[p] != '[' && src[p] != ']' && Stacked(src, p, stack, sp)
    ensures Stacked(src, p + 1, stack, sp)
  {
    OpensKept(src, p);
    NextPlace(src, p);
  }

  lemma CodedNext(src: string, p: nat, prog: seq<Instruction>, e: Instruction)
    requires p < |src| && IsCommand(src[p]) && |Positions(src, p)| < |prog| && Coded(src, p, prog)
    requires e.operator == OpCode(src[p])
    ensures Coded(src, p + 1, prog[|Positions(src, p)| := e])
  {
  }

  lemma DepthNext(src: string, p: nat)
    requires p < |src| && DepthWithin(src, p) && Depth(src, p + 1) <= STACK_SIZE
    ensures DepthWithin(src, p + 1)
  {
  }

  /** A command that is no bracket. */
  lemma CompilePlain(s: Compilation, e: Instruction) returns (s': Compilation)
    requires s.p < |s.src| && IsCommand(s.src[s.p]) && s.src[s.p] != '[' && s.src[s.p] != ']' && Pc(s) < PROGRAM_SIZE
    requires e.operator == OpCode(s.src[s.p])
    ensures s' == s.(p := s.p + 1, prog := s.prog[Pc(s) := e]) && Pc(s') == Pc(s) + 1
  {
    PairedPlain(s.src, s.p, s.prog, e);
    StackedPlain(s.src, s.p, s.stack, s.sp);
    CodedNext(s.src, s.p, s.prog, e);
    DepthNext(s.src, s.p);
    s' := State(s.src, s.p + 1, s.prog[Pc(s) := e], s.stack, s.sp);
  }

  lemma PairedOpen(src: string, p: nat, prog: seq<Instruction>, e: Instruction)
    requires p < |src| && src[p] == '[' && |Positions(src, p)| < |prog| && Paired(src, p, prog)
    ensures Paired(src, p + 1, prog[|Positions(src, p)| := e])
  {
    OpensKept(src, p);
    assert IsOpen(src, p, p + 1);
  }

  lemma StackedOpen(src: string, p: nat, stack: seq<nat>, sp: nat)
    requires p < |src| && src[p] == '[' && sp < |stack| && Stacked(src, p, stack, sp)
    ensures Stacked(src, p + 1, stack[sp := |Positions(src, p)|], sp + 1)
  {
    OpensKept(src, p);
    NextPlace(src, p);
    assert IsOpen(src, p, p + 1);
  }

  /** An opening bracket is pushed. */
  lemma CompileOpen(s: Compilation, e: Instruction) returns (s': Compilation)
    requires s.p < |s.src| && s.src[s.p] == '[' && Pc(s) < PROGRAM_SIZE && s.sp < STACK_SIZE && e.operator == OP_JMP_FWD
    ensures s' == s.(p := s.p + 1, prog := s.prog[Pc(s) := e], stack := s.stack[s.sp := Pc(s)], sp := s.sp + 1)
    ensures Pc(s') == Pc(s) + 1
  {
    PairedOpen(s.src, s.p, s.prog, e);
    StackedOpen(s.src, s.p, s.stack, s.sp);
    CodedNext(s.src, s.p, s.prog, e);
    DepthNext(s.src, s.p);
    s' := State(s.src, s.p + 1, s.prog[Pc(s) := e], s.stack[s.sp := Pc(s)], s.sp + 1);
  }

  /** Open brackets are at different depths. */
  lemma TwoOpen(src: string, p: nat, i: nat, j: nat)
    requires p <= |src| && i < |Positions(src, p)| && j < |Positions(src, p)| && i != j
    requires IsOpen(src, Positions(src, p)[i], p) && IsOpen(src, Positions(src, p)[j], p)
    ensures Depth(src, Positions(src, p)[i]) != Depth(src, Positions(src, p)[j])
  {
    PositionsIncrease(src, p, if i < j then i else j, if i < j then j else i);
  }

  /** Which brackets the closing one leaves, and which it closes. */
  lemma ClosesTop(src: string, p: nat, top: nat, i: nat)
    requires p < |src| && src[p] == ']' && NeverBelow(src, p)
    requires var pos := Positions(src, p);
             && top < |pos| && src[pos[top]] == '['
             && IsOpen(src, pos[top], p) && Depth(src, p) == Depth(src, pos[top]) + 1
             && i < |pos| && src[pos[i]] == '['
    ensures var pos := Positions(src, p);
            && Match(src, pos[top], p)
            && (IsOpen(src, pos[i], p + 1) <==> i != top && IsOpen(src, pos[i], p))
  {
    var pos := Positions(src, p);
    OpenNext(src, pos[i], p);
    if i != top && IsOpen(src, pos[i], p) {
      TwoOpen(src, p, i, top);
    }
  }

  lemma PairedClose(src: string, p: nat, prog: seq<Instruction>, top: nat, e: Instruction, f: Instruction)
    requires p < |src| && src[p] == ']' && Paired(src, p, prog) && |Positions(src, p)| < |prog| && NeverBelow(src, p)
    requires var pos := Positions(src, p);
             top < |pos| && src[pos[top]] == '['
              && IsOpen(src, pos[top], p) && Depth(src, p) == Depth(src, pos[top]) + 1
    requires e.operand == top && f.operand == |Positions(src, p)|
    ensures Paired(src, p + 1, prog[|Positions(src, p)| := e][top := f])
  {
    var pos := Positions(src, p);
    forall i | 0 <= i < |pos| && src[pos[i]] == '['
      ensures Match(src, pos[top], p) && (IsOpen(src, pos[i], p + 1) <==> i != top && IsOpen(src, pos[i], p))
    {
      ClosesTop(src, p, top, i);
    }
  }

  lemma StackedClose(src: string, p: nat, stack: seq<nat>, sp: nat)
    requires p < |src| && src[p] == ']' && sp > 0 && Stacked(src, p, stack, sp)
    ensures Stacked(src, p + 1, stack, sp - 1)
  {
    NextPlace(src, p);
    var pos := Positions(src, p);
    forall k | 0 <= k < sp - 1 ensures IsOpen(src, pos[stack[k]], p + 1) {
      OpenNext(src, pos[stack[k]], p);
    }
  }

  lemma CodedClose(src: string, p: nat, prog: seq<Instruction>, top: nat, e: Instruction, f: Instruction)
    requires p < |src| && IsCommand(src[p]) && Coded(src, p, prog) && top < |Positions(src, p)| < |prog|
    requires e.operator == OpCode(src[p]) && f.operator == prog[top].operator
    ensures Coded(src, p + 1, prog[|Positions(src, p)| := e][top := f])
  {
    CodedNext(src, p, prog, e);
  }

  lemma TopOpen(src: string, p: nat, stack: seq<nat>, sp: nat)
    requires p < |src| && sp > 0 && Stacked(src, p, stack, sp)
    ensures var pos := Positions(src, p);
            && NeverBelow(src, p) && stack[sp - 1] < |pos| && src[pos[stack[sp - 1]]] == '['
            && IsOpen(src, pos[stack[sp - 1]], p) && Depth(src, p) == Depth(src, pos[stack[sp - 1]]) + 1
  {
  }

  lemma CloseParts(src: string, p: nat, prog: seq<Instruction>, stack: seq<nat>, sp: nat,
      e: Instruction, f: Instruction)
    requires p < |src| && src[p] == ']' && |Positions(src, p)| < |prog| && sp > 0
    requires Coded(src, p, prog) && Paired(src, p, prog) && Stacked(src, p, stack, sp) && DepthWithin(src, p)
    requires e.operator == OP_JMP_BCK && e.operand == stack[sp - 1] < |prog|
    requires f.operator == prog[stack[sp - 1]].operator && f.operand == |Positions(src, p)|
    ensures var prog' := prog[|Positions(src, p)| := e][stack[sp - 1] := f];
            && Coded(src, p + 1, prog') && Paired(src, p + 1, prog')
            && Stacked(src, p + 1, stack, sp - 1) && DepthWithin(src, p + 1)
  {
    TopOpen(src, p, stack, sp);
    PairedClose(src, p, prog, stack[sp - 1], e, f);
    CodedClose(src, p, prog, stack[sp - 1], e, f);
    StackedClose(src, p, stack, sp);
    DepthNext(src, p);
  }

  lemma Unpack(s: Compilation)
    ensures s.p <= |s.src| && |s.prog| == PROGRAM_SIZE && |s.stack| == STACK_SIZE && s.sp <= STACK_SIZE
    ensures Coded(s.src, s.p, s.prog) && Paired(s.src, s.p, s.prog) && Stacked(s.src, s.p, s.stack, s.sp)
    ensures DepthWithin(s.src, s.p) && (s.sp > 0 ==> s.stack[s.sp - 1] < |Positions(s.src, s.p)| <= PROGRAM_SIZE)
  {
  }

  /** A closing bracket is paired with the one it pops. */
  lemma CompileClose(s: Compilation, e: Instruction, f: Instruction) returns (s': Compilation)
    requires s.p < |s.src| && s.src[s.p] == ']' && Pc(s) < PROGRAM_SIZE && s.sp > 0
    requires e.operator == OP_JMP_BCK && e.operand == s.stack[s.sp - 1]
    requires f.operator == s.prog[s.stack[s.sp - 1]].operator && f.operand == Pc(s)
    ensures s' == s.(p := s.p + 1, prog := s.prog[Pc(s) := e][s.stack[s.sp - 1] := f], sp := s.sp - 1)
    ensures Pc(s') == Pc(s) + 1
  {
    var top := s.stack[s.sp - 1];
    Unpack(s);
    CloseParts(s.src, s.p, s.prog, s.stack, s.sp, e, f);
    s' := MakeCompilation(s.src, s.p + 1, s.prog[Pc(s) := e][top := f], s.stack, s.sp - 1);
  }

  ghost function MakeCompilation(src: string, p: nat, prog: seq<Instruction>, stack: seq<nat>, sp: nat)
    : (s: Compilation)
    requires p <= |src| && |prog| == PROGRAM_SIZE && |stack| == STACK_SIZE
    requires Coded(src, p, prog) && Paired(src, p, prog) && Stacked(src, p, stack, sp) && DepthWithin(src, p)
    ensures s == State(src, p, prog, stack, sp)
  {
    State(src, p, prog, stack, sp)
  }

  // ---------------------------------------------------------------------------
  // Programs
  // ---------------------------------------------------------------------------

  /** A whole program: the codes of the commands, the jumps between partners, and the end mark. */
  ghost predicate IsProgram(src: string, prog: seq<Instruction>) {
    var pos := Positions(src, |src|);
    && |pos| < |prog| && prog[|pos|].operator == OP_END
    && (forall i {:trigger prog[i]} :: 0 <= i < |pos| ==> prog[i].operator == OpCode(src[pos[i]]))
    && (forall i {:trigger prog[i]} :: 0 <= i < |pos| && src[pos[i]] == '[' ==>
          prog[i].operand < |pos| && Match(src, pos[i], pos[prog[i].operand]))
    && forall i {:trigger prog[i]} :: 0 <= i < |pos| && src[pos[i]] == ']' ==>
          prog[i].operand < |pos| && Match(src, pos[prog[i].operand], pos[i])
  }

  lemma ProgramDone(s: Compilation, e: Instruction)
    requires s.p == |s.src| && s.sp == 0 && Pc(s) < PROGRAM_SIZE && e.operator == OP_END
    ensures IsProgram(s.src, s.prog[Pc(s) := e]) && Compilable(s.src)
  {
    var pos := Positions(s.src, |s.src|);
    forall i | 0 <= i < |pos| && s.src[pos[i]] == '[' ensures !IsOpen(s.src, pos[i], |s.src|) {
      assert Depth(s.src, pos[i]) >= 0;
    }
  }

  /** A full program memory, a full stack, a bracket without its opening one, or one never closed. */
  lemma CannotCompile(s: Compilation)
    requires || (Pc(s) == PROGRAM_SIZE)
             || (s.p == |s.src| && s.sp > 0)
             || (s.p < |s.src| && s.src[s.p] == '[' && s.sp == STACK_SIZE)
             || (s.p < |s.src| && s.src[s.p] == ']' && s.sp == 0)
    ensures !Compilable(s.src)
  {
    if Pc(s) == PROGRAM_SIZE {
      PositionsPrefix(s.src, s.p, |s.src|);
    } else if s.p < |s.src| {
      assert Depth(s.src, s.p + 1) == -1 || Depth(s.src, s.p + 1) == STACK_SIZE + 1;
    }
  }

  /** ++ and -- on a 16-bit word */
  function Up16(x: nat): (r: nat)
    requires x < 0x1_0000
    ensures r < 0x1_0000 && (x < 0xFFFF ==> r == x + 1)
  {
    (x + 1) % 0x1_0000
  }

  function Down16(x: nat): (r: nat)
    requires x < 0x1_0000
    ensures r < 0x1_0000 && Up16(r) == x
  {
    (x + 0xFFFF) % 0x1_0000
  }

  // ---------------------------------------------------------------------------
  // Execution
  // ---------------------------------------------------------------------------

  /** The program counter and the machine after one instruction. */
  function Step(prog: seq<Instruction>, input: Input, pc: nat, m: Machine): (nat, Machine)
    requires pc < |prog| && m.ptr < |m.data|
  {
    var i := prog[pc];
    var cell := m.data[m.ptr];
    if i.operator == OP_INC_DP then (pc + 1, m.(ptr := m.ptr + 1))
    else if i.operator == OP_DEC_DP then (pc + 1, m.(ptr := (m.ptr + 0xFFFF_FFFF) % 0x1_0000_0000))
    else if i.operator == OP_INC_VAL then (pc + 1, m.(data := m.data[m.ptr := (cell + 1) % 0x1_0000]))
    else if i.operator == OP_DEC_VAL then (pc + 1, m.(data := m.data[m.ptr := (cell + 0xFFFF) % 0x1_0000]))
    else if i.operator == OP_OUT then (pc + 1, m.(output := m.output + [cell % 0x100]))
    else if i.operator == OP_IN then
      (pc + 1, m.(data := m.data[m.ptr := InputByte(input, m.read)], read := m.read + 1))
    else if i.operator == OP_JMP_FWD then (if cell == 0 then i.operand + 1 else pc + 1, m)
    else if i.operator == OP_JMP_BCK then (if cell != 0 then i.operand + 1 else pc + 1, m)
    else (pc, m)
  }

  /** At an instruction, and with the pointer within the cells. */
  predicate Running(prog: seq<Instruction>, pc: nat, m: Machine) {
    pc < |prog| && OP_END < prog[pc].operator <= OP_JMP_BCK && m.ptr < DATA_SIZE
  }

  ghost predicate Stops(prog: seq<Instruction>, end: (nat, Machine)) {
    !Running(prog, end.0, end.1)
  }

  /** Up to `n` instructions. */
  function Run(prog: seq<Instruction>, input: Input, pc: nat, m: Machine, n: nat): (nat, Machine)
    decreases n
  {
    if n == 0 || !Running(prog, pc, m) || m.ptr >= |m.data| then (pc, m)
    else
      var (pc', m') := Step(prog, input, pc, m);
      Run(prog, input, pc', m', n - 1)
  }

  lemma StepSound(prog: seq<Instruction>, input: Input, pc: nat, m: Machine)
    requires pc < |prog| && Sound(m) && m.ptr < DATA_SIZE
    ensures Sound(Step(prog, input, pc, m).1)
  {
    var m' := Step(prog, input, pc, m).1;
    forall i | 0 <= i < DATA_SIZE ensures |m'.data| == DATA_SIZE && m'.data[i] < 0x1_0000 {
      assert m.data[i] < 0x1_0000;
    }
  }

  /** The program counter counts the commands before the place in the source. */
  lemma CommandAt(src: string, p: nat)
    requires p < |src| && IsCommand(src[p])
    ensures |Positions(src, p)| < |Positions(src, |src|)| && Positions(src, |src|)[|Positions(src, p)|] == p
    ensures |Positions(src, p + 1)| == |Positions(src, p)| + 1
  {
    PositionsPrefix(src, p + 1, |src|);
  }

  lemma PlainAgrees(src: string, prog: seq<Instruction>, input: Input, p: nat, m: Machine, pc: nat)
    requires p < |src| && IsCommand(src[p]) && src[p] != '[' && src[p] != ']' && pc < |prog|
    requires Sound(m) && m.ptr < DATA_SIZE && prog[pc].operator == OpCode(src[p])
    ensures Step(prog, input, pc, m) == (pc + 1, SourceStep(src, input, p, m).1)
    ensures SourceStep(src, input, p, m).0 == p + 1
  {
    assert m.data[m.ptr] < 0x1_0000;
  }

  /** A bracket's operand is the number of its partner. */
  lemma PartnerOf(src: string, prog: seq<Instruction>, p: nat) returns (q: nat)
    requires IsProgram(src, prog) && p < |src| && (src[p] == '[' || src[p] == ']')
    ensures |Positions(src, p)| < |prog| && prog[|Positions(src, p)|].operator == OpCode(src[p])
    ensures q < |src| && |Positions(src, q + 1)| == prog[|Positions(src, p)|].operand + 1
    ensures src[p] == '[' ==> CloseFrom(src, p + 1, 1) == q
    ensures src[p] == ']' ==> OpenFrom(src, p, 1) == q
  {
    CommandAt(src, p);
    var i := prog[|Positions(src, p)|].operand;
    q := Positions(src, |src|)[i];
    PositionAt(src, |src|, i);
    if src[p] == '[' {
      ScansFindPartners(src, p, q);
    } else {
      ScansFindPartners(src, q, p);
    }
  }

  /** A jump leads behind the partner. */
  lemma JumpAgrees(src: string, prog: seq<Instruction>, input: Input, p: nat, m: Machine) returns (p': nat)
    requires IsProgram(src, prog) && Sound(m) && m.ptr < DATA_SIZE && p < |src| && (src[p] == '[' || src[p] == ']')
    ensures |Positions(src, p)| < |prog| && p' <= |src| && SourceStep(src, input, p, m) == (p', m)
    ensures Step(prog, input, |Positions(src, p)|, m) == (|Positions(src, p')|, m)
  {
    CommandAt(src, p);
    var q := PartnerOf(src, prog, p);
    var jumps := JumpEffect(src, prog, input, p, m, |Positions(src, p)|, q);
    p' := if jumps then q + 1 else p + 1;
  }

  lemma JumpEffect(src: string, prog: seq<Instruction>, input: Input, p: nat, m: Machine, pc: nat, q: nat)
    returns (jumps: bool)
    requires p < |src| && pc < |prog| && m.ptr < |m.data| && prog[pc].operator == OpCode(src[p])
    requires (src[p] == '[' && CloseFrom(src, p + 1, 1) == q) || (src[p] == ']' && OpenFrom(src, p, 1) == q)
    ensures SourceStep(src, input, p, m) == (if jumps then q + 1 else p + 1, m)
    ensures Step(prog, input, pc, m) == (if jumps then prog[pc].operand + 1 else pc + 1, m)
  {
    jumps := if src[p] == '[' then m.data[m.ptr] == 0 else m.data[m.ptr] != 0;
  }

  /** An instruction does what its command does in the source. */
  lemma StepAgrees(src: string, prog: seq<Instruction>, input: Input, p: nat, m: Machine)
    returns (p': nat, m': Machine)
    requires IsProgram(src, prog) && Sound(m) && m.ptr < DATA_SIZE && p < |src| && IsCommand(src[p])
    ensures Running(prog, |Positions(src, p)|, m) && p' <= |src| && SourceStep(src, input, p, m) == (p', m')
    ensures Step(prog, input, |Positions(src, p)|, m) == (|Positions(src, p')|, m')
  {
    CommandAt(src, p);
    var pc := |Positions(src, p)|;
    assert prog[pc].operator == OpCode(src[p]);
    if src[p] == '[' || src[p] == ']' {
      m' := m;
      p' := JumpAgrees(src, prog, input, p, m);
    } else {
      p' := p + 1;
      m' := SourceStep(src, input, p, m).1;
      PlainAgrees(src, prog, input, p, m, pc);
    }
  }

  /** The compiled program goes through the states of the source. */
  lemma {:induction false} RunAgrees(src: string, prog: seq<Instruction>, input: Input, p: nat, m: Machine, n: nat)
    requires IsProgram(src, prog) && Sound(m) && p <= |src|
    ensures var (p', m') := SourceRun(src, input, p, m, n);
            && p' <= |src|
            && Run(prog, input, |Positions(src, p)|, m, n) == (|Positions(src, p')|, m')
    decreases n, |src| - p
  {
    if n == 0 || p == |src| || m.ptr >= DATA_SIZE {
      assert Run(prog, input, |Positions(src, p)|, m, n) == (|Positions(src, p)|, m);
    } else if IsCommand(src[p]) {
      var p', m' := StepAgrees(src, prog, input, p, m);
      StepSound(prog, input, |Positions(src, p)|, m);
      RunAgrees(src, prog, input, p', m', n - 1);
      assert Run(prog, input, |Positions(src, p)|, m, n) == Run(prog, input, |Positions(src, p')|, m', n - 1);
    } else {
      RunAgrees(src, prog, input, p + 1, m, n);
      assert SourceRun(src, input, p, m, n) == SourceRun(src, input, p + 1, m, n);
    }
  }

  ghost predicate SourceStops(src: string, end: (nat, Machine)) {
    end.1.ptr >= DATA_SIZE || forall k :: end.0 <= k < |src| ==> !IsCommand(src[k])
  }

  /** The program stops exactly where the source has no command left or its pointer has left the cells. */
  lemma StopsTogether(src: string, prog: seq<Instruction>, p: nat, m: Machine)
    requires IsProgram(src, prog) && p <= |src|
    ensures Stops(prog, (|Positions(src, p)|, m)) <==> SourceStops(src, (p, m))
  {
    var pc := |Positions(src, p)|;
    PositionsPrefix(src, p, |src|);
    NoCommandLeft(src, p, |src|);
    if pc < |Positions(src, |src|)| {
      assert IsCommand(src[Positions(src, |src|)[pc]]);
    }
  }

  lemma {:induction false} NoCommandLeft(src: string, p: nat, k: nat)
    requires p <= k <= |src|
    ensures |Positions(src, p)| == |Positions(src, k)| <==> forall i :: p <= i < k ==> !IsCommand(src[i])
    ensures |Positions(src, p)| <= |Positions(src, k)|
  {
    if p < k {
      NoCommandLeft(src, p, k - 1);
    }
  }

  class Bf {
    const program: array<Instruction>
    const stack: array<nat>
    const data: array<nat>
    var sp: nat
    var read: nat
    var output: seq<nat>

    /** bench_bf_prepare */
    constructor ()
      ensures program.Length == PROGRAM_SIZE && stack.Length == STACK_SIZE && data.Length == DATA_SIZE && data != stack
      ensures sp == 0 && read == 0 && output == [] && forall i :: 0 <= i < DATA_SIZE ==> data[i] == 0
      ensures fresh(program) && fresh(stack) && fresh(data)
    {
      program := new Instruction[PROGRAM_SIZE](_ => Instruction(0, 0));
      stack := new nat[STACK_SIZE];
      data := new nat[DATA_SIZE](_ => 0);
      sp, read, output := 0, 0, [];
    }

    /** What the memories hold once the source before `at` is compiled. */
    ghost predicate Holds(s: Compilation, code: string, at: nat, pc: nat)
      reads this, program, stack
    {
      && program.Length == PROGRAM_SIZE && stack.Length == STACK_SIZE
      && s.src == code && s.p == at && Pc(s) == pc <= PROGRAM_SIZE
      && s.prog == program[..] && s.stack == stack[..] && s.sp == sp
    }

    /** One round of the loop of compile_bf. */
    method CompileOne(code: string, at: nat, pc0: nat, ghost s0: Compilation)
      returns (success: bool, pc: nat, ghost s: Compilation)
      requires at < |code| && pc0 < PROGRAM_SIZE && Holds(s0, code, at, pc0)
      modifies this`sp, program, stack
      ensures if success then Holds(s, code, at + 1, pc) else !Compilable(code)
    {
      pc, s := pc0, s0;
      var c := code[at];
      if c == '[' {
        ghost var e := program[pc].(operator := OP_JMP_FWD);
        program[pc] := program[pc].(operator := OP_JMP_FWD);
        if sp == STACK_SIZE {
          CannotCompile(s);
          return false, pc, s;
        }
        s := CompileOpen(s, e);
        stack[sp] := pc;
        sp := sp + 1;
      } else if c == ']' {
        if sp == 0 {
          CannotCompile(s);
          return false, pc, s;
        }
        sp := sp - 1;
        var jmp := stack[sp];
        s := CompileClose(s, Instruction(OP_JMP_BCK, jmp), program[jmp].(operand := pc));
        program[pc] := Instruction(OP_JMP_BCK, jmp);
        program[jmp] := program[jmp].(operand := pc);
      } else if IsCommand(c) {
        s := CompilePlain(s, program[pc].(operator := OpCode(c)));
        program[pc] := program[pc].(operator := OpCode(c));
      } else {
        s := SkipComment(s);
        pc := Down16(pc);
      }
      pc := Up16(pc);
      success := true;
    }

    /** compile_bf: succeeds exactly on the sources that fit, with every bracket led to its partner. */
    method Compile(code: string) returns (success: bool)
      requires program.Length == PROGRAM_SIZE && stack.Length == STACK_SIZE && sp == 0
      modifies this`sp, program, stack
      ensures success <==> Compilable(code)
      ensures success ==> IsProgram(code, program[..])
    {
      var pc: nat := 0;
      var at: nat := 0;
      ghost var s: Compilation := State(code, 0, program[..], stack[..], 0);
      while at < |code|
        invariant at <= |code| && Holds(s, code, at, pc)
      {
        if pc >= PROGRAM_SIZE {
          break;
        }
        success, pc, s := CompileOne(code, at, pc, s);
        if !success {
          return;
        }
        at := at + 1;
      }
      if sp != 0 || pc == PROGRAM_SIZE {
        CannotCompile(s);
        return false;
      }
      ProgramDone(s, program[pc].(operator := OP_END));
      program[pc] := program[pc].(operator := OP_END);
      return true;
    }

    ghost function Shown(ptr: nat): Machine
      reads this, data
    {
      Machine(ptr, data[..], read, output)
    }

    /** One round of the loop of execute_bf. */
    method ExecuteOne(input: Input, pc0: nat, ptr0: nat) returns (pc: nat, ptr: nat)
      requires program.Length == PROGRAM_SIZE && data != stack && Sound(Shown(ptr0))
      requires Running(program[..], pc0, Shown(ptr0))
      modifies this`read, this`output, data
      ensures Sound(Shown(ptr)) && (pc, Shown(ptr)) == Step(program[..], input, pc0, old(Shown(ptr0)))
    {
      StepSound(program[..], input, pc0, Shown(ptr0));
      pc, ptr := pc0, ptr0;
      var i := program[pc];
      if i.operator == OP_INC_DP {
        ptr := ptr + 1;
      } else if i.operator == OP_DEC_DP {
        ptr := (ptr + 0xFFFF_FFFF) % 0x1_0000_0000;
      } else if i.operator == OP_INC_VAL {
        data[ptr] := (data[ptr] + 1) % 0x1_0000;
      } else if i.operator == OP_DEC_VAL {
        data[ptr] := (data[ptr] + 0xFFFF) % 0x1_0000;
      } else if i.operator == OP_OUT {
        output := output + [data[ptr] % 0x100];
      } else if i.operator == OP_IN {
        data[ptr] := InputByte(input, read);
        read := read + 1;
      } else if i.operator == OP_JMP_FWD {
        if data[ptr] == 0 { pc := i.operand; }
      } else {
        if data[ptr] != 0 { pc := i.operand; }
      }
      pc := pc + 1;
    }

    /** execute_bf, for a program that stops after some number of instructions. */
    method Execute(input: Input, ghost steps: nat) returns (pc: nat, ptr: nat)
      requires program.Length == PROGRAM_SIZE && data != stack && Sound(Shown(0))
      requires Stops(program[..], Run(program[..], input, 0, Shown(0), steps))
      modifies this`read, this`output, data
      ensures (pc, Shown(ptr)) == Run(program[..], input, 0, old(Shown(0)), steps)
    {
      pc, ptr := 0, 0;
      ghost var left := steps;
      ghost var prog := program[..];
      while pc < program.Length && program[pc].operator != OP_END && ptr < DATA_SIZE
        invariant program[..] == prog && Sound(Shown(ptr))
        invariant Run(prog, input, pc, Shown(ptr), left) == Run(prog, input, 0, old(Shown(0)), steps)
        decreases left
      {
        if program[pc].operator > OP_JMP_BCK {
          return;
        }
        pc, ptr := ExecuteOne(input, pc, ptr);
        left := left - 1;
      }
    }

    /** The same loop cut off after `fuel` rounds, for programs that need not stop. */
    method ExecuteSome(input: Input, fuel: nat) returns (pc: nat, ptr: nat)
      requires program.Length == PROGRAM_SIZE && data != stack && Sound(Shown(0))
      modifies this`read, this`output, data
      ensures (pc, Shown(ptr)) == Run(program[..], input, 0, old(Shown(0)), fuel)
    {
      pc, ptr := 0, 0;
      var left := fuel;
      ghost var prog := program[..];
      while left > 0 && pc < program.Length && program[pc].operator != OP_END && ptr < DATA_SIZE
        invariant program[..] == prog && Sound(Shown(ptr))
        invariant Run(prog, input, pc, Shown(ptr), left) == Run(prog, input, 0, old(Shown(0)), fuel)
        decreases left
      {
        if program[pc].operator > OP_JMP_BCK {
          return;
        }
        pc, ptr := ExecuteOne(input, pc, ptr);
        left := left - 1;
      }
    }

    /** bench_bf_run on a source that ends: running the compiled source leaves what interpreting it to its
        end leaves. */
    method CompileAndFinish(code: string, input: Input, ghost steps: nat) returns (ptr: nat)
      requires program.Length == PROGRAM_SIZE && stack.Length == STACK_SIZE
      requires data != stack && sp == 0 && Sound(Shown(0)) && Compilable(code)
      requires SourceStops(code, SourceRun(code, input, 0, Shown(0), steps))
      modifies this`sp, this`read, this`output, program, stack, data
      ensures Shown(ptr) == SourceRun(code, input, 0, old(Shown(0)), steps).1
    {
      ghost var m := Shown(0);
      var success := Compile(code);
      assert Shown(0) == m;
      RunAgrees(code, program[..], input, 0, m, steps);
      StopsTogether(code, program[..], SourceRun(code, input, 0, m, steps).0, SourceRun(code, input, 0, m, steps).1);
      var pc;
      pc, ptr := Execute(input, steps);
    }

    /** bench_bf_run, for any source and up to any number of instructions. */
    method CompileAndRun(code: string, input: Input, fuel: nat) returns (ptr: nat)
      requires program.Length == PROGRAM_SIZE && stack.Length == STACK_SIZE && data.Length == DATA_SIZE
      requires data != stack && sp == 0 && Sound(Shown(0))
      modifies this`sp, this`read, this`output, program, stack, data
      ensures Compilable(code) ==> Shown(ptr) == SourceRun(code, input, 0, old(Shown(0)), fuel).1
    {
      ghost var m := Shown(0);
      var success := Compile(code);
      assert Shown(0) == m;
      var pc;
      pc, ptr := ExecuteSome(input, fuel);
      if success {
        RunAgrees(code, program[..], input, 0, m, fuel);
      }
    }
  }
}
