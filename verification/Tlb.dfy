/**
 The direct-mapped translation cache in front of the walk.  Evicting a block writes its flag byte,
 with the A and D bits collected meanwhile, back into the tables that the walk reads.
 */
module Tlb {
  import opened Options
  import opened DivMod
  import opened PageTables

  /** TLBBlock */
  datatype Block = Block(valid: bool, paddr: nat, tag: nat, pteAddr: nat, flag: Byte)

  /** What update_vm_translate and the CSRs leave in the core. */
  datatype Control = Control(bare: bool, base: nat, priv: Priv, sum: bool) {
    /** Translation is switched off in machine mode and when satp.MODE is Bare. */
    predicate Off() { bare || priv == Machine }
  }

  datatype Op =
    | Translate(vaddr: nat, t: MemType)
    | Store(addr: nat, bytes: seq<Byte>)
    | Fence
    | SetPriv(priv: Priv)
    | SetSatp(bare: bool, ppn: nat)
    | SetSum(sum: bool)

  // ---------------------------------------------------------------------------
  // The machine without a cache
  // ---------------------------------------------------------------------------

  datatype Plain = Plain(mem: seq<Byte>, ctl: Control)

  function PlainTranslate(c: Scheme, start: nat, p: Plain, vaddr: nat, t: MemType): VMResult {
    if p.ctl.Off() then Ok(vaddr) else Walk(c, p.mem, start, p.ctl.base, vaddr, p.ctl.priv, p.ctl.sum, t)
  }

  function PlainStep(c: Scheme, start: nat, p: Plain, op: Op): Plain {
    match op
    case Translate(_, _) => p
    case Store(addr, bytes) => p.(mem := Write(p.mem, start, addr, bytes))
    case Fence => p
    case SetPriv(priv) => p.(ctl := p.ctl.(priv := priv))
    case SetSatp(bare, ppn) => p.(ctl := p.ctl.(bare := bare, base := ppn * PGSIZE % WordSize(c)))
    case SetSum(sum) => p.(ctl := p.ctl.(sum := sum))
  }

  function PlainOutput(c: Scheme, start: nat, p: Plain, op: Op): seq<VMResult> {
    match op
    case Translate(vaddr, t) => [PlainTranslate(c, start, p, vaddr, t)]
    case _ => []
  }

  function PlainRun(c: Scheme, start: nat, p: Plain, ops: seq<Op>): Plain {
    if ops == [] then p else PlainStep(c, start, PlainRun(c, start, p, ops[..|ops| - 1]), ops[|ops| - 1])
  }

  /** The results of all translations of a run, in order. */
  function PlainOutputs(c: Scheme, start: nat, p: Plain, ops: seq<Op>): seq<VMResult> {
    if ops == [] then [] else
    PlainOutputs(c, start, p, ops[..|ops| - 1])
    + PlainOutput(c, start, PlainRun(c, start, p, ops[..|ops| - 1]), ops[|ops| - 1])
  }

  /** Whether a store into the tables is waiting for a fence after this operation. */
  ghost predicate StaleAfter(c: Scheme, start: nat, p: Plain, op: Op, stale: bool) {
    match op
    case Translate(_, _) => stale
    case Store(addr, bytes) => stale || !(p.ctl.Off() || LeavesTablesAlone(c, p.mem, start, p.ctl.base, addr, |bytes|))
    case Fence => false
    case SetPriv(_) => false
    case SetSatp(_, _) => false
    case SetSum(_) => stale
  }

  ghost predicate Stale(c: Scheme, start: nat, p: Plain, ops: seq<Op>) {
    ops != [] &&
    StaleAfter(c, start, PlainRun(c, start, p, ops[..|ops| - 1]), ops[|ops| - 1], Stale(c, start, p, ops[..|ops| - 1]))
  }

  /** The software contract of the cache: addresses are words, and between a store into an entry that
      translations read and the next translation there is a fence, a privilege change or a satp write. */
  ghost predicate Fenced(c: Scheme, start: nat, p: Plain, ops: seq<Op>) {
    forall i :: 0 <= i < |ops| && ops[i].Translate? ==>
      ops[i].vaddr < WordSize(c) && !Stale(c, start, p, ops[..i])
  }

  // ---------------------------------------------------------------------------
  // Addresses in a cache of `n` sets
  // ---------------------------------------------------------------------------

  function TlbSet(n: nat, vaddr: nat): (s: nat)
    requires n > 0
    ensures s < n
  {
    vaddr / PGSIZE % n
  }

  function TlbTag(n: nat, vaddr: nat): nat
    requires n > 0
  {
    vaddr / PGSIZE / n * n * PGSIZE
  }

  function PageBase(a: nat): nat {
    a / PGSIZE * PGSIZE
  }

  /** Set and tag together are the page. */
  lemma SetAndTag(n: nat, vaddr: nat)
    requires n > 0
    ensures TlbTag(n, vaddr) + TlbSet(n, vaddr) * PGSIZE == PageBase(vaddr)
  {
    var p := vaddr / PGSIZE;
    assert p == p / n * n + p % n;
    assert (p / n * n + p % n) * PGSIZE == p / n * n * PGSIZE + p % n * PGSIZE;
  }

  /** As many pages in a row as there are sets do not displace each other. */
  lemma NeighboursApart(n: nat, a: nat, b: nat)
    requires n > 0 && a / PGSIZE < b / PGSIZE < a / PGSIZE + n
    ensures TlbSet(n, a) != TlbSet(n, b)
  {
    RemaindersDiffer(a / PGSIZE, b / PGSIZE, n);
  }

  // ---------------------------------------------------------------------------
  // The invariant
  // ---------------------------------------------------------------------------

  /** The block in set `i` holds what the walk finds for its page now, up to the A and D bits. */
  predicate BlockCorrect(c: Scheme, start: nat, p: Plain, n: nat, i: nat, b: Block)
    requires i < n
  {
    var page := b.tag + i * PGSIZE;
    var leaf := Lookup(c, p.mem, start, p.ctl.base, page);
    && page < WordSize(c) && page % PGSIZE == 0
    && leaf.Found?
    && b.pteAddr == leaf.pteAddr
    && Aligned(c, b.pteAddr)
    && b.flag % 64 == leaf.pte.flag % 64
    && b.paddr == PhysAddr(c, leaf.level, leaf.pte, page)
  }

  /** Every valid block of the cache is correct, and there is none while translation is off. */
  ghost predicate TlbCorrect(c: Scheme, start: nat, p: Plain, blocks: seq<Block>) {
    |blocks| > 0 &&
    forall i :: 0 <= i < |blocks| && blocks[i].valid ==>
      !p.ctl.Off() && BlockCorrect(c, start, p, |blocks|, i, blocks[i])
  }

  /** The block that tlb_push installs. */
  function NewBlock(n: nat, vaddr: nat, paddr: nat, pteAddr: nat, flag: Byte): Block
    requires n > 0
  {
    Block(true, PageBase(paddr), TlbTag(n, vaddr), pteAddr, flag)
  }

  /** The memory once the flags of the block that is replaced are written back. */
  function Evict(start: nat, mem: seq<Byte>, victim: Block): (r: seq<Byte>)
    ensures |r| == |mem|
  {
    if victim.valid && start <= victim.pteAddr < start + |mem| then mem[victim.pteAddr - start := victim.flag] else mem
  }

  /** The privilege check of a hit. */
  predicate HitAllows(f: nat, priv: Priv, sum: bool) {
    if FlagU(f) then priv == User || sum else priv == Supervisor
  }

  function HitFlag(f: Byte, t: MemType): Byte {
    if t == StoreType || t == AmoType then SetD(SetA(f)) else SetA(f)
  }

  function HitAddr(b: Block, vaddr: nat): nat {
    b.paddr + vaddr % PGSIZE
  }

  /** What a hit sets reaches the table when the block is replaced: of memory the byte of its entry changes, to
      one with A set, and D after a store or an atomic access, and no other byte does. */
  lemma HitReachesTable(start: nat, mem: seq<Byte>, b: Block, t: MemType, k: nat)
    requires b.valid && start <= b.pteAddr < start + |mem| && k < |mem|
    ensures var hit := Evict(start, mem, b.(flag := HitFlag(b.flag, t)));
            if k == b.pteAddr - start
            then FlagA(hit[k]) && (FlagD(hit[k]) <==> FlagD(b.flag) || t == StoreType || t == AmoType)
            else hit[k] == mem[k]
  {
  }

  /** A store written byte by byte. */
  lemma StoredNext(mem: seq<Byte>, off: nat, bytes: seq<Byte>, i: nat)
    requires off + |bytes| <= |mem| && i < |bytes|
    ensures (mem[..off] + bytes[..i] + mem[off + i..])[off + i := bytes[i]] ==
              mem[..off] + bytes[..i + 1] + mem[off + i + 1..]
  {
  }

  class Core {
    const c: Scheme
    const start: nat
    const ram: array<Byte>
    const tlb: array<Block>
    var bare: bool
    var pageTableBase: nat
    var privMode: Priv
    var sum: bool

    /** The core and the machine without a cache are in the same state, except that evictions may have
        changed A and D bits of the core's memory. */
    ghost predicate Agrees(p: Plain)
      reads this, ram
    {
      && SameUpToAD(c, start, ram[..], p.mem)
      && p.ctl == Control(bare, pageTableBase, privMode, sum)
      && Aligned(c, pageTableBase)
    }

    ghost predicate Coherent(p: Plain)
      reads tlb
    {
      TlbCorrect(c, start, p, tlb[..])
    }

    ghost predicate Empty()
      reads tlb
    {
      forall i :: 0 <= i < tlb.Length ==> !tlb[i].valid
    }

    constructor (c: Scheme, start: nat, ram: array<Byte>, sets: nat)
      requires sets > 0
      ensures this.c == c && this.start == start && this.ram == ram && fresh(tlb)
      ensures Agrees(Plain(ram[..], Control(true, 0, Machine, false)))
      ensures Coherent(Plain(ram[..], Control(true, 0, Machine, false)))
    {
      this.c := c;
      this.start := start;
      this.ram := ram;
      tlb := new Block[sets](_ => Block(false, 0, 0, 0, 0));
      bare, pageTableBase, privMode, sum := true, 0, Machine, false;
    }

    /** tlb_fence: every block is dropped, without write-back. */
    method TlbFence()
      modifies tlb
      ensures Empty()
    {
      for i := 0 to tlb.Length
        invariant forall k :: 0 <= k < i ==> !tlb[k].valid
      {
        tlb[i] := tlb[i].(valid := false);
      }
    }

    /** tlb_push: the flags of the block that is replaced go back into its table entry. */
    method TlbPush(vaddr: nat, paddr: nat, pteAddr: nat, flag: Byte, ghost p: Plain)
      requires Agrees(p) && Coherent(p) && !p.ctl.Off()
      requires vaddr < WordSize(c)
      requires var leaf := Lookup(c, p.mem, start, p.ctl.base, vaddr);
               && leaf.Found? && pteAddr == leaf.pteAddr && Aligned(c, pteAddr)
               && flag % 64 == leaf.pte.flag % 64
               && paddr == PhysAddr(c, leaf.level, leaf.pte, vaddr)
      modifies ram, tlb
      ensures Agrees(p) && Coherent(p)
      ensures tlb[..] == old(tlb[..])[TlbSet(tlb.Length, vaddr) := NewBlock(tlb.Length, vaddr, paddr, pteAddr, flag)]
      ensures ram[..] == Evict(start, old(ram[..]), old(tlb[TlbSet(tlb.Length, vaddr)]))
    {
      var s := TlbSet(tlb.Length, vaddr);
      var block := tlb[s];
      EvictKeeps(c, start, ram[..], p, tlb[..], s);
      if block.valid {
        ram[block.pteAddr - start] := block.flag;
      }
      assert ram[..] == Evict(start, old(ram[..]), block);
      NewBlockCorrect(c, start, p, tlb.Length, vaddr, paddr, pteAddr, flag);
      UpdateBlock(c, start, p, tlb[..], s, NewBlock(tlb.Length, vaddr, paddr, pteAddr, flag));
      tlb[s] := NewBlock(tlb.Length, vaddr, paddr, pteAddr, flag);
      assert tlb[..] == old(tlb[..])[s := NewBlock(tlb.Length, vaddr, paddr, pteAddr, flag)];
    }

    /** The loop of vaddr_translate_sv, down to a leaf entry or a fault. */
    method WalkTables(vaddr: nat) returns (leaf: Leaf)
      ensures leaf == Lookup(c, ram[..], start, pageTableBase, vaddr)
    {
      if !Canonical(c, vaddr) {
        return LeafPageFault;
      }
      var base := pageTableBase;
      var i := Levels(c);
      while i > 0
        invariant 0 <= i <= Levels(c)
        invariant i > 0 ==> FindLeaf(c, ram[..], start, base, i - 1, vaddr) ==
                            Lookup(c, ram[..], start, pageTableBase, vaddr)
        invariant i == 0 ==> Lookup(c, ram[..], start, pageTableBase, vaddr) == Undefined
      {
        i := i - 1;
        var pteAddr := PteAddr(c, base, i, vaddr);
        var data := ReadPte(c, ram[..], start, pteAddr);
        if data.None? {
          return LeafAccessFault;
        }
        var pte := data.value;
        if !FlagV(pte.flag) {
          return LeafPageFault;
        }
        if !FlagR(pte.flag) && FlagW(pte.flag) {
          return LeafPageFault;
        }
        if FlagR(pte.flag) || FlagX(pte.flag) {
          if pte.Ppn() % Pages(c, i) != 0 {
            return LeafPageFault;
          }
          return Found(i, pteAddr, pte);
        }
        base := NextBase(c, pte);
      }
      return Undefined;
    }

    /** The cache has the page of the address. */
    predicate Hits(vaddr: nat)
      requires tlb.Length > 0
      reads tlb
    {
      var block := tlb[TlbSet(tlb.Length, vaddr)];
      block.valid && block.tag == TlbTag(tlb.Length, vaddr)
    }

    /** vaddr_translate_sv: the walk over the core's own memory, which fills the cache. */
    method VaddrTranslateSv(vaddr: nat, t: MemType, ghost p: Plain) returns (res: VMResult)
      requires Agrees(p) && Coherent(p) && !p.ctl.Off()
      requires vaddr < WordSize(c)
      modifies ram, tlb
      ensures Agrees(p) && Coherent(p)
      ensures res == PlainTranslate(c, start, p, vaddr, t)
      ensures if res.Ok? then Hits(vaddr) else tlb[..] == old(tlb[..]) && ram[..] == old(ram[..])
    {
      var leaf := WalkTables(vaddr);
      WalkAgrees(c, start, ram[..], p, vaddr, t);
      match leaf
      case LeafPageFault => res := PageFault;
      case LeafAccessFault => res := AccessFault;
      case Undefined => res := Unreachable;
      case Found(level, pteAddr, pte) =>
        if FlagU(pte.flag) {
          if !(privMode == User || sum) {
            return PageFault;
          }
        } else if privMode == User {
          return PageFault;
        }
        if !Permits(pte.flag, t) {
          return PageFault;
        }
        var paddr := PhysAddr(c, level, pte, vaddr);
        TlbPush(vaddr, paddr, pteAddr, pte.flag, p);
        res := Ok(paddr);
    }

    /** vaddr_translate_core: the cached answer, or the walk. */
    method VaddrTranslateCore(vaddr: nat, t: MemType, ghost p: Plain) returns (res: VMResult)
      requires Agrees(p) && Coherent(p)
      requires vaddr < WordSize(c)
      modifies ram, tlb
      ensures Agrees(p) && Coherent(p)
      ensures res == PlainTranslate(c, start, p, vaddr, t)
      ensures (bare || privMode == Machine) ==> res == Ok(vaddr)
      ensures !(bare || privMode == Machine) && res.Ok? ==> Hits(vaddr)
      ensures old(Hits(vaddr)) ==> ram[..] == old(ram[..])
      ensures old(Hits(vaddr)) ==>
                var s := TlbSet(tlb.Length, vaddr);
                var b := old(tlb[s]);
                tlb[..] == old(tlb[..])[s := if res.Ok? then b.(flag := HitFlag(b.flag, t)) else b]
    {
      var s := TlbSet(tlb.Length, vaddr);
      var block := tlb[s];
      if block.valid && block.tag == TlbTag(tlb.Length, vaddr) {
        HitCorrect(c, start, p, tlb[..], vaddr, t);
        if Permits(block.flag, t) && HitAllows(block.flag, privMode, sum) {
          UpdateBlock(c, start, p, tlb[..], s, block.(flag := HitFlag(block.flag, t)));
          tlb[s] := block.(flag := HitFlag(block.flag, t));
          assert tlb[..] == old(tlb[..])[s := block.(flag := HitFlag(block.flag, t))];
          return Ok(HitAddr(block, vaddr));
        } else {
          return PageFault;
        }
      } else if bare || privMode == Machine {
        return Ok(vaddr);
      } else {
        res := VaddrTranslateSv(vaddr, t, p);
      }
    }

    /** A store to physical memory, by the guest or by a device. */
    method PmWrite(addr: nat, bytes: seq<Byte>)
      modifies ram
      ensures ram[..] == Write(old(ram[..]), start, addr, bytes)
    {
      if start <= addr && addr + |bytes| <= start + ram.Length {
        var off := addr - start;
        ghost var mem := ram[..];
        for i := 0 to |bytes|
          invariant ram[..] == mem[..off] + bytes[..i] + mem[off + i..]
        {
          StoredNext(mem, off, bytes, i);
          ram[off + i] := bytes[i];
        }
        assert bytes[..|bytes|] == bytes;
      }
    }

    /** One operation of the core, in step with the machine without a cache. */
    method Step(op: Op, ghost p: Plain, ghost stale: bool) returns (out: seq<VMResult>)
      requires Agrees(p) && tlb.Length > 0 && (stale || Coherent(p))
      requires op.Translate? ==> op.vaddr < WordSize(c) && !stale
      modifies this, ram, tlb
      ensures Agrees(PlainStep(c, start, p, op))
      ensures StaleAfter(c, start, p, op, stale) || Coherent(PlainStep(c, start, p, op))
      ensures out == PlainOutput(c, start, p, op)
    {
      match op
      case Translate(vaddr, t) =>
        var r := VaddrTranslateCore(vaddr, t, p);
        out := [r];
      case Store(addr, bytes) =>
        PmWrite(addr, bytes);
        BothWrite(c, start, old(ram[..]), p.mem, addr, bytes);
        if !StaleAfter(c, start, p, op, stale) {
          StoreKeepsTlb(c, start, p, tlb[..], addr, bytes);
        }
        out := [];
      case Fence =>
        TlbFence();
        out := [];
      case SetPriv(priv) =>
        privMode := priv;
        TlbFence();
        out := [];
      case SetSatp(bare_, ppn) =>
        RootAligned(c, ppn);
        bare := bare_;
        pageTableBase := ppn * PGSIZE % WordSize(c);
        TlbFence();
        out := [];
      case SetSum(sum_) =>
        sum := sum_;
        out := [];
    }

    /** Over any run that keeps the fencing contract, the core translates every address as the machine
        without a cache does, whatever is evicted and written back in between. */
    method Run(ops: seq<Op>, ghost p: Plain) returns (out: seq<VMResult>)
      requires Agrees(p) && Coherent(p)
      requires Fenced(c, start, p, ops)
      modifies this, ram, tlb
      ensures out == PlainOutputs(c, start, p, ops)
      ensures Agrees(PlainRun(c, start, p, ops))
    {
      out := [];
      assert ops[..0] == [];
      for i := 0 to |ops|
        invariant Agrees(PlainRun(c, start, p, ops[..i])) && tlb.Length > 0
        invariant Stale(c, start, p, ops[..i]) || Coherent(PlainRun(c, start, p, ops[..i]))
        invariant out == PlainOutputs(c, start, p, ops[..i])
      {
        assert ops[..i + 1][..i] == ops[..i] && ops[..i + 1][i] == ops[i];
        var o := Step(ops[i], PlainRun(c, start, p, ops[..i]), Stale(c, start, p, ops[..i]));
        out := out + o;
      }
      assert ops[..|ops|] == ops;
    }
  }

  // ---------------------------------------------------------------------------
  // Steps of the proof
  // ---------------------------------------------------------------------------

  lemma {:induction false} LeafAligned(c: Scheme, mem: seq<Byte>, start: nat, base: nat, level: nat, vaddr: nat)
    requires level < Levels(c) && Aligned(c, base)
    ensures var leaf := FindLeaf(c, mem, start, base, level, vaddr); leaf.Found? ==> Aligned(c, leaf.pteAddr)
    decreases level
  {
    PteAligned(c, base, level, vaddr);
    var data := ReadPte(c, mem, start, PteAddr(c, base, level, vaddr));
    if level > 0 && data.Some? {
      NextBaseAligned(c, data.value);
      LeafAligned(c, mem, start, NextBase(c, data.value), level - 1, vaddr);
    }
  }

  /** The leaf found in the core's memory is the leaf of the machine without a cache. */
  lemma WalkAgrees(c: Scheme, start: nat, mem: seq<Byte>, p: Plain, vaddr: nat, t: MemType)
    requires SameUpToAD(c, start, mem, p.mem) && Aligned(c, p.ctl.base) && !p.ctl.Off()
    ensures var leaf := Lookup(c, mem, start, p.ctl.base, vaddr);
            var leaf' := Lookup(c, p.mem, start, p.ctl.base, vaddr);
            && PlainTranslate(c, start, p, vaddr, t) == Conclude(c, leaf, vaddr, p.ctl.priv, p.ctl.sum, t)
            && SameLeaf(leaf, leaf')
            && (leaf.Found? ==>
                  Aligned(c, leaf.pteAddr)
                  && PhysAddr(c, leaf.level, leaf.pte, vaddr) == PhysAddr(c, leaf.level, leaf'.pte, vaddr))
  {
    var leaf := Lookup(c, mem, start, p.ctl.base, vaddr);
    var leaf' := Lookup(c, p.mem, start, p.ctl.base, vaddr);
    SameFindLeaf(c, start, mem, p.mem, p.ctl.base, Levels(c) - 1, vaddr);
    SameConclude(c, leaf, leaf', vaddr, p.ctl.priv, p.ctl.sum, t);
    LeafAligned(c, mem, start, p.ctl.base, Levels(c) - 1, vaddr);
    if leaf.Found? {
      SamePhys(c, leaf.level, leaf.pte, leaf'.pte, vaddr);
    }
  }

  /** Writing flags back changes A and D bits only. */
  lemma EvictKeeps(c: Scheme, start: nat, mem: seq<Byte>, p: Plain, blocks: seq<Block>, i: nat)
    requires SameUpToAD(c, start, mem, p.mem) && TlbCorrect(c, start, p, blocks) && i < |blocks|
    ensures blocks[i].valid ==> start <= blocks[i].pteAddr < start + |mem|
    ensures SameUpToAD(c, start, Evict(start, mem, blocks[i]), p.mem)
  {
    var b := blocks[i];
    if b.valid {
      assert BlockCorrect(c, start, p, |blocks|, i, b);
      assert p.mem[b.pteAddr - start] % 64 == b.flag % 64;
    }
  }

  lemma UpdateBlock(c: Scheme, start: nat, p: Plain, blocks: seq<Block>, i: nat, b: Block)
    requires TlbCorrect(c, start, p, blocks) && i < |blocks| && !p.ctl.Off()
    requires BlockCorrect(c, start, p, |blocks|, i, b)
    ensures TlbCorrect(c, start, p, blocks[i := b])
  {
  }

  lemma StoreKeepsTlb(c: Scheme, start: nat, p: Plain, blocks: seq<Block>, addr: nat, bytes: seq<Byte>)
    requires TlbCorrect(c, start, p, blocks)
    requires p.ctl.Off() || LeavesTablesAlone(c, p.mem, start, p.ctl.base, addr, |bytes|)
    ensures TlbCorrect(c, start, p.(mem := Write(p.mem, start, addr, bytes)), blocks)
  {
    var p' := p.(mem := Write(p.mem, start, addr, bytes));
    forall i | 0 <= i < |blocks| && blocks[i].valid
      ensures BlockCorrect(c, start, p', |blocks|, i, blocks[i])
    {
      assert BlockCorrect(c, start, p, |blocks|, i, blocks[i]);
      StoreKeepsLookup(c, p.mem, start, p.ctl.base, blocks[i].tag + i * PGSIZE, addr, bytes);
    }
  }

  lemma BothWrite(c: Scheme, start: nat, m: seq<Byte>, n: seq<Byte>, addr: nat, bytes: seq<Byte>)
    requires SameUpToAD(c, start, m, n)
    ensures SameUpToAD(c, start, Write(m, start, addr, bytes), Write(n, start, addr, bytes))
  {
  }

  lemma RootAligned(c: Scheme, ppn: nat)
    ensures Aligned(c, ppn * PGSIZE % WordSize(c))
  {
    var z := PteSize(c);
    DivModProduct(ppn * PGSIZE, z, WordSize(c) / z);
    MultipleMod(0, z, ppn * (PGSIZE / z));
  }

  lemma PageOf(u: nat)
    ensures PageBase(u) % PGSIZE == 0 && PageBase(u) / PGSIZE == u / PGSIZE && PageBase(u) <= u
  {
    MultipleMod(0, PGSIZE, u / PGSIZE);
  }

  lemma NewBlockCorrect(c: Scheme, start: nat, p: Plain, n: nat, vaddr: nat, paddr: nat, pteAddr: nat, flag: Byte)
    requires n > 0 && vaddr < WordSize(c)
    requires var leaf := Lookup(c, p.mem, start, p.ctl.base, vaddr);
             && leaf.Found? && pteAddr == leaf.pteAddr && Aligned(c, pteAddr)
             && flag % 64 == leaf.pte.flag % 64
             && paddr == PhysAddr(c, leaf.level, leaf.pte, vaddr)
    ensures BlockCorrect(c, start, p, n, TlbSet(n, vaddr), NewBlock(n, vaddr, paddr, pteAddr, flag))
  {
    var page := PageBase(vaddr);
    SetAndTag(n, vaddr);
    PageOf(vaddr);
    SamePageLookup(c, p.mem, start, p.ctl.base, vaddr, page);
    var leaf := Lookup(c, p.mem, start, p.ctl.base, vaddr);
    SamePagePhys(c, leaf.level, leaf.pte, vaddr, page);
    PhysOffset(c, leaf.level, leaf.pte, vaddr);
  }

  /** A hit gives the answer of the walk, and collecting A and D bits keeps the block correct. */
  lemma HitCorrect(c: Scheme, start: nat, p: Plain, blocks: seq<Block>, vaddr: nat, t: MemType)
    requires TlbCorrect(c, start, p, blocks) && vaddr < WordSize(c)
    requires var b := blocks[TlbSet(|blocks|, vaddr)]; b.valid && b.tag == TlbTag(|blocks|, vaddr)
    ensures var b := blocks[TlbSet(|blocks|, vaddr)];
            && PlainTranslate(c, start, p, vaddr, t) ==
               (if Permits(b.flag, t) && HitAllows(b.flag, p.ctl.priv, p.ctl.sum)
                then Ok(HitAddr(b, vaddr)) else PageFault)
            && !p.ctl.Off()
            && BlockCorrect(c, start, p, |blocks|, TlbSet(|blocks|, vaddr), b.(flag := HitFlag(b.flag, t)))
  {
    var n := |blocks|;
    var s := TlbSet(n, vaddr);
    var b := blocks[s];
    assert BlockCorrect(c, start, p, n, s, b);
    var page := PageBase(vaddr);
    SetAndTag(n, vaddr);
    PageOf(vaddr);
    SamePageLookup(c, p.mem, start, p.ctl.base, vaddr, page);
    var leaf := Lookup(c, p.mem, start, p.ctl.base, vaddr);
    SamePagePhys(c, leaf.level, leaf.pte, vaddr, page);
    SameChecks(b.flag, leaf.pte.flag, p.ctl.priv, p.ctl.sum, t);
    LowFlags(b.flag, leaf.pte.flag);
  }
}
