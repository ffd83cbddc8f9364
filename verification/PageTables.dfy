/**
 Sv32 and Sv39 page tables in guest memory, and the plain table walk.
 Masks and shifts of the source are written as remainders and quotients by powers of two; words
 wrap modulo 2^32 on the 32-bit machine and 2^64 on the 64-bit one.
 */
module PageTables {
  import opened Options
  import opened DivMod

  type Byte = x: int | 0 <= x < 256

  datatype Scheme = Sv32 | Sv39

  datatype Priv = User | Supervisor | Machine

  datatype MemType = DontCare | LoadType | StoreType | FetchType | AmoType

  const PGSIZE: nat := 4096

  /** Page frames in the address space of a word. */
  function Frames(c: Scheme): nat {
    match c
    case Sv32 => 0x10_0000
    case Sv39 => 0x10_0000_0000_0000
  }

  function WordSize(c: Scheme): (w: nat)
    ensures w > 0
  {
    PGSIZE * Frames(c)
  }

  function Levels(c: Scheme): nat {
    match c
    case Sv32 => 2
    case Sv39 => 3
  }

  function PteSize(c: Scheme): nat {
    match c
    case Sv32 => 4
    case Sv39 => 8
  }

  /** Entries of one table: 2^VPNBITS. */
  function Entries(c: Scheme): nat {
    match c
    case Sv32 => 1024
    case Sv39 => 512
  }

  /** 4 KiB pages in the page mapped by a leaf at the given level. */
  function Pages(c: Scheme, level: nat): (n: nat)
    requires level < Levels(c)
    ensures n > 0
  {
    if level == 0 then 1 else if level == 1 then Entries(c) else Entries(c) * Entries(c)
  }

  function Span(c: Scheme, level: nat): (s: nat)
    requires level < Levels(c)
    ensures s > 0
  {
    PGSIZE * Pages(c, level)
  }

  function Vpn(c: Scheme, level: nat, vaddr: nat): nat
    requires level < Levels(c)
  {
    vaddr / Span(c, level) % Entries(c)
  }

  // ---------------------------------------------------------------------------
  // Page-table entries
  // ---------------------------------------------------------------------------

  /** A word of memory as PTE: the flag byte and the bytes above it. */
  datatype Pte = Pte(flag: Byte, high: nat) {
    function Value(): nat { flag + 256 * high }
    /** pte >> 10 */
    function Ppn(): nat { Value() / 1024 }
  }

  predicate HasFlag(f: nat, k: nat)
    requires k > 0
  {
    f / k % 2 == 1
  }

  predicate FlagV(f: nat) { HasFlag(f, 1) }
  predicate FlagR(f: nat) { HasFlag(f, 2) }
  predicate FlagW(f: nat) { HasFlag(f, 4) }
  predicate FlagX(f: nat) { HasFlag(f, 8) }
  predicate FlagU(f: nat) { HasFlag(f, 16) }
  predicate FlagA(f: nat) { HasFlag(f, 64) }
  predicate FlagD(f: nat) { HasFlag(f, 128) }

  function SetA(f: Byte): (g: Byte)
    ensures FlagA(g) && g % 64 == f % 64 && (FlagD(g) <==> FlagD(f))
  {
    if FlagA(f) then f else f + 64
  }

  function SetD(f: Byte): (g: Byte)
    ensures FlagD(g) && g % 64 == f % 64 && (FlagA(g) <==> FlagA(f))
  {
    if FlagD(f) then f else f + 128
  }

  lemma LowBit(f: nat, g: nat, k: nat, m: nat)
    requires f % 64 == g % 64
    requires k > 0 && m > 0 && k * (2 * m) == 64
    ensures HasFlag(f, k) <==> HasFlag(g, k)
  {
    DivModProduct(f, k, 2 * m);
    DivModProduct(g, k, 2 * m);
    DivModProduct(f / k, 2, m);
    DivModProduct(g / k, 2, m);
  }

  /** The flags a walk consults are those below the A and D bits. */
  lemma LowFlags(f: nat, g: nat)
    requires f % 64 == g % 64
    ensures (FlagV(f) <==> FlagV(g)) && (FlagR(f) <==> FlagR(g)) && (FlagW(f) <==> FlagW(g))
    ensures (FlagX(f) <==> FlagX(g)) && (FlagU(f) <==> FlagU(g))
  {
    LowBit(f, g, 1, 32); LowBit(f, g, 2, 16); LowBit(f, g, 4, 8); LowBit(f, g, 8, 4); LowBit(f, g, 16, 2);
  }

  // ---------------------------------------------------------------------------
  // Memory
  // ---------------------------------------------------------------------------

  /** Little-endian value of the `len` bytes from `off`. */
  function Word(mem: seq<Byte>, off: int, len: nat): (w: nat)
    requires 0 <= off && off + len <= |mem|
    decreases len
  {
    if len == 0 then 0 else mem[off] + 256 * Word(mem, off + 1, len - 1)
  }

  /** Bus::read from the one block of memory that begins at `start`. */
  function ReadPte(c: Scheme, mem: seq<Byte>, start: nat, addr: nat): Option<Pte> {
    if start <= addr && addr + PteSize(c) <= start + |mem|
    then Some(Pte(mem[addr - start], Word(mem, addr - start + 1, PteSize(c) - 1)))
    else None
  }

  // ---------------------------------------------------------------------------
  // The walk
  // ---------------------------------------------------------------------------

  /** How the search for a leaf entry ends.  `Undefined` is falling off the last level, which the
      source marks as unreachable. */
  datatype Leaf =
    | Found(level: nat, pteAddr: nat, pte: Pte)
    | LeafPageFault
    | LeafAccessFault
    | Undefined

  datatype VMResult = Ok(paddr: nat) | PageFault | AccessFault | Unreachable

  function PteAddr(c: Scheme, base: nat, level: nat, vaddr: nat): nat
    requires level < Levels(c)
  {
    (base + Vpn(c, level, vaddr) * PteSize(c)) % WordSize(c)
  }

  function NextBase(c: Scheme, pte: Pte): nat {
    pte.Ppn() * PGSIZE % WordSize(c)
  }

  /** One entry: a fault, a leaf, or None to go on at the next level. */
  function Inspect(c: Scheme, level: nat, pteAddr: nat, pte: Pte): Option<Leaf>
    requires level < Levels(c)
  {
    if !FlagV(pte.flag) then Some(LeafPageFault)
    else if !FlagR(pte.flag) && FlagW(pte.flag) then Some(LeafPageFault)
    else if FlagR(pte.flag) || FlagX(pte.flag) then
      Some(if pte.Ppn() % Pages(c, level) != 0 then LeafPageFault else Found(level, pteAddr, pte))
    else None
  }

  function FindLeaf(c: Scheme, mem: seq<Byte>, start: nat, base: nat, level: nat, vaddr: nat): (r: Leaf)
    requires level < Levels(c)
    decreases level
    ensures r.Found? ==> r.level < Levels(c) && ReadPte(c, mem, start, r.pteAddr) == Some(r.pte)
  {
    var pteAddr := PteAddr(c, base, level, vaddr);
    var data := ReadPte(c, mem, start, pteAddr);
    if data.None? then LeafAccessFault
    else
      var r := Inspect(c, level, pteAddr, data.value);
      if r.Some? then r.value
      else if level == 0 then Undefined
      else FindLeaf(c, mem, start, NextBase(c, data.value), level - 1, vaddr)
  }

  /** Bits 63 to 39 all equal to bit 38. */
  predicate Canonical(c: Scheme, vaddr: nat) {
    c == Sv39 ==> vaddr / 0x80_0000_0000 == if vaddr / 0x40_0000_0000 % 2 == 1 then 0x1ff_ffff else 0
  }

  function Lookup(c: Scheme, mem: seq<Byte>, start: nat, base: nat, vaddr: nat): (r: Leaf)
    ensures r.Found? ==> r.level < Levels(c) && ReadPte(c, mem, start, r.pteAddr) == Some(r.pte)
  {
    if !Canonical(c, vaddr) then LeafPageFault
    else FindLeaf(c, mem, start, base, Levels(c) - 1, vaddr)
  }

  predicate Permits(f: nat, t: MemType) {
    match t
    case DontCare => true
    case LoadType => FlagR(f)
    case StoreType => FlagW(f)
    case FetchType => FlagX(f)
    case AmoType => FlagR(f) && FlagW(f)
  }

  /** The privilege check of the walk. */
  predicate WalkAllows(f: nat, priv: Priv, sum: bool) {
    if FlagU(f) then priv == User || sum else priv != User
  }

  /** The page number comes from the entry, the offset within the (super)page from the address. */
  function PhysAddr(c: Scheme, level: nat, pte: Pte, vaddr: nat): nat
    requires level < Levels(c)
  {
    var span := Span(c, level);
    pte.Value() * 4 % WordSize(c) / span * span + vaddr % span
  }

  function Conclude(c: Scheme, leaf: Leaf, vaddr: nat, priv: Priv, sum: bool, t: MemType): VMResult
    requires leaf.Found? ==> leaf.level < Levels(c)
  {
    match leaf
    case LeafPageFault => PageFault
    case LeafAccessFault => AccessFault
    case Undefined => Unreachable
    case Found(level, _, pte) =>
      if WalkAllows(pte.flag, priv, sum) && Permits(pte.flag, t) then Ok(PhysAddr(c, level, pte, vaddr)) else PageFault
  }

  /** The uncached translation. */
  function Walk(c: Scheme, mem: seq<Byte>, start: nat, base: nat, vaddr: nat, priv: Priv, sum: bool,
      t: MemType): VMResult {
    Conclude(c, Lookup(c, mem, start, base, vaddr), vaddr, priv, sum, t)
  }

  // ---------------------------------------------------------------------------
  // What walks depend on
  // ---------------------------------------------------------------------------

  /** Entries start at multiples of their size. */
  lemma PteAligned(c: Scheme, base: nat, level: nat, vaddr: nat)
    requires level < Levels(c) && Aligned(c, base)
    ensures Aligned(c, PteAddr(c, base, level, vaddr))
  {
    var v, z := Vpn(c, level, vaddr), PteSize(c);
    MultipleMod(base, z, v);
    DivModProduct(base + v * z, z, WordSize(c) / z);
  }

  /** The addresses at which an entry can start. */
  predicate Aligned(c: Scheme, addr: nat) {
    match c
    case Sv32 => addr % 4 == 0
    case Sv39 => addr % 8 == 0
  }

  /** Memories that differ at most in the two topmost bits of bytes at which an entry can start. */
  predicate SameUpToAD(c: Scheme, start: nat, m: seq<Byte>, n: seq<Byte>) {
    |m| == |n| &&
    forall k :: 0 <= k < |m| ==> m[k] == n[k] || (Aligned(c, start + k) && m[k] % 64 == n[k] % 64)
  }

  predicate SameFlagsAndPpn(p: Pte, q: Pte) {
    p.high == q.high && p.flag % 64 == q.flag % 64
  }

  lemma {:induction false} SameWord(m: seq<Byte>, n: seq<Byte>, off: int, len: nat)
    requires 0 <= off && off + len <= |m| == |n|
    requires forall k :: off <= k < off + len ==> m[k] == n[k]
    ensures Word(m, off, len) == Word(n, off, len)
    decreases len
  {
    if len > 0 {
      SameWord(m, n, off + 1, len - 1);
    }
  }

  /** Only the first byte of an entry can differ. */
  lemma SameTail(c: Scheme, start: nat, m: seq<Byte>, n: seq<Byte>, off: nat)
    requires SameUpToAD(c, start, m, n) && Aligned(c, start + off) && off + PteSize(c) <= |m|
    ensures m[off] % 64 == n[off] % 64
    ensures Word(m, off + 1, PteSize(c) - 1) == Word(n, off + 1, PteSize(c) - 1)
  {
    forall k | off + 1 <= k < off + PteSize(c) ensures m[k] == n[k] {
      NotAligned(c, start + off, start + k);
    }
    SameWord(m, n, off + 1, PteSize(c) - 1);
  }

  lemma SameRead(c: Scheme, start: nat, m: seq<Byte>, n: seq<Byte>, addr: nat)
    requires SameUpToAD(c, start, m, n) && Aligned(c, addr)
    ensures var p, q := ReadPte(c, m, start, addr), ReadPte(c, n, start, addr);
            (p.Some? <==> q.Some?) && (p.Some? ==> SameFlagsAndPpn(p.value, q.value))
  {
    if start <= addr && addr + PteSize(c) <= start + |m| {
      SameTail(c, start, m, n, addr - start);
    }
  }

  lemma NotAligned(c: Scheme, a: nat, b: nat)
    requires Aligned(c, a) && a < b < a + PteSize(c)
    ensures !Aligned(c, b)
  {
  }

  lemma PpnOf(p: Pte)
    ensures p.Ppn() == p.high / 4
  {
    DivModProduct(p.Value(), 256, 4);
    MultipleMod(p.flag, 256, p.high);
  }

  lemma SameInspect(c: Scheme, level: nat, pteAddr: nat, p: Pte, q: Pte)
    requires level < Levels(c) && SameFlagsAndPpn(p, q)
    ensures p.Ppn() == q.Ppn()
    ensures match (Inspect(c, level, pteAddr, p), Inspect(c, level, pteAddr, q))
            case (Some(Found(l, a, _)), Some(Found(l', a', _))) => l == l' == level && a == a' == pteAddr
            case (r, r') => r == r'
  {
    PpnOf(p);
    PpnOf(q);
    LowFlags(p.flag, q.flag);
  }

  /** Two leaves that agree in everything but the A and D bits of the entry. */
  predicate SameLeaf(a: Leaf, b: Leaf) {
    match (a, b)
    case (Found(l, p, e), Found(l', p', e')) => l == l' && p == p' && SameFlagsAndPpn(e, e')
    case (_, _) => a == b
  }

  lemma NextBaseAligned(c: Scheme, pte: Pte)
    ensures Aligned(c, NextBase(c, pte))
  {
    var p, z := pte.Ppn(), PteSize(c);
    DivModProduct(p * PGSIZE, z, WordSize(c) / z);
    MultipleMod(0, z, p * (PGSIZE / z));
  }

  /** A walk does not see A and D bits. */
  lemma {:induction false} SameFindLeaf(c: Scheme, start: nat, m: seq<Byte>, n: seq<Byte>, base: nat, level: nat,
      vaddr: nat)
    requires SameUpToAD(c, start, m, n) && level < Levels(c) && Aligned(c, base)
    decreases level
    ensures SameLeaf(FindLeaf(c, m, start, base, level, vaddr), FindLeaf(c, n, start, base, level, vaddr))
  {
    var a := PteAddr(c, base, level, vaddr);
    PteAligned(c, base, level, vaddr);
    SameRead(c, start, m, n, a);
    var p, q := ReadPte(c, m, start, a), ReadPte(c, n, start, a);
    if p.Some? {
      SameInspect(c, level, a, p.value, q.value);
      if Inspect(c, level, a, p.value).None? && level > 0 {
        NextBaseAligned(c, p.value);
        SameFindLeaf(c, start, m, n, NextBase(c, p.value), level - 1, vaddr);
      }
    }
  }

  lemma SameChecks(p: nat, q: nat, priv: Priv, sum: bool, t: MemType)
    requires p % 64 == q % 64
    ensures WalkAllows(p, priv, sum) == WalkAllows(q, priv, sum)
    ensures Permits(p, t) == Permits(q, t)
  {
    LowFlags(p, q);
  }

  lemma SameConclude(c: Scheme, a: Leaf, b: Leaf, vaddr: nat, priv: Priv, sum: bool, t: MemType)
    requires SameLeaf(a, b) && (a.Found? ==> a.level < Levels(c))
    ensures Conclude(c, a, vaddr, priv, sum, t) == Conclude(c, b, vaddr, priv, sum, t)
  {
    if a.Found? {
      SameChecks(a.pte.flag, b.pte.flag, priv, sum, t);
      SamePhys(c, a.level, a.pte, b.pte, vaddr);
    }
  }

  /** The page number of the leaf is all that enters the physical address. */
  lemma SamePhys(c: Scheme, level: nat, p: Pte, q: Pte, vaddr: nat)
    requires level < Levels(c) && SameFlagsAndPpn(p, q)
    ensures PhysAddr(c, level, p, vaddr) == PhysAddr(c, level, q, vaddr)
  {
    FrameOfPte(c, p);
    FrameOfPte(c, q);
    PpnOf(p);
    PpnOf(q);
    DivModProduct(p.Value() * 4 % WordSize(c), PGSIZE, Pages(c, level));
    DivModProduct(q.Value() * 4 % WordSize(c), PGSIZE, Pages(c, level));
  }

  lemma FrameOfPte(c: Scheme, p: Pte)
    ensures p.Value() * 4 % WordSize(c) / PGSIZE == p.Ppn() % Frames(c)
  {
    DivModProduct(p.Value() * 4, PGSIZE, Frames(c));
    DivModProduct(p.Value() * 4, 4, 1024);
    MultipleMod(0, 4, p.Value());
  }

  // ---------------------------------------------------------------------------
  // Pages
  // ---------------------------------------------------------------------------

  /** Addresses of one 4 KiB page lie in one page of every larger size. */
  lemma SamePage(c: Scheme, level: nat, u: nat, v: nat)
    requires level < Levels(c) && u / PGSIZE == v / PGSIZE
    ensures u / Span(c, level) == v / Span(c, level)
    ensures u % Span(c, level) - u % PGSIZE == v % Span(c, level) - v % PGSIZE
    ensures u % Span(c, level) % PGSIZE == u % PGSIZE
  {
    DivModProduct(u, PGSIZE, Pages(c, level));
    DivModProduct(v, PGSIZE, Pages(c, level));
  }

  lemma {:induction false} SamePageLeaf(c: Scheme, mem: seq<Byte>, start: nat, base: nat, level: nat, u: nat, v: nat)
    requires level < Levels(c) && u / PGSIZE == v / PGSIZE
    decreases level
    ensures FindLeaf(c, mem, start, base, level, u) == FindLeaf(c, mem, start, base, level, v)
  {
    SamePage(c, level, u, v);
    var a := PteAddr(c, base, level, u);
    var data := ReadPte(c, mem, start, a);
    if level > 0 && data.Some? {
      SamePageLeaf(c, mem, start, NextBase(c, data.value), level - 1, u, v);
    }
  }

  /** Two addresses of one page have the same leaf, and physical addresses the same distance apart. */
  lemma SamePageLookup(c: Scheme, mem: seq<Byte>, start: nat, base: nat, u: nat, v: nat)
    requires u / PGSIZE == v / PGSIZE
    ensures Lookup(c, mem, start, base, u) == Lookup(c, mem, start, base, v)
  {
    SamePageLeaf(c, mem, start, base, Levels(c) - 1, u, v);
    DivModProduct(u, PGSIZE, 0x800_0000);
    DivModProduct(v, PGSIZE, 0x800_0000);
    DivModProduct(u, PGSIZE, 0x400_0000);
    DivModProduct(v, PGSIZE, 0x400_0000);
  }

  lemma PhysOffset(c: Scheme, level: nat, pte: Pte, u: nat)
    requires level < Levels(c)
    ensures PhysAddr(c, level, pte, u) % PGSIZE == u % PGSIZE
  {
    SamePage(c, level, u, u);
    OffsetInPage(pte.Value() * 4 % WordSize(c) / Span(c, level), Pages(c, level), u % Span(c, level));
  }

  lemma OffsetInPage(q: nat, pages: nat, r: nat)
    ensures (q * (PGSIZE * pages) + r) % PGSIZE == r % PGSIZE
  {
    assert q * (PGSIZE * pages) == (q * pages) * PGSIZE;
    MultipleMod(r, PGSIZE, q * pages);
  }

  lemma SamePagePhys(c: Scheme, level: nat, pte: Pte, u: nat, v: nat)
    requires level < Levels(c) && u / PGSIZE == v / PGSIZE
    ensures PhysAddr(c, level, pte, u) - u % PGSIZE == PhysAddr(c, level, pte, v) - v % PGSIZE
  {
    SamePage(c, level, u, v);
  }

  // ---------------------------------------------------------------------------
  // The fields of addresses, as the manual names them
  // ---------------------------------------------------------------------------

  /** The virtual page numbers and the page offset make up the part of the address that is translated. */
  lemma VpnsMakeAddress(c: Scheme, vaddr: nat)
    ensures c == Sv32 ==>
              vaddr % 0x1_0000_0000 == (Vpn(c, 1, vaddr) * 1024 + Vpn(c, 0, vaddr)) * PGSIZE + vaddr % PGSIZE
    ensures c == Sv39 ==>
              vaddr % 0x80_0000_0000 ==
                ((Vpn(c, 2, vaddr) * 512 + Vpn(c, 1, vaddr)) * 512 + Vpn(c, 0, vaddr)) * PGSIZE + vaddr % PGSIZE
  {
    var page := vaddr / PGSIZE;
    match c
    case Sv32 =>
      DivModProduct(vaddr, PGSIZE, 1024 * 1024);
      DivModProduct(vaddr, PGSIZE, 1024);
      DivModProduct(page, 1024, 1024);
    case Sv39 =>
      DivModProduct(vaddr, PGSIZE, 512 * 512 * 512);
      DivModProduct(vaddr, PGSIZE, 512);
      DivModProduct(vaddr, PGSIZE, 512 * 512);
      DivModProduct(page, 512, 512);
      DivModProduct(page, 512 * 512, 512);
  }

  /** For a leaf at `level`: pa.pgoff is va.pgoff, pa.ppn[j] is va.vpn[j] below that level, and the page
      numbers from it on are those of the entry. */
  lemma PhysAddrFields(c: Scheme, level: nat, pte: Pte, vaddr: nat, j: nat)
    requires level < Levels(c)
    ensures PhysAddr(c, level, pte, vaddr) % PGSIZE == vaddr % PGSIZE
    ensures j < level ==> PhysAddr(c, level, pte, vaddr) / Span(c, j) % Entries(c) == Vpn(c, j, vaddr)
    ensures PhysAddr(c, level, pte, vaddr) / Span(c, level) == pte.Ppn() % Frames(c) / Pages(c, level)
  {
    PhysOffset(c, level, pte, vaddr);
    PhysParts(c, level, pte, vaddr);
    EntryPages(c, level, pte);
    if j < level {
      SameLowField(c, level, j, PhysAddr(c, level, pte, vaddr), vaddr);
    }
  }

  lemma PhysParts(c: Scheme, level: nat, pte: Pte, vaddr: nat)
    requires level < Levels(c)
    ensures PhysAddr(c, level, pte, vaddr) / Span(c, level) == pte.Value() * 4 % WordSize(c) / Span(c, level)
    ensures PhysAddr(c, level, pte, vaddr) % Span(c, level) == vaddr % Span(c, level)
  {
    var span := Span(c, level);
    DivModUnique(PhysAddr(c, level, pte, vaddr), span, pte.Value() * 4 % WordSize(c) / span, vaddr % span);
  }

  lemma EntryPages(c: Scheme, level: nat, pte: Pte)
    requires level < Levels(c)
    ensures pte.Value() * 4 % WordSize(c) / Span(c, level) == pte.Ppn() % Frames(c) / Pages(c, level)
  {
    var x := pte.Value() * 4;
    DivModProduct(x, PGSIZE, Frames(c));
    DivModProduct(x % WordSize(c), PGSIZE, Pages(c, level));
    assert x / PGSIZE == pte.Ppn();
  }

  /** Page numbers below a level depend on the offset within its pages only. */
  lemma SameLowField(c: Scheme, level: nat, j: nat, a: nat, b: nat)
    requires j < level < Levels(c) && a % Span(c, level) == b % Span(c, level)
    ensures a / Span(c, j) % Entries(c) == b / Span(c, j) % Entries(c)
  {
    var s, n := Span(c, j), Entries(c);
    var rest := if level == j + 1 then 1 else n;
    assert Span(c, level) == s * n * rest;
    LowField(a, s, n, rest);
    LowField(b, s, n, rest);
  }

  lemma LowField(a: nat, s: nat, n: nat, rest: nat)
    requires s > 0 && n > 0 && rest > 0
    ensures s * n * rest > 0 && a / s % n == a % (s * n * rest) / s % n
  {
    DivModProduct(a, s * n, rest);
    DivModProduct(a, s, n);
    DivModProduct(a % (s * n * rest), s, n);
  }

  // ---------------------------------------------------------------------------
  // Stores that leave the tables alone
  // ---------------------------------------------------------------------------

  /** Some byte of addr, ..., addr + len - 1 belongs to an entry that the walk for `vaddr` reads. */
  predicate WalkReads(c: Scheme, mem: seq<Byte>, start: nat, base: nat, level: nat, vaddr: nat, addr: nat, len: nat)
    requires level < Levels(c)
    decreases level
  {
    var a := PteAddr(c, base, level, vaddr);
    var data := ReadPte(c, mem, start, a);
    (addr < a + PteSize(c) && a < addr + len) ||
    (data.Some? && Inspect(c, level, a, data.value).None? && level > 0 &&
     WalkReads(c, mem, start, NextBase(c, data.value), level - 1, vaddr, addr, len))
  }

  /** The bytes are part of no entry that any translation would read. */
  ghost predicate LeavesTablesAlone(c: Scheme, mem: seq<Byte>, start: nat, base: nat, addr: nat, len: nat) {
    forall vaddr: nat {:trigger WalkReads(c, mem, start, base, Levels(c) - 1, vaddr, addr, len)} ::
      vaddr < WordSize(c) ==> !WalkReads(c, mem, start, base, Levels(c) - 1, vaddr, addr, len)
  }

  /** Bus::write of consecutive bytes; false and no effect outside the block. */
  function Write(mem: seq<Byte>, start: nat, addr: nat, bytes: seq<Byte>): (r: seq<Byte>)
    ensures |r| == |mem|
  {
    if start <= addr && addr + |bytes| <= start + |mem|
    then mem[..addr - start] + bytes + mem[addr - start + |bytes|..]
    else mem
  }

  lemma WriteElsewhere(c: Scheme, mem: seq<Byte>, start: nat, addr: nat, bytes: seq<Byte>, a: nat)
    requires addr >= a + PteSize(c) || a >= addr + |bytes|
    ensures ReadPte(c, Write(mem, start, addr, bytes), start, a) == ReadPte(c, mem, start, a)
  {
    if start <= a && a + PteSize(c) <= start + |mem| {
      SameWord(mem, Write(mem, start, addr, bytes), a - start + 1, PteSize(c) - 1);
    }
  }

  lemma {:induction false} StoreKeepsLeaf(c: Scheme, mem: seq<Byte>, start: nat, base: nat, level: nat, vaddr: nat,
                                          addr: nat, bytes: seq<Byte>)
    requires level < Levels(c) && !WalkReads(c, mem, start, base, level, vaddr, addr, |bytes|)
    decreases level
    ensures FindLeaf(c, Write(mem, start, addr, bytes), start, base, level, vaddr)
            == FindLeaf(c, mem, start, base, level, vaddr)
  {
    var a := PteAddr(c, base, level, vaddr);
    WriteElsewhere(c, mem, start, addr, bytes, a);
    var data := ReadPte(c, mem, start, a);
    if data.Some? && Inspect(c, level, a, data.value).None? && level > 0 {
      StoreKeepsLeaf(c, mem, start, NextBase(c, data.value), level - 1, vaddr, addr, bytes);
    }
  }

  lemma StoreKeepsLookup(c: Scheme, mem: seq<Byte>, start: nat, base: nat, vaddr: nat, addr: nat, bytes: seq<Byte>)
    requires vaddr < WordSize(c) && LeavesTablesAlone(c, mem, start, base, addr, |bytes|)
    ensures Lookup(c, Write(mem, start, addr, bytes), start, base, vaddr) == Lookup(c, mem, start, base, vaddr)
  {
    StoreKeepsLeaf(c, mem, start, base, Levels(c) - 1, vaddr, addr, bytes);
  }
}
