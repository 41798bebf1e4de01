/** IA-32 address translation by quotients and remainders (sections 4.3 and 4.4 of the
    Intel SDM Volume 3A), and the proof that the shift-and-mask walk computes it. */
module Ia32 {
  import opened Bits
  import opened Common
  import opened PageWalk

  // ----- the specification

  predicate P(entry: nat) {
    entry % 2 == 1
  }

  predicate PS(entry: nat) {
    entry / 128 % 2 == 1
  }

  /** The number in n bytes of memory, the least significant one first. */
  function Stored(b: Bytes, a: nat, n: nat): nat
    decreases n
  {
    if n == 0 then 0 else b(a) + 0x100 * Stored(b, a + 1, n - 1)
  }

  /** 32-bit paging with CR4.PSE set. */
  function Translate32(entryAt: Memory, cr3: uint32, va: uint32): Option<nat> {
    TranslatePde32(entryAt, va, entryAt(cr3 / 4096 * 4096 + 4 * (va / 0x40_0000)))
  }

  /** Bits 20:13 of an entry that maps a 4 MB page are physical address bits 39:32. */
  function TranslatePde32(entryAt: Memory, va: uint32, pde: uint32): Option<nat> {
    if !P(pde) then None
    else if PS(pde) then
      Some(pde / 0x2000 % 256 * 0x1_0000_0000 + (pde / 0x40_0000 * 0x40_0000 + va % 0x40_0000))
    else TranslatePte32(va, entryAt(pde / 4096 * 4096 + 4 * (va / 4096 % 1024)))
  }

  function TranslatePte32(va: uint32, pte: uint32): Option<nat> {
    if P(pte) then Some(pte / 4096 * 4096 + va % 4096) else None
  }

  /** PAE paging with 36-bit physical addresses. */
  function TranslatePae(entryAt: nat -> uint64, cr3: uint32, va: uint32): Option<nat> {
    TranslatePdpte(entryAt, va, entryAt(PdpteAt(cr3, va)))
  }

  function PdpteAt(cr3: uint32, va: uint32): nat {
    cr3 / 32 * 32 + 8 * (va / 0x4000_0000)
  }

  /** Bits 35:12 of a PAE entry: a 4 KB aligned physical address of 36 bits. */
  function Frame36(entry: nat): nat {
    entry / 4096 % 0x100_0000 * 4096
  }

  function TranslatePdpte(entryAt: nat -> uint64, va: uint32, pdpte: uint64): Option<nat> {
    if P(pdpte) then TranslatePdePae(entryAt, va, entryAt(Frame36(pdpte) + 8 * (va / 0x20_0000 % 512))) else None
  }

  function TranslatePdePae(entryAt: nat -> uint64, va: uint32, pde: uint64): Option<nat> {
    if !P(pde) then None
    else if PS(pde) then Some(pde / 0x20_0000 % 0x8000 * 0x20_0000 + va % 0x20_0000)
    else TranslatePtePae(va, entryAt(Frame36(pde) + 8 * (va / 4096 % 512)))
  }

  function TranslatePtePae(va: uint32, pte: uint64): Option<nat> {
    if P(pte) then Some(Frame36(pte) + va % 4096) else None
  }

  /** What a walk that returns a 32-bit word can report: the low half, or 0. */
  function Reported(p: Option<nat>): uint32 {
    if p.Some? then Trunc(p.value) else 0
  }

  // ----- what the masks compute

  lemma LowMasks(x: nat)
    ensures And(x, 1) == x % 2
    ensures And(x, 0x1FF) == x % 512
    ensures And(x, 0x3FF) == x % 1024
    ensures And(x, 0xFFF) == x % 4096
  {
    Powers();
    LowMask(x, 1, 0x2);
    LowMask(x, 9, 0x200);
    LowMask(x, 10, 0x400);
    LowMask(x, 12, 0x1000);
  }

  lemma LargeLowMasks(x: nat)
    ensures And(x, 0x1F_FFFF) == x % 0x20_0000
    ensures And(x, 0x3F_FFFF) == x % 0x40_0000
  {
    Powers();
    LowMask(x, 21, 0x200000);
    LowMask(x, 22, 0x400000);
  }

  lemma Flags(x: nat)
    ensures EntryPresent(x) == P(x)
    ensures PageSizeFlag(x) == PS(x)
  {
    Powers();
    LowMask(x, 1, 2);
    AndTimes128(x, 1);
    LowMask(x / 128, 1, 2);
  }

  lemma Base32(x: nat)
    ensures And(x, 0xFFFF_F000) == x / 4096 % 0x100000 * 4096
  {
    Powers();
    AndTimes4096(x, 0xF_FFFF);
    LowMask(x / 4096, 20, 0x100000);
  }

  lemma Base36(x: nat)
    ensures And(x, 0xF_FFFF_F000) == x / 4096 % 0x1000000 * 4096
  {
    Powers();
    AndTimes4096(x, 0xFF_FFFF);
    LowMask(x / 4096, 24, 0x1000000);
  }

  lemma PdptBase(x: nat)
    ensures And(x, 0xFFFF_FFE0) == x / 32 % 0x8000000 * 32
  {
    Powers();
    AndTimes32(x, 0x7FF_FFFF);
    LowMask(x / 32, 27, 0x8000000);
  }

  lemma LargeBase32(x: nat)
    ensures And(x, 0xFFC0_0000) == x / 0x40_0000 % 0x400 * 0x40_0000
  {
    Powers();
    AndTimes4M(x, 0x3FF);
    LowMask(x / 0x40_0000, 10, 0x400);
  }

  lemma LargeBasePae(x: nat)
    ensures And(x, 0xFFE0_0000) == x / 0x20_0000 % 0x800 * 0x20_0000
  {
    Powers();
    AndTimes2M(x, 0x7FF);
    LowMask(x / 0x20_0000, 11, 0x800);
  }

  // ----- the walk, piece by piece

  lemma Indices32(va: nat)
    ensures PgdIndex(false, va) == 4 * (va / 0x40_0000 % 1024)
    ensures PteIndex(false, va) == 4 * (va / 4096 % 1024)
  {
    Powers();
    LowMask(va / 0x40_0000, 10, 0x400);
    LowMask(va / 4096, 10, 0x400);
  }

  lemma IndicesPae(va: nat)
    ensures PdpiIndex(va) == 8 * (va / 0x4000_0000)
    ensures PgdIndex(true, va) == 8 * (va / 0x20_0000 % 512)
    ensures PteIndex(true, va) == 8 * (va / 4096 % 512)
  {
    Powers();
    LowMask(va / 0x20_0000, 9, 0x200);
    LowMask(va / 4096, 9, 0x200);
  }

  lemma Join(x: nat, y: nat, k: nat, p: nat)
    requires p == Pow2(k) && y < p
    ensures Or(x * p, y) == x * p + y
  {
    ModUnique(x * p, p, x, 0);
    OrDisjoint(x * p, y, k);
  }

  lemma Join12(x: nat, y: nat)
    requires y < 4096
    ensures Or(x * 4096, y) == x * 4096 + y
  {
    Powers();
    Join(x, y, 12, 4096);
  }

  lemma Paddr32(va: nat, pte: nat)
    ensures GetPaddrNoPae(va, pte) == pte / 4096 % 0x10_0000 * 4096 + va % 4096
  {
    Base32(pte);
    LowMasks(va);
    Join12(pte / 4096 % 0x10_0000, va % 4096);
  }

  lemma PaddrPae(va: nat, pte: nat)
    ensures GetPaddrPae(va, pte) == Frame36(pte) + va % 4096
  {
    Base36(pte);
    LowMasks(va);
    Join12(pte / 4096 % 0x100_0000, va % 4096);
  }

  lemma LargePaddr32(va: nat, pde: nat)
    ensures GetLargePaddr(false, va, pde) == pde / 0x40_0000 % 0x400 * 0x40_0000 + va % 0x40_0000
  {
    LargeBase32(pde);
    LargeLowMasks(va);
    Powers();
    Join(pde / 0x40_0000 % 0x400, va % 0x40_0000, 22, 0x40_0000);
  }

  lemma LargePaddrPae(va: nat, pde: nat)
    ensures GetLargePaddr(true, va, pde) == pde / 0x20_0000 % 0x800 * 0x20_0000 + va % 0x20_0000
  {
    LargeBasePae(pde);
    LargeLowMasks(va);
    Powers();
    Join(pde / 0x20_0000 % 0x800, va % 0x20_0000, 21, 0x20_0000);
  }

  // ----- the same walk by quotients and remainders

  function Quot32(mem: Memory, cr3: nat, va: nat): uint32 {
    QuotPde32(mem, va, mem(Trunc(cr3 / 4096 % 0x10_0000 * 4096 + 4 * (va / 0x40_0000 % 1024))))
  }

  function QuotPde32(mem: Memory, va: nat, pde: nat): uint32 {
    if !P(pde) then 0
    else if PS(pde) then Trunc(pde / 0x40_0000 % 0x400 * 0x40_0000 + va % 0x40_0000)
    else QuotPte32(va, mem(Trunc(pde / 4096 % 0x10_0000 * 4096 + 4 * (va / 4096 % 1024))))
  }

  function QuotPte32(va: nat, pte: nat): uint32 {
    if P(pte) then Trunc(pte / 4096 % 0x10_0000 * 4096 + va % 4096) else 0
  }

  lemma FromPte32(va: nat, pte: nat)
    ensures FromPteNoPae(va, pte) == QuotPte32(va, pte)
  {
    Flags(pte);
    Paddr32(va, pte);
  }

  lemma FromPde32(mem: Memory, va: nat, pde: nat)
    ensures FromPgdNoPae(mem, va, pde) == QuotPde32(mem, va, pde)
  {
    Flags(pde);
    if P(pde) {
      if PS(pde) {
        LargePaddr32(va, pde);
      } else {
        Base32(pde);
        Indices32(va);
        FromPte32(va, GetPteNoPae(mem, va, pde));
      }
    }
  }

  lemma From32(mem: Memory, cr3: nat, va: nat)
    ensures V2pNoPae(mem, cr3, va) == Quot32(mem, cr3, va)
  {
    Base32(cr3);
    Indices32(va);
    FromPde32(mem, va, GetPgdNoPae(mem, va, cr3));
  }

  function QuotPae(mem: Memory, cr3: nat, va: nat): uint32 {
    QuotPdpte(mem, va, Read64(mem, Trunc(cr3 / 32 % 0x800_0000 * 32 + 8 * (va / 0x4000_0000))))
  }

  function QuotPdpte(mem: Memory, va: nat, pdpte: nat): uint32 {
    if P(pdpte) then QuotPdePae(mem, va, Read64(mem, Trunc(Frame36(pdpte) + 8 * (va / 0x20_0000 % 512)))) else 0
  }

  function QuotPdePae(mem: Memory, va: nat, pde: nat): uint32 {
    if !P(pde) then 0
    else if PS(pde) then Trunc(Trunc(pde) / 0x20_0000 % 0x800 * 0x20_0000 + va % 0x20_0000)
    else QuotPtePae(va, Read64(mem, Trunc(Frame36(pde) + 8 * (va / 4096 % 512))))
  }

  function QuotPtePae(va: nat, pte: nat): uint32 {
    if P(pte) then Trunc(Frame36(pte) + va % 4096) else 0
  }

  lemma FromPtePaeQuot(va: nat, pte: nat)
    ensures FromPtePae(va, pte) == QuotPtePae(va, pte)
  {
    Flags(pte);
    PaddrPae(va, pte);
  }

  lemma PtePae(mem: Memory, va: nat, pde: nat)
    ensures GetPtePae(mem, va, pde) == Read64(mem, Trunc(Frame36(pde) + 8 * (va / 4096 % 512)))
  {
    Base36(pde);
    IndicesPae(va);
  }

  lemma PdePae(mem: Memory, va: nat, pdpte: nat)
    ensures GetPgdPae(mem, va, pdpte) == Read64(mem, Trunc(Frame36(pdpte) + 8 * (va / 0x20_0000 % 512)))
  {
    Base36(pdpte);
    IndicesPae(va);
  }

  lemma Pdpte(mem: Memory, va: nat, cr3: nat)
    ensures GetPdpi(mem, va, cr3) == Read64(mem, Trunc(cr3 / 32 % 0x800_0000 * 32 + 8 * (va / 0x4000_0000)))
  {
    PdptBase(cr3);
    IndicesPae(va);
  }

  lemma FromPdePae(mem: Memory, va: nat, pde: nat)
    ensures FromPgdPae(mem, va, pde) == QuotPdePae(mem, va, pde)
  {
    Flags(pde);
    if P(pde) {
      if PS(pde) {
        LargePaddrPae(va, Trunc(pde));
      } else {
        PtePae(mem, va, pde);
        FromPtePaeQuot(va, Read64(mem, Trunc(Frame36(pde) + 8 * (va / 4096 % 512))));
      }
    }
  }

  lemma FromPdpte(mem: Memory, va: nat, pdpte: nat)
    ensures FromPdpePae(mem, va, pdpte) == QuotPdpte(mem, va, pdpte)
  {
    Flags(pdpte);
    PdePae(mem, va, pdpte);
    FromPdePae(mem, va, Read64(mem, Trunc(Frame36(pdpte) + 8 * (va / 0x20_0000 % 512))));
  }

  lemma FromPae(mem: Memory, cr3: nat, va: nat)
    ensures V2pPae(mem, cr3, va) == QuotPae(mem, cr3, va)
  {
    Pdpte(mem, va, cr3);
    FromPdpte(mem, va, GetPdpi(mem, va, cr3));
  }

  // ----- the refinement

  lemma Address32(x: uint32, i: nat)
    requires i < 1024
    ensures Trunc(x / 4096 % 0x10_0000 * 4096 + 4 * i) == x / 4096 * 4096 + 4 * i
  {
    assert x / 4096 < 0x10_0000;
  }

  lemma QuotIsPte32(va: uint32, pte: uint32)
    ensures QuotPte32(va, pte) == Reported(TranslatePte32(va, pte))
  {
    assert pte / 4096 < 0x10_0000;
  }

  lemma LargeLow32(va: uint32, pde: uint32)
    ensures var p := pde / 0x40_0000 * 0x40_0000 + va % 0x40_0000;
      Trunc(pde / 0x40_0000 % 0x400 * 0x40_0000 + va % 0x40_0000) == p
      && Trunc(pde / 0x2000 % 256 * 0x1_0000_0000 + p) == p
  {
    assert pde / 0x40_0000 < 0x400;
  }

  lemma QuotIsPde32(mem: Memory, va: uint32, pde: uint32)
    ensures QuotPde32(mem, va, pde) == Reported(TranslatePde32(mem, va, pde))
  {
    if P(pde) && PS(pde) {
      LargeLow32(va, pde);
    } else {
      Address32(pde, va / 4096 % 1024);
      QuotIsPte32(va, mem(pde / 4096 * 4096 + 4 * (va / 4096 % 1024)));
    }
  }

  lemma QuotIs32(mem: Memory, cr3: uint32, va: uint32)
    ensures Quot32(mem, cr3, va) == Reported(Translate32(mem, cr3, va))
  {
    assert va / 0x40_0000 % 1024 == va / 0x40_0000;
    Address32(cr3, va / 0x40_0000);
    QuotIsPde32(mem, va, mem(cr3 / 4096 * 4096 + 4 * (va / 0x40_0000)));
  }

  lemma WordWalk32(mem: Memory, cr3: uint32, va: uint32)
    ensures V2pNoPae(mem, cr3, va) == Reported(Translate32(mem, cr3, va))
  {
    From32(mem, cr3, va);
    QuotIs32(mem, cr3, va);
  }

  lemma QuotIsPtePae(va: uint32, pte: uint64)
    ensures QuotPtePae(va, pte) == Reported(TranslatePtePae(va, pte))
  {
  }

  lemma LargeLowPae(va: uint32, pde: nat)
    ensures Trunc(Trunc(pde) / 0x20_0000 % 0x800 * 0x20_0000 + va % 0x20_0000)
         == Trunc(pde / 0x20_0000 % 0x8000 * 0x20_0000 + va % 0x20_0000)
  {
    var q := pde / 0x20_0000;
    assert Trunc(pde) / 0x20_0000 == q % 0x800;
    assert q % 0x8000 % 0x800 == q % 0x800;
  }

  lemma QuotIsPdePae(mem: Memory, entryAt: nat -> uint64, va: uint32, pde: uint64)
    requires P(pde) && !PS(pde) ==>
      var a := Frame36(pde) + 8 * (va / 4096 % 512); entryAt(a) == Read64(mem, Trunc(a))
    ensures QuotPdePae(mem, va, pde) == Reported(TranslatePdePae(entryAt, va, pde))
  {
    if P(pde) {
      if PS(pde) {
        LargeLowPae(va, pde);
      } else {
        QuotIsPtePae(va, entryAt(Frame36(pde) + 8 * (va / 4096 % 512)));
      }
    }
  }

  lemma QuotIsPdpte(mem: Memory, entryAt: nat -> uint64, va: uint32, pdpte: uint64)
    requires P(pdpte) ==>
      && var a := Frame36(pdpte) + 8 * (va / 0x20_0000 % 512);
      && entryAt(a) == Read64(mem, Trunc(a))
      && var pde := entryAt(a);
      P(pde) && !PS(pde) ==> var b := Frame36(pde) + 8 * (va / 4096 % 512); entryAt(b) == Read64(mem, Trunc(b))
    ensures QuotPdpte(mem, va, pdpte) == Reported(TranslatePdpte(entryAt, va, pdpte))
  {
    if P(pdpte) {
      QuotIsPdePae(mem, entryAt, va, entryAt(Frame36(pdpte) + 8 * (va / 0x20_0000 % 512)));
    }
  }

  lemma PdpteAddress(cr3: uint32, va: uint32)
    ensures Trunc(cr3 / 32 % 0x800_0000 * 32 + 8 * (va / 0x4000_0000)) == PdpteAt(cr3, va)
    ensures Trunc(PdpteAt(cr3, va)) == PdpteAt(cr3, va)
  {
    assert cr3 / 32 < 0x800_0000 && va / 0x4000_0000 < 4;
  }

  lemma QuotFetchesPdpte(mem: Memory, cr3: uint32, va: uint32)
    ensures QuotPae(mem, cr3, va) == QuotPdpte(mem, va, Read64(mem, PdpteAt(cr3, va)))
  {
    PdpteAddress(cr3, va);
  }

  lemma QuotIsPdpteCut(mem: Memory, entryAt: nat -> uint64, va: uint32, pdpte: uint64)
    requires forall a :: entryAt(a) == Read64(mem, Trunc(a))
    ensures QuotPdpte(mem, va, pdpte) == Reported(TranslatePdpte(entryAt, va, pdpte))
  {
    QuotIsPdpte(mem, entryAt, va, pdpte);
  }

  lemma QuotIsPae(mem: Memory, entryAt: nat -> uint64, cr3: uint32, va: uint32)
    requires forall a :: entryAt(a) == Read64(mem, Trunc(a))
    ensures QuotPae(mem, cr3, va) == Reported(TranslatePae(entryAt, cr3, va))
  {
    QuotFetchesPdpte(mem, cr3, va);
    PdpteAddress(cr3, va);
    QuotIsPdpteCut(mem, entryAt, va, entryAt(PdpteAt(cr3, va)));
  }

  lemma EntryBelow4G(f: nat, i: nat)
    requires f % 4096 == 0 && f < 0x1_0000_0000 && i < 512
    ensures Trunc(f + 8 * i) == f + 8 * i
  {
    assert f == f / 4096 * 4096;
  }

  /** The entries a PAE translation reads lie in tables below 4 GB. */
  predicate TablesBelow4G(entryAt: nat -> uint64, va: uint32, pdpte: uint64) {
    P(pdpte) ==>
      && Frame36(pdpte) < 0x1_0000_0000
      && var pde := entryAt(Frame36(pdpte) + 8 * (va / 0x20_0000 % 512));
      P(pde) && !PS(pde) ==> Frame36(pde) < 0x1_0000_0000
  }

  lemma QuotIsPdpteBelow4G(mem: Memory, entryAt: nat -> uint64, va: uint32, pdpte: uint64)
    requires forall a :: entryAt(a) == Read64(mem, a)
    requires TablesBelow4G(entryAt, va, pdpte)
    ensures QuotPdpte(mem, va, pdpte) == Reported(TranslatePdpte(entryAt, va, pdpte))
  {
    if P(pdpte) {
      EntryBelow4G(Frame36(pdpte), va / 0x20_0000 % 512);
      var pde := entryAt(Frame36(pdpte) + 8 * (va / 0x20_0000 % 512));
      if P(pde) && !PS(pde) {
        EntryBelow4G(Frame36(pde), va / 4096 % 512);
      }
    }
    QuotIsPdpte(mem, entryAt, va, pdpte);
  }

  lemma WordWalkPae(mem: Memory, entryAt: nat -> uint64, cr3: uint32, va: uint32)
    requires forall a :: entryAt(a) == Read64(mem, a)
    requires TablesBelow4G(entryAt, va, entryAt(PdpteAt(cr3, va)))
    ensures V2pPae(mem, cr3, va) == Reported(TranslatePae(entryAt, cr3, va))
  {
    FromPae(mem, cr3, va);
    QuotFetchesPdpte(mem, cr3, va);
    QuotIsPdpteBelow4G(mem, entryAt, va, entryAt(PdpteAt(cr3, va)));
  }

  // ----- the translation the code performs, whatever the tables hold

  /** PAE entries are fetched at addresses cut to 32 bits. */
  function CutEntries(mem: Memory): nat -> uint64 {
    a => Read64(mem, Trunc(a))
  }

  function Translation(mem: Memory, pae: bool, cr3: uint32, va: uint32): Option<nat> {
    if pae then TranslatePae(CutEntries(mem), cr3, va) else Translate32(mem, cr3, va)
  }

  lemma WordLookup(mem: Memory, pae: bool, cr3: uint32, va: uint32)
    ensures PagetableLookup(mem, pae, cr3, va) == Reported(Translation(mem, pae, cr3, va))
  {
    if pae {
      FromPae(mem, cr3, va);
      QuotIsPae(mem, CutEntries(mem), cr3, va);
    } else {
      WordWalk32(mem, cr3, va);
    }
  }

  // ----- the refinement, from the bytes of memory

  lemma Read32IsStored(b: Bytes, a: nat)
    ensures Read32(b, a) == Stored(b, a, 4)
  {
    assert Stored(b, a + 3, 1) == b(a + 3);
    assert Stored(b, a + 2, 2) == b(a + 2) + 0x100 * b(a + 3);
  }

  lemma Read64IsStored(b: Bytes, a: nat)
    ensures Read64(Words(b), a) == Stored(b, a, 8)
  {
    Read32IsStored(b, a);
    Read32IsStored(b, a + 4);
    assert Stored(b, a + 3, 5) == b(a + 3) + 0x100 * Stored(b, a + 4, 4);
    assert Stored(b, a + 2, 6) == b(a + 2) + 0x100 * Stored(b, a + 3, 5);
    assert Stored(b, a + 1, 7) == b(a + 1) + 0x100 * Stored(b, a + 2, 6);
  }

  /** The entries of a table, as memory holds them. */
  function Entry32(b: Bytes, a: nat): uint32 {
    Read32IsStored(b, a);
    Stored(b, a, 4)
  }

  function Entry64(b: Bytes, a: nat): uint64 {
    Read64IsStored(b, a);
    Stored(b, a, 8)
  }

  function Entries32(b: Bytes): nat -> uint32 {
    (a: nat) => Entry32(b, a)
  }

  function Entries64(b: Bytes): nat -> uint64 {
    (a: nat) => Entry64(b, a)
  }

  lemma LowBit(x: nat, y: nat)
    ensures (x + 0x100 * y) % 2 == x % 2
  {
  }

  /** Bit 0 of an entry is bit 0 of the byte at its address. */
  lemma PresentBit(b: Bytes, a: nat)
    ensures P(Entry32(b, a)) <==> b(a) % 2 == 1
    ensures P(Entry64(b, a)) <==> b(a) % 2 == 1
  {
    LowBit(b(a), Stored(b, a + 1, 3));
    LowBit(b(a), Stored(b, a + 1, 7));
  }

  lemma SameEntries32(x: Memory, y: Memory, cr3: uint32, va: uint32)
    requires forall a :: x(a) == y(a)
    ensures Translate32(x, cr3, va) == Translate32(y, cr3, va)
  {
  }

  /** The non-PAE walk reports the low 32 bits of the translated address, or 0. */
  lemma WalkRefines32(b: Bytes, cr3: uint32, va: uint32)
    ensures V2pNoPae(Words(b), cr3, va) == Reported(Translate32(Entries32(b), cr3, va))
  {
    WordWalk32(Words(b), cr3, va);
    forall a: nat
      ensures Words(b)(a) == Entries32(b)(a)
    {
      Read32IsStored(b, a);
    }
    SameEntries32(Words(b), Entries32(b), cr3, va);
  }

  /** The PAE walk reports the low 32 bits of the translated address, or 0, when the
      tables it goes through lie below 4 GB. */
  lemma WalkRefinesPae(b: Bytes, cr3: uint32, va: uint32)
    requires TablesBelow4G(Entries64(b), va, Entry64(b, PdpteAt(cr3, va)))
    ensures V2pPae(Words(b), cr3, va) == Reported(TranslatePae(Entries64(b), cr3, va))
  {
    forall a: nat
      ensures Entries64(b)(a) == Read64(Words(b), a)
    {
      Read64IsStored(b, a);
    }
    WordWalkPae(Words(b), Entries64(b), cr3, va);
  }

  /** PAE entries are fetched at addresses cut to 32 bits. */
  function CutEntries64(b: Bytes): nat -> uint64 {
    (a: nat) => Entry64(b, a % 0x1_0000_0000)
  }

  /** The translation that the code performs, by the bytes of memory. */
  function TranslationOf(b: Bytes, pae: bool, cr3: uint32, va: uint32): Option<nat> {
    if pae then TranslatePae(CutEntries64(b), cr3, va) else Translate32(Entries32(b), cr3, va)
  }

  /** In both modes the lookup reports the low 32 bits of a translation, or 0. */
  lemma LookupIsTranslation(b: Bytes, pae: bool, cr3: uint32, va: uint32)
    ensures PagetableLookup(Words(b), pae, cr3, va) == Reported(TranslationOf(b, pae, cr3, va))
  {
    if pae {
      forall a: nat
        ensures CutEntries64(b)(a) == Read64(Words(b), Trunc(a))
      {
        Read64IsStored(b, Trunc(a));
      }
      FromPae(Words(b), cr3, va);
      QuotIsPae(Words(b), CutEntries64(b), cr3, va);
    } else {
      WalkRefines32(b, cr3, va);
    }
  }

  // ----- the walk on pages

  predicate SamePage(va: nat, vb: nat) {
    va / 4096 == vb / 4096
  }

  /** Both mapped into one 4 KB frame, each at its own offset, or neither mapped. */
  predicate SameFrame(p: Option<nat>, va: nat, q: Option<nat>, vb: nat) {
    match (p, q)
    case (None, None) => true
    case (Some(x), Some(y)) => x / 4096 == y / 4096 && x % 4096 == va % 4096 && y % 4096 == vb % 4096
    case _ => false
  }

  lemma SplitPage(va: nat)
    ensures va / 0x20_0000 == va / 4096 / 512 && va / 0x40_0000 == va / 4096 / 1024
    ensures va / 0x4000_0000 == va / 4096 / 0x4_0000
    ensures va % 0x20_0000 == va / 4096 % 512 * 4096 + va % 4096
    ensures va % 0x40_0000 == va / 4096 % 1024 * 4096 + va % 4096
  {
  }

  lemma FrameOffset(f: nat, va: nat)
    ensures (f * 4096 + va % 4096) / 4096 == f && (f * 4096 + va % 4096) % 4096 == va % 4096
  {
  }

  lemma LinearPte32(va: uint32, vb: uint32, pte: uint32)
    ensures SameFrame(TranslatePte32(va, pte), va, TranslatePte32(vb, pte), vb)
  {
    FrameOffset(pte / 4096, va);
    FrameOffset(pte / 4096, vb);
  }

  lemma Large32Offset(va: uint32, pde: uint32)
    ensures pde / 0x2000 % 256 * 0x1_0000_0000 + (pde / 0x40_0000 * 0x40_0000 + va % 0x40_0000)
         == (pde / 0x2000 % 256 * 0x10_0000 + pde / 0x40_0000 * 1024 + va / 4096 % 1024) * 4096 + va % 4096
  {
    SplitPage(va);
  }

  lemma LinearPde32(mem: Memory, va: uint32, vb: uint32, pde: uint32)
    requires SamePage(va, vb)
    ensures SameFrame(TranslatePde32(mem, va, pde), va, TranslatePde32(mem, vb, pde), vb)
  {
    if P(pde) {
      if PS(pde) {
        Large32Offset(va, pde);
        Large32Offset(vb, pde);
        var f := pde / 0x2000 % 256 * 0x10_0000 + pde / 0x40_0000 * 1024 + va / 4096 % 1024;
        FrameOffset(f, va);
        FrameOffset(f, vb);
      } else {
        LinearPte32(va, vb, mem(pde / 4096 * 4096 + 4 * (va / 4096 % 1024)));
      }
    }
  }

  lemma Linear32(mem: Memory, cr3: uint32, va: uint32, vb: uint32)
    requires SamePage(va, vb)
    ensures SameFrame(Translate32(mem, cr3, va), va, Translate32(mem, cr3, vb), vb)
  {
    SplitPage(va);
    SplitPage(vb);
    LinearPde32(mem, va, vb, mem(cr3 / 4096 * 4096 + 4 * (va / 0x40_0000)));
  }

  lemma LinearPtePae(va: uint32, vb: uint32, pte: uint64)
    ensures SameFrame(TranslatePtePae(va, pte), va, TranslatePtePae(vb, pte), vb)
  {
    FrameOffset(pte / 4096 % 0x100_0000, va);
    FrameOffset(pte / 4096 % 0x100_0000, vb);
  }

  lemma LargePaeOffset(va: uint32, pde: uint64)
    ensures pde / 0x20_0000 % 0x8000 * 0x20_0000 + va % 0x20_0000
         == (pde / 0x20_0000 % 0x8000 * 512 + va / 4096 % 512) * 4096 + va % 4096
  {
    SplitPage(va);
  }

  lemma LinearPdePae(entryAt: nat -> uint64, va: uint32, vb: uint32, pde: uint64)
    requires SamePage(va, vb)
    ensures SameFrame(TranslatePdePae(entryAt, va, pde), va, TranslatePdePae(entryAt, vb, pde), vb)
  {
    if P(pde) {
      if PS(pde) {
        LargePaeOffset(va, pde);
        LargePaeOffset(vb, pde);
        var f := pde / 0x20_0000 % 0x8000 * 512 + va / 4096 % 512;
        FrameOffset(f, va);
        FrameOffset(f, vb);
      } else {
        LinearPtePae(va, vb, entryAt(Frame36(pde) + 8 * (va / 4096 % 512)));
      }
    }
  }

  lemma LinearPae(entryAt: nat -> uint64, cr3: uint32, va: uint32, vb: uint32)
    requires SamePage(va, vb)
    ensures SameFrame(TranslatePae(entryAt, cr3, va), va, TranslatePae(entryAt, cr3, vb), vb)
  {
    SplitPage(va);
    SplitPage(vb);
    var pdpte := entryAt(PdpteAt(cr3, va));
    assert PdpteAt(cr3, va) == PdpteAt(cr3, vb);
    if P(pdpte) {
      LinearPdePae(entryAt, va, vb, entryAt(Frame36(pdpte) + 8 * (va / 0x20_0000 % 512)));
    }
  }

  /** The walk is linear on 4 KB pages, for every table content, both paging modes and all
      page sizes: two addresses of one page are both mapped or both unmapped, and go to one
      frame at their own offsets. */
  lemma PageLinear(mem: Memory, pae: bool, cr3: uint32, va: uint32, vb: uint32)
    requires SamePage(va, vb)
    ensures SameFrame(Translation(mem, pae, cr3, va), va, Translation(mem, pae, cr3, vb), vb)
  {
    if pae {
      LinearPae(CutEntries(mem), cr3, va, vb);
    } else {
      Linear32(mem, cr3, va, vb);
    }
  }

  lemma TruncFrame(x: nat)
    ensures Trunc(x) % 4096 == x % 4096 && Trunc(x) / 4096 == x / 4096 % 0x10_0000
  {
  }

  /** The page part of one lookup joined with another offset of the page is the lookup of
      that other address: what a cache hit relies on. */
  lemma RebuildFromPage(mem: Memory, pae: bool, cr3: uint32, va: uint32, vb: uint32)
    requires SamePage(va, vb)
    requires PagetableLookup(mem, pae, cr3, va) != 0
    ensures PagetableLookup(mem, pae, cr3, vb) == PagetableLookup(mem, pae, cr3, va) / 4096 * 4096 + vb % 4096
    ensures PagetableLookup(mem, pae, cr3, va) % 4096 == va % 4096
  {
    WordLookup(mem, pae, cr3, va);
    WordLookup(mem, pae, cr3, vb);
    PageLinear(mem, pae, cr3, va, vb);
    var p, q := Translation(mem, pae, cr3, va), Translation(mem, pae, cr3, vb);
    TruncFrame(p.value);
    TruncFrame(q.value);
  }

  lemma OffsetInFrame(f: nat, i: nat)
    requires i < 4096
    ensures Trunc(f * 4096 + i) % 4096 == i
  {
    TruncFrame(f * 4096 + i);
  }

  /** Every table entry the walk reads lies inside one 4 KB page. */
  lemma EntriesInOnePage32(va: nat, base: nat)
    ensures Trunc(BaseNoPae(base) + PgdIndex(false, va)) % 4096 + 4 <= 4096
    ensures Trunc(BaseNoPae(base) + PteIndex(false, va)) % 4096 + 4 <= 4096
  {
    Base32(base);
    Indices32(va);
    OffsetInFrame(base / 4096 % 0x10_0000, 4 * (va / 0x40_0000 % 1024));
    OffsetInFrame(base / 4096 % 0x10_0000, 4 * (va / 4096 % 1024));
  }

  lemma PointerInOnePage(f: nat, i: nat)
    requires f < 0x800_0000 && i < 4
    ensures Trunc(f * 32 + i * 8) % 4096 + 8 <= 4096
  {
    assert f == f / 128 * 128 + f % 128;
    ModUnique(f * 32 + i * 8, 4096, f / 128, f % 128 * 32 + i * 8);
    assert f * 32 + i * 8 < 0x1_0000_0000;
  }

  lemma PointerEntryInOnePage(va: uint32, cr3: nat)
    ensures Trunc(GetPdptb(cr3) + PdpiIndex(va)) % 4096 + 8 <= 4096
  {
    PdptBase(cr3);
    Powers();
    PointerInOnePage(cr3 / 32 % 0x800_0000, va / 0x4000_0000);
  }

  /** Likewise for the pointer table, the directory and the page tables of PAE paging. */
  lemma EntriesInOnePagePae(va: uint32, base: nat)
    ensures Trunc(GetPdptb(base) + PdpiIndex(va)) % 4096 + 8 <= 4096
    ensures Trunc(BasePae(base) + PgdIndex(true, va)) % 4096 + 8 <= 4096
    ensures Trunc(BasePae(base) + PteIndex(true, va)) % 4096 + 8 <= 4096
  {
    PointerEntryInOnePage(va, base);
    TableEntriesInOnePage(va, base);
  }

  lemma TableEntriesInOnePage(va: nat, base: nat)
    ensures Trunc(BasePae(base) + PgdIndex(true, va)) % 4096 + 8 <= 4096
    ensures Trunc(BasePae(base) + PteIndex(true, va)) % 4096 + 8 <= 4096
  {
    Base36(base);
    IndicesPae(va);
    OffsetInFrame(base / 4096 % 0x100_0000, 8 * (va / 0x20_0000 % 512));
    OffsetInFrame(base / 4096 % 0x100_0000, 8 * (va / 4096 % 512));
  }
}
