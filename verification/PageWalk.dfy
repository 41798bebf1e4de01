/** The page-table walk of libxa/xenaccess/xa_memory.c: shifts and masks over 32-bit
    (non-PAE) and 64-bit (PAE) table entries read from guest memory. */
module PageWalk {
  import opened Bits

  type Bytes = nat -> byte

  /** Guest machine memory, by the 32-bit word that is read at each byte address. */
  type Memory = nat -> uint32

  /** A 32-bit load on x86. */
  function Read32(b: Bytes, a: nat): uint32 {
    b(a) + 0x100 * b(a + 1) + 0x1_0000 * b(a + 2) + 0x100_0000 * b(a + 3)
  }

  function Words(b: Bytes): Memory {
    (a: nat) => Read32(b, a)
  }

  /** A 64-bit load, by its two words. */
  function Read64(mem: Memory, a: nat): uint64 {
    mem(a) + 0x1_0000_0000 * mem(a + 4)
  }

  /** C's `>>` on an unsigned word. */
  function Shr(x: nat, k: nat): nat {
    QuotientNat(x, Pow2(k));
    x / Pow2(k)
  }

  // bit flag testing

  predicate GetBit(reg: nat, bit: nat) {
    And(reg, Pow2(bit)) != 0
  }

  predicate EntryPresent(entry: nat) {
    GetBit(entry, 0)
  }

  predicate PageSizeFlag(entry: nat) {
    GetBit(entry, 7)
  }

  // page directory pointer table

  function GetPdptb(pdpr: nat): nat {
    And(pdpr, 0xFFFF_FFE0)
  }

  function PdpiIndex(va: nat): nat {
    Shr(va, 30) * 8
  }

  function GetPdpi(mem: Memory, va: nat, cr3: nat): uint64 {
    Read64(mem, Trunc(GetPdptb(cr3) + PdpiIndex(va)))
  }

  // page directory

  function PgdIndex(pae: bool, va: nat): nat {
    if !pae then And(Shr(va, 22), 0x3FF) * 4 else And(Shr(va, 21), 0x1FF) * 8
  }

  /** The base of the table or page an entry points to; also `ptba_base` and `pte_pfn`. */
  function BaseNoPae(entry: nat): nat {
    And(entry, 0xFFFF_F000)
  }

  function BasePae(entry: nat): nat {
    And(entry, 0xF_FFFF_F000)
  }

  function GetPgdNoPae(mem: Memory, va: nat, pdpe: nat): uint32 {
    mem(Trunc(BaseNoPae(pdpe) + PgdIndex(false, va)))
  }

  function GetPgdPae(mem: Memory, va: nat, pdpe: nat): uint64 {
    Read64(mem, Trunc(BasePae(pdpe) + PgdIndex(true, va)))
  }

  // page table

  function PteIndex(pae: bool, va: nat): nat {
    if !pae then And(Shr(va, 12), 0x3FF) * 4 else And(Shr(va, 12), 0x1FF) * 8
  }

  function GetPteNoPae(mem: Memory, va: nat, pgd: nat): uint32 {
    mem(Trunc(BaseNoPae(pgd) + PteIndex(false, va)))
  }

  function GetPtePae(mem: Memory, va: nat, pgd: nat): uint64 {
    Read64(mem, Trunc(BasePae(pgd) + PteIndex(true, va)))
  }

  // page

  function GetPaddrNoPae(va: nat, pte: nat): nat {
    Or(BaseNoPae(pte), And(va, 0xFFF))
  }

  function GetPaddrPae(va: nat, pte: nat): nat {
    Or(BasePae(pte), And(va, 0xFFF))
  }

  function GetLargePaddr(pae: bool, va: nat, pgd: nat): nat {
    if !pae then Or(And(pgd, 0xFFC0_0000), And(va, 0x3F_FFFF))
    else Or(And(pgd, 0xFFE0_0000), And(va, 0x1F_FFFF))
  }

  // translation; 0 stands for "not mapped"

  function V2pNoPae(mem: Memory, cr3: nat, va: nat): uint32 {
    FromPgdNoPae(mem, va, GetPgdNoPae(mem, va, cr3))
  }

  function FromPgdNoPae(mem: Memory, va: nat, pgd: nat): uint32 {
    if !EntryPresent(pgd) then 0
    else if PageSizeFlag(pgd) then Trunc(GetLargePaddr(false, va, pgd))
    else FromPteNoPae(va, GetPteNoPae(mem, va, pgd))
  }

  function FromPteNoPae(va: nat, pte: nat): uint32 {
    if EntryPresent(pte) then Trunc(GetPaddrNoPae(va, pte)) else 0
  }

  function V2pPae(mem: Memory, cr3: nat, va: nat): uint32 {
    FromPdpePae(mem, va, GetPdpi(mem, va, cr3))
  }

  function FromPdpePae(mem: Memory, va: nat, pdpe: nat): uint32 {
    if !EntryPresent(pdpe) then 0 else FromPgdPae(mem, va, GetPgdPae(mem, va, pdpe))
  }

  function FromPgdPae(mem: Memory, va: nat, pgd: nat): uint32 {
    if !EntryPresent(pgd) then 0
    else if PageSizeFlag(pgd) then Trunc(GetLargePaddr(true, va, Trunc(pgd)))
    else FromPtePae(va, GetPtePae(mem, va, pgd))
  }

  function FromPtePae(va: nat, pte: nat): uint32 {
    if EntryPresent(pte) then Trunc(GetPaddrPae(va, pte)) else 0
  }

  function PagetableLookup(mem: Memory, pae: bool, cr3: nat, va: nat): uint32 {
    if pae then V2pPae(mem, cr3, va) else V2pNoPae(mem, cr3, va)
  }
}
