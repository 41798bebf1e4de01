/** The address cache of libxa/xenaccess/xa_cache.c.  The functions say what each operation
    does to the sequence of entries; the methods do it on the linked list. */
module AddressCache {
  import opened Bits
  import opened Common
  import opened LruList
  import Ia32

  /** A page mapping (symbol "") or a kernel symbol (virt 0); mach 0 marks a dead entry. */
  datatype Entry = Entry(symbol: string, virt: uint32, mach: uint32, pid: int)

  type Cells = seq<Stamped<Entry>>

  const CACHE_SIZE: nat := 25

  /** The address with its page offset cleared. */
  function Page(a: uint32): uint32 {
    a / 4096 * 4096
  }

  function Offset(a: uint32): nat {
    a % 4096
  }

  /** `Page` and `Offset` are the masks `& ~(page_size - 1)` and `& (page_size - 1)`. */
  lemma MasksArePageAndOffset(a: nat)
    ensures a < 0x1_0000_0000 ==> And(a, 0xFFFF_F000) == Page(a) && And(a, 0xFFF) == Offset(a)
  {
    Ia32.Base32(a);
    Ia32.LowMasks(a);
  }

  /** The part of a symbol name that strncmp and strndup look at. */
  function Key(symbol: string): string {
    if |symbol| > 512 then symbol[..512] else symbol
  }

  // ----- the operations on sequences of entries

  function Named(symbol: string): Stamped<Entry> -> bool {
    (c: Stamped<Entry>) => Key(c.item.symbol) == Key(symbol)
  }

  function SymHit(symbol: string, pid: int): Stamped<Entry> -> bool {
    (c: Stamped<Entry>) => Key(c.item.symbol) == Key(symbol) && c.item.pid == pid && c.item.mach != 0
  }

  function At(page: uint32): Stamped<Entry> -> bool {
    (c: Stamped<Entry>) => c.item.virt == page
  }

  function VirtHit(page: uint32, pid: int): Stamped<Entry> -> bool {
    (c: Stamped<Entry>) => c.item.virt != 0 && c.item.virt == page && c.item.pid == pid && c.item.mach != 0
  }

  function Touch(s: Cells, k: nat, now: int): Cells
    requires k < |s|
  {
    s[k := Stamped(s[k].item, now)]
  }

  function CheckSym(s: Cells, symbol: string, pid: int, now: int): (Option<uint32>, Cells) {
    var k := First(s, SymHit(symbol, pid));
    if k < |s| then (Some(s[k].item.mach), Touch(s, k, now)) else (None, s)
  }

  /** A hit joins the stored frame with the offset of the address asked for. */
  function CheckVirt(s: Cells, va: uint32, pid: int, now: int): (Option<nat>, Cells) {
    var k := First(s, VirtHit(Page(va), pid));
    if k < |s| then (Some(Or(s[k].item.mach, Offset(va))), Touch(s, k, now)) else (None, s)
  }

  function Evict(s: Cells): Cells {
    EvictIfFull(s, 25)
  }

  function Insert(s: Cells, e: Entry, now: int): Cells {
    Evict(s) + [Stamped(e, now)]
  }

  function SymAddress(mach: uint32, kv: uint32): uint32 {
    if mach != 0 then mach else kv
  }

  function NewEntry(symbol: Option<string>, va: uint32, pid: int, mach: uint32, kv: uint32): Entry {
    if symbol.Some? then Entry(Key(symbol.value), 0, SymAddress(mach, kv), pid)
    else Entry("", Page(va), Page(mach), pid)
  }

  predicate Has(s: Cells, p: Stamped<Entry> -> bool) {
    First(s, p) < |s|
  }

  function SetFirst(s: Cells, p: Stamped<Entry> -> bool, f: Entry -> Entry, now: int): Cells
    requires Has(s, p)
  {
    var k := First(s, p);
    s[k := Stamped(f(s[k].item), now)]
  }

  function ToSymbol(mach: uint32, pid: int): Entry -> Entry {
    (e: Entry) => Entry(e.symbol, 0, mach, pid)
  }

  function ToFrame(mach: uint32, pid: int): Entry -> Entry {
    (e: Entry) => Entry(e.symbol, e.virt, mach, pid)
  }

  /** `kv` is what `xa_translate_kv2p` answers for `va`. */
  function Update(s: Cells, symbol: Option<string>, va: uint32, pid: int, mach: uint32, kv: uint32, now: int): Cells {
    if symbol.Some? && Has(s, Named(symbol.value)) then
      SetFirst(s, Named(symbol.value), ToSymbol(SymAddress(mach, kv), pid), now)
    else if va != 0 && Has(s, At(Page(va))) then
      SetFirst(s, At(Page(va)), ToFrame(Page(mach), pid), now)
    else if symbol.None? && va == 0 then s
    else Insert(s, NewEntry(symbol, va, pid, mach, kv), now)
  }

  // ----- the same operations on the linked list

  method CheckCacheSym(cache: LruList<Entry>, symbol: string, pid: int, now: int) returns (r: Option<uint32>)
    requires cache.Valid()
    modifies cache`contents, cache.repr
    ensures cache.Valid()
    ensures (r, cache.contents) == CheckSym(old(cache.contents), symbol, pid, now)
  {
    var n, k := cache.Find(SymHit(symbol, pid));
    if n == null {
      return None;
    }
    cache.Assign(n, k, n.item, now);
    return Some(n.item.mach);
  }

  method CheckCacheVirt(cache: LruList<Entry>, va: uint32, pid: int, now: int) returns (r: Option<nat>)
    requires cache.Valid()
    modifies cache`contents, cache.repr
    ensures cache.Valid()
    ensures (r, cache.contents) == CheckVirt(old(cache.contents), va, pid, now)
  {
    var n, k := cache.Find(VirtHit(Page(va), pid));
    if n == null {
      return None;
    }
    cache.Assign(n, k, n.item, now);
    return Some(Or(n.item.mach, Offset(va)));
  }

  /** The first entry that satisfies `p` is overwritten by `f` of itself. */
  method Overwrite(cache: LruList<Entry>, p: Stamped<Entry> -> bool, f: Entry -> Entry, now: int) returns (found: bool)
    requires cache.Valid()
    modifies cache`contents, cache.repr
    ensures cache.Valid()
    ensures found == Has(old(cache.contents), p)
    ensures cache.contents == if found then SetFirst(old(cache.contents), p, f, now) else old(cache.contents)
  {
    var n, k := cache.Find(p);
    found := n != null;
    if found {
      cache.Assign(n, k, f(n.item), now);
    }
  }

  method UpdateCache(cache: LruList<Entry>, symbol: Option<string>, va: uint32, pid: int, mach: uint32, kv: uint32,
                     now: int)
    requires cache.Valid()
    modifies cache, cache.repr
    ensures cache.Valid()
    ensures fresh(cache.repr - old(cache.repr))
    ensures cache.contents == Update(old(cache.contents), symbol, va, pid, mach, kv, now)
  {
    if symbol.Some? {
      var found := Overwrite(cache, Named(symbol.value), ToSymbol(SymAddress(mach, kv), pid), now);
      if found {
        return;
      }
    }
    if va != 0 {
      var found := Overwrite(cache, At(Page(va)), ToFrame(Page(mach), pid), now);
      if found {
        return;
      }
    }
    if symbol.None? && va == 0 {
      return;
    }
    cache.Insert(NewEntry(symbol, va, pid, mach, kv), CACHE_SIZE, now);
  }
}
