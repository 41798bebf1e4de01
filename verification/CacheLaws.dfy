/** What the address cache keeps over any calls: its entries stay distinct and few, and a stored
    mapping can be read back. */
module CacheLaws {
  import opened Bits
  import opened Common
  import opened LruList
  import opened AddressCache
  import Ia32

  // ----- every reachable state

  predicate KeysDiffer(a: Entry, b: Entry) {
    && (a.virt != 0 ==> a.virt != b.virt)
    && (a.symbol != "" ==> a.symbol != b.symbol)
  }

  /** At most 25 entries, whole pages, names short enough to be compared whole; non-zero
      pages and non-empty symbols are pairwise distinct. */
  predicate WellFormed(s: Cells) {
    && |s| <= 25
    && (forall i :: 0 <= i < |s| ==> s[i].item.virt % 4096 == 0 && |s[i].item.symbol| <= 512)
    && (forall i, j :: 0 <= i < j < |s| ==> KeysDiffer(s[i].item, s[j].item))
  }

  datatype Op =
    | OpCheckSym(symbol: string, pid: int)
    | OpCheckVirt(va: uint32, pid: int)
    | OpUpdate(named: Option<string>, va: uint32, pid: int, mach: uint32, kv: uint32)

  function Apply(s: Cells, op: Op, now: int): Cells {
    match op
    case OpCheckSym(symbol, pid) => CheckSym(s, symbol, pid, now).1
    case OpCheckVirt(va, pid) => CheckVirt(s, va, pid, now).1
    case OpUpdate(symbol, va, pid, mach, kv) => Update(s, symbol, va, pid, mach, kv, now)
  }

  lemma EvictWellFormed(s: Cells)
    requires WellFormed(s)
    ensures WellFormed(Evict(s)) && |Evict(s)| < 25
    ensures forall c :: c in Evict(s) ==> c in s
  {
    var t := Evict(s);
    if |s| >= 25 {
      var k := Oldest(s);
      forall i, j | 0 <= i < j < |t|
        ensures KeysDiffer(t[i].item, t[j].item)
      {
        assert t[i] == s[if i < k then i else i + 1] && t[j] == s[if j < k then j else j + 1];
      }
    }
  }

  lemma InsertWellFormed(s: Cells, e: Entry, now: int)
    requires WellFormed(s)
    requires e.virt % 4096 == 0 && |e.symbol| <= 512
    requires forall i :: 0 <= i < |s| ==> KeysDiffer(s[i].item, e)
    ensures WellFormed(Insert(s, e, now))
  {
    EvictWellFormed(s);
    var t := Evict(s);
    assert forall i :: 0 <= i < |t| ==> t[i] in s;
  }

  /** An entry may be replaced by one with the same name, at the same page or at none. */
  lemma ReplaceWellFormed(s: Cells, k: nat, e: Entry, now: int)
    requires WellFormed(s) && k < |s|
    requires e.symbol == s[k].item.symbol && (e.virt == s[k].item.virt || e.virt == 0)
    ensures WellFormed(s[k := Stamped(e, now)])
  {
    var t := s[k := Stamped(e, now)];
    forall i, j | 0 <= i < j < |t|
      ensures KeysDiffer(t[i].item, t[j].item)
    {
      assert KeysDiffer(s[i].item, s[j].item);
    }
  }

  lemma NewEntryDiffers(s: Cells, symbol: Option<string>, va: uint32, e: Entry)
    requires symbol.Some? ==> e.virt == 0 && e.symbol == Key(symbol.value) && First(s, Named(symbol.value)) == |s|
    requires symbol.None? ==> e.symbol == "" && e.virt == Page(va) && First(s, At(Page(va))) == |s|
    ensures forall i :: 0 <= i < |s| && |s[i].item.symbol| <= 512 ==> KeysDiffer(s[i].item, e)
  {
    forall i | 0 <= i < |s| && |s[i].item.symbol| <= 512
      ensures KeysDiffer(s[i].item, e)
    {
      if symbol.Some? {
        assert !Named(symbol.value)(s[i]);
      } else {
        assert !At(Page(va))(s[i]);
      }
    }
  }

  lemma UpdateWellFormed(s: Cells, symbol: Option<string>, va: uint32, pid: int, mach: uint32, kv: uint32, now: int)
    requires WellFormed(s)
    ensures WellFormed(Update(s, symbol, va, pid, mach, kv, now))
  {
    if symbol.Some? && First(s, Named(symbol.value)) < |s| {
      var k := First(s, Named(symbol.value));
      ReplaceWellFormed(s, k, Entry(s[k].item.symbol, 0, SymAddress(mach, kv), pid), now);
    } else if va != 0 && First(s, At(Page(va))) < |s| {
      var k := First(s, At(Page(va)));
      ReplaceWellFormed(s, k, Entry(s[k].item.symbol, s[k].item.virt, Page(mach), pid), now);
    } else if symbol.Some? || va != 0 {
      var e := NewEntry(symbol, va, pid, mach, kv);
      NewEntryDiffers(s, symbol, va, e);
      InsertWellFormed(s, e, now);
    }
  }

  /** Whatever the calls and their arguments, a run of the cache stays well formed. */
  function ApplyAll(s: Cells, ops: seq<Op>, times: seq<int>): Cells
    requires |ops| == |times|
  {
    if ops == [] then s
    else Apply(ApplyAll(s, ops[..|ops| - 1], times[..|ops| - 1]), ops[|ops| - 1], times[|ops| - 1])
  }

  lemma {:induction false} RunWellFormed(ops: seq<Op>, times: seq<int>)
    requires |ops| == |times|
    ensures WellFormed(ApplyAll([], ops, times))
  {
    if ops != [] {
      var n := |ops| - 1;
      RunWellFormed(ops[..n], times[..n]);
      var s := ApplyAll([], ops[..n], times[..n]);
      if ops[n].OpUpdate? {
        UpdateWellFormed(s, ops[n].named, ops[n].va, ops[n].pid, ops[n].mach, ops[n].kv, times[n]);
      }
    }
  }

  // ----- put, then get

  /** From any state, full or not: after an update for an address, every address of its page
      hits for the same pid and gets the stored frame with its own offset. */
  lemma PutThenGet(s: Cells, va: uint32, pid: int, mach: uint32, kv: uint32, t0: int, vb: uint32, t1: int)
    requires va >= 4096 && mach >= 4096
    requires Ia32.SamePage(va, vb)
    ensures CheckVirt(Update(s, None, va, pid, mach, kv, t0), vb, pid, t1).0
         == Some(mach / 4096 * 4096 + vb % 4096)
  {
    var t := Update(s, None, va, pid, mach, kv, t0);
    var page := Page(va);
    assert Page(vb) == page && page != 0 && Page(mach) != 0;
    var k := First(s, At(page));
    if k < |s| {
      FirstIs(t, VirtHit(page, pid), k);
    } else {
      var e := Evict(s);
      assert forall i :: 0 <= i < |e| ==> e[i] in s;
      assert forall i :: 0 <= i < |s| ==> !At(page)(s[i]);
      FirstIs(t, VirtHit(page, pid), |t| - 1);
    }
    Ia32.Join12(mach / 4096, vb % 4096);
  }
}
