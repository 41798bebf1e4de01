/** Time stamps by what the entries are about: the stamp of a page, a symbol or a process is the
    time of the last operation that asked for it and found it, or stored it. */
module LruByKey {
  import opened Bits
  import opened Common
  import opened LruList
  import opened AddressCache
  import opened CacheLaws
  import opened PidCache

  // ----- processes: from the operations and their times alone

  /** The time of the last operation on a process. */
  function LastOnPid(ops: seq<PidOp>, times: seq<int>, pid: int): Option<int>
    requires |ops| == |times|
  {
    if ops == [] then None
    else
      var n := |ops| - 1;
      if ops[n].pid == pid then Some(times[n]) else LastOnPid(ops[..n], times[..n], pid)
  }

  /** An operation stamps the entry of its own process, and leaves the others as they were. */
  lemma PidStep(s: Pids, op: PidOp, now: int, i: nat) returns (j: nat)
    requires PidsWellFormed(s) && (forall k :: 0 <= k < |s| ==> s[k].item.pid != 0)
    requires i < |ApplyPid(s, op, now)|
    ensures ApplyPid(s, op, now)[i].item.pid != 0
    ensures
      var c := ApplyPid(s, op, now)[i];
      if c.item.pid == op.pid then c.lastUsed == now else j < |s| && s[j] == c
  {
    var k := First(s, Of(op.pid));
    assert forall m :: 0 <= m < k ==> !Of(op.pid)(s[m]);
    j := i;
    if op.OpUpdatePid? && op.pid != 0 && k == |s| && |s| >= 5 {
      j := if i < Oldest(s) then i else i + 1;
    }
  }

  /** Over any run, each stamp in the pid cache is the time of the last check or update of that
      process. */
  lemma {:induction false} PidStampIsLast(ops: seq<PidOp>, times: seq<int>, i: nat)
    requires |ops| == |times| && i < |ApplyPids([], ops, times)|
    ensures ApplyPids([], ops, times)[i].item.pid != 0
    ensures LastOnPid(ops, times, ApplyPids([], ops, times)[i].item.pid) == Some(ApplyPids([], ops, times)[i].lastUsed)
  {
    var n := |ops| - 1;
    var s := ApplyPids([], ops[..n], times[..n]);
    RunPidsWellFormed(ops[..n], times[..n]);
    forall k | 0 <= k < |s|
      ensures s[k].item.pid != 0
    {
      PidStampIsLast(ops[..n], times[..n], k);
    }
    var j := PidStep(s, ops[n], times[n], i);
    if ApplyPids([], ops, times)[i].item.pid != ops[n].pid {
      PidStampIsLast(ops[..n], times[..n], j);
    }
  }

  // ----- pages and symbols

  datatype CacheKey = PageKey(page: uint32) | NameKey(name: string)

  /** What an entry is about; nothing for an entry without page and name. */
  function KeyOf(e: Entry): Option<CacheKey> {
    if e.virt != 0 then Some(PageKey(e.virt)) else if e.symbol != "" then Some(NameKey(e.symbol)) else None
  }

  predicate Present(s: Cells, key: CacheKey) {
    exists i :: 0 <= i < |s| && KeyOf(s[i].item) == Some(key)
  }

  /** What an operation is about: a check that hits, an update of a page, or of a symbol unless
      only its page is there. */
  function UsedKey(s: Cells, op: Op, now: int): Option<CacheKey> {
    match op
    case OpCheckSym(symbol, pid) =>
      if CheckSym(s, symbol, pid, now).0.Some? then Some(NameKey(Key(symbol))) else None
    case OpCheckVirt(va, pid) =>
      if CheckVirt(s, va, pid, now).0.Some? then Some(PageKey(Page(va))) else None
    case OpUpdate(named, va, _, _, _) =>
      if named.Some? && (Present(s, NameKey(Key(named.value))) || va == 0 || !Present(s, PageKey(Page(va)))) then
        Some(NameKey(Key(named.value)))
      else if va != 0 then Some(PageKey(Page(va)))
      else None
  }

  /** No empty names and no addresses 1..4095. */
  predicate Regular(op: Op) {
    match op
    case OpCheckSym(symbol, _) => symbol != ""
    case OpCheckVirt(_, _) => true
    case OpUpdate(named, va, _, _, _) => (named.Some? ==> named.value != "") && (va == 0 || va >= 4096)
  }

  /** A page entry has no name. */
  predicate PagesNameless(s: Cells) {
    forall i :: 0 <= i < |s| ==> s[i].item.virt != 0 ==> s[i].item.symbol == ""
  }

  lemma NamedIsPresent(s: Cells, name: string)
    requires WellFormed(s) && PagesNameless(s) && name != ""
    ensures Has(s, Named(name)) <==> Present(s, NameKey(Key(name)))
  {
    if Has(s, Named(name)) {
      var k := First(s, Named(name));
      assert KeyOf(s[k].item) == Some(NameKey(Key(name)));
    }
    if i :| 0 <= i < |s| && KeyOf(s[i].item) == Some(NameKey(Key(name))) {
      assert Named(name)(s[i]);
    }
  }

  lemma AtIsPresent(s: Cells, page: uint32)
    requires page != 0
    ensures Has(s, At(page)) <==> Present(s, PageKey(page))
  {
    if Has(s, At(page)) {
      var k := First(s, At(page));
      assert KeyOf(s[k].item) == Some(PageKey(page));
    }
    if i :| 0 <= i < |s| && KeyOf(s[i].item) == Some(PageKey(page)) {
      assert At(page)(s[i]);
    }
  }

  /** In a well-formed cache a key has one entry. */
  lemma KeyIsUnique(s: Cells, i: nat, k: nat)
    requires WellFormed(s) && i < |s| && k < |s| && KeyOf(s[i].item).Some? && KeyOf(s[i].item) == KeyOf(s[k].item)
    ensures i == k
  {
    assert i < k ==> KeysDiffer(s[i].item, s[k].item);
    assert k < i ==> KeysDiffer(s[k].item, s[i].item);
  }

  /** Cell k, about `key`, is stamped; all other cells are old ones. */
  predicate OneStamped(s: Cells, t: Cells, k: nat, key: CacheKey, now: int) {
    && k < |t| && KeyOf(t[k].item) == Some(key) && t[k].lastUsed == now
    && (forall i :: 0 <= i < |t| && i != k ==> t[i] in s)
  }

  lemma InsertStamps(s: Cells, e: Entry, now: int)
    requires KeyOf(e).Some?
    ensures OneStamped(s, Insert(s, e, now), |Insert(s, e, now)| - 1, KeyOf(e).value, now)
  {
    var t := Evict(s);
    assert forall i :: 0 <= i < |t| ==> t[i] in s;
  }

  lemma UpdateStamps(s: Cells, op: Op, now: int) returns (k: nat)
    requires WellFormed(s) && PagesNameless(s) && Regular(op) && op.OpUpdate? && UsedKey(s, op, now).Some?
    ensures OneStamped(s, Apply(s, op, now), k, UsedKey(s, op, now).value, now)
  {
    var named := op.named;
    if named.Some? {
      NamedIsPresent(s, named.value);
    }
    if op.va != 0 {
      AtIsPresent(s, Page(op.va));
    }
    if named.Some? && Has(s, Named(named.value)) {
      k := First(s, Named(named.value));
    } else if op.va != 0 && Has(s, At(Page(op.va))) {
      k := First(s, At(Page(op.va)));
    } else {
      InsertStamps(s, NewEntry(named, op.va, op.pid, op.mach, op.kv), now);
      k := |Apply(s, op, now)| - 1;
    }
  }

  lemma CheckStamps(s: Cells, op: Op, now: int) returns (k: nat)
    requires WellFormed(s) && PagesNameless(s) && Regular(op) && !op.OpUpdate? && UsedKey(s, op, now).Some?
    ensures OneStamped(s, Apply(s, op, now), k, UsedKey(s, op, now).value, now)
  {
    match op
    case OpCheckSym(symbol, pid) => k := First(s, SymHit(symbol, pid));
    case OpCheckVirt(va, pid) => k := First(s, VirtHit(Page(va), pid));
  }

  /** Every operation stamps what it is about, and leaves the rest as it was. */
  lemma StepStamps(s: Cells, op: Op, now: int) returns (k: nat)
    requires WellFormed(s) && PagesNameless(s) && Regular(op)
    ensures
      var key := UsedKey(s, op, now);
      if key.Some? then OneStamped(s, Apply(s, op, now), k, key.value, now) else Apply(s, op, now) == s
    ensures PagesNameless(Apply(s, op, now)) && WellFormed(Apply(s, op, now))
  {
    k := 0;
    if UsedKey(s, op, now).Some? {
      if op.OpUpdate? {
        k := UpdateStamps(s, op, now);
      } else {
        k := CheckStamps(s, op, now);
      }
    }
    if op.OpUpdate? {
      UpdateWellFormed(s, op.named, op.va, op.pid, op.mach, op.kv, now);
    }
    StepNameless(s, op, now);
  }

  lemma StepNameless(s: Cells, op: Op, now: int)
    requires PagesNameless(s)
    ensures PagesNameless(Apply(s, op, now))
  {
    if op.OpUpdate? {
      var t := Evict(s);
      assert forall i :: 0 <= i < |t| ==> t[i] in s;
    }
  }

  /** The time of the last operation of a run that was about a key. */
  function LastOnKey(ops: seq<Op>, times: seq<int>, key: CacheKey): Option<int>
    requires |ops| == |times|
  {
    if ops == [] then None
    else
      var n := |ops| - 1;
      if UsedKey(ApplyAll([], ops[..n], times[..n]), ops[n], times[n]) == Some(key) then Some(times[n])
      else LastOnKey(ops[..n], times[..n], key)
  }

  predicate RegularRun(ops: seq<Op>) {
    forall i :: 0 <= i < |ops| ==> Regular(ops[i])
  }

  lemma {:induction false} RunNameless(ops: seq<Op>, times: seq<int>)
    requires |ops| == |times|
    ensures PagesNameless(ApplyAll([], ops, times))
  {
    if ops != [] {
      var n := |ops| - 1;
      RunNameless(ops[..n], times[..n]);
      StepNameless(ApplyAll([], ops[..n], times[..n]), ops[n], times[n]);
    }
  }

  /** Over any regular run, the stamp of each page and each symbol in the address cache is the
      time of the last operation that was about it. */
  lemma {:induction false} StampIsLast(ops: seq<Op>, times: seq<int>, i: nat)
    requires |ops| == |times| && RegularRun(ops) && i < |ApplyAll([], ops, times)|
    ensures
      var c := ApplyAll([], ops, times)[i];
      KeyOf(c.item).Some? ==> LastOnKey(ops, times, KeyOf(c.item).value) == Some(c.lastUsed)
  {
    var n := |ops| - 1;
    var s, t := ApplyAll([], ops[..n], times[..n]), ApplyAll([], ops, times);
    RunWellFormed(ops[..n], times[..n]);
    RunNameless(ops[..n], times[..n]);
    var k := StepStamps(s, ops[n], times[n]);
    var key := UsedKey(s, ops[n], times[n]);
    if KeyOf(t[i].item).Some? && KeyOf(t[i].item) != key {
      assert t[i] in s;
      var j :| 0 <= j < |s| && s[j] == t[i];
      StampIsLast(ops[..n], times[..n], j);
    } else if KeyOf(t[i].item).Some? {
      KeyIsUnique(t, i, k);
    }
  }

  /** What an eviction would take from such a run was used no later than any other page or symbol
      in the cache. */
  lemma OldestIsLeastRecentKey(ops: seq<Op>, times: seq<int>, i: nat)
    requires |ops| == |times| && RegularRun(ops) && i < |ApplyAll([], ops, times)|
    ensures
      var s := ApplyAll([], ops, times);
      var evicted, kept := KeyOf(s[Oldest(s)].item), KeyOf(s[i].item);
      evicted.Some? && kept.Some? ==>
        var x, y := LastOnKey(ops, times, evicted.value), LastOnKey(ops, times, kept.value);
        x.Some? && y.Some? && x.value <= y.value
  {
    StampIsLast(ops, times, i);
    StampIsLast(ops, times, Oldest(ApplyAll([], ops, times)));
  }
}
