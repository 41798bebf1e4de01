/** The cache of page directories by process id, libxa/xenaccess/xa_cache.c. */
module PidCache {
  import opened Bits
  import opened Common
  import opened LruList

  datatype PidEntry = PidEntry(pid: int, pgd: uint32)

  type Pids = seq<Stamped<PidEntry>>

  const PID_CACHE_SIZE: nat := 5

  function Of(pid: int): Stamped<PidEntry> -> bool {
    (c: Stamped<PidEntry>) => c.item.pid == pid
  }

  function CheckPid(s: Pids, pid: int, now: int): (Option<uint32>, Pids) {
    var k := First(s, Of(pid));
    if k < |s| then (Some(s[k].item.pgd), s[k := Stamped(s[k].item, now)]) else (None, s)
  }

  function UpdatePid(s: Pids, pid: int, pgd: uint32, now: int): Pids {
    var k := First(s, Of(pid));
    if pid == 0 then s
    else if k < |s| then s[k := Stamped(PidEntry(pid, pgd), now)]
    else EvictIfFull(s, 5) + [Stamped(PidEntry(pid, pgd), now)]
  }

  method CheckPidCache(cache: LruList<PidEntry>, pid: int, now: int) returns (r: Option<uint32>)
    requires cache.Valid()
    modifies cache`contents, cache.repr
    ensures cache.Valid()
    ensures (r, cache.contents) == CheckPid(old(cache.contents), pid, now)
  {
    var n, k := cache.Find(Of(pid));
    if n == null {
      return None;
    }
    cache.Assign(n, k, n.item, now);
    return Some(n.item.pgd);
  }

  method UpdatePidCache(cache: LruList<PidEntry>, pid: int, pgd: uint32, now: int)
    requires cache.Valid()
    modifies cache, cache.repr
    ensures cache.Valid()
    ensures fresh(cache.repr - old(cache.repr))
    ensures cache.contents == UpdatePid(old(cache.contents), pid, pgd, now)
  {
    if pid == 0 {
      return;
    }
    var n, k := cache.Find(Of(pid));
    if n != null {
      cache.Assign(n, k, PidEntry(n.item.pid, pgd), now);
      return;
    }
    cache.Insert(PidEntry(pid, pgd), PID_CACHE_SIZE, now);
  }

  // ----- every reachable state, and what a lookup answers

  predicate PidsWellFormed(s: Pids) {
    && |s| <= 5
    && forall i, j :: 0 <= i < j < |s| ==> s[i].item.pid != s[j].item.pid
  }

  datatype PidOp = OpCheckPid(pid: int) | OpUpdatePid(pid: int, pgd: uint32)

  function ApplyPid(s: Pids, op: PidOp, now: int): Pids {
    match op
    case OpCheckPid(pid) => CheckPid(s, pid, now).1
    case OpUpdatePid(pid, pgd) => UpdatePid(s, pid, pgd, now)
  }

  lemma EvictPids(s: Pids)
    requires PidsWellFormed(s)
    ensures PidsWellFormed(EvictIfFull(s, 5)) && |EvictIfFull(s, 5)| < 5
    ensures forall i :: 0 <= i < |EvictIfFull(s, 5)| ==> EvictIfFull(s, 5)[i] in s
  {
  }

  lemma UpdatePidWellFormed(s: Pids, pid: int, pgd: uint32, now: int)
    requires PidsWellFormed(s)
    ensures PidsWellFormed(UpdatePid(s, pid, pgd, now))
  {
    if pid != 0 && First(s, Of(pid)) == |s| {
      EvictPids(s);
      assert forall j :: 0 <= j < |s| ==> !Of(pid)(s[j]);
      assert forall c :: c in s ==> c.item.pid != pid;
    }
  }

  function ApplyPids(s: Pids, ops: seq<PidOp>, times: seq<int>): Pids
    requires |ops| == |times|
  {
    if ops == [] then s
    else ApplyPid(ApplyPids(s, ops[..|ops| - 1], times[..|ops| - 1]), ops[|ops| - 1], times[|ops| - 1])
  }

  lemma {:induction false} RunPidsWellFormed(ops: seq<PidOp>, times: seq<int>)
    requires |ops| == |times|
    ensures PidsWellFormed(ApplyPids([], ops, times))
  {
    if ops != [] {
      var n := |ops| - 1;
      RunPidsWellFormed(ops[..n], times[..n]);
      if ops[n].OpUpdatePid? {
        UpdatePidWellFormed(ApplyPids([], ops[..n], times[..n]), ops[n].pid, ops[n].pgd, times[n]);
      }
    }
  }

  /** The page directory given by the last update of a process, if there was one. */
  function LastPgd(ops: seq<PidOp>, pid: int): Option<uint32> {
    if ops == [] then None
    else
      var op := ops[|ops| - 1];
      if op.OpUpdatePid? && op.pid == pid && pid != 0 then Some(op.pgd)
      else LastPgd(ops[..|ops| - 1], pid)
  }

  /** Over any run, a hit answers the page directory of the last update of that process. */
  lemma {:induction false} HitIsLastUpdate(ops: seq<PidOp>, times: seq<int>, i: nat)
    requires |ops| == |times| && i < |ApplyPids([], ops, times)|
    ensures var e := ApplyPids([], ops, times)[i].item;
      LastPgd(ops, e.pid) == Some(e.pgd)
  {
    var n := |ops| - 1;
    var s := ApplyPids([], ops[..n], times[..n]);
    var t := ApplyPids([], ops, times);
    RunPidsWellFormed(ops, times);
    RunPidsWellFormed(ops[..n], times[..n]);
    if ops[n].OpUpdatePid? && ops[n].pid == t[i].item.pid {
      assert t[i].item.pid != 0 ==> t[i].item.pgd == ops[n].pgd by {
        UpdatedPid(s, ops[n].pid, ops[n].pgd, times[n], i);
      }
    }
    if t[i].item.pid == 0 || !(ops[n].OpUpdatePid? && ops[n].pid == t[i].item.pid) {
      var j := OtherPid(s, ops[n], times[n], i);
      HitIsLastUpdate(ops[..n], times[..n], j);
    }
  }

  lemma UpdatedPid(s: Pids, pid: int, pgd: uint32, now: int, i: nat)
    requires PidsWellFormed(s) && i < |UpdatePid(s, pid, pgd, now)|
    ensures pid != 0 && UpdatePid(s, pid, pgd, now)[i].item.pid == pid ==>
      UpdatePid(s, pid, pgd, now)[i].item.pgd == pgd
  {
    var k := First(s, Of(pid));
    assert forall j :: 0 <= j < k ==> !Of(pid)(s[j]);
  }

  /** An entry the operation is not about comes unchanged from the state before. */
  lemma OtherPid(s: Pids, op: PidOp, now: int, i: nat) returns (j: nat)
    requires i < |ApplyPid(s, op, now)|
    requires op.OpUpdatePid? && op.pid != 0 ==> op.pid != ApplyPid(s, op, now)[i].item.pid
    ensures j < |s| && s[j].item == ApplyPid(s, op, now)[i].item
  {
    j := i;
    if op.OpUpdatePid? && op.pid != 0 && First(s, Of(op.pid)) == |s| && |s| >= 5 {
      j := if i < Oldest(s) then i else i + 1;
    }
  }

  /** From any state, full or not: after an update of a process, its page directory is found. */
  lemma PidPutThenGet(s: Pids, pid: int, pgd: uint32, t0: int, t1: int)
    requires pid != 0
    ensures CheckPid(UpdatePid(s, pid, pgd, t0), pid, t1).0 == Some(pgd)
  {
    var t, k := UpdatePid(s, pid, pgd, t0), First(s, Of(pid));
    if k < |s| {
      FirstIs(t, Of(pid), k);
    } else {
      var e := EvictIfFull(s, 5);
      assert forall i :: 0 <= i < |e| ==> e[i] in s;
      assert forall i :: 0 <= i < |s| ==> !Of(pid)(s[i]);
      FirstIs(t, Of(pid), |t| - 1);
    }
  }

  /** A hit stays a hit. */
  lemma PidHitStays(s: Pids, pid: int, t0: int, t1: int)
    requires CheckPid(s, pid, t0).0.Some?
    ensures CheckPid(CheckPid(s, pid, t0).1, pid, t1).0 == CheckPid(s, pid, t0).0
  {
    FirstIs(CheckPid(s, pid, t0).1, Of(pid), First(s, Of(pid)));
  }
}
