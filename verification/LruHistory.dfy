/** Least recently used, over whole runs.  Every entry gets a serial number when it is
    inserted; the log records each use of an entry and its time.  What the caches compare,
    the `last_used` fields, is proved to be the last use in the log, and what they evict to
    be a least recently used entry. */
module LruHistory {
  import opened Common
  import opened LruList
  import A = AddressCache
  import C = CacheLaws
  import P = PidCache

  datatype Use = Use(serial: nat, time: int)

  /** What an operation does to the list: nothing, a use of one entry, an insertion, or an
      insertion in place of an evicted entry. */
  datatype Effect = Idle | Touch(k: nat) | Add | Replace(k: nat)

  datatype History = History(stamps: seq<int>, serials: seq<nat>, next: nat, log: seq<Use>)

  function Stamps<T>(s: seq<Stamped<T>>): (r: seq<int>)
    ensures |r| == |s| && forall i :: 0 <= i < |s| ==> r[i] == s[i].lastUsed
  {
    seq(|s|, i requires 0 <= i < |s| => s[i].lastUsed)
  }

  predicate Possible(h: History, e: Effect) {
    |h.serials| == |h.stamps| && (e.Touch? || e.Replace? ==> e.k < |h.stamps|)
  }

  function Record(h: History, e: Effect, now: int): History
    requires Possible(h, e)
  {
    match e
    case Idle => h
    case Touch(k) => h.(stamps := h.stamps[k := now], log := h.log + [Use(h.serials[k], now)])
    case Add => History(h.stamps + [now], h.serials + [h.next], h.next + 1, h.log + [Use(h.next, now)])
    case Replace(k) =>
      History(Without(h.stamps, k) + [now], Without(h.serials, k) + [h.next], h.next + 1, h.log + [Use(h.next, now)])
  }

  /** The position of the last use of an entry in the log. */
  function LastUse(log: seq<Use>, serial: nat): (p: Option<nat>)
    ensures p.Some? ==> p.value < |log| && log[p.value].serial == serial
    ensures p.Some? ==> forall q :: p.value < q < |log| ==> log[q].serial != serial
    ensures p.None? ==> forall q :: 0 <= q < |log| ==> log[q].serial != serial
  {
    if log == [] then None
    else if log[|log| - 1].serial == serial then Some(|log| - 1)
    else LastUse(log[..|log| - 1], serial)
  }

  lemma LastUseOfLonger(log: seq<Use>, u: Use, serial: nat)
    ensures LastUse(log + [u], serial) == if u.serial == serial then Some(|log|) else LastUse(log, serial)
  {
    assert (log + [u])[..|log|] == log;
  }

  predicate Sorted(log: seq<Use>) {
    forall p, q :: 0 <= p < q < |log| ==> log[p].time <= log[q].time
  }

  /** Each stamp is the time of the last use of its entry; serial numbers are unique; the
      log is in the order of a clock that does not run backwards. */
  predicate Faithful(h: History) {
    && |h.serials| == |h.stamps|
    && (forall i :: 0 <= i < |h.serials| ==> h.serials[i] < h.next)
    && (forall i, j :: 0 <= i < j < |h.serials| ==> h.serials[i] != h.serials[j])
    && (forall i :: 0 <= i < |h.serials| ==>
          var p := LastUse(h.log, h.serials[i]);
          p.Some? && h.log[p.value].time == h.stamps[i])
    && Sorted(h.log)
  }

  predicate NotBefore(log: seq<Use>, now: int) {
    forall p :: 0 <= p < |log| ==> log[p].time <= now
  }

  /** After a new use is logged, the last use of each entry is the old one or the new one. */
  lemma LastUsesAfter(h: History, u: Use, serial: nat, stamp: int)
    requires var p := LastUse(h.log, serial); serial != u.serial ==> p.Some? && h.log[p.value].time == stamp
    requires serial == u.serial ==> stamp == u.time
    ensures var p := LastUse(h.log + [u], serial); p.Some? && (h.log + [u])[p.value].time == stamp
  {
    LastUseOfLonger(h.log, u, serial);
  }

  lemma TouchKeepsFaithful(h: History, k: nat, now: int)
    requires Faithful(h) && k < |h.serials| && NotBefore(h.log, now)
    ensures Faithful(Record(h, Touch(k), now))
  {
    var r := Record(h, Touch(k), now);
    forall i | 0 <= i < |r.serials|
      ensures var p := LastUse(r.log, r.serials[i]); p.Some? && r.log[p.value].time == r.stamps[i]
    {
      LastUsesAfter(h, Use(h.serials[k], now), h.serials[i], r.stamps[i]);
    }
  }

  lemma AddKeepsFaithful(h: History, now: int)
    requires Faithful(h) && NotBefore(h.log, now)
    ensures Faithful(Record(h, Add, now))
  {
    var r := Record(h, Add, now);
    forall i | 0 <= i < |r.serials|
      ensures var p := LastUse(r.log, r.serials[i]); p.Some? && r.log[p.value].time == r.stamps[i]
    {
      LastUsesAfter(h, Use(h.next, now), r.serials[i], r.stamps[i]);
    }
  }

  /** Forgetting an entry changes nothing about the others. */
  lemma DropKeepsFaithful(h: History, k: nat)
    requires Faithful(h) && k < |h.serials|
    ensures Faithful(h.(stamps := Without(h.stamps, k), serials := Without(h.serials, k)))
  {
  }

  lemma RecordKeepsFaithful(h: History, e: Effect, now: int)
    requires Faithful(h) && Possible(h, e) && NotBefore(h.log, now)
    ensures Faithful(Record(h, e, now)) && NotBefore(Record(h, e, now).log, now)
  {
    match e
    case Idle =>
    case Touch(k) => TouchKeepsFaithful(h, k, now);
    case Add => AddKeepsFaithful(h, now);
    case Replace(k) =>
      DropKeepsFaithful(h, k);
      AddKeepsFaithful(h.(stamps := Without(h.stamps, k), serials := Without(h.serials, k)), now);
  }

  /** What is evicted was used no later than anything that stays: if its last use comes
      after that of an entry that stays, both happened at one reading of the clock. */
  predicate LeastRecent(h: History, k: nat)
    requires Faithful(h) && k < |h.serials|
  {
    forall i :: 0 <= i < |h.serials| && i != k ==>
      var x, y := LastUse(h.log, h.serials[k]).value, LastUse(h.log, h.serials[i]).value;
      x < y || h.log[x].time == h.log[y].time
  }

  lemma OldestIsLeastRecent<T>(h: History, s: seq<Stamped<T>>)
    requires Faithful(h) && s != [] && h.stamps == Stamps(s)
    ensures LeastRecent(h, Oldest(s))
  {
    var k := Oldest(s);
    forall i | 0 <= i < |h.serials| && i != k
      ensures var x, y := LastUse(h.log, h.serials[k]).value, LastUse(h.log, h.serials[i]).value;
        x < y || h.log[x].time == h.log[y].time
    {
      assert h.stamps[k] <= h.stamps[i];
    }
  }

  ghost predicate NonDecreasing(times: seq<int>) {
    forall i, j :: 0 <= i < j < |times| ==> times[i] <= times[j]
  }

  const Empty := History([], [], 0, [])

  // ----- the address cache

  function EffectOf(s: A.Cells, op: C.Op): Effect {
    match op
    case OpCheckSym(symbol, pid) =>
      var k := First(s, A.SymHit(symbol, pid)); if k < |s| then Touch(k) else Idle
    case OpCheckVirt(va, pid) =>
      var k := First(s, A.VirtHit(A.Page(va), pid)); if k < |s| then Touch(k) else Idle
    case OpUpdate(named, va, pid, mach, kv) =>
      var i := if named.Some? then First(s, A.Named(named.value)) else |s|;
      var j := if va != 0 then First(s, A.At(A.Page(va))) else |s|;
      if i < |s| then Touch(i)
      else if j < |s| then Touch(j)
      else if named.None? && va == 0 then Idle
      else if |s| >= 25 then Replace(Oldest(s))
      else Add
  }

  lemma StampsOfUpdate<T>(s: seq<Stamped<T>>, k: nat, c: Stamped<T>)
    requires k < |s|
    ensures Stamps(s[k := c]) == Stamps(s)[k := c.lastUsed]
  {
  }

  lemma StampsOfWithout<T>(s: seq<Stamped<T>>, k: nat)
    requires k < |s|
    ensures Stamps(Without(s, k)) == Without(Stamps(s), k)
  {
  }

  lemma StampsOfAppend<T>(s: seq<Stamped<T>>, c: Stamped<T>)
    ensures Stamps(s + [c]) == Stamps(s) + [c.lastUsed]
  {
  }

  lemma StampsOfInsert<T>(s: seq<Stamped<T>>, capacity: nat, c: Stamped<T>)
    requires capacity > 0
    ensures Stamps(EvictIfFull(s, capacity) + [c])
         == (if |s| >= capacity then Without(Stamps(s), Oldest(s)) else Stamps(s)) + [c.lastUsed]
  {
    StampsOfAppend(EvictIfFull(s, capacity), c);
    if |s| >= capacity {
      StampsOfWithout(s, Oldest(s));
    }
  }

  lemma UpdateIsRecorded(h: History, s: A.Cells, op: C.Op, now: int)
    requires |h.serials| == |h.stamps| && h.stamps == Stamps(s) && op.OpUpdate?
    ensures Possible(h, EffectOf(s, op))
    ensures Record(h, EffectOf(s, op), now).stamps == Stamps(C.Apply(s, op, now))
  {
    var t := C.Apply(s, op, now);
    match EffectOf(s, op)
    case Idle =>
    case Touch(k) => StampsOfUpdate(s, k, t[k]);
    case _ => StampsOfInsert(s, 25, Stamped(A.NewEntry(op.named, op.va, op.pid, op.mach, op.kv), now));
  }

  lemma EffectIsRecorded(h: History, s: A.Cells, op: C.Op, now: int)
    requires |h.serials| == |h.stamps| && h.stamps == Stamps(s)
    ensures Possible(h, EffectOf(s, op))
    ensures Record(h, EffectOf(s, op), now).stamps == Stamps(C.Apply(s, op, now))
  {
    if op.OpUpdate? {
      UpdateIsRecorded(h, s, op, now);
    }
  }

  function HistoryOf(ops: seq<C.Op>, times: seq<int>): (h: History)
    requires |ops| == |times|
    ensures |h.serials| == |h.stamps|
    ensures h.stamps == Stamps(C.ApplyAll([], ops, times))
  {
    if ops == [] then Empty
    else
      var n := |ops| - 1;
      var s := C.ApplyAll([], ops[..n], times[..n]);
      var h := HistoryOf(ops[..n], times[..n]);
      EffectIsRecorded(h, s, ops[n], times[n]);
      Record(h, EffectOf(s, ops[n]), times[n])
  }

  /** Over any run with a clock that does not run backwards, each `last_used` is the time of
      the latest hit, update or insertion of its entry. */
  lemma {:induction false} StampsAreLastUses(ops: seq<C.Op>, times: seq<int>)
    requires |ops| == |times| && NonDecreasing(times)
    ensures Faithful(HistoryOf(ops, times))
    ensures times != [] ==> NotBefore(HistoryOf(ops, times).log, times[|times| - 1])
    ensures times == [] ==> HistoryOf(ops, times).log == []
  {
    if ops != [] {
      var n := |ops| - 1;
      StampsAreLastUses(ops[..n], times[..n]);
      var s := C.ApplyAll([], ops[..n], times[..n]);
      var h := HistoryOf(ops[..n], times[..n]);
      EffectIsRecorded(h, s, ops[n], times[n]);
      if n > 0 {
        assert times[..n][n - 1] <= times[n];
      }
      RecordKeepsFaithful(h, EffectOf(s, ops[n]), times[n]);
    }
  }

  /** Over any such run, whatever operation evicts an entry evicts a least recently used one. */
  lemma EvictionIsLeastRecent(ops: seq<C.Op>, times: seq<int>, op: C.Op)
    requires |ops| == |times| && NonDecreasing(times)
    requires EffectOf(C.ApplyAll([], ops, times), op).Replace?
    ensures var k := EffectOf(C.ApplyAll([], ops, times), op).k;
      && Faithful(HistoryOf(ops, times)) && k < |HistoryOf(ops, times).serials|
      && LeastRecent(HistoryOf(ops, times), k)
  {
    StampsAreLastUses(ops, times);
    OldestIsLeastRecent(HistoryOf(ops, times), C.ApplyAll([], ops, times));
  }

  // ----- the pid cache

  function PidEffectOf(s: P.Pids, op: P.PidOp): Effect {
    var k := First(s, P.Of(op.pid));
    match op
    case OpCheckPid(pid) => if k < |s| then Touch(k) else Idle
    case OpUpdatePid(pid, pgd) =>
      if pid == 0 then Idle else if k < |s| then Touch(k) else if |s| >= 5 then Replace(Oldest(s)) else Add
  }

  lemma PidEffectIsRecorded(h: History, s: P.Pids, op: P.PidOp, now: int)
    requires |h.serials| == |h.stamps| && h.stamps == Stamps(s)
    ensures Possible(h, PidEffectOf(s, op))
    ensures Record(h, PidEffectOf(s, op), now).stamps == Stamps(P.ApplyPid(s, op, now))
  {
    var t := P.ApplyPid(s, op, now);
    match PidEffectOf(s, op)
    case Idle =>
    case Touch(k) => StampsOfUpdate(s, k, t[k]);
    case _ => StampsOfInsert(s, 5, Stamped(P.PidEntry(op.pid, op.pgd), now));
  }

  function PidHistoryOf(ops: seq<P.PidOp>, times: seq<int>): (h: History)
    requires |ops| == |times|
    ensures |h.serials| == |h.stamps|
    ensures h.stamps == Stamps(P.ApplyPids([], ops, times))
  {
    if ops == [] then Empty
    else
      var n := |ops| - 1;
      var s := P.ApplyPids([], ops[..n], times[..n]);
      var h := PidHistoryOf(ops[..n], times[..n]);
      PidEffectIsRecorded(h, s, ops[n], times[n]);
      Record(h, PidEffectOf(s, ops[n]), times[n])
  }

  lemma {:induction false} PidStampsAreLastUses(ops: seq<P.PidOp>, times: seq<int>)
    requires |ops| == |times| && NonDecreasing(times)
    ensures Faithful(PidHistoryOf(ops, times))
    ensures times != [] ==> NotBefore(PidHistoryOf(ops, times).log, times[|times| - 1])
    ensures times == [] ==> PidHistoryOf(ops, times).log == []
  {
    if ops != [] {
      var n := |ops| - 1;
      PidStampsAreLastUses(ops[..n], times[..n]);
      var s := P.ApplyPids([], ops[..n], times[..n]);
      var h := PidHistoryOf(ops[..n], times[..n]);
      PidEffectIsRecorded(h, s, ops[n], times[n]);
      if n > 0 {
        assert times[..n][n - 1] <= times[n];
      }
      RecordKeepsFaithful(h, PidEffectOf(s, ops[n]), times[n]);
    }
  }

  lemma PidEvictionIsLeastRecent(ops: seq<P.PidOp>, times: seq<int>, op: P.PidOp)
    requires |ops| == |times| && NonDecreasing(times)
    requires PidEffectOf(P.ApplyPids([], ops, times), op).Replace?
    ensures var k := PidEffectOf(P.ApplyPids([], ops, times), op).k;
      && Faithful(PidHistoryOf(ops, times)) && k < |PidHistoryOf(ops, times).serials|
      && LeastRecent(PidHistoryOf(ops, times), k)
  {
    PidStampsAreLastUses(ops, times);
    OldestIsLeastRecent(PidHistoryOf(ops, times), P.ApplyPids([], ops, times));
  }
}
