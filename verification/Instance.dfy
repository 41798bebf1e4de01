/** A XenAccess instance of a Linux guest: memory access by virtual address, by kernel symbol
    and by process, all through the two caches, as in libxa/xenaccess/xa_memory.c and
    libxa/xenaccess/linux_memory.c.  Looking up a process walks the guest's task list through
    the address cache itself.  Every method answers what a reader without caches finds. */
module Instance {
  import opened Bits
  import opened Common
  import opened LruList
  import opened AddressCache
  import opened PidCache
  import opened Transparency
  import opened Guest
  import opened PageWalk

  /** Each cached page directory is that of its process. */
  predicate PidsSound(pgd: int -> uint32, s: Pids) {
    forall i :: 0 <= i < |s| ==> s[i].item.pgd == pgd(s[i].item.pid)
  }

  lemma CheckPidSound(pgd: int -> uint32, s: Pids, pid: int, now: int)
    requires PidsSound(pgd, s)
    ensures PidsSound(pgd, CheckPid(s, pid, now).1)
    ensures CheckPid(s, pid, now).0.Some? ==> CheckPid(s, pid, now).0 == Some(pgd(pid))
  {
  }

  lemma UpdatePidSound(pgd: int -> uint32, s: Pids, pid: int, now: int)
    requires PidsSound(pgd, s)
    ensures PidsSound(pgd, UpdatePid(s, pid, pgd(pid), now))
  {
  }

  class Instance {
    const g: Guest
    const v: View
    const w: World
    const cache: LruList<Entry>
    const pids: LruList<PidEntry>
    var clock: int
    ghost var Repr: set<object>

    /** The two lists are well linked and belong to this instance. */
    ghost predicate Linked()
      reads this, Repr
    {
      && this in Repr && cache in Repr && pids in Repr
      && cache.repr <= Repr && pids.repr <= Repr
      && cache.Valid() && pids.Valid()
    }

    /** What the lists hold agrees with the guest. */
    ghost predicate Valid()
      reads this, Repr
    {
      && Linked()
      && WorldOk(w) && SymbolsBenign(w)
      && Sound(w, cache.contents)
      && PidsSound(v.pgd, pids.contents)
    }

    /** `v` and `w` describe the guest `g`. */
    ghost predicate Describes() {
      && Shows(w, v)
      && ReadsRing(g)
      && v.lookup == g.lookup && v.cr3 == g.cr3
      && (forall pid {:trigger PgdOf(g, pid)} :: v.pgd(pid) == PgdOf(g, pid))
    }

    constructor (g: Guest)
      requires GuestOk(g)
      ensures Valid() && Describes() && fresh(Repr) && this.g == g && v == ViewOf(g) && w == WorldOf(g)
    {
      GuestWorldOk(g);
      RingIsRead(g);
      this.g, v, w := g, ViewOf(g), WorldOf(g);
      cache := new LruList<Entry>();
      pids := new LruList<PidEntry>();
      clock := 0;
      Repr := {this, cache, pids};
    }

    /** time(NULL): any reading that does not go backwards. */
    method Now() returns (t: int)
      modifies this`clock
      ensures t == clock >= old(clock)
    {
      t :| t >= clock;
      clock := t;
    }

    // The cache operations, with the clock read and the other cache left alone.

    method LookVirt(va: uint32, pid: int) returns (r: Option<nat>, ghost t: int)
      requires Linked()
      modifies Repr
      ensures Linked() && Repr == old(Repr) && pids.contents == old(pids.contents)
      ensures (r, cache.contents) == CheckVirt(old(cache.contents), va, pid, t)
    {
      var now := Now();
      r := CheckCacheVirt(cache, va, pid, now);
      t := now;
    }

    method LookSym(symbol: string) returns (r: Option<uint32>, ghost t: int)
      requires Linked()
      modifies Repr
      ensures Linked() && Repr == old(Repr) && pids.contents == old(pids.contents)
      ensures (r, cache.contents) == CheckSym(old(cache.contents), symbol, 0, t)
    {
      var now := Now();
      r := CheckCacheSym(cache, symbol, 0, now);
      t := now;
    }

    method Store(symbol: Option<string>, va: uint32, pid: int, mach: uint32, kv: uint32) returns (ghost t: int)
      requires Linked()
      modifies Repr
      ensures Linked() && fresh(Repr - old(Repr)) && pids.contents == old(pids.contents)
      ensures cache.contents == Update(old(cache.contents), symbol, va, pid, mach, kv, t)
    {
      var now := Now();
      UpdateCache(cache, symbol, va, pid, mach, kv, now);
      Repr := Repr + cache.repr;
      t := now;
    }

    method LookPid(pid: int) returns (r: Option<uint32>, ghost t: int)
      requires Linked()
      modifies Repr
      ensures Linked() && Repr == old(Repr) && cache.contents == old(cache.contents)
      ensures (r, pids.contents) == CheckPid(old(pids.contents), pid, t)
    {
      var now := Now();
      r := CheckPidCache(pids, pid, now);
      t := now;
    }

    method StorePid(pid: int, pgd: uint32) returns (ghost t: int)
      requires Linked()
      modifies Repr
      ensures Linked() && fresh(Repr - old(Repr)) && cache.contents == old(cache.contents)
      ensures pids.contents == UpdatePid(old(pids.contents), pid, pgd, t)
    {
      var now := Now();
      UpdatePidCache(pids, pid, pgd, now);
      Repr := Repr + pids.repr;
      t := now;
    }

    // The same operations against the guest.

    method TryCache(va: uint32, pid: int) returns (r: Option<nat>, ghost t: int)
      requires Valid()
      modifies Repr
      ensures Valid() && Repr == old(Repr) && pids.contents == old(pids.contents)
      ensures (r, cache.contents) == CheckVirt(old(cache.contents), va, pid, t)
      ensures r.Some? ==> r == FreshVirt(w, va, pid)
    {
      ghost var before := cache.contents;
      r, t := LookVirt(va, pid);
      HitVirtIsFresh(w, before, va, pid, t);
    }

    method Remember(va: uint32, pid: int, address: uint32) returns (ghost t: int)
      requires Valid() && address == w.walk(va, pid) != 0 && Harmless(w, cache.contents, va, pid)
      modifies Repr
      ensures Valid() && fresh(Repr - old(Repr)) && pids.contents == old(pids.contents)
      ensures cache.contents == Update(old(cache.contents), None, va, pid, address, 0, t)
    {
      ghost var before := cache.contents;
      t := Store(None, va, pid, address, 0);
      if Benign(w, va, pid) {
        SoundUpdateVirt(w, before, va, pid, 0, t);
      } else {
        LowUpdateSound(w, before, va, pid, 0, t);
      }
    }

    method AccessKernelVa(va: uint32) returns (r: Option<nat>, ghost t0: int, ghost t1: int)
      requires Valid() && Shows(w, v) && Harmless(w, cache.contents, va, 0)
      modifies Repr
      ensures Valid() && fresh(Repr - old(Repr)) && pids.contents == old(pids.contents)
      ensures (r, cache.contents) == AccessVirt(w, old(cache.contents), va, 0, t0, t1)
      ensures r == FreshVirt(w, va, 0)
    {
      t1 := 0;
      r, t0 := TryCache(va, 0);
      if r.Some? {
        return;
      }
      var address := v.lookup(v.cr3, va);
      if address != 0 {
        t1 := Remember(va, 0, address);
        r := Some(address);
      }
    }

    /** Maps the list node of a task, which is in the cache then. */
    method AccessTask(task: uint32) returns (a: uint32)
      requires Valid() && Shows(w, v) && v.lookup == g.lookup && v.cr3 == g.cr3
      requires BenignKernel(g, task) && KernelAddress(g, task) != 0
      modifies Repr
      ensures Valid() && fresh(Repr - old(Repr)) && pids.contents == old(pids.contents)
      ensures a == KernelAddress(g, task) && Filled(cache.contents, task, 0, Some(a))
    {
      AccessFillsFor(task);
      ghost var t0, t1;
      var memory;
      memory, t0, t1 := AccessKernelVa(task);
      a := memory.value;
    }

    /** One round of the search. */
    method SearchNode(pid: int, task: uint32, ghost i: nat) returns (done: bool, r: Option<uint32>, next: uint32)
      requires Valid() && Shows(w, v) && v.lookup == g.lookup && v.cr3 == g.cr3
      requires ReadsRing(g) && SearchAt(g, pid, i, false, None, task)
      modifies Repr
      ensures Valid() && fresh(Repr - old(Repr)) && pids.contents == old(pids.contents)
      ensures SearchAt(g, pid, i + 1, done, r, next)
      ensures Filled(cache.contents, task, 0, Some(KernelAddress(g, task)))
    {
      SearchOn(g, pid, i, None, task);
      var a := AccessTask(task);
      next := g.mem(a);
      done, r := next == g.initTask, None;
      if !done && PidAt(g, a) == pid {
        done, r := true, Some(a);
      }
    }

    /** The tasks are read in the order of the ring, up to the one found or to the last, number n,
        which is in the cache then. */
    method GetTaskStruct(pid: int) returns (r: Option<uint32>, ghost n: nat)
      requires Valid() && Shows(w, v) && v.lookup == g.lookup && v.cr3 == g.cr3
      requires ReadsRing(g)
      modifies Repr
      ensures Valid() && fresh(Repr - old(Repr)) && pids.contents == old(pids.contents)
      ensures r == TaskAddress(g, pid)
      ensures n < |g.ring| && (if r.None? then n == |g.ring| - 1 else r == Some(KernelAddress(g, g.ring[n])))
      ensures Filled(cache.contents, g.ring[n], 0, Some(KernelAddress(g, g.ring[n])))
    {
      var done, next := false, g.initTask;
      r, n := None, 0;
      ghost var i := 0;
      while !done
        invariant Valid() && fresh(Repr - old(Repr)) && pids.contents == old(pids.contents)
        invariant SearchAt(g, pid, i, done, r, next) && (done ==> i == n + 1)
        invariant done ==> Filled(cache.contents, g.ring[n], 0, Some(KernelAddress(g, g.ring[n])))
        decreases |g.ring| - i, !done
      {
        n := i;
        done, r, next := SearchNode(pid, next, i);
        i := i + 1;
      }
    }

    method TryPid(pid: int) returns (r: Option<uint32>, ghost t: int)
      requires Valid()
      modifies Repr
      ensures Valid() && Repr == old(Repr) && cache.contents == old(cache.contents)
      ensures (r, pids.contents) == CheckPid(old(pids.contents), pid, t)
      ensures r.Some? ==> r == Some(v.pgd(pid))
    {
      ghost var before := pids.contents;
      r, t := LookPid(pid);
      CheckPidSound(v.pgd, before, pid, t);
    }

    method RememberPid(pid: int, pgd: uint32) returns (ghost t: int)
      requires Valid() && pgd == v.pgd(pid)
      modifies Repr
      ensures Valid() && fresh(Repr - old(Repr)) && cache.contents == old(cache.contents)
      ensures pids.contents == UpdatePid(old(pids.contents), pid, pgd, t)
    {
      ghost var before := pids.contents;
      t := StorePid(pid, pgd);
      UpdatePidSound(v.pgd, before, pid, t);
    }

    /** A word of the kernel's memory, 0 where it is not mapped. */
    method ReadLongVirt(va: uint32) returns (x: uint32)
      requires Valid() && Shows(w, v) && v.lookup == g.lookup && v.cr3 == g.cr3 && BenignKernel(g, va)
      modifies Repr
      ensures Valid() && fresh(Repr - old(Repr)) && pids.contents == old(pids.contents)
      ensures x == ReadKernel(g, va) && Filled(cache.contents, va, 0, FreshVirt(w, va, 0))
    {
      AccessFillsFor(va);
      ghost var t0, t1;
      var memory;
      memory, t0, t1 := AccessKernelVa(va);
      x := if memory.Some? then g.mem(memory.value) else 0;
    }

    /** Reads the page directory behind a task's list node and remembers it. */
    method TaskPgd(pid: int, a: uint32) returns (pgd: uint32, ghost t: int)
      requires Valid() && Shows(w, v) && v.lookup == g.lookup && v.cr3 == g.cr3
      requires BenignKernel(g, PgdPointerAt(g, a))
      requires v.pgd(pid) == KernelAddress(g, ReadKernel(g, PgdPointerAt(g, a)))
      modifies Repr
      ensures Valid() && fresh(Repr - old(Repr))
      ensures pids.contents == UpdatePid(old(pids.contents), pid, pgd, t)
      ensures pgd == v.pgd(pid)
    {
      pgd := ReadLongVirt(PgdPointerAt(g, a));
      pgd := v.lookup(v.cr3, pgd);
      t := RememberPid(pid, pgd);
    }

    /** The page directory of a process that is found is remembered. */
    method LinuxPidToPgd(pid: int) returns (pgd: uint32, ghost t: int)
      requires Valid() && Describes()
      modifies Repr
      ensures Valid() && fresh(Repr - old(Repr))
      ensures pgd == v.pgd(pid)
      ensures pids.contents
           == if TaskAddress(g, pid).None? then old(pids.contents) else UpdatePid(old(pids.contents), pid, pgd, t)
    {
      PgdOfTask(g, pid);
      var memory;
      ghost var n;
      memory, n := GetTaskStruct(pid);
      if memory.None? {
        return 0, 0;
      }
      pgd, t := TaskPgd(pid, memory.value);
    }

    /** A process that is found is in the pid cache then. */
    method PidToPgd(pid: int) returns (pgd: uint32)
      requires Valid() && Describes()
      modifies Repr
      ensures Valid() && fresh(Repr - old(Repr))
      ensures pgd == v.pgd(pid)
      ensures pid != 0 && TaskAddress(g, pid).Some? ==> CheckPid(pids.contents, pid, 0).0 == Some(pgd)
    {
      ghost var before := pids.contents;
      var hit;
      ghost var t;
      hit, t := TryPid(pid);
      if hit.Some? {
        PidHitStays(before, pid, t, 0);
        return hit.value;
      }
      before := pids.contents;
      pgd, t := LinuxPidToPgd(pid);
      if pid != 0 {
        PidPutThenGet(before, pid, pgd, t, 0);
      }
    }

    method WalkProcess(va: uint32, pid: int) returns (address: uint32)
      requires Valid() && Describes() && pid != 0
      modifies Repr
      ensures Valid() && fresh(Repr - old(Repr))
      ensures address == w.walk(va, pid)
      ensures TaskAddress(g, pid).Some? ==> CheckPid(pids.contents, pid, 0).0 == Some(v.pgd(pid))
    {
      var pgd := PidToPgd(pid);
      address := if pgd != 0 then v.lookup(pgd, va) else 0;
    }

    /** An access by the tables of a process. */
    method WalkAndRemember(va: uint32, pid: int) returns (r: Option<nat>)
      requires Valid() && Describes() && pid != 0
      modifies Repr
      ensures Valid() && fresh(Repr - old(Repr))
      ensures r == FreshVirt(w, va, pid) && Filled(cache.contents, va, pid, r)
    {
      var address := WalkProcess(va, pid);
      if address == 0 {
        return None;
      }
      ghost var before := cache.contents;
      ghost var t := Remember(va, pid, address);
      StoreFills(w, before, va, pid, t);
      return Some(address);
    }

    method AccessProcess(va: uint32, pid: int) returns (r: Option<nat>)
      requires Valid() && Describes() && pid != 0
      modifies Repr
      ensures Valid() && fresh(Repr - old(Repr))
      ensures r == FreshVirt(w, va, pid) && Filled(cache.contents, va, pid, r)
    {
      ghost var before := cache.contents;
      ghost var t;
      r, t := TryCache(va, pid);
      if r.Some? {
        HitStays(before, va, pid, t, 0);
        return;
      }
      r := WalkAndRemember(va, pid);
    }

    /** The answer of a walk without caches, which the cache holds then. */
    method AccessUserVa(va: uint32, pid: int) returns (r: Option<nat>)
      requires Valid() && Describes() && Harmless(w, cache.contents, va, pid)
      modifies Repr
      ensures Valid() && fresh(Repr - old(Repr))
      ensures r == FreshVirt(w, va, pid) && Filled(cache.contents, va, pid, r)
    {
      if pid == 0 {
        ghost var t0, t1;
        AccessFillsFor(va);
        r, t0, t1 := AccessKernelVa(va);
        return;
      }
      r := AccessProcess(va, pid);
    }

    lemma AccessFillsFor(va: uint32)
      requires Valid()
      ensures forall t0, t1 ::
        var (r, s) := AccessVirt(w, cache.contents, va, 0, t0, t1); Filled(s, va, 0, r)
    {
      forall t0, t1 {
        AccessFills(w, cache.contents, va, 0, t0, t1);
      }
    }

    method TrySymbol(symbol: string) returns (r: Option<nat>, ghost t: int)
      requires Valid() && symbol != ""
      modifies Repr
      ensures Valid() && Repr == old(Repr) && pids.contents == old(pids.contents)
      ensures (r, cache.contents) == CheckSym(old(cache.contents), symbol, 0, t)
      ensures r.Some? ==> r == FreshSym(w, symbol)
    {
      ghost var before := cache.contents;
      r, t := LookSym(symbol);
      HitSymIsFresh(w, before, symbol, t);
    }

    method RememberSymbol(symbol: string, va: uint32, kv: uint32) returns (ghost t: int)
      requires Valid() && symbol in w.sysmap && va == w.sysmap[symbol] && kv == w.walk(va, 0)
      modifies Repr
      ensures Valid() && fresh(Repr - old(Repr)) && pids.contents == old(pids.contents)
      ensures cache.contents == Update(old(cache.contents), Some(symbol), va, 0, 0, kv, t)
    {
      ghost var before := cache.contents;
      t := Store(Some(symbol), va, 0, 0, kv);
      SoundUpdateSym(w, before, symbol, t);
    }

    /** The symbol is remembered, then its page is accessed by its address. */
    method LocateSymbol(symbol: string, va: uint32)
        returns (r: Option<nat>, ghost t1: int, ghost t2: int, ghost t3: int)
      requires Valid() && Shows(w, v) && symbol in w.sysmap && va == w.sysmap[symbol]
      modifies Repr
      ensures Valid() && fresh(Repr - old(Repr)) && pids.contents == old(pids.contents)
      ensures
        var s := Update(old(cache.contents), Some(symbol), va, 0, 0, w.walk(va, 0), t1);
        (r, cache.contents) == AccessVirt(w, s, va, 0, t2, t3)
      ensures r == FreshVirt(w, va, 0)
    {
      t1 := RememberSymbol(symbol, va, v.lookup(v.cr3, va));
      r, t2, t3 := AccessKernelVa(va);
    }

    method AccessKernelSymbol(symbol: string)
        returns (r: Option<nat>, ghost t0: int, ghost t1: int, ghost t2: int, ghost t3: int)
      requires Valid() && Shows(w, v) && symbol != ""
      modifies Repr
      ensures Valid() && fresh(Repr - old(Repr)) && pids.contents == old(pids.contents)
      ensures (r, cache.contents) == AccessSym(w, old(cache.contents), symbol, t0, t1, t2, t3)
      ensures r == FreshSym(w, symbol)
    {
      t1, t2, t3 := 0, 0, 0;
      r, t0 := TrySymbol(symbol);
      if r.None? && symbol in w.sysmap {
        r, t1, t2, t3 := LocateSymbol(symbol, w.sysmap[symbol]);
      }
    }

    method ServeOne(r: Request) returns (a: Option<nat>)
      requires Valid() && Describes() && RequestOk(w, r)
      modifies Repr
      ensures Valid() && fresh(Repr - old(Repr))
      ensures a == Fresh(w, r)
    {
      match r
      case Virt(va, pid) => a := AccessUserVa(va, pid);
      case Sym(name) =>
        ghost var t0, t1, t2, t3;
        a, t0, t1, t2, t3 := AccessKernelSymbol(name);
    }

    /** Any run of requests on the linked lists: every answer is the one without caches. */
    method ServeRun(rs: seq<Request>) returns (answers: seq<Option<nat>>)
      requires Valid() && Describes()
      requires forall i :: 0 <= i < |rs| ==> RequestOk(w, rs[i])
      modifies Repr
      ensures Valid() && fresh(Repr - old(Repr))
      ensures |answers| == |rs| && FreshSoFar(w, rs, answers)
    {
      answers := [];
      for n := 0 to |rs|
        invariant Valid() && fresh(Repr - old(Repr))
        invariant |answers| == n && FreshSoFar(w, rs, answers)
      {
        FreshFurther(w, rs, answers);
        var a := ServeOne(rs[n]);
        answers := answers + [a];
      }
    }
  }

  /** Any run of requests on a new instance of a guest, over its memory and in both paging modes,
      with the linked lists and the task list read through them: every answer is the IA-32
      translation of the address by the bytes of memory. */
  method ServeGuest(g: Guest, b: Bytes, pae: bool, rs: seq<Request>) returns (answers: seq<Option<nat>>)
    requires OverBytes(g, b, pae) && RingOk(g) && SymbolsOk(g)
    requires forall i :: 0 <= i < |rs| ==> RequestOk(WorldOf(g), rs[i])
    ensures |answers| == |rs|
    ensures forall i :: 0 <= i < |rs| ==> answers[i] == Uncached(g, b, pae, rs[i])
  {
    LookupIsLinear(g.mem, pae);
    var instance := new Instance(g);
    answers := instance.ServeRun(rs);
    forall i | 0 <= i < |rs| {
      FreshIsUncached(g, b, pae, rs[i]);
    }
  }
}
