/** Requests for guest addresses and kernel symbols answered through the address cache, and
    the proof that the cache cannot be seen: every answer is the one a walk without a cache
    gives.  `walk` stands for the page-table lookup of an address in the address space of a
    process (0 when unmapped); all that is used of it is that it is linear on pages. */
module Transparency {
  import opened Bits
  import opened Common
  import opened LruList
  import opened AddressCache
  import opened CacheLaws
  import Ia32

  datatype World = World(walk: (uint32, int) -> uint32, sysmap: map<string, uint32>)

  ghost predicate PageLinear(walk: (uint32, int) -> uint32) {
    forall va: uint32, vb: uint32, pid: int {:trigger walk(va, pid), walk(vb, pid)} ::
      Ia32.SamePage(va, vb) && walk(va, pid) >= 4096 ==> walk(vb, pid) == walk(va, pid) / 4096 * 4096 + vb % 4096
  }

  /** Addresses 1..4095 share the page number 0 that marks symbol entries; they are benign
      only where they are not mapped. */
  predicate Benign(w: World, va: uint32, pid: int) {
    va == 0 || va >= 4096 || w.walk(va, pid) == 0
  }

  /** Names from System.map: not empty, from rows of at most 199 characters. */
  predicate SysmapOk(sysmap: map<string, uint32>) {
    forall n :: n in sysmap ==> n != "" && |n| < 200
  }

  ghost predicate SymbolsBenign(w: World) {
    forall n :: n in w.sysmap ==> Benign(w, w.sysmap[n], 0)
  }

  ghost predicate WorldOk(w: World) {
    PageLinear(w.walk) && SysmapOk(w.sysmap)
  }

  // ----- answers without a cache

  function Answer(a: uint32): Option<nat> {
    if a == 0 then None else Some(a)
  }

  function FreshVirt(w: World, va: uint32, pid: int): Option<nat> {
    Answer(w.walk(va, pid))
  }

  function FreshSym(w: World, name: string): Option<nat> {
    if name in w.sysmap then FreshVirt(w, w.sysmap[name], 0) else None
  }

  // ----- answers through the cache

  function AccessVirt(w: World, s: Cells, va: uint32, pid: int, t0: int, t1: int): (Option<nat>, Cells) {
    var (hit, s1) := CheckVirt(s, va, pid, t0);
    var a := w.walk(va, pid);
    if hit.Some? then (hit, s1)
    else if a == 0 then (None, s1)
    else (Some(a), Update(s1, None, va, pid, a, 0, t1))
  }

  function AccessSym(w: World, s: Cells, name: string, t0: int, t1: int, t2: int, t3: int): (Option<nat>, Cells) {
    var (hit, s1) := CheckSym(s, name, 0, t0);
    if hit.Some? then (hit, s1)
    else if name !in w.sysmap then (None, s1)
    else
      var va := w.sysmap[name];
      AccessVirt(w, Update(s1, Some(name), va, 0, 0, w.walk(va, 0), t1), va, 0, t2, t3)
  }

  // ----- soundness of the cached entries

  predicate SoundEntry(w: World, e: Entry) {
    && (e.virt != 0 ==>
          && e.symbol == "" && e.virt % 4096 == 0 && e.mach % 4096 == 0
          && (e.mach != 0 ==> w.walk(e.virt, e.pid) == e.mach))
    && (e.virt == 0 && e.symbol != "" ==>
          && |e.symbol| <= 512
          && (e.mach != 0 && e.pid == 0 ==> e.symbol in w.sysmap && w.walk(w.sysmap[e.symbol], 0) == e.mach))
  }

  predicate Sound(w: World, s: Cells) {
    forall i :: 0 <= i < |s| ==> SoundEntry(w, s[i].item)
  }

  lemma SoundInsert(w: World, s: Cells, e: Entry, now: int)
    requires Sound(w, s) && SoundEntry(w, e)
    ensures Sound(w, Insert(s, e, now))
  {
  }

  /** A walked address, cut to its page, is a sound entry for its page. */
  lemma SoundFrame(w: World, va: uint32, pid: int)
    requires PageLinear(w.walk) && va >= 4096
    ensures SoundEntry(w, Entry("", Page(va), Page(w.walk(va, pid)), pid))
  {
    var a := w.walk(va, pid);
    if a >= 4096 {
      assert Ia32.SamePage(va, Page(va));
      assert w.walk(Page(va), pid) == Page(a);
    }
  }

  lemma SoundUpdateVirt(w: World, s: Cells, va: uint32, pid: int, kv: uint32, now: int)
    requires PageLinear(w.walk) && Sound(w, s) && (va == 0 || va >= 4096)
    ensures Sound(w, Update(s, None, va, pid, w.walk(va, pid), kv, now))
  {
    var k := First(s, At(Page(va)));
    if va >= 4096 {
      SoundFrame(w, va, pid);
      if k < |s| {
        assert SoundEntry(w, s[k].item);
      } else {
        SoundInsert(w, s, Entry("", Page(va), Page(w.walk(va, pid)), pid), now);
      }
    }
  }

  lemma SoundUpdateSym(w: World, s: Cells, name: string, now: int)
    requires WorldOk(w) && Sound(w, s) && name in w.sysmap
    ensures Sound(w, Update(s, Some(name), w.sysmap[name], 0, 0, w.walk(w.sysmap[name], 0), now))
  {
    var va := w.sysmap[name];
    var kv := w.walk(va, 0);
    var i, j := First(s, Named(name)), First(s, At(Page(va)));
    if i < |s| {
      assert SoundEntry(w, s[i].item);
      assert s[i].item.symbol == name;
    } else if va != 0 && j < |s| {
      assert SoundEntry(w, s[j].item);
    } else {
      SoundInsert(w, s, Entry(name, 0, kv, 0), now);
    }
  }

  lemma HitVirtIsFresh(w: World, s: Cells, va: uint32, pid: int, t: int)
    requires PageLinear(w.walk) && Sound(w, s)
    ensures CheckVirt(s, va, pid, t).0.Some? ==> CheckVirt(s, va, pid, t).0 == FreshVirt(w, va, pid)
    ensures Sound(w, CheckVirt(s, va, pid, t).1)
  {
    var k := First(s, VirtHit(Page(va), pid));
    if k < |s| {
      var e := s[k].item;
      assert SoundEntry(w, e);
      assert Ia32.SamePage(e.virt, va);
      assert w.walk(e.virt, pid) == e.mach && e.mach >= 4096;
      assert w.walk(va, pid) == e.mach / 4096 * 4096 + va % 4096;
      Ia32.Join12(e.mach / 4096, va % 4096);
    }
  }

  lemma HitSymIsFresh(w: World, s: Cells, name: string, t: int)
    requires WorldOk(w) && Sound(w, s) && name != ""
    ensures CheckSym(s, name, 0, t).0.Some? ==> CheckSym(s, name, 0, t).0 == FreshSym(w, name)
    ensures Sound(w, CheckSym(s, name, 0, t).1)
  {
    var k := First(s, SymHit(name, 0));
    if k < |s| {
      var e := s[k].item;
      assert SoundEntry(w, e);
      assert e.symbol in w.sysmap && |e.symbol| < 200;
      assert e.symbol == name;
    }
  }

  // ----- addresses in the first page

  /** A mapped address in 1..4095 overwrites the first symbol entry: it goes wrong when that
      leaves a live frame under a kernel symbol whose address it is not. */
  predicate Clobbers(w: World, s: Cells, va: uint32, pid: int) {
    var k := First(s, At(0));
    && k < |s| && s[k].item.symbol != "" && pid == 0 && w.walk(va, pid) >= 4096
    && Some(Page(w.walk(va, pid)) as nat) != FreshSym(w, s[k].item.symbol)
  }

  lemma LowAccess(w: World, s: Cells, va: uint32, pid: int, t0: int, t1: int)
    requires 0 < va < 4096 && w.walk(va, pid) != 0
    ensures AccessVirt(w, s, va, pid, t0, t1).1 == Update(s, None, va, pid, w.walk(va, pid), 0, t1)
  {
    assert Page(va) == 0;
    assert forall i :: 0 <= i < |s| ==> !VirtHit(0, pid)(s[i]);
  }

  lemma LowUpdateSound(w: World, s: Cells, va: uint32, pid: int, kv: uint32, t: int)
    requires WorldOk(w) && Sound(w, s) && 0 < va < 4096 && w.walk(va, pid) != 0
    requires !Clobbers(w, s, va, pid)
    ensures Sound(w, Update(s, None, va, pid, w.walk(va, pid), kv, t))
  {
    assert Page(va) == 0;
    var k := First(s, At(0));
    var a := w.walk(va, pid);
    if k < |s| {
      var e := s[k].item;
      assert SoundEntry(w, e);
      assert SoundEntry(w, Entry(e.symbol, 0, Page(a), pid));
    } else {
      SoundInsert(w, s, Entry("", 0, Page(a), pid), t);
    }
  }

  lemma LowAccessSound(w: World, s: Cells, va: uint32, pid: int, t0: int, t1: int)
    requires WorldOk(w) && Sound(w, s) && 0 < va < 4096 && w.walk(va, pid) != 0
    requires !Clobbers(w, s, va, pid)
    ensures Sound(w, AccessVirt(w, s, va, pid, t0, t1).1)
  {
    LowAccess(w, s, va, pid, t0, t1);
    LowUpdateSound(w, s, va, pid, 0, t1);
  }

  /** An access that leaves no symbol with a wrong frame. */
  predicate Harmless(w: World, s: Cells, va: uint32, pid: int) {
    Benign(w, va, pid) || !Clobbers(w, s, va, pid)
  }

  /** An access that is harmless in every state: only the kernel's entries answer for symbols, and
      an entry without a frame answers nothing. */
  predicate Safe(w: World, va: uint32, pid: int) {
    Benign(w, va, pid) || pid != 0 || w.walk(va, pid) < 4096
  }

  // ----- one request, then any run of requests

  /** The answer is always right; the entries stay sound where the access is harmless. */
  lemma AccessVirtIsFresh(w: World, s: Cells, va: uint32, pid: int, t0: int, t1: int)
    requires WorldOk(w) && Sound(w, s)
    ensures AccessVirt(w, s, va, pid, t0, t1).0 == FreshVirt(w, va, pid)
    ensures Harmless(w, s, va, pid) ==> Sound(w, AccessVirt(w, s, va, pid, t0, t1).1)
  {
    HitVirtIsFresh(w, s, va, pid, t0);
    var (hit, s1) := CheckVirt(s, va, pid, t0);
    if !Benign(w, va, pid) {
      if !Clobbers(w, s, va, pid) {
        LowAccessSound(w, s, va, pid, t0, t1);
      }
    } else if hit.None? && w.walk(va, pid) != 0 {
      SoundUpdateVirt(w, s1, va, pid, 0, t1);
    }
  }

  /** The state in which a symbol that is not cached is accessed by its address. */
  function Remembered(w: World, s: Cells, name: string, t0: int, t1: int): Cells
    requires name in w.sysmap
  {
    Update(CheckSym(s, name, 0, t0).1, Some(name), w.sysmap[name], 0, 0, w.walk(w.sysmap[name], 0), t1)
  }

  predicate HarmlessSymbol(w: World, s: Cells, name: string, t0: int, t1: int) {
    name in w.sysmap ==> Harmless(w, Remembered(w, s, name, t0, t1), w.sysmap[name], 0)
  }

  lemma AccessSymIsFresh(w: World, s: Cells, name: string, t0: int, t1: int, t2: int, t3: int)
    requires WorldOk(w) && Sound(w, s) && name != ""
    ensures AccessSym(w, s, name, t0, t1, t2, t3).0 == FreshSym(w, name)
    ensures HarmlessSymbol(w, s, name, t0, t1) ==> Sound(w, AccessSym(w, s, name, t0, t1, t2, t3).1)
  {
    HitSymIsFresh(w, s, name, t0);
    var (hit, s1) := CheckSym(s, name, 0, t0);
    if hit.None? && name in w.sysmap {
      SoundUpdateSym(w, s1, name, t1);
      AccessVirtIsFresh(w, Remembered(w, s, name, t0, t1), w.sysmap[name], 0, t2, t3);
    }
  }

  datatype Request =
    | Virt(va: uint32, pid: int)
    | Sym(name: string)

  /** A request that is harmless in every state. */
  predicate RequestOk(w: World, r: Request) {
    match r
    case Virt(va, pid) => Safe(w, va, pid)
    case Sym(name) => name != ""
  }

  function Fresh(w: World, r: Request): Option<nat> {
    match r
    case Virt(va, pid) => FreshVirt(w, va, pid)
    case Sym(name) => FreshSym(w, name)
  }

  /** The first answers are those of a walk without a cache. */
  predicate FreshSoFar(w: World, rs: seq<Request>, answers: seq<Option<nat>>) {
    |answers| <= |rs| && (forall i :: 0 <= i < |answers| ==> answers[i] == Fresh(w, rs[i]))
  }

  lemma FreshFurther(w: World, rs: seq<Request>, answers: seq<Option<nat>>)
    requires FreshSoFar(w, rs, answers) && |answers| < |rs|
    ensures FreshSoFar(w, rs, answers + [Fresh(w, rs[|answers|])])
  {
  }

  /** `clock` gives the readings of time(NULL), one after another. */
  function Serve(w: World, s: Cells, r: Request, clock: nat -> int, n: nat): (Option<nat>, Cells) {
    match r
    case Virt(va, pid) => AccessVirt(w, s, va, pid, clock(n), clock(n + 1))
    case Sym(name) => AccessSym(w, s, name, clock(n), clock(n + 1), clock(n + 2), clock(n + 3))
  }

  function ServeAll(w: World, s: Cells, rs: seq<Request>, clock: nat -> int, n: nat): seq<Option<nat>>
    decreases |rs|
  {
    if rs == [] then []
    else
      var (r, s1) := Serve(w, s, rs[0], clock, n);
      [r] + ServeAll(w, s1, rs[1..], clock, n + 4)
  }

  /** A request that is harmless in this state. */
  predicate HarmlessRequest(w: World, s: Cells, r: Request, clock: nat -> int, n: nat) {
    match r
    case Virt(va, pid) => Harmless(w, s, va, pid)
    case Sym(name) => name != "" && HarmlessSymbol(w, s, name, clock(n), clock(n + 1))
  }

  predicate HarmlessRun(w: World, s: Cells, rs: seq<Request>, clock: nat -> int, n: nat)
    decreases |rs|
  {
    rs == [] ||
    (HarmlessRequest(w, s, rs[0], clock, n) && HarmlessRun(w, Serve(w, s, rs[0], clock, n).1, rs[1..], clock, n + 4))
  }

  lemma ServeIsFresh(w: World, s: Cells, r: Request, clock: nat -> int, n: nat)
    requires WorldOk(w) && Sound(w, s) && HarmlessRequest(w, s, r, clock, n)
    ensures Serve(w, s, r, clock, n).0 == Fresh(w, r)
    ensures Sound(w, Serve(w, s, r, clock, n).1)
  {
    match r
    case Virt(va, pid) => AccessVirtIsFresh(w, s, va, pid, clock(n), clock(n + 1));
    case Sym(name) => AccessSymIsFresh(w, s, name, clock(n), clock(n + 1), clock(n + 2), clock(n + 3));
  }

  /** Cache transparency over whole runs: from any sound state, for any clock and any requests
      of which none leaves a symbol with a wrong frame, answer i is the answer of a walk without
      a cache. */
  lemma {:induction false} RunIsTransparent(w: World, s: Cells, rs: seq<Request>, clock: nat -> int, n: nat)
    requires WorldOk(w) && Sound(w, s) && HarmlessRun(w, s, rs, clock, n)
    ensures |ServeAll(w, s, rs, clock, n)| == |rs|
    ensures forall i :: 0 <= i < |rs| ==> ServeAll(w, s, rs, clock, n)[i] == Fresh(w, rs[i])
    decreases |rs|
  {
    if rs != [] {
      ServeIsFresh(w, s, rs[0], clock, n);
      RunIsTransparent(w, Serve(w, s, rs[0], clock, n).1, rs[1..], clock, n + 4);
    }
  }

  /** Safe requests are harmless at any time. */
  lemma {:induction false} SafeRunIsHarmless(w: World, s: Cells, rs: seq<Request>, clock: nat -> int, n: nat)
    requires SymbolsBenign(w) && (forall i :: 0 <= i < |rs| ==> RequestOk(w, rs[i]))
    ensures HarmlessRun(w, s, rs, clock, n)
    decreases |rs|
  {
    if rs != [] {
      assert RequestOk(w, rs[0]);
      SafeRunIsHarmless(w, Serve(w, s, rs[0], clock, n).1, rs[1..], clock, n + 4);
    }
  }

  // ----- what goes wrong outside these conditions, and exactly when

  /** In a well-formed cache a live symbol is found at its own entry. */
  lemma LiveSymbolHits(s: Cells, k: nat, t: int)
    requires WellFormed(s) && k < |s| && s[k].item.symbol != "" && s[k].item.pid == 0 && s[k].item.mach != 0
    ensures CheckSym(s, s[k].item.symbol, 0, t).0 == Some(s[k].item.mach)
  {
    var name := s[k].item.symbol;
    forall i | 0 <= i < k
      ensures !SymHit(name, 0)(s[i])
    {
      assert KeysDiffer(s[i].item, s[k].item);
    }
    FirstIs(s, SymHit(name, 0), k);
  }

  lemma LiveSymbolAnswers(w: World, s: Cells, k: nat, t: int, t1: int, t2: int, t3: int)
    requires WellFormed(s) && k < |s| && s[k].item.symbol != "" && s[k].item.pid == 0 && s[k].item.mach != 0
    ensures AccessSym(w, s, s[k].item.symbol, t, t1, t2, t3).0 == Some(s[k].item.mach)
  {
    LiveSymbolHits(s, k, t);
  }

  lemma LowAccessClobbers(w: World, s: Cells, va: uint32, pid: int, t0: int, t1: int)
    requires WellFormed(s) && 0 < va < 4096 && Clobbers(w, s, va, pid)
    ensures var k := First(s, At(0));
      var s1 := AccessVirt(w, s, va, pid, t0, t1).1;
      WellFormed(s1) && k < |s1| && s1[k].item == Entry(s[k].item.symbol, 0, Page(w.walk(va, 0)), 0)
  {
    LowAccess(w, s, va, pid, t0, t1);
    var k := First(s, At(0));
    ReplaceWellFormed(s, k, Entry(s[k].item.symbol, 0, Page(w.walk(va, 0)), 0), t1);
  }

  lemma LowAccessWrong(w: World, s: Cells, va: uint32, pid: int, t0: int, t1: int, t: int)
    requires WellFormed(s) && 0 < va < 4096 && Clobbers(w, s, va, pid)
    ensures var name := s[First(s, At(0))].item.symbol;
      AccessSym(w, AccessVirt(w, s, va, pid, t0, t1).1, name, t, t, t, t).0 != FreshSym(w, name)
  {
    LowAccessClobbers(w, s, va, pid, t0, t1);
    LiveSymbolAnswers(w, AccessVirt(w, s, va, pid, t0, t1).1, First(s, At(0)), t, t, t, t);
  }

  /** After a request for a mapped address in 1..4095, every later symbol request is still
      answered as without a cache if and only if that request clobbers no symbol. */
  lemma LowAddressExact(w: World, s: Cells, va: uint32, pid: int, t0: int, t1: int, t: int)
    requires WorldOk(w) && Sound(w, s) && WellFormed(s)
    requires 0 < va < 4096 && w.walk(va, pid) != 0
    ensures (forall name: string :: name != "" ==>
               AccessSym(w, AccessVirt(w, s, va, pid, t0, t1).1, name, t, t, t, t).0 == FreshSym(w, name))
        <==> !Clobbers(w, s, va, pid)
  {
    var s1 := AccessVirt(w, s, va, pid, t0, t1).1;
    if Clobbers(w, s, va, pid) {
      LowAccessWrong(w, s, va, pid, t0, t1, t);
      assert s[First(s, At(0))].item.symbol != "";
    } else {
      LowAccessSound(w, s, va, pid, t0, t1);
      forall name: string | name != ""
        ensures AccessSym(w, s1, name, t, t, t, t).0 == FreshSym(w, name)
      {
        AccessSymIsFresh(w, s1, name, t, t, t, t);
      }
    }
  }

  /** The empty name matches page entries: it is answered as without a cache if and only if
      no live entry of the kernel carries the name "". */
  lemma EmptySymbolExact(w: World, s: Cells, t: int)
    requires "" !in w.sysmap
    ensures AccessSym(w, s, "", t, t, t, t).0 == FreshSym(w, "")
       <==> forall i :: 0 <= i < |s| ==> s[i].item.symbol != "" || s[i].item.pid != 0 || s[i].item.mach == 0
  {
    assert forall i :: 0 <= i < |s| ==>
        (SymHit("", 0)(s[i]) <==> s[i].item.symbol == "" && s[i].item.pid == 0 && s[i].item.mach != 0);
  }

  // ----- an access fills the cache

  /** A hit stays a hit. */
  lemma HitStays(s: Cells, va: uint32, pid: int, t0: int, t1: int)
    requires CheckVirt(s, va, pid, t0).0.Some?
    ensures CheckVirt(CheckVirt(s, va, pid, t0).1, va, pid, t1).0 == CheckVirt(s, va, pid, t0).0
  {
    FirstIs(CheckVirt(s, va, pid, t0).1, VirtHit(Page(va), pid), First(s, VirtHit(Page(va), pid)));
  }

  /** What is answered for an address from 4096 on, with a frame, is found in the cache then. */
  predicate Filled(s: Cells, va: uint32, pid: int, r: Option<nat>) {
    va >= 4096 && r.Some? && r.value >= 4096 ==> CheckVirt(s, va, pid, 0).0 == r
  }

  lemma StoreFills(w: World, s: Cells, va: uint32, pid: int, t: int)
    requires PageLinear(w.walk)
    ensures Filled(Update(s, None, va, pid, w.walk(va, pid), 0, t), va, pid, FreshVirt(w, va, pid))
  {
    var a := w.walk(va, pid);
    if va >= 4096 && a >= 4096 {
      PutThenGet(s, va, pid, a, 0, t, va, 0);
      assert Ia32.SamePage(va, va) && w.walk(va, pid) == a / 4096 * 4096 + va % 4096;
    }
  }

  lemma AccessFills(w: World, s: Cells, va: uint32, pid: int, t0: int, t1: int)
    requires PageLinear(w.walk) && Sound(w, s)
    ensures Filled(AccessVirt(w, s, va, pid, t0, t1).1, va, pid, AccessVirt(w, s, va, pid, t0, t1).0)
  {
    var (hit, s1) := CheckVirt(s, va, pid, t0);
    if hit.Some? {
      HitStays(s, va, pid, t0, 0);
    } else if w.walk(va, pid) != 0 {
      StoreFills(w, s1, va, pid, t1);
    }
  }

  // ----- put, then get, for symbols

  lemma NoNamedNoHit(s: Cells, name: string, pid: int, t: int)
    requires forall i :: 0 <= i < |s| ==> !SymHit(name, pid)(s[i])
    ensures CheckSym(s, name, pid, t).0.None?
  {
  }

  /** The answer of an entry, if it is live. */
  function IfLive(mach: uint32): Option<uint32> {
    if mach != 0 then Some(mach) else None
  }

  lemma NamedEntryHit(s: Cells, k: nat, name: string, pid: int, t: int)
    requires WellFormed(s) && k < |s| && name != "" && s[k].item.symbol == Key(name) && s[k].item.pid == pid
    ensures CheckSym(s, name, pid, t).0 == IfLive(s[k].item.mach)
  {
    forall i | 0 <= i < |s| && i != k
      ensures !SymHit(name, pid)(s[i])
    {
      assert i < k ==> KeysDiffer(s[i].item, s[k].item);
      assert k < i ==> KeysDiffer(s[k].item, s[i].item);
    }
    if s[k].item.mach != 0 {
      FirstIs(s, SymHit(name, pid), k);
    } else {
      NoNamedNoHit(s, name, pid, t);
    }
  }

  /** The symbol takes the entry of its page, and leaves it without a name. */
  lemma DeadSymbolMisses(s: Cells, name: string, va: uint32, pid: int, mach: uint32, kv: uint32, t0: int, t1: int)
    requires First(s, Named(name)) == |s| && va != 0 && First(s, At(Page(va))) < |s|
    ensures CheckSym(Update(s, Some(name), va, pid, mach, kv, t0), name, pid, t1).0.None?
  {
    var t := Update(s, Some(name), va, pid, mach, kv, t0);
    var k := First(s, At(Page(va)));
    assert t == s[k := Stamped(Entry(s[k].item.symbol, s[k].item.virt, Page(mach), pid), t0)];
    forall i | 0 <= i < |t|
      ensures !SymHit(name, pid)(t[i])
    {
      assert !Named(name)(s[i]);
    }
    NoNamedNoHit(t, name, pid, t1);
  }

  /** The symbol takes its own entry. */
  lemma KnownSymbolHits(s: Cells, name: string, va: uint32, pid: int, mach: uint32, kv: uint32, t0: int, t1: int)
    requires WellFormed(s) && name != "" && First(s, Named(name)) < |s|
    ensures CheckSym(Update(s, Some(name), va, pid, mach, kv, t0), name, pid, t1).0
         == IfLive(if mach != 0 then mach else kv)
  {
    UpdateWellFormed(s, Some(name), va, pid, mach, kv, t0);
    NamedEntryHit(Update(s, Some(name), va, pid, mach, kv, t0), First(s, Named(name)), name, pid, t1);
  }

  /** The symbol takes a new entry. */
  lemma NewSymbolHits(s: Cells, name: string, va: uint32, pid: int, mach: uint32, kv: uint32, t0: int, t1: int)
    requires WellFormed(s) && name != "" && First(s, Named(name)) == |s|
    requires va == 0 || First(s, At(Page(va))) == |s|
    ensures CheckSym(Update(s, Some(name), va, pid, mach, kv, t0), name, pid, t1).0
         == IfLive(if mach != 0 then mach else kv)
  {
    UpdateWellFormed(s, Some(name), va, pid, mach, kv, t0);
    var t := Update(s, Some(name), va, pid, mach, kv, t0);
    NamedEntryHit(t, |t| - 1, name, pid, t1);
  }

  /** After an update for a symbol, the symbol is answered by the address given for it, or by its
      translation if none is given, unless the update went to an entry that held only the symbol's
      page: then it is not found. */
  lemma SymbolPutGetExact(s: Cells, name: string, va: uint32, pid: int, mach: uint32, kv: uint32, t0: int, t1: int)
    requires WellFormed(s) && name != ""
    ensures CheckSym(Update(s, Some(name), va, pid, mach, kv, t0), name, pid, t1).0
         == if First(s, Named(name)) < |s| || va == 0 || First(s, At(Page(va))) == |s|
            then IfLive(if mach != 0 then mach else kv) else None
  {
    if First(s, Named(name)) < |s| {
      KnownSymbolHits(s, name, va, pid, mach, kv, t0, t1);
    } else if va != 0 && First(s, At(Page(va))) < |s| {
      DeadSymbolMisses(s, name, va, pid, mach, kv, t0, t1);
    } else {
      NewSymbolHits(s, name, va, pid, mach, kv, t0, t1);
    }
  }
}
