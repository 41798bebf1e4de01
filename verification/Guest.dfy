/** A Linux guest as XenAccess reads it, and what a reader without any cache finds in it: the
    task list, the page directory of a process, the address behind a virtual address. */
module Guest {
  import opened Bits
  import opened Common
  import opened PageWalk
  import opened Transparency
  import Ia32

  /** `lookup(base, va)` is the page-table lookup of `va` in the tables at `base`; the offsets
      are those of `struct task_struct` and `struct mm_struct`; `ring` is the list of tasks
      that memory holds, in the order of its links. */
  datatype Guest = Guest(
    lookup: (uint32, uint32) -> uint32,
    mem: Memory,
    cr3: uint32,
    sysmap: map<string, uint32>,
    initTask: uint32,
    tasksOffset: nat,
    mmOffset: nat,
    pidOffset: nat,
    pgdOffset: nat,
    ring: seq<uint32>)

  ghost predicate LookupLinear(lookup: (uint32, uint32) -> uint32) {
    forall base: uint32, va: uint32, vb: uint32 {:trigger lookup(base, va), lookup(base, vb)} ::
      Ia32.SamePage(va, vb) && lookup(base, va) != 0 ==>
        lookup(base, vb) == lookup(base, va) / 4096 * 4096 + vb % 4096
  }

  function Lookup(mem: Memory, pae: bool): (uint32, uint32) -> uint32 {
    (base: uint32, va: uint32) => PagetableLookup(mem, pae, base, va)
  }

  /** The real walk is linear, whatever memory holds and in both paging modes. */
  lemma LookupIsLinear(mem: Memory, pae: bool)
    ensures LookupLinear(Lookup(mem, pae))
  {
    forall base: uint32, va: uint32, vb: uint32 |
      Ia32.SamePage(va, vb) && Lookup(mem, pae)(base, va) != 0
      ensures Lookup(mem, pae)(base, vb) == Lookup(mem, pae)(base, va) / 4096 * 4096 + vb % 4096
    {
      Ia32.RebuildFromPage(mem, pae, base, va, vb);
    }
  }

  function KernelAddress(g: Guest, va: uint32): uint32 {
    g.lookup(g.cr3, va)
  }

  // ----- the task list

  /** The address of the field at offset `to` of the task struct whose list node is at `task`. */
  function FieldAddress(g: Guest, task: uint32, to: nat): uint32 {
    (task - g.tasksOffset + to) % 0x1_0000_0000
  }

  /** The four bytes of the field lie in the page that holds the node. */
  predicate InPage(g: Guest, task: uint32, to: nat) {
    task / 4096 * 4096 <= task - g.tasksOffset + to <= task / 4096 * 4096 + 4092
  }

  /** The field, read by a walk of its own address. */
  function TaskField(g: Guest, task: uint32, to: nat): uint32 {
    g.mem(KernelAddress(g, FieldAddress(g, task, to)))
  }

  /** The same field as the code reads it: at a distance from the machine address of the node. */
  function Field(g: Guest, a: uint32, to: nat): uint32 {
    if a + to - g.tasksOffset >= 0 then g.mem(a + to - g.tasksOffset) else 0
  }

  lemma InPageDistance(task: uint32, d: int)
    requires task / 4096 * 4096 <= task + d <= task / 4096 * 4096 + 4092
    ensures (task + d) % 0x1_0000_0000 == task + d && Ia32.SamePage(task, task + d)
    ensures (task + d) % 4096 == task % 4096 + d
  {
    var p := task / 4096;
    ModUnique(task + d, 4096, p, task + d - p * 4096);
  }

  /** Within a page, the distance in machine memory is the distance in the struct. */
  lemma FieldIsTaskField(g: Guest, task: uint32, to: nat)
    requires LookupLinear(g.lookup) && KernelAddress(g, task) != 0 && InPage(g, task, to)
    ensures Field(g, KernelAddress(g, task), to) == TaskField(g, task, to)
  {
    InPageDistance(task, to - g.tasksOffset);
    var va, a := FieldAddress(g, task, to), KernelAddress(g, task);
    assert Ia32.SamePage(task, task) && a == g.lookup(g.cr3, task) / 4096 * 4096 + task % 4096;
    assert KernelAddress(g, va) == a / 4096 * 4096 + va % 4096;
  }

  /** C's `int` read from four bytes. */
  function Signed(x: uint32): (r: int)
    ensures -0x8000_0000 <= r < 0x8000_0000 && (x - r) % 0x1_0000_0000 == 0
  {
    if x >= 0x8000_0000 then x - 0x1_0000_0000 else x
  }

  function TaskPid(g: Guest, task: uint32): int {
    Signed(TaskField(g, task, g.pidOffset))
  }

  /** Where the page directory pointer of a task's memory descriptor is. */
  function PgdPointer(g: Guest, task: uint32): uint32 {
    (TaskField(g, task, g.mmOffset) + g.pgdOffset) % 0x1_0000_0000
  }

  predicate BenignKernel(g: Guest, va: uint32) {
    va == 0 || va >= 4096 || KernelAddress(g, va) == 0
  }

  predicate TaskOk(g: Guest, task: uint32) {
    && BenignKernel(g, task)
    && KernelAddress(g, task) != 0
    && InPage(g, task, g.tasksOffset) && InPage(g, task, g.pidOffset) && InPage(g, task, g.mmOffset)
    && BenignKernel(g, PgdPointer(g, task))
  }

  /** A circular list of distinct mapped tasks that starts at init_task. */
  predicate RingOk(g: Guest) {
    && g.ring != [] && g.ring[0] == g.initTask
    && (forall i, j :: 0 <= i < j < |g.ring| ==> g.ring[i] != g.ring[j])
    && (forall i :: 0 <= i < |g.ring| ==> TaskOk(g, g.ring[i]))
    && (forall i :: 0 <= i < |g.ring| ==>
          g.mem(KernelAddress(g, g.ring[i])) == if i + 1 < |g.ring| then g.ring[i + 1] else g.initTask)
  }

  function HasPid(g: Guest, pid: int): uint32 -> bool {
    (task: uint32) => TaskPid(g, task) == pid
  }

  /** The first task with the pid, among all but the one that points back to the start. */
  function FindTask(g: Guest, pid: int): Option<uint32>
    requires g.ring != []
  {
    var tasks := g.ring[..|g.ring| - 1];
    var k := First(tasks, HasPid(g, pid));
    if k < |tasks| then Some(tasks[k]) else None
  }

  /** The machine address of the list node of that task. */
  function TaskAddress(g: Guest, pid: int): Option<uint32>
    requires g.ring != []
  {
    var task := FindTask(g, pid);
    if task.None? then None else Some(KernelAddress(g, task.value))
  }

  predicate NoneBefore(g: Guest, pid: int, i: nat)
    requires i <= |g.ring|
  {
    forall j :: 0 <= j < i ==> TaskPid(g, g.ring[j]) != pid
  }

  lemma FirstButLast(ring: seq<uint32>, p: uint32 -> bool, i: nat)
    requires i < |ring| && (forall j :: 0 <= j < i ==> !p(ring[j]))
    ensures
      var tasks := ring[..|ring| - 1];
      if i == |tasks| then First(tasks, p) == |tasks| else p(ring[i]) ==> First(tasks, p) == i
  {
    var tasks := ring[..|ring| - 1];
    if i == |tasks| || p(ring[i]) {
      FirstIs(tasks, p, i);
    }
  }

  lemma NextInRing(g: Guest, i: nat)
    requires RingOk(g) && i < |g.ring|
    ensures
      var next := g.mem(KernelAddress(g, g.ring[i]));
      if i + 1 < |g.ring| then next == g.ring[i + 1] != g.initTask else next == g.initTask
  {
    assert g.mem(KernelAddress(g, g.ring[i])) == if i + 1 < |g.ring| then g.ring[i + 1] else g.initTask;
    assert i + 1 < |g.ring| ==> g.ring[0] != g.ring[i + 1];
  }

  /** What a node decides: not there, found, or not yet. */
  lemma NodeDecides(g: Guest, pid: int, i: nat)
    requires RingOk(g) && i < |g.ring| && NoneBefore(g, pid, i)
    ensures var next := g.mem(KernelAddress(g, g.ring[i]));
      if next == g.initTask then TaskAddress(g, pid) == None
      else
        && i + 1 < |g.ring| && next == g.ring[i + 1]
        && if TaskPid(g, g.ring[i]) == pid then TaskAddress(g, pid) == Some(KernelAddress(g, g.ring[i]))
           else NoneBefore(g, pid, i + 1)
  {
    assert forall j :: 0 <= j < i ==> !HasPid(g, pid)(g.ring[j]);
    FirstButLast(g.ring, HasPid(g, pid), i);
    NextInRing(g, i);
  }

  /** The pid and the page directory pointer as the code reads them, from the machine address of
      the node. */
  function PidAt(g: Guest, a: uint32): int {
    Signed(Field(g, a, g.pidOffset))
  }

  function PgdPointerAt(g: Guest, a: uint32): uint32 {
    Trunc(Field(g, a, g.mmOffset) + g.pgdOffset)
  }

  /** At this node the code reads the fields of the task. */
  predicate ReadsTask(g: Guest, task: uint32) {
    && PidAt(g, KernelAddress(g, task)) == TaskPid(g, task)
    && PgdPointerAt(g, KernelAddress(g, task)) == PgdPointer(g, task)
  }

  predicate ReadsRing(g: Guest) {
    RingOk(g) && (forall i :: 0 <= i < |g.ring| ==> ReadsTask(g, g.ring[i]))
  }

  /** It does at every node of the ring. */
  lemma RingIsRead(g: Guest)
    requires LookupLinear(g.lookup) && RingOk(g)
    ensures ReadsRing(g)
  {
    forall i | 0 <= i < |g.ring|
      ensures ReadsTask(g, g.ring[i])
    {
      assert TaskOk(g, g.ring[i]);
      FieldIsTaskField(g, g.ring[i], g.pidOffset);
      FieldIsTaskField(g, g.ring[i], g.mmOffset);
    }
  }

  /** What the search for a task learns at node i from what it reads there. */
  lemma TaskSearchStep(g: Guest, pid: int, i: nat)
    requires ReadsRing(g) && i < |g.ring| && NoneBefore(g, pid, i)
    ensures BenignKernel(g, g.ring[i]) && KernelAddress(g, g.ring[i]) != 0
    ensures
      var a := KernelAddress(g, g.ring[i]);
      var next := g.mem(a);
      if next == g.initTask then TaskAddress(g, pid) == None && i + 1 == |g.ring|
      else
        && i + 1 < |g.ring| && next == g.ring[i + 1]
        && if PidAt(g, a) == pid then TaskAddress(g, pid) == Some(a) else NoneBefore(g, pid, i + 1)
  {
    assert TaskOk(g, g.ring[i]) && ReadsTask(g, g.ring[i]);
    NodeDecides(g, pid, i);
    NextInRing(g, i);
  }

  /** The search after i nodes: it has its result, or goes on at the next node. */
  predicate SearchAt(g: Guest, pid: int, i: nat, done: bool, r: Option<uint32>, next: uint32)
    requires g.ring != []
  {
    && i <= |g.ring|
    && if done then
         && r == TaskAddress(g, pid)
         && if r.None? then i == |g.ring| else i > 0 && r == Some(KernelAddress(g, g.ring[i - 1]))
       else i < |g.ring| && next == g.ring[i] && NoneBefore(g, pid, i)
  }

  /** What is read at a node takes the search one node on. */
  lemma SearchOn(g: Guest, pid: int, i: nat, r: Option<uint32>, task: uint32)
    requires ReadsRing(g) && SearchAt(g, pid, i, false, r, task)
    ensures BenignKernel(g, task) && KernelAddress(g, task) != 0
    ensures
      var a := KernelAddress(g, task);
      var next := g.mem(a);
      if next == g.initTask then SearchAt(g, pid, i + 1, true, None, next)
      else if PidAt(g, a) == pid then SearchAt(g, pid, i + 1, true, Some(a), next)
      else SearchAt(g, pid, i + 1, false, r, next)
  {
    TaskSearchStep(g, pid, i);
  }

  /** A kernel word, or 0 where it is not mapped. */
  function ReadKernel(g: Guest, va: uint32): uint32 {
    if KernelAddress(g, va) == 0 then 0 else g.mem(KernelAddress(g, va))
  }

  /** The machine address of the page directory of a process, 0 for an unknown process. */
  function PgdOf(g: Guest, pid: int): uint32
    requires g.ring != []
  {
    var task := FindTask(g, pid);
    if task.None? then 0 else KernelAddress(g, ReadKernel(g, PgdPointer(g, task.value)))
  }

  /** The page directory of a process, from what is read at the node found for it. */
  lemma PgdOfTask(g: Guest, pid: int)
    requires ReadsRing(g)
    ensures var a := TaskAddress(g, pid);
      if a.None? then PgdOf(g, pid) == 0
      else
        && BenignKernel(g, PgdPointerAt(g, a.value))
        && PgdOf(g, pid) == KernelAddress(g, ReadKernel(g, PgdPointerAt(g, a.value)))
  {
    var tasks := g.ring[..|g.ring| - 1];
    var k := First(tasks, HasPid(g, pid));
    if k < |tasks| {
      assert tasks[k] == g.ring[k];
      assert TaskOk(g, g.ring[k]) && ReadsTask(g, g.ring[k]);
    }
  }

  // ----- the address space of a process

  /** What translation needs to know of a guest. */
  datatype View = View(lookup: (uint32, uint32) -> uint32, cr3: uint32, pgd: int -> uint32)

  function Walk(v: View, va: uint32, pid: int): uint32 {
    if pid == 0 then v.lookup(v.cr3, va)
    else if v.pgd(pid) == 0 then 0
    else v.lookup(v.pgd(pid), va)
  }

  function ViewOf(g: Guest): View
    requires g.ring != []
  {
    View(g.lookup, g.cr3, (pid: int) => PgdOf(g, pid))
  }

  function WorldOf(g: Guest): World
    requires g.ring != []
  {
    var v := ViewOf(g);
    World((va: uint32, pid: int) => Walk(v, va, pid), g.sysmap)
  }

  ghost predicate SymbolsOk(g: Guest) {
    SysmapOk(g.sysmap) && (forall n :: n in g.sysmap ==> BenignKernel(g, g.sysmap[n]))
  }

  ghost predicate GuestOk(g: Guest) {
    && LookupLinear(g.lookup)
    && RingOk(g)
    && SymbolsOk(g)
  }

  /** A world that shows the address spaces of the view. */
  ghost predicate Shows(w: World, v: View) {
    forall va: uint32, pid: int :: w.walk(va, pid) == Walk(v, va, pid)
  }

  lemma GuestWorldOk(g: Guest)
    requires LookupLinear(g.lookup) && SysmapOk(g.sysmap) && g.ring != []
    ensures WorldOk(WorldOf(g)) && Shows(WorldOf(g), ViewOf(g))
    ensures SymbolsOk(g) ==> SymbolsBenign(WorldOf(g))
    ensures forall pid {:trigger PgdOf(g, pid)} :: ViewOf(g).pgd(pid) == PgdOf(g, pid)
  {
    var w, v := WorldOf(g), ViewOf(g);
    forall va: uint32, vb: uint32, pid: int | Ia32.SamePage(va, vb) && w.walk(va, pid) >= 4096
      ensures w.walk(vb, pid) == w.walk(va, pid) / 4096 * 4096 + vb % 4096
    {
      var base := if pid == 0 then g.cr3 else v.pgd(pid);
      assert w.walk(va, pid) == g.lookup(base, va) && w.walk(vb, pid) == g.lookup(base, vb);
    }
  }

  // ----- whole runs over real tables

  /** The guest's memory and page-table lookup, by the bytes of its memory. */
  ghost predicate OverBytes(g: Guest, b: Bytes, pae: bool) {
    g.mem == Words(b) && g.lookup == Lookup(g.mem, pae)
  }

  /** What the guest's tables translate an address to, with no cache anywhere. */
  function Translated(b: Bytes, pae: bool, base: uint32, va: uint32): Option<nat> {
    Answer(Ia32.Reported(Ia32.TranslationOf(b, pae, base, va)))
  }

  function Uncached(g: Guest, b: Bytes, pae: bool, r: Request): Option<nat>
    requires g.ring != []
  {
    match r
    case Virt(va, pid) =>
      if pid == 0 then Translated(b, pae, g.cr3, va)
      else if PgdOf(g, pid) == 0 then None
      else Translated(b, pae, PgdOf(g, pid), va)
    case Sym(name) =>
      if name in g.sysmap then Translated(b, pae, g.cr3, g.sysmap[name]) else None
  }

  lemma LookupTranslates(g: Guest, b: Bytes, pae: bool, base: uint32, va: uint32)
    requires OverBytes(g, b, pae)
    ensures Answer(g.lookup(base, va)) == Translated(b, pae, base, va)
  {
    Ia32.LookupIsTranslation(b, pae, base, va);
  }

  lemma FreshIsUncached(g: Guest, b: Bytes, pae: bool, r: Request)
    requires g.ring != [] && OverBytes(g, b, pae)
    ensures Fresh(WorldOf(g), r) == Uncached(g, b, pae, r)
  {
    match r
    case Virt(va, pid) =>
      LookupTranslates(g, b, pae, if pid == 0 then g.cr3 else PgdOf(g, pid), va);
    case Sym(name) =>
      if name in g.sysmap {
        LookupTranslates(g, b, pae, g.cr3, g.sysmap[name]);
      }
  }

  /** From an empty cache, over any memory, in both paging modes: every answer of any harmless
      run is the IA-32 translation of the address by the bytes of memory. */
  lemma GuestRunIsTransparent(g: Guest, b: Bytes, pae: bool, rs: seq<Request>, clock: nat -> int)
    requires OverBytes(g, b, pae) && g.ring != [] && SysmapOk(g.sysmap)
    requires HarmlessRun(WorldOf(g), [], rs, clock, 0)
    ensures |ServeAll(WorldOf(g), [], rs, clock, 0)| == |rs|
    ensures forall i :: 0 <= i < |rs| ==> ServeAll(WorldOf(g), [], rs, clock, 0)[i] == Uncached(g, b, pae, rs[i])
  {
    LookupIsLinear(g.mem, pae);
    GuestWorldOk(g);
    RunIsTransparent(WorldOf(g), [], rs, clock, 0);
    forall i | 0 <= i < |rs| {
      FreshIsUncached(g, b, pae, rs[i]);
    }
  }

  // ----- a smallest guest

  /** Memory that repeats one word, which is the one task and its own successor. */
  function OneTask(e: uint32, sysmap: map<string, uint32>): Guest {
    var mem: Memory := (a: nat) => e;
    Guest(Lookup(mem, false), mem, e, sysmap, e, 0, 0, 0, 0, [e])
  }

  /** Where the entry of a 4 MB page takes an address. */
  function InLargePage(e: uint32, va: uint32): uint32 {
    e / 0x40_0000 * 0x40_0000 + va % 0x40_0000
  }

  lemma TranslationOfOne(mem: Memory, pae: bool, e: uint32, va: uint32)
    requires !pae && (forall a :: mem(a) == e) && Ia32.P(e) && Ia32.PS(e)
    ensures Ia32.Reported(Ia32.Translation(mem, pae, e, va)) == InLargePage(e, va)
  {
    Ia32.LargeLow32(va, e);
  }

  lemma LookupOfOne(mem: Memory, pae: bool, e: uint32, va: uint32)
    requires !pae && (forall a :: mem(a) == e) && Ia32.P(e) && Ia32.PS(e)
    ensures PagetableLookup(mem, pae, e, va) == InLargePage(e, va)
  {
    Ia32.WordLookup(mem, pae, e, va);
    TranslationOfOne(mem, pae, e, va);
  }

  lemma SelfRingOk(g: Guest, e: uint32)
    requires g.ring == [e] && g.initTask == e && g.tasksOffset == g.mmOffset == g.pidOffset == g.pgdOffset == 0
    requires e >= 4096 && e % 4096 <= 4092 && g.lookup(g.cr3, e) == e && (forall a :: g.mem(a) == e)
    ensures RingOk(g)
  {
  }

  /** There are guests as the theorems require them, with known address spaces. */
  lemma OneTaskOk(e: uint32, sysmap: map<string, uint32>)
    requires e >= 4096 && e % 4096 <= 4092 && Ia32.P(e) && Ia32.PS(e)
    ensures RingOk(OneTask(e, sysmap)) && OneTask(e, sysmap).lookup == Lookup(OneTask(e, sysmap).mem, false)
  {
    LookupOfOne(OneTask(e, sysmap).mem, false, e, e);
    assert InLargePage(e, e) == e;
    SelfRingOk(OneTask(e, sysmap), e);
  }

  lemma OneTaskWalk(e: uint32, sysmap: map<string, uint32>, va: uint32)
    requires Ia32.P(e) && Ia32.PS(e)
    ensures WorldOf(OneTask(e, sysmap)).walk(va, 0) == InLargePage(e, va)
  {
    LookupOfOne(OneTask(e, sysmap).mem, false, e, va);
  }
}
