/** The directory monitor of libxadisk/xadisk_core.c as a state machine over its steps: a block
    is watched, a watch is dropped, a block operation arrives from the disk. */
module Monitor {
  import opened Bits
  import opened Common
  import opened DirNames
  import opened DirDiff
  import opened Ext2Dir

  /** A watched block with the table of its directory as last seen. */
  datatype Watch = Watch(id: nat, block: uint32, path: string, dir: seq<DirEntry>)

  /** A line of the report: the path and the operation; `id` tells which watch has written it. */
  datatype Event = Event(id: nat, path: string, op: DirOp)

  /** The watches, the latest first; the id of the next one; the report. */
  datatype State = State(watches: seq<Watch>, next: nat, log: seq<Event>)

  /** `unset` is what the fresh table of operations happens to hold. */
  datatype Step =
    | SetBlock(block: uint32, path: string, data: Block)
    | UnsetBlock(block: uint32)
    | BlockOp(sector: uint64, data: Block, unset: seq<Op>)

  const DIR_MAX: nat := 256

  const Initial := State([], 0, [])

  /** Sectors of 512 bytes, blocks of 4096, in 32 bits. */
  function BlockOf(sector: uint64): uint32 {
    sector / 8 % 0x1_0000_0000
  }

  /** A block is eight sectors; sector numbers repeat with the block numbers, after 2^35. */
  predicate InBlock(sector: uint64, block: uint32) {
    8 * block <= sector % 0x8_0000_0000 < 8 * block + 8
  }

  lemma BlockOfIff(sector: uint64, block: uint32)
    ensures BlockOf(sector) == block <==> InBlock(sector, block)
  {
    var q, low := sector / 0x8_0000_0000, sector % 0x8_0000_0000;
    ModUnique(sector, 8, q * 0x1_0000_0000 + low / 8, low % 8);
    ModUnique(sector / 8, 0x1_0000_0000, q, low / 8);
  }

  function OnBlock(block: uint32): Watch -> bool {
    (w: Watch) => w.block == block
  }

  /** The index of the latest watch of a block, or the number of watches. */
  function Top(s: seq<Watch>, block: uint32): (k: nat)
    ensures k <= |s|
    ensures k < |s| ==> s[k].block == block
    ensures forall i :: 0 <= i < k ==> s[i].block != block
  {
    assert forall w :: OnBlock(block)(w) <==> w.block == block;
    First(s, OnBlock(block))
  }

  /** A block that the parser can walk, of no more entries than a table holds. */
  predicate Parsable(data: Block) {
    Walkable(data, 0) && |Parse(data, 0)| <= 256
  }

  function Table(data: Block): seq<DirEntry>
    requires Walkable(data, 0)
  {
    Sort(Parse(data, 0))
  }

  /** What the code parses fits its tables; a block that is not watched may hold anything. */
  predicate StepOk(s: State, step: Step) {
    match step
    case SetBlock(_, _, data) => Parsable(data)
    case UnsetBlock(_) => true
    case BlockOp(sector, data, unset) =>
      var k := Top(s.watches, BlockOf(sector));
      |unset| == 256 && (k < |s.watches| ==> Parsable(data) && |Diff(s.watches[k].dir, Table(data))| <= 256)
  }

  function EventsOf(w: Watch, ops: seq<DirOp>): seq<Event> {
    if ops == [] then [] else [Event(w.id, w.path, ops[0])] + EventsOf(w, ops[1..])
  }

  function Push(s: State, block: uint32, path: string, t: seq<DirEntry>): State {
    State([Watch(s.next, block, path, t)] + s.watches, s.next + 1, s.log)
  }

  function Pop(s: State, block: uint32): State {
    var k := Top(s.watches, block);
    if k < |s.watches| then s.(watches := Without(s.watches, k)) else s
  }

  /** Watch k reports how its table differs, and keeps the new one if it does. */
  function Observe(s: State, k: nat, t: seq<DirEntry>, unset: seq<Op>): State
    requires k < |s.watches| && |Diff(s.watches[k].dir, t)| <= |unset|
  {
    var w := s.watches[k];
    var changes := Diff(w.dir, t);
    if changes == [] then s
    else State(s.watches[k := w.(dir := t)], s.next, s.log + EventsOf(w, EncodeAll(changes, unset)))
  }

  function Apply(s: State, step: Step): State
    requires StepOk(s, step)
  {
    match step
    case SetBlock(block, path, data) => Push(s, block, path, Table(data))
    case UnsetBlock(block) => Pop(s, block)
    case BlockOp(sector, data, unset) =>
      var k := Top(s.watches, BlockOf(sector));
      if k < |s.watches| then Observe(s, k, Table(data), unset) else s
  }

  // ----- runs

  predicate RunOk(s: State, steps: seq<Step>)
    decreases |steps|, 1
  {
    steps == [] || (RunOk(s, steps[..|steps| - 1]) && StepOk(Run(s, steps[..|steps| - 1]), steps[|steps| - 1]))
  }

  function Run(s: State, steps: seq<Step>): State
    requires RunOk(s, steps)
    decreases |steps|, 2
  {
    if steps == [] then s else Apply(Run(s, steps[..|steps| - 1]), steps[|steps| - 1])
  }

  lemma RunOneMore(s: State, steps: seq<Step>, i: nat)
    requires i < |steps| && RunOk(s, steps[..i]) && StepOk(Run(s, steps[..i]), steps[i])
    ensures RunOk(s, steps[..i + 1]) && Run(s, steps[..i + 1]) == Apply(Run(s, steps[..i]), steps[i])
  {
    assert steps[..i + 1][..i] == steps[..i];
  }

  /** The steps of `xadisk_set_watch` on the blocks of a directory and what the disk holds in them. */
  function SetSteps(path: string, blocks: seq<uint32>, disk: seq<Block>): (r: seq<Step>)
    requires |disk| == |blocks|
    ensures |r| == |blocks|
    ensures forall i :: 0 <= i < |r| ==> r[i] == SetBlock(blocks[i], path, disk[i])
  {
    seq(|blocks|, i requires 0 <= i < |blocks| => SetBlock(blocks[i], path, disk[i]))
  }

  /** The steps of `xadisk_unset_watch`. */
  function UnsetSteps(blocks: seq<uint32>): (r: seq<Step>)
    ensures |r| == |blocks|
    ensures forall i :: 0 <= i < |r| ==> r[i] == UnsetBlock(blocks[i])
  {
    seq(|blocks|, i requires 0 <= i < |blocks| => UnsetBlock(blocks[i]))
  }

  /** The block that a step shows to a watch: at its start, and while it is the latest. */
  function Shown(s: State, step: Step, id: nat): seq<Block> {
    match step
    case SetBlock(_, _, data) => if id == s.next then [data] else []
    case UnsetBlock(_) => []
    case BlockOp(sector, data, _) =>
      var k := Top(s.watches, BlockOf(sector));
      if k < |s.watches| && s.watches[k].id == id then [data] else []
  }

  /** All that a run has shown to a watch. */
  function Seen(steps: seq<Step>, id: nat): seq<Block>
    requires RunOk(Initial, steps)
  {
    if steps == [] then []
    else
      var pre := steps[..|steps| - 1];
      Seen(pre, id) + Shown(Run(Initial, pre), steps[|steps| - 1], id)
  }

  /** The operations that a watch has reported. */
  function OpsOf(log: seq<Event>, id: nat): seq<DirOp> {
    if log == [] then []
    else if log[0].id == id then [log[0].op] + OpsOf(log[1..], id)
    else OpsOf(log[1..], id)
  }

  /** Every entry is a file or a directory. */
  predicate FilesAndDirs(t: seq<DirEntry>) {
    forall e :: e in t ==> FileOrDir(e)
  }

  /** The parser can walk the block, and it holds nothing but files and directories. */
  predicate Plain(data: Block) {
    Walkable(data, 0) && FilesAndDirs(Parse(data, 0))
  }

  predicate AllPlain(bs: seq<Block>) {
    forall i :: 0 <= i < |bs| ==> Plain(bs[i])
  }

  /** The names in a block. */
  function NamesOf(data: Block): multiset<Name>
    requires Walkable(data, 0)
  {
    Names(Parse(data, 0))
  }

  // ----- what every step keeps

  /** The latest watches come first, and no id is used twice. */
  predicate WellFormed(s: State) {
    && (forall i :: 0 <= i < |s.watches| ==> s.watches[i].id < s.next)
    && (forall i, j :: 0 <= i < j < |s.watches| ==> s.watches[j].id < s.watches[i].id)
    && (forall i :: 0 <= i < |s.log| ==> s.log[i].id < s.next)
  }

  lemma {:induction false} EventsOfAre(w: Watch, ops: seq<DirOp>)
    ensures |EventsOf(w, ops)| == |ops|
    ensures forall i :: 0 <= i < |ops| ==> EventsOf(w, ops)[i] == Event(w.id, w.path, ops[i])
  {
    if ops != [] {
      EventsOfAre(w, ops[1..]);
    }
  }

  lemma ObserveWellFormed(s: State, k: nat, t: seq<DirEntry>, unset: seq<Op>)
    requires k < |s.watches| && |Diff(s.watches[k].dir, t)| <= |unset|
    requires WellFormed(s)
    ensures WellFormed(Observe(s, k, t, unset))
  {
    var w := s.watches[k];
    EventsOfAre(w, EncodeAll(Diff(w.dir, t), unset));
  }

  lemma StepWellFormed(s: State, step: Step)
    requires StepOk(s, step) && WellFormed(s)
    ensures WellFormed(Apply(s, step))
  {
    if step.BlockOp? {
      var k := Top(s.watches, BlockOf(step.sector));
      if k < |s.watches| {
        ObserveWellFormed(s, k, Table(step.data), step.unset);
      }
    }
  }

  // ----- the report of one watch

  lemma {:induction false} OpsOfConcat(a: seq<Event>, b: seq<Event>, id: nat)
    ensures OpsOf(a + b, id) == OpsOf(a, id) + OpsOf(b, id)
  {
    if a == [] {
      assert a + b == b;
    } else {
      OpsOfConcat(a[1..], b, id);
      assert (a + b)[1..] == a[1..] + b;
    }
  }

  lemma {:induction false} OpsOfEvents(w: Watch, ops: seq<DirOp>, id: nat)
    ensures OpsOf(EventsOf(w, ops), id) == if w.id == id then ops else []
  {
    if ops != [] {
      OpsOfEvents(w, ops[1..], id);
    }
  }

  lemma {:induction false} OpsOfAbsent(log: seq<Event>, id: nat)
    requires forall i :: 0 <= i < |log| ==> log[i].id != id
    ensures OpsOf(log, id) == []
  {
    if log != [] {
      OpsOfAbsent(log[1..], id);
    }
  }

  lemma {:induction false} ReplayConcat(m: multiset<Name>, a: seq<DirOp>, b: seq<DirOp>)
    requires Replay(m, a).Some?
    ensures Replay(m, a + b) == Replay(Replay(m, a).value, b)
    decreases |a|
  {
    if a == [] {
      assert a + b == b;
    } else {
      assert (a + b)[1..] == a[1..] + b;
      ReplayConcat(Effect(m, a[0]).value, a[1..], b);
    }
  }

  /** The table of a watch: sorted, typed, and of the names `now`. */
  predicate Keeps(t: seq<DirEntry>, now: multiset<Name>) {
    Sorted(t) && FilesAndDirs(t) && Names(t) == now
  }

  lemma TableKeeps(data: Block)
    requires Plain(data)
    ensures Keeps(Table(data), NamesOf(data))
  {
    SortCorrect(Parse(data, 0));
    NamesSort(Parse(data, 0));
    assert forall e :: e in Table(data) ==> e in multiset(Table(data));
  }

  /** An observation takes the replay from the names before to the names now. */
  lemma ObserveReplays(w: Watch, t: seq<DirEntry>, unset: seq<Op>, was: multiset<Name>, now: multiset<Name>)
    requires Keeps(w.dir, was) && Keeps(t, now) && |Diff(w.dir, t)| <= |unset|
    ensures Replay(was, EncodeAll(Diff(w.dir, t), unset)) == Some(now)
    ensures Diff(w.dir, t) == [] ==> was == now
  {
    DiffEntries(w.dir, t);
    assert AllTyped(Diff(w.dir, t));
    ReplayDiff(multiset{}, w.dir, t, unset);
    assert multiset{} + was == was && multiset{} + now == now;
    DiffEmptyIffSameNames(w.dir, t);
  }

  /** The report of a watch leads from the names `was` to the names `now`, and its table, while
      it is there, has the names `now`. */
  predicate Explains(s: State, id: nat, was: multiset<Name>, now: multiset<Name>) {
    && Replay(was, OpsOf(s.log, id)) == Some(now)
    && (forall i :: 0 <= i < |s.watches| && s.watches[i].id == id ==> Keeps(s.watches[i].dir, now))
  }

  lemma ObserveExplains(s: State, k: nat, data: Block, unset: seq<Op>, id: nat, was: multiset<Name>,
                        now: multiset<Name>)
    requires k < |s.watches| && Walkable(data, 0) && |Diff(s.watches[k].dir, Table(data))| <= |unset|
    requires WellFormed(s) && Explains(s, id, was, now) && (s.watches[k].id == id ==> Plain(data))
    ensures Explains(Observe(s, k, Table(data), unset), id, was, if s.watches[k].id == id then NamesOf(data) else now)
  {
    var w, t := s.watches[k], Table(data);
    var ops := EncodeAll(Diff(w.dir, t), unset);
    OpsOfConcat(s.log, EventsOf(w, ops), id);
    OpsOfEvents(w, ops, id);
    if w.id == id {
      TableKeeps(data);
      ObserveReplays(w, t, unset, now, NamesOf(data));
      ReplayConcat(was, OpsOf(s.log, id), ops);
    } else {
      assert OpsOf(s.log, id) + [] == OpsOf(s.log, id);
    }
  }

  /** The names a step leaves to a watch. */
  function NamesAfter(shown: seq<Block>, now: multiset<Name>): multiset<Name>
    requires AllPlain(shown)
  {
    if shown == [] then now else NamesOf(shown[0])
  }

  lemma StepExplains(s: State, step: Step, id: nat, was: multiset<Name>, now: multiset<Name>)
    requires StepOk(s, step) && WellFormed(s) && id < s.next && Explains(s, id, was, now)
    requires AllPlain(Shown(s, step, id))
    ensures Explains(Apply(s, step), id, was, NamesAfter(Shown(s, step, id), now))
  {
    if step.BlockOp? {
      var k := Top(s.watches, BlockOf(step.sector));
      if k < |s.watches| {
        ObserveExplains(s, k, step.data, step.unset, id, was, now);
      }
    }
  }

  lemma StartExplains(s: State, block: uint32, path: string, data: Block)
    requires Plain(data) && WellFormed(s)
    ensures Explains(Push(s, block, path, Table(data)), s.next, NamesOf(data), NamesOf(data))
  {
    OpsOfAbsent(s.log, s.next);
    TableKeeps(data);
  }

  /** What a watch was shown explains its report: replayed from the names in the first block,
      it gives the names in the last one. */
  predicate Accounts(s: State, id: nat, seen: seq<Block>) {
    && AllPlain(seen)
    && (id < s.next <==> seen != [])
    && (seen != [] ==> Explains(s, id, NamesOf(seen[0]), NamesOf(seen[|seen| - 1])))
  }

  lemma StepAccounts(s: State, step: Step, id: nat, seen: seq<Block>)
    requires StepOk(s, step) && WellFormed(s) && Accounts(s, id, seen) && AllPlain(Shown(s, step, id))
    ensures Accounts(Apply(s, step), id, seen + Shown(s, step, id))
  {
    var shown := Shown(s, step, id);
    if seen != [] {
      StepExplains(s, step, id, NamesOf(seen[0]), NamesOf(seen[|seen| - 1]));
      assert shown == [] ==> seen + shown == seen;
    } else if step.SetBlock? && id == s.next {
      assert Plain(shown[0]);
      StartExplains(s, step.block, step.path, step.data);
    }
  }

  lemma PlainParts(a: seq<Block>, b: seq<Block>)
    requires AllPlain(a + b)
    ensures AllPlain(a) && AllPlain(b)
  {
    assert forall i :: 0 <= i < |a| ==> a[i] == (a + b)[i];
    assert forall i :: 0 <= i < |b| ==> b[i] == (a + b)[|a| + i];
  }

  /** Over every run, for every watch there ever was, whatever is written to other blocks. */
  lemma {:induction false} RunReplays(steps: seq<Step>, id: nat)
    requires RunOk(Initial, steps) && AllPlain(Seen(steps, id))
    ensures WellFormed(Run(Initial, steps))
    ensures Accounts(Run(Initial, steps), id, Seen(steps, id))
  {
    if steps != [] {
      var pre, step := steps[..|steps| - 1], steps[|steps| - 1];
      PlainParts(Seen(pre, id), Shown(Run(Initial, pre), step, id));
      RunReplays(pre, id);
      StepWellFormed(Run(Initial, pre), step);
      StepAccounts(Run(Initial, pre), step, id, Seen(pre, id));
    }
  }

  /** Nothing is shown to a watch that is yet to be set. */
  lemma {:induction false} SeenBySetOnly(steps: seq<Step>, id: nat)
    requires RunOk(Initial, steps)
    ensures id >= Run(Initial, steps).next ==> Seen(steps, id) == []
  {
    if steps != [] {
      SeenBySetOnly(steps[..|steps| - 1], id);
      RunWellFormed(steps[..|steps| - 1]);
    }
  }

  lemma {:induction false} RunWellFormed(steps: seq<Step>)
    requires RunOk(Initial, steps)
    ensures WellFormed(Run(Initial, steps))
  {
    if steps != [] {
      RunWellFormed(steps[..|steps| - 1]);
      StepWellFormed(Run(Initial, steps[..|steps| - 1]), steps[|steps| - 1]);
    }
  }
}
