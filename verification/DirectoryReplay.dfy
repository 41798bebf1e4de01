/** What the reports of the monitor tell: for a watched block, and for all the blocks of a
    watched directory together. */
module DirectoryReplay {
  import opened Bits
  import opened Common
  import opened DirNames
  import opened DirDiff
  import opened Ext2Dir
  import opened Monitor

  // ----- one watch, from the call that sets it

  /** The blocks written to `block`. */
  function Written(steps: seq<Step>, block: uint32): seq<Block> {
    if steps == [] then []
    else
      var step := steps[|steps| - 1];
      Written(steps[..|steps| - 1], block) +
      (if step.BlockOp? && InBlock(step.sector, block) then [step.data] else [])
  }

  /** No watch of the block is set or dropped. */
  predicate Quiet(steps: seq<Step>, block: uint32) {
    forall i :: 0 <= i < |steps| && !steps[i].BlockOp? ==> steps[i].block != block
  }

  /** The watch `id` is the latest of the block. */
  predicate OnTop(s: State, block: uint32, id: nat) {
    var k := Top(s.watches, block);
    k < |s.watches| && s.watches[k].id == id
  }

  lemma TopIs(s: State, block: uint32, k: nat)
    requires k < |s.watches| && s.watches[k].block == block
    requires forall i :: 0 <= i < k ==> s.watches[i].block != block
    ensures OnTop(s, block, s.watches[k].id)
  {
    var t := Top(s.watches, block);
    assert t == k;
  }

  lemma QuietStep(s: State, step: Step, block: uint32, id: nat)
    requires StepOk(s, step) && OnTop(s, block, id) && (!step.BlockOp? ==> step.block != block)
    ensures OnTop(Apply(s, step), block, id)
  {
    var k, r := Top(s.watches, block), Apply(s, step);
    match step
    case SetBlock(_, _, _) => TopIs(r, block, k + 1);
    case UnsetBlock(other) =>
      var v := Top(s.watches, other);
      TopIs(r, block, if v < k then k - 1 else k);
    case BlockOp(_, _, _) => TopIs(r, block, k);
  }

  /** What a quiet step shows to the watch on top is what is written to its block. */
  lemma QuietShown(s: State, step: Step, block: uint32, id: nat)
    requires WellFormed(s) && OnTop(s, block, id) && (!step.BlockOp? ==> step.block != block)
    ensures Shown(s, step, id) == if step.BlockOp? && InBlock(step.sector, block) then [step.data] else []
  {
    if step.BlockOp? {
      BlockOfIff(step.sector, block);
    }
  }

  /** An operation reaches a watch of a block if and only if its sector is one of the eight of the
      block, and the watch is the latest of it. */
  lemma ReachesIff(s: State, sector: uint64, data: Block, unset: seq<Op>, k: nat)
    requires WellFormed(s) && k < |s.watches|
    ensures Shown(s, BlockOp(sector, data, unset), s.watches[k].id) == [data]
       <==> InBlock(sector, s.watches[k].block) && OnTop(s, s.watches[k].block, s.watches[k].id)
  {
    BlockOfIff(sector, s.watches[k].block);
  }

  lemma Snoc(a: seq<Step>, b: seq<Step>)
    requires b != []
    ensures a + b != [] && (a + b)[..|a + b| - 1] == a + b[..|b| - 1] && (a + b)[|a + b| - 1] == b[|b| - 1]
  {
  }

  lemma {:induction false} SeenIsWritten(pre: seq<Step>, steps: seq<Step>, block: uint32, id: nat)
    requires RunOk(Initial, pre + steps) && Quiet(steps, block)
    requires RunOk(Initial, pre) ==> OnTop(Run(Initial, pre), block, id)
    ensures RunOk(Initial, pre) && OnTop(Run(Initial, pre + steps), block, id)
    ensures Seen(pre + steps, id) == Seen(pre, id) + Written(steps, block)
    decreases |steps|
  {
    if steps == [] {
      assert pre + steps == pre;
    } else {
      Snoc(pre, steps);
      var rest, step := steps[..|steps| - 1], steps[|steps| - 1];
      SeenIsWritten(pre, rest, block, id);
      var s := Run(Initial, pre + rest);
      RunWellFormed(pre + rest);
      QuietStep(s, step, block, id);
      QuietShown(s, step, block, id);
    }
  }

  lemma SetIsOnTop(pre: seq<Step>, set_: Step)
    requires set_.SetBlock? && RunOk(Initial, pre + [set_])
    ensures RunOk(Initial, pre)
    ensures OnTop(Run(Initial, pre + [set_]), set_.block, Run(Initial, pre).next)
  {
    Snoc(pre, [set_]);
    assert pre + [set_][..0] == pre;
    TopIs(Run(Initial, pre + [set_]), set_.block, 0);
  }

  lemma {:induction false} RunPrefix(a: seq<Step>, b: seq<Step>)
    requires RunOk(Initial, a + b)
    ensures RunOk(Initial, a)
    decreases |b|
  {
    if b == [] {
      assert a + b == a;
    } else {
      Snoc(a, b);
      RunPrefix(a, b[..|b| - 1]);
    }
  }

  /** The first that a watch is shown is the block as read when it is set. */
  lemma SeenAtSet(pre: seq<Step>, set_: Step)
    requires set_.SetBlock? && RunOk(Initial, pre + [set_])
    ensures RunOk(Initial, pre) && Seen(pre + [set_], Run(Initial, pre).next) == [set_.data]
  {
    Snoc(pre, [set_]);
    assert pre + [set_][..0] == pre;
    SeenBySetOnly(pre, Run(Initial, pre).next);
  }

  /** The block as it was last shown: read when the watch was set, or written since. */
  function Latest(data: Block, steps: seq<Step>, block: uint32): Block {
    var ws := Written(steps, block);
    if ws == [] then data else ws[|ws| - 1]
  }

  lemma SeenThrough(pre: seq<Step>, set_: Step, steps: seq<Step>)
    requires set_.SetBlock? && RunOk(Initial, pre + [set_] + steps) && Quiet(steps, set_.block)
    ensures RunOk(Initial, pre)
    ensures Seen(pre + [set_] + steps, Run(Initial, pre).next) == [set_.data] + Written(steps, set_.block)
  {
    RunPrefix(pre + [set_], steps);
    SetIsOnTop(pre, set_);
    SeenAtSet(pre, set_);
    SeenIsWritten(pre + [set_], steps, set_.block, Run(Initial, pre).next);
  }

  /** The block holds files and directories when its watch is set and whenever it is written. */
  predicate StaysPlain(set_: Step, steps: seq<Step>) {
    set_.SetBlock? && Plain(set_.data) && AllPlain(Written(steps, set_.block))
  }

  /** Where the report of a watch leads from a multiset of names. */
  function Replay1(log: seq<Event>, id: nat, was: multiset<Name>): Option<multiset<Name>> {
    Replay(was, OpsOf(log, id))
  }

  /** The report of a watch replays from the names in one block to the names in another. */
  predicate Tells(log: seq<Event>, id: nat, was: Block, now: Block) {
    && Plain(was) && Plain(now)
    && Replay1(log, id, NamesOf(was)) == Some(NamesOf(now))
  }

  /** A block is watched after any run; whatever follows, as long as no call sets or drops a
      watch of this block: the report replays, from the names in the block when the watch was
      set, to the names in the block last written.  Other blocks may hold anything. */
  lemma WatchReplays(pre: seq<Step>, set_: Step, steps: seq<Step>)
    requires RunOk(Initial, pre + [set_] + steps) && StaysPlain(set_, steps) && Quiet(steps, set_.block)
    ensures RunOk(Initial, pre)
    ensures Tells(Run(Initial, pre + [set_] + steps).log, Run(Initial, pre).next,
                  set_.data, Latest(set_.data, steps, set_.block))
  {
    SeenThrough(pre, set_, steps);
    RunReplays(pre + [set_] + steps, Run(Initial, pre).next);
  }

  // ----- all the blocks of a directory

  /** The operations that the watches from `lo` up to `hi` have reported. */
  function OpsIn(log: seq<Event>, lo: nat, hi: nat): seq<DirOp> {
    if log == [] then []
    else if lo <= log[0].id < hi then [log[0].op] + OpsIn(log[1..], lo, hi)
    else OpsIn(log[1..], lo, hi)
  }

  lemma EffectBeside(a: multiset<Name>, b: multiset<Name>, o: DirOp)
    requires Effect(a, o).Some?
    ensures Effect(a + b, o) == Some(Effect(a, o).value + b)
  {
    var n := o.name;
    assert n in a ==> a - multiset{n} + b == a + b - multiset{n};
    assert a + multiset{n} + b == a + b + multiset{n};
  }

  /** Reports that replay each for itself replay interleaved, on the sum of the names. */
  lemma {:induction false} ReplayInterleaved(a: multiset<Name>, b: multiset<Name>, log: seq<Event>, lo: nat,
                                             id: nat, hi: nat)
    requires lo <= id && hi == id + 1 && Replay(a, OpsIn(log, lo, id)).Some? && Replay(b, OpsOf(log, id)).Some?
    ensures Replay(a + b, OpsIn(log, lo, hi))
         == Some(Replay(a, OpsIn(log, lo, id)).value + Replay(b, OpsOf(log, id)).value)
    decreases |log|
  {
    if log != [] {
      var o, rest := log[0].op, log[1..];
      if lo <= log[0].id < id {
        EffectBeside(a, b, o);
        ReplayInterleaved(Effect(a, o).value, b, rest, lo, id, hi);
      } else if log[0].id == id {
        EffectBeside(b, a, o);
        var b1 := Effect(b, o).value;
        assert b + a == a + b && b1 + a == a + b1;
        ReplayInterleaved(a, b1, rest, lo, id, hi);
      } else {
        ReplayInterleaved(a, b, rest, lo, id, hi);
      }
    }
  }

  /** The id of watch k, counted from `lo`. */
  function IdAt(lo: nat, k: nat): nat {
    lo + k
  }

  /** Where the reports of the watches from `lo` on, n of them, lead. */
  function ReplayN(log: seq<Event>, lo: nat, n: nat, was: multiset<Name>): Option<multiset<Name>> {
    Replay(was, OpsIn(log, lo, lo + n))
  }

  lemma OneMore(log: seq<Event>, lo: nat, k: nat, a: multiset<Name>, a1: multiset<Name>, b: multiset<Name>,
                b1: multiset<Name>)
    requires k > 0 && ReplayN(log, lo, k - 1, a) == Some(a1) && Replay1(log, IdAt(lo, k - 1), b) == Some(b1)
    ensures ReplayN(log, lo, k, a + b) == Some(a1 + b1)
  {
    ReplayInterleaved(a, b, log, lo, lo + (k - 1), lo + k);
  }

  /** The first k of the multisets together. */
  function Sum(ms: seq<multiset<Name>>, k: nat): multiset<Name>
    requires k <= |ms|
  {
    if k == 0 then multiset{} else Sum(ms, k - 1) + ms[k - 1]
  }

  lemma {:induction false} NoOps(log: seq<Event>, lo: nat)
    ensures OpsIn(log, lo, lo) == []
  {
    if log != [] {
      NoOps(log[1..], lo);
    }
  }

  lemma {:induction false} Together(log: seq<Event>, lo: nat, was: seq<multiset<Name>>, now: seq<multiset<Name>>,
                                    k: nat)
    requires k <= |was| == |now|
    requires forall i :: 0 <= i < |was| ==> Replay1(log, IdAt(lo, i), was[i]) == Some(now[i])
    ensures ReplayN(log, lo, k, Sum(was, k)) == Some(Sum(now, k))
  {
    if k == 0 {
      NoOps(log, lo);
    } else {
      Together(log, lo, was, now, k - 1);
      OneMore(log, lo, k, Sum(was, k - 1), Sum(now, k - 1), was[k - 1], now[k - 1]);
    }
  }

  /** The names in each block. */
  function EachNames(data: seq<Block>): (r: seq<multiset<Name>>)
    requires forall i :: 0 <= i < |data| ==> Plain(data[i])
    ensures |r| == |data|
    ensures forall i :: 0 <= i < |r| ==> Plain(data[i]) && r[i] == NamesOf(data[i])
  {
    seq(|data|, i requires 0 <= i < |data| => assert Plain(data[i]); NamesOf(data[i]))
  }

  /** The reports of the watches from `lo` on, interleaved as they come, replay from the names in
      one sequence of blocks to the names in another. */
  predicate TellAll(log: seq<Event>, lo: nat, was: seq<Block>, now: seq<Block>) {
    && |was| == |now|
    && (forall i :: 0 <= i < |was| ==> Plain(was[i]))
    && (forall i :: 0 <= i < |now| ==> Plain(now[i]))
    && ReplayN(log, lo, |was|, Sum(EachNames(was), |was|)) == Some(Sum(EachNames(now), |was|))
  }

  /** Each of the watches from `lo` on tells of its own block. */
  predicate EachTells(log: seq<Event>, lo: nat, was: seq<Block>, now: seq<Block>) {
    |was| == |now| && (forall i :: 0 <= i < |was| ==> Tells(log, IdAt(lo, i), was[i], now[i]))
  }

  lemma EachThenAll(log: seq<Event>, lo: nat, was: seq<Block>, now: seq<Block>)
    ensures EachTells(log, lo, was, now) ==> TellAll(log, lo, was, now)
  {
    if EachTells(log, lo, was, now) {
      assert forall i :: 0 <= i < |was| ==> Plain(was[i]) && Plain(now[i]);
      var x, y := EachNames(was), EachNames(now);
      forall i | 0 <= i < |x|
        ensures Replay1(log, IdAt(lo, i), x[i]) == Some(y[i])
      {
        assert Tells(log, IdAt(lo, i), was[i], now[i]);
      }
      Together(log, lo, x, y, |was|);
    }
  }

  lemma {:induction false} WrittenConcat(a: seq<Step>, b: seq<Step>, block: uint32)
    ensures Written(a + b, block) == Written(a, block) + Written(b, block)
    decreases |b|
  {
    if b == [] {
      assert a + b == a;
    } else {
      Snoc(a, b);
      WrittenConcat(a, b[..|b| - 1], block);
    }
  }

  lemma {:induction false} NothingWritten(steps: seq<Step>, block: uint32)
    requires forall i :: 0 <= i < |steps| ==> steps[i].SetBlock?
    ensures Written(steps, block) == []
  {
    if steps != [] {
      NothingWritten(steps[..|steps| - 1], block);
    }
  }

  /** Each step of a set takes one id. */
  lemma {:induction false} SetTakesIds(pre: seq<Step>, sets: seq<Step>, k: nat)
    requires RunOk(Initial, pre + sets) && k == |sets| && (forall i :: 0 <= i < |sets| ==> sets[i].SetBlock?)
    ensures RunOk(Initial, pre) && Run(Initial, pre + sets).next == IdAt(Run(Initial, pre).next, k)
    decreases k
  {
    if sets == [] {
      assert pre + sets == pre;
    } else {
      Snoc(pre, sets);
      SetTakesIds(pre, sets[..|sets| - 1], k - 1);
    }
  }

  lemma WrittenAfterSets(sets: seq<Step>, steps: seq<Step>, block: uint32)
    requires forall i :: 0 <= i < |sets| ==> sets[i].SetBlock?
    ensures Written(sets + steps, block) == Written(steps, block)
  {
    WrittenConcat(sets, steps, block);
    NothingWritten(sets, block);
    assert [] + Written(steps, block) == Written(steps, block);
  }

  lemma Cut(pre: seq<Step>, sets: seq<Step>, steps: seq<Step>, i: nat)
    requires i < |sets|
    ensures pre + sets + steps == (pre + sets[..i]) + [sets[i]] + (sets[i + 1..] + steps)
  {
    assert sets == sets[..i] + [sets[i]] + sets[i + 1..];
  }

  /** Block i of the directory, by itself. */
  lemma BlockReplays(pre: seq<Step>, sets: seq<Step>, steps: seq<Step>, i: nat)
    requires RunOk(Initial, pre + sets + steps) && i < |sets|
    requires forall j :: 0 <= j < |sets| ==> sets[j].SetBlock?
    requires forall j :: i < j < |sets| ==> sets[j].block != sets[i].block
    requires StaysPlain(sets[i], steps) && Quiet(steps, sets[i].block)
    ensures RunOk(Initial, pre)
    ensures Tells(Run(Initial, pre + sets + steps).log, IdAt(Run(Initial, pre).next, i),
                  sets[i].data, Latest(sets[i].data, steps, sets[i].block))
  {
    Cut(pre, sets, steps, i);
    var later := sets[i + 1..] + steps;
    assert Quiet(later, sets[i].block);
    WrittenAfterSets(sets[i + 1..], steps, sets[i].block);
    WatchReplays(pre + sets[..i], sets[i], later);
    SetTakesIds(pre, sets[..i], i);
  }

  /** The steps set watches of distinct blocks, as those of one directory are. */
  predicate SetsDistinct(sets: seq<Step>) {
    && (forall i :: 0 <= i < |sets| ==> sets[i].SetBlock?)
    && (forall i, j :: 0 <= i < j < |sets| ==> sets[i].block != sets[j].block)
  }

  /** Each block as it was read when its watch was set. */
  function AllRead(sets: seq<Step>): (r: seq<Block>)
    requires SetsDistinct(sets)
    ensures |r| == |sets|
    ensures forall i :: 0 <= i < |r| ==> r[i] == sets[i].data
  {
    seq(|sets|, i requires 0 <= i < |sets| => sets[i].data)
  }

  /** Each block as it was last shown. */
  function AllLatest(sets: seq<Step>, steps: seq<Step>): (r: seq<Block>)
    requires SetsDistinct(sets)
    ensures |r| == |sets|
    ensures forall i :: 0 <= i < |r| ==> r[i] == Latest(sets[i].data, steps, sets[i].block)
  {
    seq(|sets|, i requires 0 <= i < |sets| => Latest(sets[i].data, steps, sets[i].block))
  }

  lemma AllBlocksReplay(pre: seq<Step>, sets: seq<Step>, steps: seq<Step>)
    requires RunOk(Initial, pre + sets + steps) && SetsDistinct(sets)
    requires forall i :: 0 <= i < |sets| ==> StaysPlain(sets[i], steps) && Quiet(steps, sets[i].block)
    ensures RunOk(Initial, pre)
    ensures EachTells(Run(Initial, pre + sets + steps).log, Run(Initial, pre).next,
                      AllRead(sets), AllLatest(sets, steps))
  {
    assert RunOk(Initial, pre) by {
      assert pre + (sets + steps) == pre + sets + steps;
      RunPrefix(pre, sets + steps);
    }
    forall i | 0 <= i < |sets| {
      BlockReplays(pre, sets, steps, i);
    }
  }

  /** A directory of distinct blocks is watched after any run; whatever follows, as long as no
      call sets or drops a watch of these blocks: the reports of its blocks, interleaved as they
      come, replay from the names in the directory then to the names in it now. */
  lemma DirectoryReplays(pre: seq<Step>, sets: seq<Step>, steps: seq<Step>)
    requires RunOk(Initial, pre + sets + steps) && SetsDistinct(sets)
    requires forall i :: 0 <= i < |sets| ==> StaysPlain(sets[i], steps) && Quiet(steps, sets[i].block)
    ensures RunOk(Initial, pre)
    ensures TellAll(Run(Initial, pre + sets + steps).log, Run(Initial, pre).next, AllRead(sets), AllLatest(sets, steps))
  {
    AllBlocksReplay(pre, sets, steps);
    EachThenAll(Run(Initial, pre + sets + steps).log, Run(Initial, pre).next, AllRead(sets), AllLatest(sets, steps));
  }
}
