/** The monitor as the C code keeps it: the table of watched blocks, updated in place by the
    calls of libxadisk/xadisk_core.c. */
module DiskMonitor {
  import opened Bits
  import opened Common
  import opened DirNames
  import opened DirDiff
  import opened Ext2Dir
  import opened BlockHash
  import opened Monitor

  // ----- the watches of one block

  function OfBlock(ws: seq<Watch>, block: uint32): seq<Watch> {
    if ws == [] then []
    else if ws[0].block == block then [ws[0]] + OfBlock(ws[1..], block)
    else OfBlock(ws[1..], block)
  }

  lemma {:induction false} OfConcat(a: seq<Watch>, b: seq<Watch>, block: uint32)
    ensures OfBlock(a + b, block) == OfBlock(a, block) + OfBlock(b, block)
  {
    if a == [] {
      assert a + b == b;
    } else {
      OfConcat(a[1..], b, block);
      assert (a + b)[1..] == a[1..] + b;
    }
  }

  lemma {:induction false} OfNone(ws: seq<Watch>, block: uint32)
    requires forall i :: 0 <= i < |ws| ==> ws[i].block != block
    ensures OfBlock(ws, block) == []
  {
    if ws != [] {
      OfNone(ws[1..], block);
    }
  }

  lemma OfThree(l: seq<Watch>, w: Watch, r: seq<Watch>, block: uint32)
    ensures OfBlock(l + [w] + r, block)
         == OfBlock(l, block) + (if w.block == block then [w] else []) + OfBlock(r, block)
  {
    OfConcat(l + [w], r, block);
    OfConcat(l, [w], block);
    assert [w][1..] == [];
  }

  lemma OfTop(ws: seq<Watch>, block: uint32)
    ensures Top(ws, block) < |ws| <==> OfBlock(ws, block) != []
    ensures Top(ws, block) < |ws| ==> OfBlock(ws, block)[0] == ws[Top(ws, block)]
  {
    var k := Top(ws, block);
    if k < |ws| {
      assert ws == ws[..k] + [ws[k]] + ws[k + 1..];
      OfThree(ws[..k], ws[k], ws[k + 1..], block);
      OfNone(ws[..k], block);
    } else {
      OfNone(ws, block);
    }
  }

  lemma OfPush(w: Watch, ws: seq<Watch>, block: uint32)
    ensures OfBlock([w] + ws, block) == if w.block == block then [w] + OfBlock(ws, block) else OfBlock(ws, block)
  {
    assert ([w] + ws)[1..] == ws;
  }

  lemma OfPop(ws: seq<Watch>, victim: uint32, block: uint32)
    requires Top(ws, victim) < |ws|
    ensures block == victim ==> OfBlock(ws, block) != []
    ensures OfBlock(Without(ws, Top(ws, victim)), block)
         == if block == victim then OfBlock(ws, block)[1..] else OfBlock(ws, block)
  {
    var k := Top(ws, victim);
    var l, r := ws[..k], ws[k + 1..];
    assert ws == l + [ws[k]] + r && Without(ws, k) == l + r;
    OfThree(l, ws[k], r, block);
    OfConcat(l, r, block);
    if block == victim {
      OfNone(l, block);
    }
  }

  lemma OfUpdate(ws: seq<Watch>, k: nat, w: Watch, block: uint32)
    requires k < |ws| && k == Top(ws, w.block)
    ensures block == w.block ==> OfBlock(ws, block) != []
    ensures OfBlock(ws[k := w], block)
         == if block == w.block then [w] + OfBlock(ws, block)[1..] else OfBlock(ws, block)
  {
    var l, r := ws[..k], ws[k + 1..];
    assert ws == l + [ws[k]] + r && ws[k := w] == l + [w] + r;
    OfThree(l, ws[k], r, block);
    OfThree(l, w, r, block);
    if block == w.block {
      OfNone(l, block);
    }
  }

  /** The watches of a block keep the order, hence the ids, of all. */
  lemma {:induction false} OfMembers(ws: seq<Watch>, block: uint32)
    requires forall i, j :: 0 <= i < j < |ws| ==> ws[j].id < ws[i].id
    ensures forall i :: 0 <= i < |OfBlock(ws, block)| ==>
      OfBlock(ws, block)[i].block == block && OfBlock(ws, block)[i] in ws
    ensures forall i, j :: 0 <= i < j < |OfBlock(ws, block)| ==> OfBlock(ws, block)[j].id < OfBlock(ws, block)[i].id
  {
    if ws != [] {
      OfMembers(ws[1..], block);
    }
  }

  // ----- the calls

  ghost function ViewOf(n: BlockNode): Watch
    reads n
  {
    Watch(n.id, n.block, n.path, n.dir)
  }

  /** The nodes, from the top of the stack, are these watches. */
  ghost predicate Shows(nodes: seq<BlockNode>, ws: seq<Watch>)
    reads nodes
  {
    |nodes| == |ws| && (forall i :: 0 <= i < |nodes| ==> ViewOf(nodes[i]) == ws[i])
  }

  /** Parses a block into a fresh table and sorts it. */
  method ReadTable(data: Block) returns (dir: seq<DirEntry>)
    requires Parsable(data)
    ensures dir == Table(data)
  {
    var t := new DirEntry[DIR_MAX](_ => DirEntry(0, 0, []));
    var size := ParseBlockDir(data, t);
    SortDir(t, size);
    dir := t[..size];
  }

  lemma {:induction false} EncodeAllAt(cs: seq<Change>, unset: seq<Op>)
    requires |unset| >= |cs|
    ensures |EncodeAll(cs, unset)| == |cs|
    ensures forall i :: 0 <= i < |cs| ==> EncodeAll(cs, unset)[i] == Encode(cs[i], unset[i])
  {
    if cs != [] {
      EncodeAllAt(cs[1..], unset[1..]);
    }
  }

  /** Compares two tables into a fresh table of operations. */
  method Compare(old_: seq<DirEntry>, new_: seq<DirEntry>, unset: seq<Op>) returns (ops: seq<DirOp>)
    requires |Diff(old_, new_)| <= |unset| == DIR_MAX
    ensures ops == EncodeAll(Diff(old_, new_), unset)
  {
    var res := new DirOp[DIR_MAX](i requires 0 <= i < DIR_MAX => DirOp(unset[i], []));
    var size := CompareDirs(old_, new_, res);
    EncodeAllAt(Diff(old_, new_), unset);
    ops := res[..size];
  }

  lemma {:induction false} EventsLast(w: Watch, ops: seq<DirOp>, o: DirOp)
    ensures EventsOf(w, ops + [o]) == EventsOf(w, ops) + [Event(w.id, w.path, o)]
  {
    if ops == [] {
      assert ops + [o] == [o] && [o][1..] == [];
    } else {
      EventsLast(w, ops[1..], o);
      assert (ops + [o])[1..] == ops[1..] + [o];
    }
  }

  class XaDisk {
    const table: HashTable
    var next: nat
    var log: seq<Event>
    ghost var state: State

    /** The stacks of the table hold these watches. */
    ghost predicate Holds(ws: seq<Watch>)
      reads table, table.buckets, table.nodes
      requires |table.buckets| > 0
    {
      forall block: uint32 ::
        && (forall n :: n in table.Stack(block) ==> n in table.nodes)
        && Shows(table.Stack(block), OfBlock(ws, block))
    }

    ghost predicate Valid()
      reads this, table, table.buckets, table.nodes
    {
      && table.Valid()
      && next == state.next && log == state.log && WellFormed(state)
      && Holds(state.watches)
    }

    constructor ()
      ensures Valid() && state == Initial && fresh(table) && fresh(table.buckets) && fresh(table.nodes)
    {
      table := new HashTable();
      next, log, state := 0, [], Initial;
    }

    method PushNode(node: BlockNode, ghost ws: seq<Watch>)
      requires table.Valid() && Holds(ws) && node !in table.nodes
      modifies table`nodes, table.buckets, table.nodes`next, node`next
      ensures table.Valid() && Holds([ViewOf(node)] + ws) && table.nodes == old(table.nodes) + {node}
    {
      table.InsertHash(node);
      assert forall n :: n in table.nodes ==> n.dir == old(n.dir);
      forall block: uint32
        ensures forall n :: n in table.Stack(block) ==> n in table.nodes
        ensures Shows(table.Stack(block), OfBlock([ViewOf(node)] + ws, block))
      {
        OfPush(ViewOf(node), ws, block);
        assert old(Shows(table.Stack(block), OfBlock(ws, block)));
        assert forall n :: n in old(table.Stack(block)) ==> n in old(table.nodes);
      }
    }

    method PushWatch(block: uint32, path: string, t: seq<DirEntry>)
      requires Valid()
      modifies this, table, table.buckets, table.nodes
      ensures Valid() && fresh(table.nodes - old(table.nodes))
      ensures state == Push(old(state), block, path, t)
    {
      var node := new BlockNode(next, block, path, t);
      PushNode(node, state.watches);
      next := next + 1;
      state := Push(state, block, path, t);
    }

    method SetBlockWatch(block: uint32, path: string, data: Block)
      requires Valid() && Parsable(data)
      modifies this, table, table.buckets, table.nodes
      ensures Valid() && fresh(table.nodes - old(table.nodes))
      ensures state == Apply(old(state), SetBlock(block, path, data))
    {
      var dir := ReadTable(data);
      PushWatch(block, path, dir);
    }
  
    /** `xadisk_set_watch`, given the blocks of the directory and what the disk holds in them. */
    method SetWatch(path: string, blocks: seq<uint32>, disk: seq<Block>)
      requires Valid() && |disk| == |blocks|
      requires forall i :: 0 <= i < |disk| ==> Parsable(disk[i])
      modifies this, table, table.buckets, table.nodes
      ensures Valid() && fresh(table.nodes - old(table.nodes))
      ensures RunOk(old(state), SetSteps(path, blocks, disk))
      ensures state == Run(old(state), SetSteps(path, blocks, disk))
    {
      ghost var steps := SetSteps(path, blocks, disk);
      var i := 0;
      while i < |blocks|
        invariant 0 <= i <= |blocks| && Valid() && fresh(table.nodes - old(table.nodes))
        invariant RunOk(old(state), steps[..i]) && state == Run(old(state), steps[..i])
      {
        RunOneMore(old(state), steps, i);
        SetBlockWatch(blocks[i], path, disk[i]);
        i := i + 1;
      }
      assert steps[..i] == steps;
    }

    method PopNode(victim: uint32, ghost ws: seq<Watch>)
      requires table.Valid() && Holds(ws)
      modifies table.buckets, table.nodes`next
      ensures table.Valid()
      ensures var k := Top(ws, victim); Holds(if k < |ws| then Without(ws, k) else ws)
    {
      table.RemoveHash(victim);
      assert forall n :: n in table.nodes ==> n.dir == old(n.dir);
      ghost var k := Top(ws, victim);
      ghost var rest := if k < |ws| then Without(ws, k) else ws;
      forall block: uint32
        ensures forall n :: n in table.Stack(block) ==> n in table.nodes
        ensures Shows(table.Stack(block), OfBlock(rest, block))
      {
        OfTop(ws, block);
        if k < |ws| {
          OfPop(ws, victim, block);
        }
        assert old(Shows(table.Stack(block), OfBlock(ws, block)));
        assert forall n :: n in old(table.Stack(block)) ==> n in table.nodes;
      }
    }

    method UnsetBlockWatch(block: uint32)
      requires Valid()
      modifies this, table.buckets, table.nodes
      ensures Valid() && state == Apply(old(state), UnsetBlock(block))
    {
      PopNode(block, state.watches);
      state := Pop(state, block);
    }

    /** `xadisk_unset_watch`. */
    method UnsetWatch(blocks: seq<uint32>)
      requires Valid()
      modifies this, table.buckets, table.nodes
      ensures Valid()
      ensures RunOk(old(state), UnsetSteps(blocks)) && state == Run(old(state), UnsetSteps(blocks))
    {
      ghost var steps := UnsetSteps(blocks);
      var i := 0;
      while i < |blocks|
        invariant 0 <= i <= |blocks| && Valid()
        invariant RunOk(old(state), steps[..i]) && state == Run(old(state), steps[..i])
      {
        RunOneMore(old(state), steps, i);
        UnsetBlockWatch(blocks[i]);
        i := i + 1;
      }
      assert steps[..i] == steps;
    }
  
    /** Writes the operations of a watch to the report. */
    method Report(b: BlockNode, ops: seq<DirOp>)
      modifies this`log
      ensures log == old(log) + EventsOf(ViewOf(b), ops)
    {
      var i := 0;
      while i < |ops|
        invariant 0 <= i <= |ops| && log == old(log) + EventsOf(ViewOf(b), ops[..i])
      {
        log := log + [Event(b.id, b.path, ops[i])];
        EventsLast(ViewOf(b), ops[..i], ops[i]);
        assert ops[..i + 1] == ops[..i] + [ops[i]];
        i := i + 1;
      }
      assert ops[..i] == ops;
    }

    /** A node on top of its stack stands nowhere else. */
    lemma OnlyTop(b: BlockNode, ws: seq<Watch>, block: uint32)
      requires |table.buckets| > 0 && Holds(ws) && (forall i, j :: 0 <= i < j < |ws| ==> ws[j].id < ws[i].id)
      requires table.Stack(b.block) != [] && b == table.Stack(b.block)[0]
      ensures forall i :: 0 <= i < |table.Stack(block)| && table.Stack(block)[i] == b ==> block == b.block && i == 0
    {
      assert Shows(table.Stack(b.block), OfBlock(ws, b.block));
      assert Shows(table.Stack(block), OfBlock(ws, block));
      OfMembers(ws, block);
    }

    /** All nodes but b, which is new, show these watches. */
    ghost predicate HoldsBut(ws: seq<Watch>, b: BlockNode)
      reads table, table.buckets, table.nodes
      requires |table.buckets| > 0
    {
      forall block: uint32 ::
        && |table.Stack(block)| == |OfBlock(ws, block)|
        && (forall n :: n in table.Stack(block) ==> n in table.nodes)
        && (forall i :: 0 <= i < |table.Stack(block)| ==>
              if table.Stack(block)[i] == b then block == b.block && i == 0
              else ViewOf(table.Stack(block)[i]) == OfBlock(ws, block)[i])
    }

    lemma BlockHoldsAgain(b: BlockNode, ws: seq<Watch>, k: nat, block: uint32)
      requires |table.buckets| > 0 && HoldsBut(ws, b)
      requires table.Stack(b.block) != [] && b == table.Stack(b.block)[0]
      requires k == Top(ws, b.block) && k < |ws|
      ensures Shows(table.Stack(block), OfBlock(ws[k := ViewOf(b)], block))
    {
      OfUpdate(ws, k, ViewOf(b), block);
    }

    lemma HoldsAgain(b: BlockNode, ws: seq<Watch>, k: nat)
      requires |table.buckets| > 0 && HoldsBut(ws, b)
      requires table.Stack(b.block) != [] && b == table.Stack(b.block)[0]
      requires k == Top(ws, b.block) && k < |ws|
      ensures Holds(ws[k := ViewOf(b)])
    {
      forall block: uint32 {
        BlockHoldsAgain(b, ws, k, block);
      }
    }

    lemma HoldsAllBut(b: BlockNode, ws: seq<Watch>)
      requires |table.buckets| > 0 && Holds(ws) && (forall i, j :: 0 <= i < j < |ws| ==> ws[j].id < ws[i].id)
      requires table.Stack(b.block) != [] && b == table.Stack(b.block)[0]
      ensures HoldsBut(ws, b)
    {
      forall block: uint32 {
        OnlyTop(b, ws, block);
      }
    }

    method Replace(b: BlockNode, t: seq<DirEntry>, ghost ws: seq<Watch>, ghost k: nat)
      requires table.Valid() && HoldsBut(ws, b)
      requires table.Stack(b.block) != [] && b == table.Stack(b.block)[0]
      requires k == Top(ws, b.block) && k < |ws|
      modifies b`dir
      ensures table.Valid() && Holds(ws[k := ViewOf(b)]) && b.dir == t
    {
      b.dir := t;
      HoldsAgain(b, ws, k);
    }

    lemma TopNode(block: uint32)
      requires Valid()
      ensures table.Stack(block) != [] <==> Top(state.watches, block) < |state.watches|
      ensures table.Stack(block) != [] ==>
        && ViewOf(table.Stack(block)[0]) == state.watches[Top(state.watches, block)]
        && table.Stack(block)[0] in table.nodes
    {
      OfTop(state.watches, block);
      assert Shows(table.Stack(block), OfBlock(state.watches, block));
    }

    /** What the main loop does when the written block is watched. */
    method ObserveTop(b: BlockNode, t: seq<DirEntry>, unset: seq<Op>, ghost k: nat)
      requires Valid() && table.Stack(b.block) != [] && b == table.Stack(b.block)[0]
      requires k == Top(state.watches, b.block) && k < |state.watches| && ViewOf(b) == state.watches[k]
      requires |Diff(b.dir, t)| <= |unset| == DIR_MAX
      modifies this`log, this`state, b`dir
      ensures Valid() && state == Observe(old(state), k, t, unset)
    {
      var diff := Compare(b.dir, t, unset);
      EncodeAllAt(Diff(b.dir, t), unset);
      if |diff| > 0 {
        ObserveWellFormed(state, k, t, unset);
        HoldsAllBut(b, state.watches);
        Report(b, diff);
        Replace(b, t, state.watches, k);
        state := Observe(state, k, t, unset);
      }
    }

    /** One round of the main loop, `xadisk_core`, for an operation on a whole block. */
    method Process(sector: uint64, data: Block, unset: seq<Op>)
      requires Valid() && StepOk(state, BlockOp(sector, data, unset))
      modifies this`log, this`state, table.nodes`dir
      ensures Valid() && state == Apply(old(state), BlockOp(sector, data, unset))
    {
      var block := BlockOf(sector);
      var b := table.CheckHash(block);
      TopNode(block);
      if b != null {
        var t := ReadTable(data);
        ObserveTop(b, t, unset, Top(state.watches, block));
      }
    }
  
    method Step(step: Monitor.Step)
      requires Valid() && StepOk(state, step)
      modifies this, table, table.buckets, table.nodes
      ensures Valid() && fresh(table.nodes - old(table.nodes))
      ensures state == Apply(old(state), step)
    {
      match step
      case SetBlock(block, path, data) => SetBlockWatch(block, path, data);
      case UnsetBlock(block) => UnsetBlockWatch(block);
      case BlockOp(sector, data, unset) => Process(sector, data, unset);
    }
  }
}
