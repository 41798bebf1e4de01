/** What `xadisk_unset_watch` drops: the latest watch of each block of the directory, which is its
    own exactly when no other watch of the block has been set since. */
module Unwatch {
  import opened Bits
  import opened Common
  import opened DirNames
  import opened Monitor
  import opened DirectoryReplay

  predicate Live(s: State, id: nat) {
    exists i :: 0 <= i < |s.watches| && s.watches[i].id == id
  }

  /** A watch of the block with this id. */
  predicate LiveOn(s: State, block: uint32, id: nat) {
    exists i :: 0 <= i < |s.watches| && s.watches[i].id == id && s.watches[i].block == block
  }

  /** Dropping the latest watch of a block drops this watch of it if and only if it is the latest. */
  lemma PopDropsOwnIff(s: State, block: uint32, id: nat)
    requires WellFormed(s) && LiveOn(s, block, id)
    ensures Live(Pop(s, block), id) <==> !OnTop(s, block, id)
  {
    var k := Top(s.watches, block);
    var i :| 0 <= i < |s.watches| && s.watches[i].id == id && s.watches[i].block == block;
    var r := Pop(s, block).watches;
    if i != k {
      assert r[if i < k then i else i - 1] == s.watches[i];
    }
  }

  /** Dropping a watch of another block leaves this one. */
  lemma PopKeepsOther(s: State, other: uint32, block: uint32, id: nat)
    requires WellFormed(s) && LiveOn(s, block, id) && other != block
    ensures LiveOn(Pop(s, other), block, id) && (OnTop(Pop(s, other), block, id) <==> OnTop(s, block, id))
  {
    var k := Top(s.watches, other);
    var i :| 0 <= i < |s.watches| && s.watches[i].id == id && s.watches[i].block == block;
    if k < |s.watches| {
      assert Pop(s, other).watches[if i < k then i else i - 1] == s.watches[i];
      var t := Top(s.watches, block);
      QuietStep(s, UnsetBlock(other), block, s.watches[t].id);
    }
  }

  lemma PopBelow(s: State, block: uint32, id: nat)
    requires WellFormed(s) && LiveOn(s, block, id) && !OnTop(s, block, id)
    ensures LiveOn(Pop(s, block), block, id)
  {
    var k := Top(s.watches, block);
    var i :| 0 <= i < |s.watches| && s.watches[i].id == id && s.watches[i].block == block;
    assert Pop(s, block).watches[if i < k then i else i - 1] == s.watches[i];
  }

  /** While its block has not been dropped, the watch is there as it was; then it is gone if it was
      the latest (`top`), and still there if not. */
  predicate Fate(r: State, block: uint32, id: nat, top: bool, dropped: bool) {
    if !dropped then LiveOn(r, block, id) && (OnTop(r, block, id) <==> top)
    else if top then !Live(r, id)
    else LiveOn(r, block, id)
  }

  lemma FateOn(r: State, other: uint32, block: uint32, id: nat, top: bool, dropped: bool)
    requires WellFormed(r) && Fate(r, block, id, top, dropped) && (dropped ==> other != block)
    ensures Fate(Pop(r, other), block, id, top, dropped || other == block)
  {
    if other != block {
      if LiveOn(r, block, id) {
        PopKeepsOther(r, other, block, id);
      }
    } else if top {
      PopDropsOwnIff(r, block, id);
    } else {
      PopBelow(r, block, id);
    }
  }

  lemma PopWellFormed(s: State, block: uint32)
    requires WellFormed(s)
    ensures WellFormed(Pop(s, block))
  {
    StepWellFormed(s, UnsetBlock(block));
  }

  predicate DistinctBlocks(blocks: seq<uint32>) {
    forall i, k :: 0 <= i < k < |blocks| ==> blocks[i] != blocks[k]
  }

  /** The first n blocks of the directory are dropped. */
  lemma {:induction false} UnsetPrefix(s: State, blocks: seq<uint32>, n: nat, j: nat, id: nat)
    requires WellFormed(s) && n <= |blocks| && j < |blocks| && LiveOn(s, blocks[j], id) && DistinctBlocks(blocks)
    ensures RunOk(s, UnsetSteps(blocks)[..n]) && WellFormed(Run(s, UnsetSteps(blocks)[..n]))
    ensures Fate(Run(s, UnsetSteps(blocks)[..n]), blocks[j], id, OnTop(s, blocks[j], id), n > j)
    decreases n
  {
    var steps := UnsetSteps(blocks);
    if n == 0 {
      assert steps[..0] == [];
    } else {
      UnsetPrefix(s, blocks, n - 1, j, id);
      RunOneMore(s, steps, n - 1);
      var r := Run(s, steps[..n - 1]);
      PopWellFormed(r, blocks[n - 1]);
      FateOn(r, blocks[n - 1], blocks[j], id, OnTop(s, blocks[j], id), n - 1 > j);
    }
  }

  /** Dropping the watch of a directory of distinct blocks drops a watch of one of them if and only
      if it is the latest of its block. */
  lemma UnsetDropsIff(s: State, blocks: seq<uint32>, j: nat, id: nat)
    requires WellFormed(s) && j < |blocks| && LiveOn(s, blocks[j], id) && DistinctBlocks(blocks)
    ensures RunOk(s, UnsetSteps(blocks))
    ensures Live(Run(s, UnsetSteps(blocks)), id) <==> !OnTop(s, blocks[j], id)
  {
    UnsetPrefix(s, blocks, |blocks|, j, id);
    assert UnsetSteps(blocks)[..|blocks|] == UnsetSteps(blocks);
  }

  lemma PushIsOnTop(s: State, block: uint32, path: string, t: seq<DirEntry>)
    ensures OnTop(Push(s, block, path, t), block, s.next)
  {
    TopIs(Push(s, block, path, t), block, 0);
  }

  /** Two watches of a block: dropping the first drops the second, and leaves the first. */
  lemma DropsTheOther(s: State, block: uint32, p: string, q: string, t: seq<DirEntry>)
    requires WellFormed(s)
    ensures
      var two := Push(Push(s, block, p, t), block, q, t);
      Live(Pop(two, block), s.next) && !Live(Pop(two, block), s.next + 1)
  {
    var one := Push(s, block, p, t);
    var two := Push(one, block, q, t);
    PushIsOnTop(one, block, q, t);
    assert two.watches[0].id == s.next + 1 && two.watches[1].id == s.next && two.watches[1].block == block;
    PopDropsOwnIff(two, block, s.next);
    PopDropsOwnIff(two, block, s.next + 1);
  }
}
