/** The table of watched blocks, libxadisk/xadisk_hash.c: buckets of sorted chains. */
module BlockHash {
  import opened Bits
  import opened Common
  import opened DirNames

  /** A watched block; `id` stands for the address of the node. */
  class BlockNode {
    const id: nat
    const block: uint32
    const path: string
    var dir: seq<DirEntry>
    var next: BlockNode?

    constructor (id: nat, block: uint32, path: string, dir: seq<DirEntry>)
      ensures this.id == id && this.block == block && this.path == path && this.dir == dir
    {
      this.id, this.block, this.path, this.dir, next := id, block, path, dir, null;
    }
  }

  // ----- chains

  predicate SortedChain(s: seq<BlockNode>) {
    forall i, j :: 0 <= i < j < |s| ==> s[i].block <= s[j].block
  }

  predicate Distinct(s: seq<BlockNode>) {
    forall i, j :: 0 <= i < j < |s| ==> s[i] != s[j]
  }

  /** The nodes of a block, the most recently inserted first. */
  function StackOf(s: seq<BlockNode>, block: uint32): seq<BlockNode> {
    if s == [] then []
    else if s[0].block == block then [s[0]] + StackOf(s[1..], block)
    else StackOf(s[1..], block)
  }

  function NotBelow(block: uint32): BlockNode -> bool {
    (n: BlockNode) => n.block >= block
  }

  /** Where the scans of the chain stop. */
  function Place(s: seq<BlockNode>, block: uint32): (k: nat)
    ensures k <= |s|
  {
    First(s, NotBelow(block))
  }

  function Inserted(s: seq<BlockNode>, b: BlockNode): seq<BlockNode> {
    InsertedAt(s, b, Place(s, b.block))
  }

  function Removed(s: seq<BlockNode>, block: uint32): seq<BlockNode> {
    var k := Place(s, block);
    if k < |s| && s[k].block == block then Without(s, k) else s
  }

  lemma {:induction false} StackOfConcat(s: seq<BlockNode>, t: seq<BlockNode>, block: uint32)
    ensures StackOf(s + t, block) == StackOf(s, block) + StackOf(t, block)
  {
    if s == [] {
      assert s + t == t;
    } else {
      StackOfConcat(s[1..], t, block);
      assert (s + t)[1..] == s[1..] + t;
    }
  }

  lemma {:induction false} StackOfNone(s: seq<BlockNode>, block: uint32)
    requires forall i :: 0 <= i < |s| ==> s[i].block != block
    ensures StackOf(s, block) == []
  {
    if s != [] {
      StackOfNone(s[1..], block);
    }
  }

  lemma PlaceSplits(s: seq<BlockNode>, block: uint32)
    requires SortedChain(s)
    ensures Splits(s, block, Place(s, block))
  {
    var k := Place(s, block);
    assert forall i :: 0 <= i < k ==> !NotBelow(block)(s[i]);
  }

  lemma StackOfHead(s: seq<BlockNode>, block: uint32)
    requires SortedChain(s) && (forall i :: 0 <= i < |s| ==> s[i].block >= block)
    ensures StackOf(s, block) != [] <==> s != [] && s[0].block == block
    ensures StackOf(s, block) != [] ==> StackOf(s, block)[0] == s[0]
  {
    if s != [] && s[0].block > block {
      StackOfNone(s, block);
    }
  }

  /** The nodes before k are below the block, the others are not. */
  predicate Splits(s: seq<BlockNode>, block: uint32, k: nat) {
    && k <= |s|
    && (forall i :: 0 <= i < k ==> s[i].block < block)
    && (forall i :: k <= i < |s| ==> s[i].block >= block)
  }

  lemma StackAt(s: seq<BlockNode>, block: uint32, k: nat)
    requires SortedChain(s) && Splits(s, block, k)
    ensures StackOf(s, block) == StackOf(s[k..], block)
    ensures StackOf(s, block) != [] <==> k < |s| && s[k].block == block
    ensures StackOf(s, block) != [] ==> StackOf(s, block)[0] == s[k]
  {
    var l, r := s[..k], s[k..];
    assert s == l + r;
    StackOfConcat(l, r, block);
    StackOfNone(l, block);
    StackOfHead(r, block);
  }

  /** The stack of a block starts where the scan for it stops. */
  lemma StackAtPlace(s: seq<BlockNode>, block: uint32)
    requires SortedChain(s)
    ensures var k := Place(s, block);
      && (StackOf(s, block) != [] <==> k < |s| && s[k].block == block)
      && (StackOf(s, block) != [] ==> StackOf(s, block)[0] == s[k])
  {
    PlaceSplits(s, block);
    StackAt(s, block, Place(s, block));
  }

  function InsertedAt(s: seq<BlockNode>, b: BlockNode, k: nat): (r: seq<BlockNode>)
    requires k <= |s|
    ensures |r| == |s| + 1 && r[k] == b
    ensures forall i :: 0 <= i < k ==> r[i] == s[i]
    ensures forall i :: k < i < |r| ==> r[i] == s[i - 1]
  {
    s[..k] + [b] + s[k..]
  }

  lemma InsertKeepsSorted(s: seq<BlockNode>, b: BlockNode, k: nat)
    requires SortedChain(s) && Splits(s, b.block, k)
    ensures SortedChain(InsertedAt(s, b, k))
  {
  }

  lemma InsertKeepsDistinct(s: seq<BlockNode>, b: BlockNode, k: nat)
    requires Distinct(s) && b !in s && k <= |s|
    ensures Distinct(InsertedAt(s, b, k))
  {
    var r := InsertedAt(s, b, k);
    assert forall i :: 0 <= i < |r| && i != k ==> r[i] in s;
  }

  lemma StackOfThree(l: seq<BlockNode>, b: BlockNode, r: seq<BlockNode>, block: uint32)
    ensures StackOf(l + [b] + r, block)
         == StackOf(l, block) + (if b.block == block then [b] else []) + StackOf(r, block)
  {
    StackOfConcat(l + [b], r, block);
    StackOfConcat(l, [b], block);
    assert [b][1..] == [];
  }

  lemma InsertPushesAt(s: seq<BlockNode>, b: BlockNode, k: nat, block: uint32)
    requires Splits(s, b.block, k)
    ensures StackOf(InsertedAt(s, b, k), block)
         == if block == b.block then [b] + StackOf(s, block) else StackOf(s, block)
  {
    var l, r := s[..k], s[k..];
    assert s == l + r;
    StackOfConcat(l, r, block);
    StackOfThree(l, b, r, block);
    if block == b.block {
      StackOfNone(l, block);
    }
  }

  /** Insertion pushes on the stack of its block and leaves the others alone. */
  lemma InsertPushes(s: seq<BlockNode>, b: BlockNode, block: uint32)
    requires SortedChain(s)
    ensures SortedChain(Inserted(s, b))
    ensures StackOf(Inserted(s, b), block) == if block == b.block then [b] + StackOf(s, block) else StackOf(s, block)
  {
    PlaceSplits(s, b.block);
    InsertKeepsSorted(s, b, Place(s, b.block));
    InsertPushesAt(s, b, Place(s, b.block), block);
  }

  lemma RemovePopsAt(s: seq<BlockNode>, k: nat, block: uint32)
    requires k < |s| && Splits(s, s[k].block, k)
    ensures block == s[k].block ==> StackOf(s, block) != []
    ensures StackOf(Without(s, k), block) == if block == s[k].block then StackOf(s, block)[1..] else StackOf(s, block)
  {
    var l, r := s[..k], s[k + 1..];
    assert s == l + [s[k]] + r && Without(s, k) == l + r;
    StackOfThree(l, s[k], r, block);
    StackOfConcat(l, r, block);
    if block == s[k].block {
      StackOfNone(l, block);
    }
  }

  /** Removal pops the stack of its block and leaves the others alone. */
  lemma RemovePops(s: seq<BlockNode>, victim: uint32, block: uint32)
    requires SortedChain(s)
    ensures SortedChain(Removed(s, victim))
    ensures StackOf(Removed(s, victim), block)
         == if block == victim && StackOf(s, block) != [] then StackOf(s, block)[1..] else StackOf(s, block)
  {
    PlaceSplits(s, victim);
    StackAtPlace(s, victim);
    var k := Place(s, victim);
    if k < |s| && s[k].block == victim {
      RemovePopsAt(s, k, block);
    }
  }

  // ----- one bucket

  class Bucket {
    var active: byte
    var list: BlockNode?
    ghost var chain: seq<BlockNode>

    /** The nodes are linked in the order of the chain. */
    ghost predicate Linked()
      reads this, chain`next
    {
      && (if chain == [] then list == null else list == chain[0] && chain[|chain| - 1].next == null)
      && (forall i {:trigger chain[i].next} :: 0 <= i < |chain| - 1 ==> chain[i].next == chain[i + 1])
    }

    /** The chain is linked, sorted, and `active` is 0 exactly when it is empty. */
    ghost predicate Valid()
      reads this, chain`next
    {
      && Linked()
      && SortedChain(chain) && Distinct(chain)
      && (active == 0 <==> chain == [])
    }

    constructor ()
      ensures Valid() && chain == []
    {
      active, list, chain := 0, null, [];
    }

    /** The scan that all three operations start with: `prev` is null at the head. */
    method Scan(block: uint32) returns (prev: BlockNode?, q: BlockNode?, ghost k: nat)
      requires Linked()
      ensures k == Place(chain, block)
      ensures q == if k < |chain| then chain[k] else null
      ensures prev == if k > 0 then chain[k - 1] else null
    {
      prev, q, k := null, list, 0;
      while q != null && q.block < block
        invariant 0 <= k <= |chain|
        invariant q == if k < |chain| then chain[k] else null
        invariant prev == if k > 0 then chain[k - 1] else null
        invariant forall i :: 0 <= i < k ==> !NotBelow(block)(chain[i])
        decreases |chain| - k
      {
        prev, q, k := q, q.next, k + 1;
      }
      FirstIs(chain, NotBelow(block), k);
    }

    method LinkAt(prev: BlockNode?, q: BlockNode?, b: BlockNode, ghost k: nat)
      requires Linked() && Distinct(chain) && b !in chain && k <= |chain|
      requires q == if k < |chain| then chain[k] else null
      requires prev == if k > 0 then chain[k - 1] else null
      modifies this`list, this`chain, chain`next, b`next
      ensures Linked() && chain == InsertedAt(old(chain), b, k)
    {
      if prev == null {
        list := b;
      } else {
        prev.next := b;
      }
      b.next := q;
      chain := InsertedAt(chain, b, k);
    }

    method Insert(b: BlockNode)
      requires Valid() && b !in chain
      modifies this, chain`next, b`next
      ensures Valid() && chain == Inserted(old(chain), b)
    {
      active := 0xFF;
      var prev, q, k := Scan(b.block);
      PlaceSplits(chain, b.block);
      InsertKeepsSorted(chain, b, k);
      InsertKeepsDistinct(chain, b, k);
      LinkAt(prev, q, b, k);
    }

    method UnlinkAt(prev: BlockNode?, q: BlockNode, ghost k: nat)
      requires Linked() && Distinct(chain) && k < |chain| && q == chain[k]
      requires prev == if k > 0 then chain[k - 1] else null
      modifies this`list, this`chain, chain`next
      ensures Linked() && chain == Without(old(chain), k)
    {
      assert q.next == if k + 1 < |chain| then chain[k + 1] else null;
      if prev == null {
        list := q.next;
      } else {
        prev.next := q.next;
      }
      chain := Without(chain, k);
    }

    method Remove(block: uint32)
      requires Valid()
      modifies this, chain`next
      ensures Valid() && chain == Removed(old(chain), block)
    {
      var prev, q, k := Scan(block);
      if q != null && q.block == block {
        UnlinkAt(prev, q, k);
      }
      if list == null {
        active := 0;
      }
    }

    /** The top of the block's stack; `active` spares the scan of an empty chain. */
    method Check(block: uint32) returns (b: BlockNode?)
      requires Valid()
      ensures b == if StackOf(chain, block) == [] then null else StackOf(chain, block)[0]
    {
      StackAtPlace(chain, block);
      if active == 0 {
        return null;
      }
      var prev, q, k := Scan(block);
      b := if q != null && q.block == block then q else null;
    }
  }

  // ----- the table

  /** The hash of the C code, for its table of 32768 buckets. */
  const HASH_SIZE: nat := 32768

  function HashBlock(block: uint32, size: nat): (h: nat)
    requires size > 0
    ensures h < size
  {
    block % size
  }

  /** Two blocks share a bucket if and only if they lie a multiple of the table size apart. */
  lemma SameBucketIff(a: uint32, b: uint32, size: nat)
    requires size > 0
    ensures HashBlock(a, size) == HashBlock(b, size) <==> exists k: int :: a == b + k * size
  {
    var x, y := a / size, b / size;
    assert a == x * size + HashBlock(a, size) && b == y * size + HashBlock(b, size);
    if HashBlock(a, size) == HashBlock(b, size) {
      assert (x - y) * size == x * size - y * size;
      assert a == b + (x - y) * size;
    }
    if k: int :| a == b + k * size {
      assert (y + k) * size == y * size + k * size;
      SameRest(a, size, x, HashBlock(a, size), y + k, HashBlock(b, size));
    }
  }

  lemma SameRest(a: nat, size: nat, x: int, r: nat, y: int, t: nat)
    requires a == x * size + r == y * size + t && r < size && t < size
    ensures r == t
  {
    assert (x - y) * size == t - r;
    FarMultiple(x - y, size);
  }

  // ----- whole runs

  datatype HashOp = Put(b: BlockNode) | Drop(block: uint32)

  function OpBlock(op: HashOp): uint32 {
    match op
    case Put(b) => b.block
    case Drop(block) => block
  }

  /** The chains after an operation. */
  function HashStep(chains: seq<seq<BlockNode>>, op: HashOp): (r: seq<seq<BlockNode>>)
    requires |chains| > 0
    ensures |r| == |chains|
  {
    var h := HashBlock(OpBlock(op), |chains|);
    chains[h := match op
                case Put(b) => Inserted(chains[h], b)
                case Drop(block) => Removed(chains[h], block)]
  }

  function HashRun(size: nat, ops: seq<HashOp>): (r: seq<seq<BlockNode>>)
    requires size > 0
    ensures |r| == size
  {
    if ops == [] then seq(size, _ => []) else HashStep(HashRun(size, ops[..|ops| - 1]), ops[|ops| - 1])
  }

  /** The nodes inserted for a block and not removed, the latest first: no table at all. */
  function Live(ops: seq<HashOp>, block: uint32): seq<BlockNode> {
    if ops == [] then []
    else
      var was, op := Live(ops[..|ops| - 1], block), ops[|ops| - 1];
      if OpBlock(op) != block then was
      else match op
        case Put(b) => [b] + was
        case Drop(_) => if was == [] then [] else was[1..]
  }

  predicate InOwnBucket(s: seq<BlockNode>, size: nat, h: nat)
    requires size > 0
  {
    forall n :: n in s ==> HashBlock(n.block, size) == h
  }

  /** Chains are sorted, and in their own bucket. */
  predicate ChainsOk(chains: seq<seq<BlockNode>>)
    requires |chains| > 0
  {
    forall h :: 0 <= h < |chains| ==> SortedChain(chains[h]) && InOwnBucket(chains[h], |chains|, h)
  }

  lemma StepKeepsChains(chains: seq<seq<BlockNode>>, op: HashOp)
    requires |chains| > 0 && ChainsOk(chains)
    ensures ChainsOk(HashStep(chains, op))
  {
    var s := chains[HashBlock(OpBlock(op), |chains|)];
    match op
    case Put(b) =>
      InsertPushes(s, b, 0);
      InsertedMembers(s, b);
    case Drop(block) =>
      RemovePops(s, block, 0);
      RemovedMembers(s, block);
  }

  lemma StepOnStack(chains: seq<seq<BlockNode>>, op: HashOp, block: uint32)
    requires |chains| > 0 && ChainsOk(chains)
    ensures
      var h := HashBlock(block, |chains|);
      var was := StackOf(chains[h], block);
      StackOf(HashStep(chains, op)[h], block) ==
      if OpBlock(op) != block then was
      else match op
        case Put(b) => [b] + was
        case Drop(_) => if was == [] then [] else was[1..]
  {
    var s := chains[HashBlock(OpBlock(op), |chains|)];
    match op
    case Put(b) => InsertPushes(s, b, block);
    case Drop(victim) => RemovePops(s, victim, block);
  }

  /** After any insertions and removals, the chains are sorted and in their own bucket, and what
      a look-up finds is the node inserted last and not removed, if there is one. */
  lemma {:induction false} RunRefinesStacks(size: nat, ops: seq<HashOp>, block: uint32)
    requires size > 0
    ensures ChainsOk(HashRun(size, ops))
    ensures
      var chain := HashRun(size, ops)[HashBlock(block, size)];
      var k := Place(chain, block);
      && StackOf(chain, block) == Live(ops, block)
      && (Live(ops, block) != [] <==> k < |chain| && chain[k].block == block)
      && (Live(ops, block) != [] ==> chain[k] == Live(ops, block)[0])
  {
    if ops != [] {
      var pre := ops[..|ops| - 1];
      RunRefinesStacks(size, pre, block);
      StepKeepsChains(HashRun(size, pre), ops[|ops| - 1]);
      StepOnStack(HashRun(size, pre), ops[|ops| - 1], block);
    }
    StackAtPlace(HashRun(size, ops)[HashBlock(block, size)], block);
  }

  lemma InsertedMembers(s: seq<BlockNode>, b: BlockNode)
    ensures forall n :: n in Inserted(s, b) ==> n == b || n in s
  {
  }

  lemma RemovedMembers(s: seq<BlockNode>, block: uint32)
    ensures forall n :: n in Removed(s, block) ==> n in s
  {
  }

  class HashTable {
    const buckets: seq<Bucket>
    ghost var nodes: set<BlockNode>

    /** Bucket i is valid and holds only nodes of its own hash. */
    ghost predicate BucketOk(i: nat)
      requires i < |buckets|
      reads this, buckets, nodes`next
    {
      && (forall n :: n in buckets[i].chain ==> n in nodes && HashBlock(n.block, |buckets|) == i)
      && buckets[i].Valid()
    }

    ghost predicate Valid()
      reads this, buckets, nodes`next
    {
      && |buckets| > 0
      && (forall i :: 0 <= i < |buckets| ==> BucketOk(i))
      && (forall i, j :: 0 <= i < j < |buckets| ==> buckets[i] != buckets[j])
    }

    /** The watches of a block, the most recent first. */
    ghost function Stack(block: uint32): seq<BlockNode>
      requires |buckets| > 0
      reads buckets
    {
      StackOf(buckets[HashBlock(block, |buckets|)].chain, block)
    }

    constructor ()
      ensures Valid() && |buckets| == 32768 && nodes == {} && fresh(buckets)
      ensures forall block: uint32 :: Stack(block) == []
    {
      var made: seq<Bucket> := [];
      while |made| < HASH_SIZE
        invariant |made| <= HASH_SIZE && fresh(made)
        invariant forall i :: 0 <= i < |made| ==> made[i].Valid() && made[i].chain == []
        invariant forall i, j :: 0 <= i < j < |made| ==> made[i] != made[j]
      {
        var b := new Bucket();
        made := made + [b];
      }
      buckets, nodes := made, {};
    }

    method CheckHash(block: uint32) returns (b: BlockNode?)
      requires Valid()
      ensures b == if Stack(block) == [] then null else Stack(block)[0]
    {
      var h := HashBlock(block, |buckets|);
      assert BucketOk(h);
      b := buckets[h].Check(block);
    }

    method InsertRaw(b: BlockNode, h: nat)
      requires |buckets| > 0 && h == HashBlock(b.block, |buckets|) && BucketOk(h) && b !in nodes
      modifies this`nodes, buckets[h], nodes`next, b`next
      ensures nodes == old(nodes) + {b} && BucketOk(h)
      ensures buckets[h].chain == Inserted(old(buckets[h].chain), b)
      ensures forall n :: n in old(nodes) && n !in old(buckets[h].chain) ==> n.next == old(n.next)
    {
      ghost var was := buckets[h].chain;
      buckets[h].Insert(b);
      nodes := nodes + {b};
      InsertedMembers(was, b);
    }

    method RemoveRaw(block: uint32, h: nat)
      requires |buckets| > 0 && h == HashBlock(block, |buckets|) && BucketOk(h)
      modifies buckets[h], nodes`next
      ensures BucketOk(h) && buckets[h].chain == Removed(old(buckets[h].chain), block)
      ensures forall n :: n in old(nodes) && n !in old(buckets[h].chain) ==> n.next == old(n.next)
    {
      ghost var was := buckets[h].chain;
      buckets[h].Remove(block);
      RemovedMembers(was, block);
    }

    method InsertInBucket(b: BlockNode, h: nat)
      requires Valid() && h == HashBlock(b.block, |buckets|) && b !in nodes
      modifies this`nodes, buckets[h], nodes`next, b`next
      ensures Valid() && nodes == old(nodes) + {b}
      ensures buckets[h].chain == Inserted(old(buckets[h].chain), b)
    {
      assert BucketOk(h);
      ghost var was := buckets[h].chain;
      InsertRaw(b, h);
      forall i | 0 <= i < |buckets| && i != h
        ensures BucketOk(i)
      {
        assert old(BucketOk(i));
        assert forall n :: n in buckets[i].chain ==> n !in was;
      }
    }

    method RemoveFromBucket(block: uint32, h: nat)
      requires Valid() && h == HashBlock(block, |buckets|)
      modifies buckets[h], nodes`next
      ensures Valid() && buckets[h].chain == Removed(old(buckets[h].chain), block)
    {
      assert BucketOk(h);
      ghost var was := buckets[h].chain;
      RemoveRaw(block, h);
      forall i | 0 <= i < |buckets| && i != h
        ensures BucketOk(i)
      {
        assert old(BucketOk(i));
        assert forall n :: n in buckets[i].chain ==> n !in was;
      }
    }

    /** Pushes on the stack of its own block and leaves every other stack alone. */
    method InsertHash(b: BlockNode)
      requires Valid() && b !in nodes
      modifies this`nodes, buckets, nodes`next, b`next
      ensures Valid() && nodes == old(nodes) + {b}
      ensures forall block: uint32 ::
        Stack(block) == if block == b.block then [b] + old(Stack(block)) else old(Stack(block))
    {
      var h := HashBlock(b.block, |buckets|);
      assert BucketOk(h);
      forall block: uint32 {
        InsertPushes(buckets[h].chain, b, block);
      }
      InsertInBucket(b, h);
    }

    /** Pops the stack of the block, if it has one, and leaves every other stack alone. */
    method RemoveHash(victim: uint32)
      requires Valid()
      modifies buckets, nodes`next
      ensures Valid()
      ensures forall block: uint32 ::
        Stack(block) == if block == victim && old(Stack(block)) != [] then old(Stack(block))[1..] else old(Stack(block))
    {
      var h := HashBlock(victim, |buckets|);
      assert BucketOk(h);
      forall block: uint32 {
        RemovePops(buckets[h].chain, victim, block);
      }
      RemoveFromBucket(victim, h);
    }
  }
}
