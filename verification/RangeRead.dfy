/** The range read of libxa/tools/pyxa/pyxafs.py: physical memory read page by page. */
module RangeRead {
  import opened Bits
  import opened Common

  /** Physical memory: which pages can be mapped, and every byte. */
  datatype Memory = Memory(readable: nat -> bool, bytes: nat -> byte)

  /** The address that the extension module takes from its argument: 32 bits of it. */
  function Addr32(addr: nat): nat {
    addr % 0x1_0000_0000
  }

  function Readable(m: Memory, addr: nat): bool {
    m.readable(addr % 0x1_0000_0000 / 0x1000)
  }

  function Zeros(n: nat): (r: seq<byte>)
    ensures |r| == n
    ensures forall i :: 0 <= i < n ==> r[i] == 0
  {
    seq<byte>(n, _ => 0)
  }

  /** `pyxa_read`: from the address to the end of its page; None stands for ValueError. */
  function ReadPage(m: Memory, addr: nat): Option<seq<byte>> {
    var a := Addr32(addr);
    if m.readable(a / 0x1000) then Some(seq<byte>(0x1000 - a % 0x1000, i requires 0 <= i => m.bytes(a + i))) else None
  }

  /** One byte of memory, which ends at 4 GB and starts again; 0 where nothing can be mapped. */
  function ByteAt(m: Memory, addr: nat): byte {
    if Readable(m, addr) then m.bytes(addr % 0x1_0000_0000) else 0
  }

  /** Memory as a flat sequence. */
  function Flat(m: Memory, addr: nat, length: nat): (r: seq<byte>)
    ensures |r| == length
    ensures forall i :: 0 <= i < length ==> r[i] == ByteAt(m, addr + i)
  {
    seq<byte>(length, i requires 0 <= i => ByteAt(m, addr + i))
  }

  function FirstBlock(addr: nat): nat {
    0x1000 - addr % 0x1000
  }

  lemma FlatConcat(m: Memory, addr: nat, a: nat, b: nat)
    ensures Flat(m, addr, a) + Flat(m, addr + a, b) == Flat(m, addr, a + b)
  {
    var l, r := Flat(m, addr, a) + Flat(m, addr + a, b), Flat(m, addr, a + b);
    forall i | 0 <= i < |l|
      ensures l[i] == r[i]
    {
      if i >= a {
        assert addr + a + (i - a) == addr + i;
      }
    }
  }

  lemma FlatPrefix(m: Memory, addr: nat, n: nat, k: nat)
    requires k <= n
    ensures Flat(m, addr, n)[..k] == Flat(m, addr, k)
  {
  }

  lemma LowBits(addr: nat)
    ensures Addr32(addr) % 0x1000 == addr % 0x1000
  {
    assert addr == 0x1_0000_0000 * (addr / 0x1_0000_0000) + Addr32(addr);
  }

  lemma NoWrap(a: nat, i: nat)
    requires a < 0x1_0000_0000 && a % 0x1000 + i < 0x1000
    ensures a + i < 0x1_0000_0000 && (a + i) / 0x1000 == a / 0x1000
  {
    assert a + i == 0x1000 * (a / 0x1000) + (a % 0x1000 + i);
  }

  /** An address that does not leave the page stays in it, also in 32 bits. */
  lemma InPage(addr: nat, i: nat)
    requires i < FirstBlock(addr)
    ensures Addr32(addr + i) == Addr32(addr) + i
    ensures Addr32(addr + i) / 0x1000 == Addr32(addr) / 0x1000
    ensures FirstBlock(addr) == 0x1000 - Addr32(addr) % 0x1000
  {
    LowBits(addr);
    NoWrap(Addr32(addr), i);
    ModUnique(addr + i, 0x1_0000_0000, addr / 0x1_0000_0000, Addr32(addr) + i);
  }

  /** A page that can be read gives its flat bytes; one that cannot has flat bytes of zero. */
  lemma PageIsFlat(m: Memory, addr: nat)
    ensures match ReadPage(m, addr)
      case Some(s) => Readable(m, addr) && s == Flat(m, addr, FirstBlock(addr))
      case None => !Readable(m, addr) && Flat(m, addr, FirstBlock(addr)) == Zeros(FirstBlock(addr))
  {
    InPage(addr, 0);
    var flat := Flat(m, addr, FirstBlock(addr));
    forall i | 0 <= i < FirstBlock(addr)
      ensures flat[i] == if Readable(m, addr) then m.bytes(Addr32(addr) + i) else 0
    {
      InPage(addr, i);
    }
  }

  /** The read with its error path: a full page of zeros. */
  method ReadOrZeros(m: Memory, addr: nat) returns (s: seq<byte>)
    ensures s == if Readable(m, addr) then Flat(m, addr, FirstBlock(addr)) else Zeros(0x1000)
    ensures addr % 0x1000 == 0 ==> s == Flat(m, addr, 0x1000)
  {
    PageIsFlat(m, addr);
    var r := ReadPage(m, addr);
    match r {
      case Some(b) => s := b;
      case None => s := Zeros(0x1000);
    }
  }

  /** What the read has too much of at its start. */
  function Excess(m: Memory, addr: nat, length: nat): nat {
    if length >= FirstBlock(addr) && !Readable(m, addr) then addr % 0x1000 else 0
  }

  /** The bytes in excess are all that can be wrong. */
  lemma ExcessIff(m: Memory, addr: nat, length: nat)
    ensures Zeros(Excess(m, addr, length)) + Flat(m, addr, length) == Flat(m, addr, length)
       <==> Readable(m, addr) || addr % 0x1000 == 0 || length < FirstBlock(addr)
  {
    var n := Excess(m, addr, length);
    assert |Zeros(n) + Flat(m, addr, length)| == n + length;
    assert n == 0 ==> Zeros(n) + Flat(m, addr, length) == Flat(m, addr, length);
  }

  /** The first block, the full blocks and the rest make up the length. */
  lemma Pieces(addr: nat, length: nat)
    requires length >= FirstBlock(addr)
    ensures (length + addr % 0x1000) / 0x1000 - 1 >= 0
    ensures FirstBlock(addr) + 0x1000 * ((length + addr % 0x1000) / 0x1000 - 1) + (length + addr) % 0x1000 == length
  {
    var k := addr / 0x1000;
    assert length + addr == length + addr % 0x1000 + 0x1000 * k;
    assert (length + addr) % 0x1000 == (length + addr % 0x1000) % 0x1000;
  }

  lemma Associate(a: seq<byte>, b: seq<byte>, c: seq<byte>)
    ensures (a + b) + c == a + (b + c)
  {
  }

  /** A page, or a part of it, behind what has been read. */
  method ReadMore(m: Memory, addr: nat, n: nat, k: nat, r: seq<byte>, ghost extra: seq<byte>) returns (s: seq<byte>)
    requires r == extra + Flat(m, addr, n) && (addr + n) % 0x1000 == 0 && k <= 0x1000
    ensures s == extra + Flat(m, addr, n + k)
  {
    var page := ReadOrZeros(m, addr + n);
    FlatPrefix(m, addr + n, 0x1000, k);
    FlatConcat(m, addr, n, k);
    Associate(extra, Flat(m, addr, n), Flat(m, addr + n, k));
    s := r + page[..k];
  }

  /** The first read, to the end of the page. */
  method ReadFirst(m: Memory, addr: nat, length: nat) returns (r: seq<byte>)
    requires length >= FirstBlock(addr)
    ensures r == Zeros(Excess(m, addr, length)) + Flat(m, addr, FirstBlock(addr))
  {
    PageIsFlat(m, addr);
    r := ReadOrZeros(m, addr);
  }

  /** A read that ends before the page does. */
  method ReadWithin(m: Memory, addr: nat, length: nat) returns (r: seq<byte>)
    requires length < FirstBlock(addr)
    ensures r == Zeros(Excess(m, addr, length)) + Flat(m, addr, length)
  {
    PageIsFlat(m, addr);
    r := ReadOrZeros(m, addr);
    FlatPrefix(m, addr, FirstBlock(addr), length);
    r := r[..length];
  }

  /** The full pages behind the first block. */
  method ReadFull(m: Memory, addr: nat, first: nat, blocks: nat, start: seq<byte>, ghost extra: seq<byte>)
    returns (r: seq<byte>)
    requires start == extra + Flat(m, addr, first) && (addr + first) % 0x1000 == 0
    ensures r == extra + Flat(m, addr, first + 0x1000 * blocks)
  {
    r := start;
    var n, i := first, 0;
    while i < blocks
      invariant 0 <= i <= blocks && n == first + 0x1000 * i && (addr + n) % 0x1000 == 0
      invariant r == extra + Flat(m, addr, n)
    {
      r := ReadMore(m, addr, n, 0x1000, r, extra);
      n := n + 0x1000;
      i := i + 1;
    }
  }

  lemma FirstBlockEnds(addr: nat, blocks: nat)
    ensures (addr + FirstBlock(addr) + 0x1000 * blocks) % 0x1000 == 0
  {
    ModUnique(addr + FirstBlock(addr) + 0x1000 * blocks, 0x1000, addr / 0x1000 + 1 + blocks, 0);
  }

  /** `zread`: the flat bytes, after as many zeros as there are in excess. */
  method ZRead(m: Memory, addr: nat, length: nat) returns (r: seq<byte>)
    ensures r == Zeros(Excess(m, addr, length)) + Flat(m, addr, length)
    ensures r == Flat(m, addr, length) <==> Readable(m, addr) || addr % 0x1000 == 0 || length < FirstBlock(addr)
  {
    var firstBlock := FirstBlock(addr);
    ExcessIff(m, addr, length);
    if length < firstBlock {
      r := ReadWithin(m, addr, length);
      return;
    }
    Pieces(addr, length);
    var fullBlocks: nat := (length + addr % 0x1000) / 0x1000 - 1;
    var leftOver := (length + addr) % 0x1000;
    ghost var extra := Zeros(Excess(m, addr, length));
    r := ReadFirst(m, addr, length);
    FirstBlockEnds(addr, 0);
    r := ReadFull(m, addr, firstBlock, fullBlocks, r, extra);
    if leftOver > 0 {
      FirstBlockEnds(addr, fullBlocks);
      r := ReadMore(m, addr, firstBlock + 0x1000 * fullBlocks, leftOver, r, extra);
    }
  }

  /** Where nothing can be read, 0xFFF bytes from address 1 come out as 0x1000. */
  method TooLong(m: Memory) returns (r: seq<byte>)
    requires !Readable(m, 1)
    ensures |r| == 0x1000
  {
    r := ZRead(m, 1, 0xFFF);
  }
}
