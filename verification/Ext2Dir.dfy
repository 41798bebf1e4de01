/** ext2 directory blocks: the parser of libxadisk/xadisk_parse.c and the entry search of
    libxadisk/xadisk_linux_ext2.c, against an encoder of directory records. */
module Ext2Dir {
  import opened Bits
  import opened Common
  import opened DirNames

  type Block = seq<byte>

  // ----- the field getters

  /** A little-endian word of four bytes. */
  function U32(b0: nat, b1: nat, b2: nat, b3: nat): nat {
    b0 + 0x100 * b1 + 0x1_0000 * b2 + 0x100_0000 * b3
  }

  function GetInode(b: Block, pos: nat): uint32
    requires pos + 8 <= |b|
  {
    U32(b[pos], b[pos + 1], b[pos + 2], b[pos + 3])
  }

  function GetRecLen(b: Block, pos: nat): nat
    requires pos + 8 <= |b|
  {
    U32(b[pos + 4], b[pos + 5], 0, 0)
  }

  function GetNameLen(b: Block, pos: nat): byte
    requires pos + 8 <= |b|
  {
    b[pos + 6]
  }

  function GetType(b: Block, pos: nat): byte
    requires pos + 8 <= |b|
  {
    b[pos + 7]
  }

  /** The header and the name of the record at `pos` lie in the block, and it has a length. */
  predicate RecordAt(b: Block, pos: nat) {
    pos + 8 <= |b| && pos + 8 + GetNameLen(b, pos) <= |b| && GetRecLen(b, pos) > 0
  }

  function RawName(b: Block, pos: nat): seq<byte>
    requires RecordAt(b, pos)
  {
    b[pos + 8..pos + 8 + GetNameLen(b, pos)]
  }

  /** From `pos` on, the block is a sequence of records. */
  predicate Walkable(b: Block, pos: nat)
    decreases |b| - pos
  {
    pos >= |b| || (RecordAt(b, pos) && Walkable(b, pos + GetRecLen(b, pos)))
  }

  function Positions(b: Block, pos: nat): seq<nat>
    requires Walkable(b, pos)
    decreases |b| - pos
  {
    if pos >= |b| then [] else [pos] + Positions(b, pos + GetRecLen(b, pos))
  }

  /** The C string in a buffer: up to the first NUL. */
  function CString(s: seq<byte>): Name {
    if s == [] || s[0] == 0 then [] else [s[0]] + CString(s[1..])
  }

  function EntryAt(b: Block, pos: nat): DirEntry
    requires RecordAt(b, pos)
  {
    DirEntry(GetInode(b, pos), GetType(b, pos), CString(RawName(b, pos)))
  }

  function Parse(b: Block, pos: nat): seq<DirEntry>
    requires Walkable(b, pos)
    decreases |b| - pos
  {
    if pos >= |b| then [] else [EntryAt(b, pos)] + Parse(b, pos + GetRecLen(b, pos))
  }

  lemma Shift<T>(s: seq<T>, x: T, t: seq<T>)
    ensures s + ([x] + t) == (s + [x]) + t
  {
  }

  /** `parse_block_dir`: fills the table from the first record to the last. */
  method ParseBlockDir(b: Block, table: array<DirEntry>) returns (size: nat)
    requires Walkable(b, 0) && |Parse(b, 0)| <= table.Length
    modifies table
    ensures size == |Parse(b, 0)| && table[..size] == Parse(b, 0)
  {
    var pos := 0;
    size := 0;
    ghost var done: seq<DirEntry> := [];
    while pos < |b|
      invariant Walkable(b, pos) && size <= table.Length
      invariant done == table[..size] && done + Parse(b, pos) == Parse(b, 0)
      decreases |b| - pos
    {
      var e := EntryAt(b, pos);
      Shift(done, e, Parse(b, pos + GetRecLen(b, pos)));
      table[size] := e;
      size := size + 1;
      done := done + [e];
      pos := pos + GetRecLen(b, pos);
    }
  }

  // ----- the encoder

  datatype Record = Record(inode: uint32, kind: byte, name: seq<byte>, padding: seq<byte>)

  predicate RecordOk(r: Record) {
    |r.name| < 0x100 && 8 + |r.name| + |r.padding| < 0x1_0000
  }

  function Header(inode: uint32, recLen: nat, nameLen: byte, kind: byte): seq<byte>
    requires recLen < 0x1_0000
  {
    [inode % 0x100, inode / 0x100 % 0x100, inode / 0x1_0000 % 0x100, inode / 0x100_0000,
     recLen % 0x100, recLen / 0x100, nameLen, kind]
  }

  function RecLen(r: Record): nat {
    8 + |r.name| + |r.padding|
  }

  function EncodeRecord(r: Record): (e: Block)
    requires RecordOk(r)
    ensures |e| == RecLen(r)
  {
    Header(r.inode, RecLen(r), |r.name|, r.kind) + (r.name + r.padding)
  }

  function EncodeBlock(rs: seq<Record>): Block
    requires forall i :: 0 <= i < |rs| ==> RecordOk(rs[i])
  {
    if rs == [] then [] else EncodeRecord(rs[0]) + EncodeBlock(rs[1..])
  }

  function EntryOf(r: Record): DirEntry {
    DirEntry(r.inode, r.kind, CString(r.name))
  }

  function EntriesOf(rs: seq<Record>): seq<DirEntry> {
    if rs == [] then [] else [EntryOf(rs[0])] + EntriesOf(rs[1..])
  }

  lemma Digits(x: uint32)
    ensures U32(x % 0x100, x / 0x100 % 0x100, x / 0x1_0000 % 0x100, x / 0x100_0000) == x
  {
  }

  /** The fields of a header that stands at `pos` of a block. */
  lemma HeaderFields(b: Block, pos: nat, inode: uint32, recLen: nat, nameLen: byte, kind: byte)
    requires recLen < 0x1_0000 && pos + 8 <= |b| && b[pos..pos + 8] == Header(inode, recLen, nameLen, kind)
    ensures GetInode(b, pos) == inode && GetType(b, pos) == kind
    ensures GetNameLen(b, pos) == nameLen && GetRecLen(b, pos) == recLen
  {
    var h := b[pos..pos + 8];
    assert forall i :: 0 <= i < 8 ==> b[pos + i] == h[i];
    Digits(inode);
  }

  lemma SliceOfSlice(b: Block, pos: nat, len: nat, lo: nat, hi: nat)
    requires lo <= hi <= len && pos + len <= |b|
    ensures b[pos..pos + len][lo..hi] == b[pos + lo..pos + hi]
  {
    var x, y := b[pos..pos + len][lo..hi], b[pos + lo..pos + hi];
    forall i | 0 <= i < |x|
      ensures x[i] == y[i]
    {
      assert b[pos..pos + len][lo + i] == b[pos + lo + i];
    }
  }

  lemma RecordParses(b: Block, pos: nat, r: Record)
    requires RecordOk(r) && pos + RecLen(r) <= |b| && b[pos..pos + RecLen(r)] == EncodeRecord(r)
    ensures RecordAt(b, pos) && RawName(b, pos) == r.name
    ensures EntryAt(b, pos) == EntryOf(r) && GetRecLen(b, pos) == RecLen(r)
  {
    var e := EncodeRecord(r);
    var w := b[pos..pos + RecLen(r)];
    SliceOfSlice(b, pos, RecLen(r), 0, 8);
    assert w[0..8] == Header(r.inode, RecLen(r), |r.name|, r.kind);
    HeaderFields(b, pos, r.inode, RecLen(r), |r.name|, r.kind);
    SliceOfSlice(b, pos, RecLen(r), 8, 8 + |r.name|);
    assert e[8..8 + |r.name|] == r.name;
  }

  lemma {:induction false} ParseRecords(b: Block, pos: nat, rs: seq<Record>)
    requires forall i :: 0 <= i < |rs| ==> RecordOk(rs[i])
    requires pos <= |b| && b[pos..] == EncodeBlock(rs)
    ensures Walkable(b, pos) && Parse(b, pos) == EntriesOf(rs)
    decreases |rs|
  {
    if rs != [] {
      var r := rs[0];
      var n := RecLen(r);
      var w, e, post := b[pos..], EncodeRecord(r), EncodeBlock(rs[1..]);
      assert w == e + post;
      SliceOfSlice(b, pos, |w|, 0, n);
      SliceOfSlice(b, pos, |w|, n, |w|);
      assert b[pos..pos + |w|] == w && w[0..n] == e && w[n..|w|] == post;
      RecordParses(b, pos, r);
      ParseRecords(b, pos + n, rs[1..]);
    }
  }

  /** The parser inverts the encoder. */
  lemma ParseInvertsEncode(rs: seq<Record>)
    requires forall i :: 0 <= i < |rs| ==> RecordOk(rs[i])
    ensures Walkable(EncodeBlock(rs), 0)
    ensures Parse(EncodeBlock(rs), 0) == EntriesOf(rs)
  {
    ParseRecords(EncodeBlock(rs), 0, rs);
  }

  // ----- the search for an entry

  /** strncmp(a, b, n) == 0 for buffers of n bytes: equal, or equal up to a NUL in both. */
  predicate StrnEqual(a: seq<byte>, b: seq<byte>)
    requires |a| == |b|
  {
    a == [] || (a[0] == b[0] && (a[0] == 0 || StrnEqual(a[1..], b[1..])))
  }

  /** The comparison is that of the C strings in the buffers. */
  lemma {:induction false} StrnEqualIff(a: seq<byte>, b: seq<byte>)
    requires |a| == |b|
    ensures StrnEqual(a, b) <==> CString(a) == CString(b)
  {
    if a != [] && a[0] == b[0] && a[0] != 0 {
      StrnEqualIff(a[1..], b[1..]);
      assert CString(a)[1..] == CString(a[1..]) && CString(b)[1..] == CString(b[1..]);
    } else if a != [] && a[0] != b[0] {
      assert CString(a) != [] ==> CString(a)[0] == a[0];
      assert CString(b) != [] ==> CString(b)[0] == b[0];
    }
  }

  predicate NulFree(s: seq<byte>) {
    forall i :: 0 <= i < |s| ==> s[i] != 0
  }

  lemma {:induction false} StrnEqualNulFree(a: seq<byte>, b: seq<byte>)
    requires |a| == |b| && NulFree(b)
    ensures StrnEqual(a, b) <==> a == b
  {
    if a != [] {
      StrnEqualNulFree(a[1..], b[1..]);
      assert a == [a[0]] + a[1..] && b == [b[0]] + b[1..];
    }
  }

  predicate Hit(b: Block, pos: nat, query: seq<byte>)
    requires RecordAt(b, pos)
  {
    GetNameLen(b, pos) == |query| && StrnEqual(RawName(b, pos), query)
  }

  function Find(b: Block, pos: nat, query: seq<byte>): Option<nat>
    requires Walkable(b, pos)
    decreases |b| - pos
  {
    if pos >= |b| then None
    else if Hit(b, pos, query) then Some(pos)
    else Find(b, pos + GetRecLen(b, pos), query)
  }

  /** `xa_linux_ext2_finddir`. */
  method FindDir(b: Block, query: seq<byte>) returns (r: Option<nat>)
    requires Walkable(b, 0)
    ensures r == Find(b, 0, query)
  {
    var pos := 0;
    while pos < |b|
      invariant Walkable(b, pos) && Find(b, pos, query) == Find(b, 0, query)
      decreases |b| - pos
    {
      if Hit(b, pos, query) {
        return Some(pos);
      }
      pos := pos + GetRecLen(b, pos);
    }
    return None;
  }

  lemma {:induction false} CStringOf(s: seq<byte>)
    ensures |CString(s)| <= |s| && NulFree(CString(s))
    ensures |CString(s)| == |s| <==> CString(s) == s
    ensures NulFree(s) ==> CString(s) == s
  {
    if s != [] && s[0] != 0 {
      CStringOf(s[1..]);
      assert s == [s[0]] + s[1..];
    }
  }

  /** The search by the names in the parsed table: the first record whose entry has the name,
      whatever the length it is stored with. */
  function FindParsed(b: Block, pos: nat, query: seq<byte>): Option<nat>
    requires Walkable(b, pos)
    decreases |b| - pos
  {
    if pos >= |b| then None
    else if EntryAt(b, pos).name == query then Some(pos)
    else FindParsed(b, pos + GetRecLen(b, pos), query)
  }

  lemma HitIsName(b: Block, pos: nat, query: seq<byte>)
    requires RecordAt(b, pos) && NulFree(query)
    ensures Hit(b, pos, query) <==> EntryAt(b, pos).name == query && GetNameLen(b, pos) == |query|
  {
    var raw := RawName(b, pos);
    CStringOf(raw);
    if |raw| == |query| {
      StrnEqualNulFree(raw, query);
      CStringOf(query);
    }
  }

  /** The search agrees with a search of the parsed table if and only if the first entry of
      that name, if there is one, is stored with the length of the name. */
  lemma {:induction false} FindIffParsed(b: Block, pos: nat, query: seq<byte>)
    requires Walkable(b, pos) && NulFree(query)
    ensures var p := FindParsed(b, pos, query);
      && (p.Some? ==> RecordAt(b, p.value))
      && (Find(b, pos, query) == p <==> (p.Some? ==> GetNameLen(b, p.value) == |query|))
    ensures Find(b, pos, query).Some? ==>
      RecordAt(b, Find(b, pos, query).value) && Hit(b, Find(b, pos, query).value, query)
    decreases |b| - pos
  {
    if pos < |b| {
      HitIsName(b, pos, query);
      FindIffParsed(b, pos + GetRecLen(b, pos), query);
    }
  }

  function HasName(query: seq<byte>): DirEntry -> bool {
    (e: DirEntry) => e.name == query
  }

  lemma FirstOf(e: DirEntry, t: seq<DirEntry>, query: seq<byte>)
    ensures First([e] + t, HasName(query)) == if e.name == query then 0 else First(t, HasName(query)) + 1
  {
    assert ([e] + t)[1..] == t;
  }

  /** FindParsed is the first entry of the parsed table with the name. */
  lemma {:induction false} FindParsedIsFirst(b: Block, pos: nat, query: seq<byte>)
    requires Walkable(b, pos)
    ensures |Positions(b, pos)| == |Parse(b, pos)|
    ensures var k := First(Parse(b, pos), HasName(query));
      FindParsed(b, pos, query) == if k < |Parse(b, pos)| then Some(Positions(b, pos)[k]) else None
    decreases |b| - pos
  {
    if pos < |b| {
      var next := pos + GetRecLen(b, pos);
      FindParsedIsFirst(b, next, query);
      FirstOf(EntryAt(b, pos), Parse(b, next), query);
    }
  }

  /** The block of one record is the record. */
  lemma OneRecord(r: Record)
    requires RecordOk(r)
    ensures EncodeBlock([r]) == EncodeRecord(r) && Walkable(EncodeBlock([r]), 0)
    ensures RecordAt(EncodeBlock([r]), 0) && EntryAt(EncodeBlock([r]), 0) == EntryOf(r)
    ensures RawName(EncodeBlock([r]), 0) == r.name && GetRecLen(EncodeBlock([r]), 0) == |EncodeBlock([r])|
    ensures Parse(EncodeBlock([r]), 0) == [EntryOf(r)]
  {
    var b := EncodeBlock([r]);
    assert [r][1..] == [] && EntriesOf([r]) == [EntryOf(r)];
    assert b == EncodeRecord(r) + [] == EncodeRecord(r);
    assert b[0..|b|] == b;
    ParseInvertsEncode([r]);
    RecordParses(b, 0, r);
  }

  /** A record with the name "a" and a NUL, of length 2, that fills a block of any size: parsed
      as "a", but not found as "a". */
  lemma HiddenByNul(inode: uint32, kind: byte, padding: seq<byte>)
    requires RecordOk(Record(inode, kind, [97, 0], padding))
    ensures
      var b := EncodeBlock([Record(inode, kind, [97, 0], padding)]);
      && |b| == 10 + |padding| && Walkable(b, 0) && Parse(b, 0) == [DirEntry(inode, kind, [97])]
      && FindParsed(b, 0, [97]) == Some(0) && Find(b, 0, [97]) == None
  {
    var r := Record(inode, kind, [97, 0], padding);
    OneRecord(r);
    assert r.name[1..] == [0] && CString(r.name) == [97];
    HitIsName(EncodeBlock([r]), 0, [97]);
  }
}
