/** The words of the report.  A line says that a file or a directory has come or gone; replayed
    over names with their types, the report of a comparison leads to the new table exactly when no
    name that stays has changed its type. */
module TypedReport {
  import opened Bits
  import opened Common
  import opened DirNames
  import opened DirDiff

  /** The type that a word speaks of: 1 for a file, 2 for a directory. */
  function KindOf(op: Op): byte {
    match op
    case MkFile => 1
    case RmFile => 1
    case MkDir => 2
    case RmDir => 2
    case Unknown => 0
  }

  function Lines(ops: seq<DirOp>, op: Op, n: Name): nat {
    if ops == [] then 0 else (if ops[0] == DirOp(op, n) then 1 else 0) + Lines(ops[1..], op, n)
  }

  function Kinds(es: seq<DirEntry>, kind: byte): nat {
    if es == [] then 0 else (if es[0].kind == kind then 1 else 0) + Kinds(es[1..], kind)
  }

  predicate AllFileOrDir(es: seq<DirEntry>) {
    forall i :: 0 <= i < |es| ==> FileOrDir(es[i])
  }

  /** The lines about a name say what has come and gone. */
  ghost predicate Say(ops: seq<DirOp>, n: Name, gone: seq<DirEntry>, come: seq<DirEntry>) {
    && Lines(ops, RmFile, n) == Kinds(gone, 1) && Lines(ops, RmDir, n) == Kinds(gone, 2)
    && Lines(ops, MkFile, n) == Kinds(come, 1) && Lines(ops, MkDir, n) == Kinds(come, 2)
  }

  lemma SayMore(c: Change, unset: Op, ops: seq<DirOp>, n: Name, gone: seq<DirEntry>, come: seq<DirEntry>)
    requires Say(ops, n, gone, come) && (c.entry.name == n ==> Typed(c))
    ensures
      var g := if c.Removed? && c.entry.name == n then [c.entry] + gone else gone;
      var k := if c.Created? && c.entry.name == n then [c.entry] + come else come;
      Say([Encode(c, unset)] + ops, n, g, k)
  {
    assert ([Encode(c, unset)] + ops)[1..] == ops;
    assert ([c.entry] + gone)[1..] == gone && ([c.entry] + come)[1..] == come;
  }

  lemma {:induction false} ChangesSay(cs: seq<Change>, unset: seq<Op>, n: Name)
    requires |unset| >= |cs|
    requires AllFileOrDir(ReportedOf(cs, n, true)) && AllFileOrDir(ReportedOf(cs, n, false))
    ensures Say(EncodeAll(cs, unset), n, ReportedOf(cs, n, true), ReportedOf(cs, n, false))
  {
    if cs != [] {
      var c, rest := cs[0], cs[1..];
      var g, k := ReportedOf(rest, n, true), ReportedOf(rest, n, false);
      assert [] + g == g && [] + k == k;
      if c.entry.name == n {
        TypedHead(c.entry, if c.Removed? then g else k);
      }
      ChangesSay(rest, unset[1..], n);
      SayMore(c, unset[0], EncodeAll(rest, unset[1..]), n, g, k);
    }
  }

  lemma TypedHead(e: DirEntry, es: seq<DirEntry>)
    ensures AllFileOrDir([e] + es) ==> FileOrDir(e) && AllFileOrDir(es)
  {
    assert ([e] + es)[0] == e;
    assert forall i :: 0 <= i < |es| ==> es[i] == ([e] + es)[i + 1];
  }

  /** For any two tables and any name whose surplus entries are files and directories: as many lines
      say that a file of the name has gone as the surplus of the old table has files, and so on. */
  lemma ReportSays(a: seq<DirEntry>, b: seq<DirEntry>, unset: seq<Op>, n: Name)
    requires |Diff(Sort(a), Sort(b))| <= |unset|
    requires AllFileOrDir(Surplus(a, b, n)) && AllFileOrDir(Surplus(b, a, n))
    ensures Say(EncodeAll(Diff(Sort(a), Sort(b)), unset), n, Surplus(a, b, n), Surplus(b, a, n))
  {
    SortedDiffIsSurplus(a, b, n);
    ChangesSay(Diff(Sort(a), Sort(b)), unset, n);
  }

  // ----- replay over names with their types

  datatype Item = Item(name: Name, kind: byte)

  function Items(es: seq<DirEntry>): multiset<Item> {
    if es == [] then multiset{} else multiset{Item(es[0].name, es[0].kind)} + Items(es[1..])
  }

  function TypedEffect(m: multiset<Item>, o: DirOp): Option<multiset<Item>> {
    var i := Item(o.name, KindOf(o.op));
    if o.op.MkDir? || o.op.MkFile? then Some(m + multiset{i})
    else if o.op.Unknown? then Some(m)
    else if i in m then Some(m - multiset{i})
    else None
  }

  function TypedReplay(m: multiset<Item>, ops: seq<DirOp>): Option<multiset<Item>>
    decreases |ops|
  {
    if ops == [] then Some(m)
    else if TypedEffect(m, ops[0]).None? then None
    else TypedReplay(TypedEffect(m, ops[0]).value, ops[1..])
  }

  /** The lines that make an item, and those that unmake it. */
  function MadeItem(ops: seq<DirOp>, i: Item): nat {
    (if i.kind == 1 then Lines(ops, MkFile, i.name) else if i.kind == 2 then Lines(ops, MkDir, i.name) else 0)
  }

  function UnmadeItem(ops: seq<DirOp>, i: Item): nat {
    (if i.kind == 1 then Lines(ops, RmFile, i.name) else if i.kind == 2 then Lines(ops, RmDir, i.name) else 0)
  }

  lemma ItemCounts(o: DirOp, rest: seq<DirOp>, i: Item)
    ensures
      var here := i == Item(o.name, KindOf(o.op));
      && MadeItem([o] + rest, i) == MadeItem(rest, i) + (if here && (o.op.MkDir? || o.op.MkFile?) then 1 else 0)
      && UnmadeItem([o] + rest, i) == UnmadeItem(rest, i) + (if here && (o.op.RmDir? || o.op.RmFile?) then 1 else 0)
  {
    assert ([o] + rest)[1..] == rest;
  }

  /** What a replay leads to, when no item is both made and unmade, and all that is unmade is there. */
  lemma {:induction false} TypedReplayCounts(m: multiset<Item>, ops: seq<DirOp>)
    requires forall i: Item :: MadeItem(ops, i) == 0 || UnmadeItem(ops, i) == 0
    requires forall i: Item :: UnmadeItem(ops, i) <= m[i]
    ensures TypedReplay(m, ops).Some?
    ensures forall i: Item :: TypedReplay(m, ops).value[i] == m[i] + MadeItem(ops, i) - UnmadeItem(ops, i)
    decreases |ops|
  {
    if ops != [] {
      var o, rest := ops[0], ops[1..];
      assert ops == [o] + rest;
      forall i: Item
        ensures MadeItem(rest, i) <= MadeItem(ops, i) && UnmadeItem(rest, i) <= UnmadeItem(ops, i)
      {
        ItemCounts(o, rest, i);
      }
      ItemCounts(o, rest, Item(o.name, KindOf(o.op)));
      var e := TypedEffect(m, o);
      forall i: Item
        ensures e.Some? && UnmadeItem(rest, i) <= e.value[i]
        ensures e.value[i] + MadeItem(rest, i) - UnmadeItem(rest, i) == m[i] + MadeItem(ops, i) - UnmadeItem(ops, i)
      {
        ItemCounts(o, rest, i);
      }
      TypedReplayCounts(e.value, rest);
    }
  }

  // ----- counting items by name

  lemma {:induction false} KindsConcat(x: seq<DirEntry>, y: seq<DirEntry>, kind: byte)
    ensures Kinds(x + y, kind) == Kinds(x, kind) + Kinds(y, kind)
  {
    if x == [] {
      assert x + y == y;
    } else {
      KindsConcat(x[1..], y, kind);
      assert (x + y)[1..] == x[1..] + y;
    }
  }

  lemma {:induction false} ItemsOfName(es: seq<DirEntry>, n: Name, kind: byte)
    ensures Items(es)[Item(n, kind)] == Kinds(Named(es, n), kind)
  {
    if es != [] {
      ItemsOfName(es[1..], n, kind);
      NamedHead(es, n);
      KindsConcat(if es[0].name == n then [es[0]] else [], Named(es[1..], n), kind);
      assert [es[0]][1..] == [];
    }
  }

  /** The entries of a name that are paired with one of the other table. */
  function Paired(a: seq<DirEntry>, b: seq<DirEntry>, n: Name): seq<DirEntry> {
    var x, y := Named(a, n), Named(b, n);
    if |x| <= |y| then x else x[..|y|]
  }

  lemma PairedAndSurplus(a: seq<DirEntry>, b: seq<DirEntry>, n: Name, kind: byte)
    ensures Items(a)[Item(n, kind)] == Kinds(Paired(a, b, n), kind) + Kinds(Surplus(a, b, n), kind)
  {
    ItemsOfName(a, n, kind);
    assert Named(a, n) == Paired(a, b, n) + Surplus(a, b, n);
    KindsConcat(Paired(a, b, n), Surplus(a, b, n), kind);
  }

  /** No name that is in both tables has changed its types. */
  ghost predicate SameTypes(a: seq<DirEntry>, b: seq<DirEntry>) {
    forall n: Name, kind: byte :: Kinds(Paired(a, b, n), kind) == Kinds(Paired(b, a, n), kind)
  }

  lemma SurplusTypedAt(a: seq<DirEntry>, b: seq<DirEntry>, n: Name)
    requires SurplusTyped(a, b)
    ensures AllFileOrDir(Surplus(a, b, n))
  {
    NamedMembers(a, n);
    forall i | 0 <= i < |Surplus(a, b, n)|
      ensures FileOrDir(Surplus(a, b, n)[i])
    {
      var e := Surplus(a, b, n)[i];
      assert e in Named(a, n);
      var k :| 0 <= k < |a| && a[k] == e;
      assert e in Surplus(a, b, a[k].name);
    }
  }

  lemma {:induction false} NoKind(es: seq<DirEntry>, kind: byte)
    requires AllFileOrDir(es) && kind != 1 && kind != 2
    ensures Kinds(es, kind) == 0
  {
    if es != [] {
      NoKind(es[1..], kind);
    }
  }

  /** What the lines make and unmake are the surplus entries. */
  lemma ItemsReported(a: seq<DirEntry>, b: seq<DirEntry>, unset: seq<Op>, i: Item)
    requires |Diff(Sort(a), Sort(b))| <= |unset| && SurplusTyped(a, b) && SurplusTyped(b, a)
    ensures
      var ops := EncodeAll(Diff(Sort(a), Sort(b)), unset);
      && UnmadeItem(ops, i) == Kinds(Surplus(a, b, i.name), i.kind)
      && MadeItem(ops, i) == Kinds(Surplus(b, a, i.name), i.kind)
  {
    SurplusTypedAt(a, b, i.name);
    SurplusTypedAt(b, a, i.name);
    ReportSays(a, b, unset, i.name);
    if i.kind != 1 && i.kind != 2 {
      NoKind(Surplus(a, b, i.name), i.kind);
      NoKind(Surplus(b, a, i.name), i.kind);
    }
  }

  /** The typed replay of a comparison succeeds, and leads to the paired entries with their old
      types and the surplus of the new table. */
  lemma TypedReplayLeads(a: seq<DirEntry>, b: seq<DirEntry>, unset: seq<Op>)
    requires |Diff(Sort(a), Sort(b))| <= |unset| && SurplusTyped(a, b) && SurplusTyped(b, a)
    ensures
      var r := TypedReplay(Items(a), EncodeAll(Diff(Sort(a), Sort(b)), unset));
      r.Some? && forall i: Item ::
        r.value[i] == Kinds(Paired(a, b, i.name), i.kind) + Kinds(Surplus(b, a, i.name), i.kind)
  {
    var ops := EncodeAll(Diff(Sort(a), Sort(b)), unset);
    forall i: Item
      ensures MadeItem(ops, i) == 0 || UnmadeItem(ops, i) == 0
      ensures UnmadeItem(ops, i) <= Items(a)[i]
      ensures Items(a)[i] - UnmadeItem(ops, i) == Kinds(Paired(a, b, i.name), i.kind)
      ensures MadeItem(ops, i) == Kinds(Surplus(b, a, i.name), i.kind)
    {
      ItemsReported(a, b, unset, i);
      PairedAndSurplus(a, b, i.name, i.kind);
    }
    TypedReplayCounts(Items(a), ops);
  }

  /** It leads to the new table, types included, if and only if no name that stays has changed its
      types. */
  lemma TypedReplayIff(a: seq<DirEntry>, b: seq<DirEntry>, unset: seq<Op>)
    requires |Diff(Sort(a), Sort(b))| <= |unset| && SurplusTyped(a, b) && SurplusTyped(b, a)
    ensures TypedReplay(Items(a), EncodeAll(Diff(Sort(a), Sort(b)), unset)) == Some(Items(b)) <==> SameTypes(a, b)
  {
    TypedReplayLeads(a, b, unset);
    var r := TypedReplay(Items(a), EncodeAll(Diff(Sort(a), Sort(b)), unset)).value;
    forall n: Name, kind: byte
      ensures r[Item(n, kind)] == Items(b)[Item(n, kind)]
         <==> Kinds(Paired(a, b, n), kind) == Kinds(Paired(b, a, n), kind)
    {
      PairedAndSurplus(b, a, n, kind);
    }
    if SameTypes(a, b) {
      forall i: Item
        ensures r[i] == Items(b)[i]
      {
        assert i == Item(i.name, i.kind);
      }
      assert r == Items(b);
    }
  }
}
