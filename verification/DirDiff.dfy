/** The comparison of two sorted directory tables, libxadisk/xadisk_parse.c, and the meaning
    of the operations it reports. */
module DirDiff {
  import opened Common
  import opened DirNames

  /** `Unknown` is any other value of the field: it is reported without a prefix. */
  datatype Op = MkDir | RmDir | MkFile | RmFile | Unknown

  datatype DirOp = DirOp(op: Op, name: Name)

  /** An entry of the old table that is gone, or one of the new table that has come. */
  datatype Change = Removed(entry: DirEntry) | Created(entry: DirEntry)

  function Diff(old_: seq<DirEntry>, new_: seq<DirEntry>): seq<Change>
    decreases |old_| + |new_|
  {
    if old_ == [] && new_ == [] then []
    else if new_ == [] || (old_ != [] && Less(old_[0].name, new_[0].name)) then
      [Removed(old_[0])] + Diff(old_[1..], new_)
    else if old_ == [] || Less(new_[0].name, old_[0].name) then [Created(new_[0])] + Diff(old_, new_[1..])
    else Diff(old_[1..], new_[1..])
  }

  // ----- names

  function Names(s: seq<DirEntry>): multiset<Name> {
    if s == [] then multiset{} else multiset{s[0].name} + Names(s[1..])
  }

  function RemovedNames(cs: seq<Change>): multiset<Name> {
    if cs == [] then multiset{}
    else if cs[0].Removed? then multiset{cs[0].entry.name} + RemovedNames(cs[1..])
    else RemovedNames(cs[1..])
  }

  function CreatedNames(cs: seq<Change>): multiset<Name> {
    if cs == [] then multiset{}
    else if cs[0].Created? then multiset{cs[0].entry.name} + CreatedNames(cs[1..])
    else CreatedNames(cs[1..])
  }

  lemma {:induction false} NamesIn(s: seq<DirEntry>, n: Name)
    ensures n in Names(s) <==> exists i :: 0 <= i < |s| && s[i].name == n
  {
    if s != [] {
      NamesIn(s[1..], n);
      if s[0].name == n {
        assert s[0].name == n;
      }
      if i :| 0 <= i < |s[1..]| && s[1..][i].name == n {
        assert s[i + 1].name == n;
      }
      if i :| 0 <= i < |s| && s[i].name == n && s[0].name != n {
        assert s[1..][i - 1].name == n;
      }
    }
  }

  /** A name below the first of a sorted table is not in the table. */
  lemma BelowIsAbsent(s: seq<DirEntry>, n: Name)
    requires Sorted(s) && (s != [] ==> Less(n, s[0].name))
    ensures n !in Names(s)
  {
    NamesIn(s, n);
    if i :| 0 <= i < |s| && s[i].name == n {
      LessIsStrict(n, s[0].name);
    }
  }

  predicate Exact(o: multiset<Name>, n: multiset<Name>, cs: seq<Change>) {
    RemovedNames(cs) == o - n && CreatedNames(cs) == n - o
  }

  lemma ExactRemoved(o: multiset<Name>, n: multiset<Name>, cs: seq<Change>, e: DirEntry)
    requires Exact(o, n, cs) && e.name !in n
    ensures Exact(multiset{e.name} + o, n, [Removed(e)] + cs)
  {
    assert ([Removed(e)] + cs)[1..] == cs;
  }

  lemma ExactCreated(o: multiset<Name>, n: multiset<Name>, cs: seq<Change>, e: DirEntry)
    requires Exact(o, n, cs) && e.name !in o
    ensures Exact(o, multiset{e.name} + n, [Created(e)] + cs)
  {
    assert ([Created(e)] + cs)[1..] == cs;
  }

  /** For sorted tables, duplicates included: the removals are the names of the old table
      beyond those of the new one, the creations the converse. */
  lemma {:induction false} DiffIsExact(old_: seq<DirEntry>, new_: seq<DirEntry>)
    requires Sorted(old_) && Sorted(new_)
    ensures Exact(Names(old_), Names(new_), Diff(old_, new_))
    decreases |old_| + |new_|
  {
    if old_ == [] && new_ == [] {
    } else if new_ == [] || (old_ != [] && Less(old_[0].name, new_[0].name)) {
      DiffIsExact(old_[1..], new_);
      BelowIsAbsent(new_, old_[0].name);
      ExactRemoved(Names(old_[1..]), Names(new_), Diff(old_[1..], new_), old_[0]);
    } else if old_ == [] || Less(new_[0].name, old_[0].name) {
      DiffIsExact(old_, new_[1..]);
      BelowIsAbsent(old_, new_[0].name);
      ExactCreated(Names(old_), Names(new_[1..]), Diff(old_, new_[1..]), new_[0]);
    } else {
      LessIsStrict(old_[0].name, new_[0].name);
      DiffIsExact(old_[1..], new_[1..]);
    }
  }

  /** Changes come in the order of their names. */
  predicate InOrder(cs: seq<Change>) {
    forall i, j :: 0 <= i < j < |cs| ==> !Less(cs[j].entry.name, cs[i].entry.name)
  }

  predicate AllFrom(cs: seq<Change>, n: Name) {
    forall i :: 0 <= i < |cs| ==> !Less(cs[i].entry.name, n)
  }

  /** No change is below a name that is below both tables. */
  lemma {:induction false} DiffAllFrom(old_: seq<DirEntry>, new_: seq<DirEntry>, n: Name)
    requires forall i :: 0 <= i < |old_| ==> !Less(old_[i].name, n)
    requires forall i :: 0 <= i < |new_| ==> !Less(new_[i].name, n)
    ensures AllFrom(Diff(old_, new_), n)
    decreases |old_| + |new_|
  {
    if old_ == [] && new_ == [] {
    } else if new_ == [] || (old_ != [] && Less(old_[0].name, new_[0].name)) {
      DiffAllFrom(old_[1..], new_, n);
    } else if old_ == [] || Less(new_[0].name, old_[0].name) {
      DiffAllFrom(old_, new_[1..], n);
    } else {
      DiffAllFrom(old_[1..], new_[1..], n);
    }
  }

  lemma SortedAllFrom(s: seq<DirEntry>, n: Name)
    requires Sorted(s) && (s != [] ==> !Less(s[0].name, n))
    ensures forall i :: 0 <= i < |s| ==> !Less(s[i].name, n)
  {
    forall i | 0 <= i < |s|
      ensures !Less(s[i].name, n)
    {
      AtMostIsTransitive(n, s[0].name, s[i].name);
      LessIsStrict(s[0].name, s[0].name);
    }
  }

  lemma {:induction false} DiffInOrder(old_: seq<DirEntry>, new_: seq<DirEntry>)
    requires Sorted(old_) && Sorted(new_)
    ensures InOrder(Diff(old_, new_))
    decreases |old_| + |new_|
  {
    if old_ == [] && new_ == [] {
    } else if new_ == [] || (old_ != [] && Less(old_[0].name, new_[0].name)) {
      DiffInOrder(old_[1..], new_);
      LessIsStrict(old_[0].name, if new_ == [] then [] else new_[0].name);
      SortedAllFrom(new_, old_[0].name);
      DiffAllFrom(old_[1..], new_, old_[0].name);
    } else if old_ == [] || Less(new_[0].name, old_[0].name) {
      DiffInOrder(old_, new_[1..]);
      LessIsStrict(new_[0].name, if old_ == [] then [] else old_[0].name);
      SortedAllFrom(old_, new_[0].name);
      DiffAllFrom(old_, new_[1..], new_[0].name);
    } else {
      DiffInOrder(old_[1..], new_[1..]);
    }
  }

  // ----- the tables as they come, unsorted

  lemma {:induction false} NamesLast(s: seq<DirEntry>, e: DirEntry)
    ensures Names(s + [e]) == Names(s) + multiset{e.name}
  {
    if s == [] {
      assert s + [e] == [e] && [e][1..] == [];
    } else {
      NamesLast(s[1..], e);
      assert (s + [e])[1..] == s[1..] + [e];
    }
  }

  lemma NamesButLast(s: seq<DirEntry>)
    requires s != []
    ensures Names(s) == Names(s[..|s| - 1]) + multiset{s[|s| - 1].name}
  {
    NamesLast(s[..|s| - 1], s[|s| - 1]);
    assert s == s[..|s| - 1] + [s[|s| - 1]];
  }

  lemma Exchange(m: multiset<Name>, a: Name, b: Name)
    ensures m + multiset{a} + multiset{b} == m + multiset{b} + multiset{a}
  {
  }

  lemma {:induction false} NamesInsert(s: seq<DirEntry>, e: DirEntry)
    ensures Names(Insert(s, e)) == Names(s) + multiset{e.name}
  {
    if s != [] && Less(e.name, s[|s| - 1].name) {
      NamesInsert(s[..|s| - 1], e);
      NamesLast(Insert(s[..|s| - 1], e), s[|s| - 1]);
      NamesButLast(s);
      Exchange(Names(s[..|s| - 1]), e.name, s[|s| - 1].name);
    } else {
      NamesLast(s, e);
    }
  }

  lemma {:induction false} NamesSort(s: seq<DirEntry>)
    ensures Names(Sort(s)) == Names(s)
  {
    if s != [] {
      NamesSort(s[..|s| - 1]);
      NamesInsert(Sort(s[..|s| - 1]), s[|s| - 1]);
      NamesButLast(s);
    }
  }

  /** Every removed entry, type included, is one of the old table, every created one of the new. */
  lemma {:induction false} DiffEntries(old_: seq<DirEntry>, new_: seq<DirEntry>)
    ensures forall c :: c in Diff(old_, new_) ==> if c.Removed? then c.entry in old_ else c.entry in new_
    decreases |old_| + |new_|
  {
    if old_ == [] && new_ == [] {
    } else if new_ == [] || (old_ != [] && Less(old_[0].name, new_[0].name)) {
      DiffEntries(old_[1..], new_);
    } else if old_ == [] || Less(new_[0].name, old_[0].name) {
      DiffEntries(old_, new_[1..]);
    } else {
      DiffEntries(old_[1..], new_[1..]);
    }
  }

  /** Sorting any two tables and comparing them gives the multiset difference of the names both
      ways, in the order of the names, each change with an entry of the table it is about. */
  lemma SortedDiff(a: seq<DirEntry>, b: seq<DirEntry>)
    ensures Exact(Names(a), Names(b), Diff(Sort(a), Sort(b))) && InOrder(Diff(Sort(a), Sort(b)))
    ensures forall c :: c in Diff(Sort(a), Sort(b)) ==> if c.Removed? then c.entry in a else c.entry in b
  {
    SortCorrect(a);
    SortCorrect(b);
    NamesSort(a);
    NamesSort(b);
    DiffIsExact(Sort(a), Sort(b));
    DiffInOrder(Sort(a), Sort(b));
    DiffEntries(Sort(a), Sort(b));
    assert forall e :: e in Sort(a) ==> e in multiset(Sort(a));
    assert forall e :: e in Sort(b) ==> e in multiset(Sort(b));
  }

  // ----- the reported operations

  /** The operation is chosen by the type of the entry; for a type that is neither a file (1)
      nor a directory (2) it is left as it was in the result table. */
  function Encode(c: Change, unset: Op): DirOp {
    var k := c.entry.kind;
    var op := match c
      case Removed(_) => if k == 1 then RmFile else if k == 2 then RmDir else unset
      case Created(_) => if k == 1 then MkFile else if k == 2 then MkDir else unset;
    DirOp(op, c.entry.name)
  }

  function EncodeAll(cs: seq<Change>, unset: seq<Op>): seq<DirOp>
    requires |unset| >= |cs|
  {
    if cs == [] then [] else [Encode(cs[0], unset[0])] + EncodeAll(cs[1..], unset[1..])
  }

  predicate FileOrDir(e: DirEntry) {
    e.kind == 1 || e.kind == 2
  }

  predicate Typed(c: Change) {
    FileOrDir(c.entry)
  }

  /** What a reader makes of a report; a removal needs the name to be there. */
  function Effect(m: multiset<Name>, o: DirOp): Option<multiset<Name>> {
    if o.op.MkDir? || o.op.MkFile? then Some(m + multiset{o.name})
    else if o.op.Unknown? then Some(m)
    else if o.name in m then Some(m - multiset{o.name})
    else None
  }

  function Replay(m: multiset<Name>, ops: seq<DirOp>): Option<multiset<Name>>
    decreases |ops|
  {
    if ops == [] then Some(m)
    else if Effect(m, ops[0]).None? then None
    else Replay(Effect(m, ops[0]).value, ops[1..])
  }

  lemma ReplayRemoved(m: multiset<Name>, e: DirEntry, cs: seq<Change>, unset: seq<Op>)
    requires Typed(Removed(e)) && |unset| > |cs|
    ensures Replay(multiset{e.name} + m, EncodeAll([Removed(e)] + cs, unset)) == Replay(m, EncodeAll(cs, unset[1..]))
  {
    assert ([Removed(e)] + cs)[1..] == cs;
    assert multiset{e.name} + m - multiset{e.name} == m;
    var ops := EncodeAll([Removed(e)] + cs, unset);
    assert ops[1..] == EncodeAll(cs, unset[1..]);
  }

  lemma ReplayCreated(m: multiset<Name>, e: DirEntry, cs: seq<Change>, unset: seq<Op>)
    requires Typed(Created(e)) && |unset| > |cs|
    ensures Replay(m, EncodeAll([Created(e)] + cs, unset)) == Replay(multiset{e.name} + m, EncodeAll(cs, unset[1..]))
  {
    assert ([Created(e)] + cs)[1..] == cs;
    assert m + multiset{e.name} == multiset{e.name} + m;
    var ops := EncodeAll([Created(e)] + cs, unset);
    assert ops[1..] == EncodeAll(cs, unset[1..]);
  }

  lemma Regroup(x: multiset<Name>, n: Name, r: multiset<Name>)
    ensures x + (multiset{n} + r) == multiset{n} + (x + r) == (x + multiset{n}) + r
  {
  }

  predicate AllTyped(cs: seq<Change>) {
    forall i :: 0 <= i < |cs| ==> Typed(cs[i])
  }

  lemma TypedTail(c: Change, cs: seq<Change>)
    requires AllTyped([c] + cs)
    ensures Typed(c) && AllTyped(cs)
  {
    assert ([c] + cs)[0] == c;
    assert forall i :: 0 <= i < |cs| ==> cs[i] == ([c] + cs)[i + 1];
  }

  /** Replaying the operations turns the names of the old table into those of the new one, in
      any context of other names. */
  lemma {:induction false} ReplayDiff(x: multiset<Name>, old_: seq<DirEntry>, new_: seq<DirEntry>, unset: seq<Op>)
    requires |unset| >= |Diff(old_, new_)| && AllTyped(Diff(old_, new_))
    ensures Replay(x + Names(old_), EncodeAll(Diff(old_, new_), unset)) == Some(x + Names(new_))
    decreases |old_| + |new_|
  {
    if old_ == [] && new_ == [] {
    } else if new_ == [] || (old_ != [] && Less(old_[0].name, new_[0].name)) {
      var e, o, cs := old_[0], Names(old_[1..]), Diff(old_[1..], new_);
      TypedTail(Removed(e), cs);
      Regroup(x, e.name, o);
      ReplayRemoved(x + o, e, cs, unset);
      ReplayDiff(x, old_[1..], new_, unset[1..]);
    } else if old_ == [] || Less(new_[0].name, old_[0].name) {
      var e, cs := new_[0], Diff(old_, new_[1..]);
      TypedTail(Created(e), cs);
      Regroup(x, e.name, Names(old_));
      Regroup(x, e.name, Names(new_[1..]));
      ReplayCreated(x + Names(old_), e, cs, unset);
      ReplayDiff(x + multiset{e.name}, old_, new_[1..], unset[1..]);
    } else {
      var n := old_[0].name;
      LessIsStrict(n, new_[0].name);
      Regroup(x, n, Names(old_[1..]));
      Regroup(x, n, Names(new_[1..]));
      ReplayDiff(x + multiset{n}, old_[1..], new_[1..], unset);
    }
  }

  /** Nothing is reported exactly when the names are the same, as a multiset. */
  lemma DiffEmptyIffSameNames(old_: seq<DirEntry>, new_: seq<DirEntry>)
    requires Sorted(old_) && Sorted(new_)
    ensures Diff(old_, new_) == [] <==> Names(old_) == Names(new_)
  {
    DiffIsExact(old_, new_);
    var o, n, d := Names(old_), Names(new_), Diff(old_, new_);
    if d == [] {
      assert forall x :: o[x] <= n[x] by { assert forall x :: (o - n)[x] == 0; }
      assert forall x :: n[x] <= o[x] by { assert forall x :: (n - o)[x] == 0; }
    }
  }

  // ----- the types that the reports need

  /** The changes of a name that are removals, or creations, with a known type, or without. */
  function Count(cs: seq<Change>, n: Name, removed: bool, typed: bool): nat {
    if cs == [] then 0
    else (if cs[0].entry.name == n && cs[0].Removed? == removed && Typed(cs[0]) == typed then 1 else 0)
         + Count(cs[1..], n, removed, typed)
  }

  lemma {:induction false} CountsAreNames(cs: seq<Change>, n: Name)
    ensures RemovedNames(cs)[n] == Count(cs, n, true, true) + Count(cs, n, true, false)
    ensures CreatedNames(cs)[n] == Count(cs, n, false, true) + Count(cs, n, false, false)
  {
    if cs != [] {
      CountsAreNames(cs[1..], n);
    }
  }

  function Made(ops: seq<DirOp>, n: Name): nat {
    if ops == [] then 0
    else (if ops[0].name == n && (ops[0].op.MkDir? || ops[0].op.MkFile?) then 1 else 0) + Made(ops[1..], n)
  }

  function Unmade(ops: seq<DirOp>, n: Name): nat {
    if ops == [] then 0
    else (if ops[0].name == n && (ops[0].op.RmDir? || ops[0].op.RmFile?) then 1 else 0) + Unmade(ops[1..], n)
  }

  /** A replay that succeeds adds what is made and takes away what is unmade. */
  lemma {:induction false} ReplayCounts(m: multiset<Name>, ops: seq<DirOp>, n: Name)
    ensures Replay(m, ops).Some? ==> Replay(m, ops).value[n] == m[n] + Made(ops, n) - Unmade(ops, n)
    decreases |ops|
  {
    if ops != [] && Effect(m, ops[0]).Some? {
      ReplayCounts(Effect(m, ops[0]).value, ops[1..], n);
    }
  }

  /** Leaves the opposite operation where the type gives none. */
  function Opposites(cs: seq<Change>): (r: seq<Op>)
    ensures |r| == |cs|
  {
    if cs == [] then [] else [if cs[0].Removed? then MkFile else RmFile] + Opposites(cs[1..])
  }

  /** With the opposites, typed changes count their way and untyped ones the other way. */
  lemma {:induction false} OppositeCounts(cs: seq<Change>, n: Name)
    ensures var ops := EncodeAll(cs, Opposites(cs));
      && Made(ops, n) == Count(cs, n, false, true) + Count(cs, n, true, false)
      && Unmade(ops, n) == Count(cs, n, true, true) + Count(cs, n, false, false)
  {
    if cs != [] {
      OppositeCounts(cs[1..], n);
      var ops := EncodeAll(cs, Opposites(cs));
      assert Opposites(cs)[1..] == Opposites(cs[1..]);
      assert ops[1..] == EncodeAll(cs[1..], Opposites(cs[1..]));
    }
  }

  lemma {:induction false} UntypedIsCounted(cs: seq<Change>, i: nat)
    requires i < |cs| && !Typed(cs[i])
    ensures Count(cs, cs[i].entry.name, true, false) + Count(cs, cs[i].entry.name, false, false) > 0
  {
    if i > 0 {
      UntypedIsCounted(cs[1..], i - 1);
    }
  }

  /** One untyped change is enough for the opposites to lead the replay astray. */
  lemma OppositesMislead(old_: seq<DirEntry>, new_: seq<DirEntry>, i: nat)
    requires Sorted(old_) && Sorted(new_)
    requires i < |Diff(old_, new_)| && !Typed(Diff(old_, new_)[i])
    ensures var d := Diff(old_, new_);
      Replay(Names(old_), EncodeAll(d, Opposites(d))) != Some(Names(new_))
  {
    var d := Diff(old_, new_);
    var n := d[i].entry.name;
    DiffIsExact(old_, new_);
    CountsAreNames(d, n);
    OppositeCounts(d, n);
    ReplayCounts(Names(old_), EncodeAll(d, Opposites(d)), n);
    UntypedIsCounted(d, i);
  }

  lemma SortedReplayIffTyped(old_: seq<DirEntry>, new_: seq<DirEntry>)
    requires Sorted(old_) && Sorted(new_)
    ensures (forall unset: seq<Op> :: |unset| == |Diff(old_, new_)| ==>
               Replay(Names(old_), EncodeAll(Diff(old_, new_), unset)) == Some(Names(new_)))
        <==> AllTyped(Diff(old_, new_))
  {
    var d := Diff(old_, new_);
    if AllTyped(d) {
      forall unset: seq<Op> | |unset| == |d|
        ensures Replay(Names(old_), EncodeAll(d, unset)) == Some(Names(new_))
      {
        ReplayDiff(multiset{}, old_, new_, unset);
        assert multiset{} + Names(old_) == Names(old_) && multiset{} + Names(new_) == Names(new_);
      }
    } else {
      var i :| 0 <= i < |d| && !Typed(d[i]);
      OppositesMislead(old_, new_, i);
    }
  }

  // ----- which entries are reported

  /** The entries of a name that are reported as removed, or as created, in order. */
  function ReportedOf(cs: seq<Change>, n: Name, removed: bool): seq<DirEntry> {
    if cs == [] then []
    else
      (if cs[0].Removed? == removed && cs[0].entry.name == n then [cs[0].entry] else [])
      + ReportedOf(cs[1..], n, removed)
  }

  function Drop(s: seq<DirEntry>, k: nat): seq<DirEntry> {
    if k <= |s| then s[k..] else []
  }

  /** The entries of a name in one table beyond as many as the other table has. */
  function Surplus(a: seq<DirEntry>, b: seq<DirEntry>, n: Name): seq<DirEntry> {
    Drop(Named(a, n), |Named(b, n)|)
  }

  lemma {:induction false} NamedHead(s: seq<DirEntry>, n: Name)
    requires s != []
    ensures Named(s, n) == (if s[0].name == n then [s[0]] else []) + Named(s[1..], n)
    decreases |s|
  {
    var k := |s| - 1;
    if k > 0 {
      NamedHead(s[..k], n);
      assert s[..k][1..] == s[1..][..k - 1];
    }
  }

  lemma {:induction false} NamedMembers(s: seq<DirEntry>, n: Name)
    ensures forall e :: e in Named(s, n) <==> e in s && e.name == n
  {
    if s != [] {
      var k := |s| - 1;
      NamedMembers(s[..k], n);
      assert s == s[..k] + [s[k]];
    }
  }

  lemma NoneNamed(s: seq<DirEntry>, n: Name)
    requires Sorted(s) && (s != [] ==> Less(n, s[0].name))
    ensures Named(s, n) == []
  {
    BelowIsAbsent(s, n);
    NamesIn(s, n);
    NamedMembers(s, n);
    assert Named(s, n) != [] ==> Named(s, n)[0] in Named(s, n);
  }

  predicate ReportsSurplus(old_: seq<DirEntry>, new_: seq<DirEntry>, n: Name, cs: seq<Change>) {
    ReportedOf(cs, n, true) == Surplus(old_, new_, n) && ReportedOf(cs, n, false) == Surplus(new_, old_, n)
  }

  lemma SurplusRemoved(old_: seq<DirEntry>, new_: seq<DirEntry>, n: Name, cs: seq<Change>)
    requires old_ != [] && ReportsSurplus(old_[1..], new_, n, cs)
    requires old_[0].name == n ==> Named(new_, n) == []
    ensures ReportsSurplus(old_, new_, n, [Removed(old_[0])] + cs)
  {
    NamedHead(old_, n);
    assert ([Removed(old_[0])] + cs)[1..] == cs;
  }

  lemma SurplusCreated(old_: seq<DirEntry>, new_: seq<DirEntry>, n: Name, cs: seq<Change>)
    requires new_ != [] && ReportsSurplus(old_, new_[1..], n, cs)
    requires new_[0].name == n ==> Named(old_, n) == []
    ensures ReportsSurplus(old_, new_, n, [Created(new_[0])] + cs)
  {
    NamedHead(new_, n);
    assert ([Created(new_[0])] + cs)[1..] == cs;
  }

  lemma SurplusPaired(old_: seq<DirEntry>, new_: seq<DirEntry>, n: Name, cs: seq<Change>)
    requires old_ != [] && new_ != [] && old_[0].name == new_[0].name
    requires ReportsSurplus(old_[1..], new_[1..], n, cs)
    ensures ReportsSurplus(old_, new_, n, cs)
  {
    NamedHead(old_, n);
    NamedHead(new_, n);
  }

  /** For each name, the removals are the last entries of the old table beyond the number in the
      new one, and conversely for the creations. */
  lemma {:induction false} DiffIsSurplus(old_: seq<DirEntry>, new_: seq<DirEntry>, n: Name)
    requires Sorted(old_) && Sorted(new_)
    ensures ReportsSurplus(old_, new_, n, Diff(old_, new_))
    decreases |old_| + |new_|
  {
    if old_ == [] && new_ == [] {
    } else if new_ == [] || (old_ != [] && Less(old_[0].name, new_[0].name)) {
      DiffIsSurplus(old_[1..], new_, n);
      NoneNamed(new_, old_[0].name);
      SurplusRemoved(old_, new_, n, Diff(old_[1..], new_));
    } else if old_ == [] || Less(new_[0].name, old_[0].name) {
      DiffIsSurplus(old_, new_[1..], n);
      NoneNamed(old_, new_[0].name);
      SurplusCreated(old_, new_, n, Diff(old_, new_[1..]));
    } else {
      LessIsStrict(old_[0].name, new_[0].name);
      DiffIsSurplus(old_[1..], new_[1..], n);
      SurplusPaired(old_, new_, n, Diff(old_[1..], new_[1..]));
    }
  }

  lemma {:induction false} ReportedMembers(cs: seq<Change>, n: Name, removed: bool)
    ensures forall e :: e in ReportedOf(cs, n, removed) <==>
      e.name == n && (if removed then Removed(e) else Created(e)) in cs
  {
    if cs != [] {
      ReportedMembers(cs[1..], n, removed);
      assert cs == [cs[0]] + cs[1..];
    }
  }

  /** Every entry of `a` beyond those that `b` has of its name is a file or a directory. */
  predicate SurplusTyped(a: seq<DirEntry>, b: seq<DirEntry>) {
    forall i :: 0 <= i < |a| ==> forall e :: e in Surplus(a, b, a[i].name) ==> FileOrDir(e)
  }

  /** Sorting any two tables and comparing them reports exactly the surplus of each name. */
  lemma SortedDiffIsSurplus(a: seq<DirEntry>, b: seq<DirEntry>, n: Name)
    ensures ReportsSurplus(a, b, n, Diff(Sort(a), Sort(b)))
  {
    SortCorrect(a);
    SortCorrect(b);
    DiffIsSurplus(Sort(a), Sort(b), n);
  }

  lemma ChangesTyped(a: seq<DirEntry>, b: seq<DirEntry>, c: Change)
    requires c in Diff(Sort(a), Sort(b)) && SurplusTyped(a, b) && SurplusTyped(b, a)
    ensures Typed(c)
  {
    var n := c.entry.name;
    SortedDiffIsSurplus(a, b, n);
    ReportedMembers(Diff(Sort(a), Sort(b)), n, c.Removed?);
    SortedDiff(a, b);
    if c.Removed? {
      var i :| 0 <= i < |a| && a[i] == c.entry;
      assert c.entry in Surplus(a, b, a[i].name);
    } else {
      var i :| 0 <= i < |b| && b[i] == c.entry;
      assert c.entry in Surplus(b, a, b[i].name);
    }
  }

  lemma TypedChanges(a: seq<DirEntry>, b: seq<DirEntry>)
    requires AllTyped(Diff(Sort(a), Sort(b)))
    ensures SurplusTyped(a, b) && SurplusTyped(b, a)
  {
    var d := Diff(Sort(a), Sort(b));
    forall n: Name, e | e in Surplus(a, b, n)
      ensures FileOrDir(e)
    {
      SortedDiffIsSurplus(a, b, n);
      ReportedMembers(d, n, true);
      var i :| 0 <= i < |d| && d[i] == Removed(e);
      assert Typed(d[i]);
    }
    forall n: Name, e | e in Surplus(b, a, n)
      ensures FileOrDir(e)
    {
      SortedDiffIsSurplus(a, b, n);
      ReportedMembers(d, n, false);
      var i :| 0 <= i < |d| && d[i] == Created(e);
      assert Typed(d[i]);
    }
  }

  /** For any two tables as parsed: the reports replay to the new names, whatever the result
      table held before, if and only if the surplus entries of both are files or directories. */
  lemma ReplayIffTyped(a: seq<DirEntry>, b: seq<DirEntry>)
    ensures (forall unset: seq<Op> :: |unset| == |Diff(Sort(a), Sort(b))| ==>
               Replay(Names(a), EncodeAll(Diff(Sort(a), Sort(b)), unset)) == Some(Names(b)))
        <==> SurplusTyped(a, b) && SurplusTyped(b, a)
  {
    SortCorrect(a);
    SortCorrect(b);
    NamesSort(a);
    NamesSort(b);
    SortedReplayIffTyped(Sort(a), Sort(b));
    var d := Diff(Sort(a), Sort(b));
    if SurplusTyped(a, b) && SurplusTyped(b, a) {
      forall i | 0 <= i < |d|
        ensures Typed(d[i])
      {
        ChangesTyped(a, b, d[i]);
      }
    }
    if AllTyped(d) {
      TypedChanges(a, b);
    }
  }

  /** The removal of an entry of type 7: whatever its operation field held, a creation here, is
      reported for it. */
  lemma UntypedRemoval(n: Name)
    ensures
      var a := [DirEntry(12, 7, n)];
      && Diff(Sort(a), Sort([])) == [Removed(a[0])]
      && Replay(Names(a), EncodeAll([Removed(a[0])], [MkFile])) == Some(multiset{n, n})
      && Names([]) == multiset{}
  {
    var a := [DirEntry(12, 7, n)];
    assert a[..0] == [] && a[1..] == [] && Sort(a) == a;
    assert Diff(a, []) == [Removed(a[0])] + Diff([], []);
    assert EncodeAll([Removed(a[0])], [MkFile]) == [DirOp(MkFile, n)];
    assert [DirOp(MkFile, n)][1..] == [];
    assert Names(a) == multiset{n} && multiset{n} + multiset{n} == multiset{n, n};
    assert Effect(Names(a), DirOp(MkFile, n)) == Some(multiset{n, n});
  }

  // ----- the comparison loop

  /** The state of the merge: what is done, and what the rest of both tables still yields. */
  ghost predicate Merging(old_: seq<DirEntry>, new_: seq<DirEntry>, i: nat, j: nat, done: seq<Change>) {
    i <= |old_| && j <= |new_| && done + Diff(old_[i..], new_[j..]) == Diff(old_, new_)
  }

  lemma MergeStep(old_: seq<DirEntry>, new_: seq<DirEntry>, i: nat, j: nat, done: seq<Change>)
    requires Merging(old_, new_, i, j, done) && (i < |old_| || j < |new_|)
    ensures
      if j == |new_| || (i < |old_| && Less(old_[i].name, new_[j].name)) then
        Merging(old_, new_, i + 1, j, done + [Removed(old_[i])])
      else if i == |old_| || Less(new_[j].name, old_[i].name) then
        Merging(old_, new_, i, j + 1, done + [Created(new_[j])])
      else Merging(old_, new_, i + 1, j + 1, done)
  {
    if i < |old_| { assert old_[i..][1..] == old_[i + 1..]; }
    if j < |new_| { assert new_[j..][1..] == new_[j + 1..]; }
    var d := Diff(old_[i..], new_[j..]);
    if d != [] {
      assert done + d == done + [d[0]] + d[1..];
    }
  }

  /** The first k operations are those of the changes done. */
  ghost predicate Reported(res: seq<DirOp>, was: seq<DirOp>, done: seq<Change>) {
    && |res| == |was| && |done| <= |res|
    && (forall m :: 0 <= m < |done| ==> res[m] == Encode(done[m], was[m].op))
    && (forall m :: |done| <= m < |res| ==> res[m] == was[m])
  }

  method Report(res: array<DirOp>, k: nat, c: Change, ghost was: seq<DirOp>, ghost done: seq<Change>)
    requires Reported(res[..], was, done) && k == |done| < res.Length
    modifies res
    ensures Reported(res[..], was, done + [c])
  {
    res[k] := Encode(c, res[k].op);
  }

  lemma MergingFits(old_: seq<DirEntry>, new_: seq<DirEntry>, i: nat, j: nat, done: seq<Change>)
    requires Merging(old_, new_, i, j, done)
    ensures |done| <= |Diff(old_, new_)|
    ensures i == |old_| && j == |new_| ==> done == Diff(old_, new_)
  {
  }

  /** `compare_dirs`: a merge of the two tables into the result table. */
  method CompareDirs(old_: seq<DirEntry>, new_: seq<DirEntry>, res: array<DirOp>) returns (size: nat)
    requires |Diff(old_, new_)| <= res.Length
    modifies res
    ensures size == |Diff(old_, new_)|
    ensures Reported(res[..], old(res[..]), Diff(old_, new_))
  {
    var i, j, k := 0, 0, 0;
    ghost var done: seq<Change> := [];
    assert old_[0..] == old_ && new_[0..] == new_;
    while i < |old_| && j < |new_|
      invariant Merging(old_, new_, i, j, done) && k == |done|
      invariant Reported(res[..], old(res[..]), done)
      decreases |old_| + |new_| - i - j
    {
      MergeStep(old_, new_, i, j, done);
      if Less(old_[i].name, new_[j].name) {
        MergingFits(old_, new_, i + 1, j, done + [Removed(old_[i])]);
        Report(res, k, Removed(old_[i]), old(res[..]), done);
        done := done + [Removed(old_[i])];
        i, k := i + 1, k + 1;
      } else if Less(new_[j].name, old_[i].name) {
        MergingFits(old_, new_, i, j + 1, done + [Created(new_[j])]);
        Report(res, k, Created(new_[j]), old(res[..]), done);
        done := done + [Created(new_[j])];
        j, k := j + 1, k + 1;
      } else {
        i, j := i + 1, j + 1;
      }
    }
    while i < |old_|
      invariant Merging(old_, new_, i, j, done) && k == |done| && (i < |old_| ==> j == |new_|)
      invariant Reported(res[..], old(res[..]), done)
    {
      MergeStep(old_, new_, i, j, done);
      MergingFits(old_, new_, i + 1, j, done + [Removed(old_[i])]);
      Report(res, k, Removed(old_[i]), old(res[..]), done);
      done := done + [Removed(old_[i])];
      i, k := i + 1, k + 1;
    }
    while j < |new_|
      invariant Merging(old_, new_, i, j, done) && k == |done| && i == |old_|
      invariant Reported(res[..], old(res[..]), done)
    {
      MergeStep(old_, new_, i, j, done);
      MergingFits(old_, new_, i, j + 1, done + [Created(new_[j])]);
      Report(res, k, Created(new_[j]), old(res[..]), done);
      done := done + [Created(new_[j])];
      j, k := j + 1, k + 1;
    }
    MergingFits(old_, new_, i, j, done);
    size := k;
  }
}
