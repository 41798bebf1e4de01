/** Records that are not in use.  ext2 deletes the first record of a block by taking its inode away
    and leaving its name, and the monitor looks at names only.  From the names in use when a watch
    is set, its report leads to the names in use now under a condition on the records not in use. */
module UnusedRecords {
  import opened Bits
  import opened Common
  import opened DirNames
  import opened DirDiff
  import opened Ext2Dir
  import opened Monitor
  import opened DirectoryReplay

  function Used(t: seq<DirEntry>): seq<DirEntry> {
    if t == [] then [] else (if t[0].inode != 0 then [t[0]] else []) + Used(t[1..])
  }

  function Unused(t: seq<DirEntry>): seq<DirEntry> {
    if t == [] then [] else (if t[0].inode == 0 then [t[0]] else []) + Unused(t[1..])
  }

  lemma NamesCons(e: DirEntry, t: seq<DirEntry>)
    ensures Names([e] + t) == multiset{e.name} + Names(t)
  {
    assert ([e] + t)[1..] == t;
  }

  lemma {:induction false} NamesSplit(t: seq<DirEntry>)
    ensures Names(t) == Names(Used(t)) + Names(Unused(t))
  {
    if t != [] {
      NamesSplit(t[1..]);
      var u, v := Used(t[1..]), Unused(t[1..]);
      assert [] + u == u && [] + v == v;
      if t[0].inode != 0 {
        NamesCons(t[0], u);
      } else {
        NamesCons(t[0], v);
        Regroup(Names(u), t[0].name, Names(v));
      }
    }
  }

  // ----- the operations of one comparison, from fewer names

  /** The operations make and unmake the differences of two multisets of names. */
  ghost predicate Turns(o: multiset<Name>, w: multiset<Name>, ops: seq<DirOp>) {
    forall n: Name :: Made(ops, n) == (w - o)[n] && Unmade(ops, n) == (o - w)[n]
  }

  lemma {:induction false} TypedCounts(cs: seq<Change>, unset: seq<Op>, n: Name)
    requires AllTyped(cs) && |unset| >= |cs|
    ensures Made(EncodeAll(cs, unset), n) == CreatedNames(cs)[n]
    ensures Unmade(EncodeAll(cs, unset), n) == RemovedNames(cs)[n]
  {
    if cs != [] {
      assert AllTyped(cs[1..]) && Typed(cs[0]);
      TypedCounts(cs[1..], unset[1..], n);
      assert EncodeAll(cs, unset)[1..] == EncodeAll(cs[1..], unset[1..]);
    }
  }

  lemma DiffTurns(old_: seq<DirEntry>, new_: seq<DirEntry>, unset: seq<Op>)
    requires Sorted(old_) && Sorted(new_) && AllTyped(Diff(old_, new_)) && |Diff(old_, new_)| <= |unset|
    ensures Turns(Names(old_), Names(new_), EncodeAll(Diff(old_, new_), unset))
  {
    DiffIsExact(old_, new_);
    forall n: Name {
      TypedCounts(Diff(old_, new_), unset, n);
    }
  }

  /** Operations that never make and unmake one name can be replayed exactly from the multisets
      that hold what they unmake. */
  lemma {:induction false} ReplayOneWay(m: multiset<Name>, ops: seq<DirOp>)
    requires forall n: Name :: Made(ops, n) == 0 || Unmade(ops, n) == 0
    ensures Replay(m, ops).Some? <==> forall n: Name :: Unmade(ops, n) <= m[n]
    decreases |ops|
  {
    if ops != [] {
      var o, rest := ops[0], ops[1..];
      assert forall n: Name :: Made(rest, n) <= Made(ops, n) && Unmade(rest, n) <= Unmade(ops, n);
      var e := Effect(m, o);
      if e.None? {
        assert Unmade(ops, o.name) > m[o.name];
      } else {
        ReplayOneWay(e.value, rest);
        forall n: Name
          ensures Unmade(rest, n) <= e.value[n] <==> Unmade(ops, n) <= m[n]
        {
        }
      }
    }
  }

  /** With some names missing from the start, the same names are missing in the end, if they are
      there at all. */
  lemma TurnsWithout(o: multiset<Name>, w: multiset<Name>, d: multiset<Name>, ops: seq<DirOp>)
    requires Turns(o, w, ops) && d <= o
    ensures Replay(o - d, ops) == if d <= w then Some(w - d) else None
  {
    assert forall n: Name :: (w - o)[n] == 0 || (o - w)[n] == 0;
    ReplayOneWay(o - d, ops);
    if d <= w {
      assert forall n: Name :: d[n] <= w[n];
      assert forall n: Name :: Unmade(ops, n) <= (o - d)[n];
      var r := Replay(o - d, ops).value;
      forall n: Name
        ensures r[n] == (w - d)[n]
      {
        ReplayCounts(o - d, ops, n);
      }
      assert r == w - d;
    } else {
      var n :| d[n] > w[n];
      assert Unmade(ops, n) > (o - d)[n];
    }
  }

  // ----- whole runs

  /** What a step adds to the report of a watch. */
  lemma StepOps(s: State, step: Step, id: nat, now: multiset<Name>) returns (ops: seq<DirOp>)
    requires StepOk(s, step) && WellFormed(s) && id < s.next && AllPlain(Shown(s, step, id))
    requires forall i :: 0 <= i < |s.watches| && s.watches[i].id == id ==> Keeps(s.watches[i].dir, now)
    ensures OpsOf(Apply(s, step).log, id) == OpsOf(s.log, id) + ops
    ensures var shown := Shown(s, step, id); if shown == [] then ops == [] else Turns(now, NamesOf(shown[0]), ops)
  {
    ops := [];
    assert OpsOf(s.log, id) + [] == OpsOf(s.log, id);
    if step.BlockOp? {
      var k := Top(s.watches, BlockOf(step.sector));
      if k < |s.watches| {
        assert s.watches[k].id == id ==> Shown(s, step, id) == [step.data] && Plain(Shown(s, step, id)[0]);
        ops := ObserveOps(s, k, step.data, step.unset, id, now);
      }
    }
  }

  lemma ObserveOps(s: State, k: nat, data: Block, unset: seq<Op>, id: nat, now: multiset<Name>)
    returns (ops: seq<DirOp>)
    requires k < |s.watches| && Walkable(data, 0) && |Diff(s.watches[k].dir, Table(data))| <= |unset|
    requires s.watches[k].id == id ==> Plain(data) && Keeps(s.watches[k].dir, now)
    ensures OpsOf(Observe(s, k, Table(data), unset).log, id) == OpsOf(s.log, id) + ops
    ensures if s.watches[k].id == id then Turns(now, NamesOf(data), ops) else ops == []
  {
    var w, t := s.watches[k], Table(data);
    var all := EncodeAll(Diff(w.dir, t), unset);
    OpsOfConcat(s.log, EventsOf(w, all), id);
    OpsOfEvents(w, all, id);
    ops := if w.id == id then all else [];
    assert OpsOf(s.log, id) + [] == OpsOf(s.log, id);
    if w.id == id {
      TableKeeps(data);
      DiffEntries(w.dir, t);
      assert AllTyped(Diff(w.dir, t));
      DiffTurns(w.dir, t, unset);
    }
  }

  lemma {:induction false} ReplayNone(m: multiset<Name>, a: seq<DirOp>, b: seq<DirOp>)
    requires Replay(m, a).None?
    ensures Replay(m, a + b).None?
    decreases |a|
  {
    assert (a + b)[1..] == a[1..] + b;
    if Effect(m, a[0]).Some? {
      ReplayNone(Effect(m, a[0]).value, a[1..], b);
    }
  }

  /** Every block that was shown has the names `d`. */
  ghost predicate AllHave(seen: seq<Block>, d: multiset<Name>) {
    forall i :: 0 <= i < |seen| ==> Plain(seen[i]) && d <= NamesOf(seen[i])
  }

  /** Where the report leads when the names `d` are missing from the start. */
  ghost function LeadsWithout(seen: seq<Block>, d: multiset<Name>): Option<multiset<Name>>
    requires seen != [] && AllPlain(seen)
  {
    if AllHave(seen, d) then Some(NamesOf(seen[|seen| - 1]) - d) else None
  }

  lemma AllHaveMore(seen: seq<Block>, b: Block, d: multiset<Name>)
    requires Plain(b)
    ensures AllHave(seen + [b], d) <==> AllHave(seen, d) && d <= NamesOf(b)
  {
    var more := seen + [b];
    assert forall i :: 0 <= i < |seen| ==> more[i] == seen[i];
    assert more[|seen|] == b;
  }

  lemma LeadsOn(m: multiset<Name>, a: seq<DirOp>, ops: seq<DirOp>, seen: seq<Block>, b: Block, d: multiset<Name>)
    requires seen != [] && AllPlain(seen) && Plain(b)
    requires Replay(m, a) == LeadsWithout(seen, d) && Turns(NamesOf(seen[|seen| - 1]), NamesOf(b), ops)
    ensures AllPlain(seen + [b]) && Replay(m, a + ops) == LeadsWithout(seen + [b], d)
  {
    AllHaveMore(seen, b, d);
    if AllHave(seen, d) {
      ReplayConcat(m, a, ops);
      assert d <= NamesOf(seen[|seen| - 1]);
      TurnsWithout(NamesOf(seen[|seen| - 1]), NamesOf(b), d, ops);
    } else {
      ReplayNone(m, a, ops);
    }
  }

  /** Over every run, for every watch: replayed from the names in the first block without some of
      them, the report leads to the names in the last block without these, if every block that
      the watch was shown has them, and cannot be replayed otherwise. */
  lemma {:induction false} RunLeadsWithout(steps: seq<Step>, id: nat, d: multiset<Name>)
    requires RunOk(Initial, steps) && AllPlain(Seen(steps, id)) && Seen(steps, id) != []
    requires d <= NamesOf(Seen(steps, id)[0])
    ensures
      var seen := Seen(steps, id);
      Replay(NamesOf(seen[0]) - d, OpsOf(Run(Initial, steps).log, id)) == LeadsWithout(seen, d)
  {
    var pre, step := steps[..|steps| - 1], steps[|steps| - 1];
    var s, seen := Run(Initial, pre), Seen(pre, id);
    PlainParts(seen, Shown(s, step, id));
    RunReplays(pre, id);
    if seen != [] {
      RunLeadsWithout(pre, id, d);
      StepLeadsWithout(s, step, id, seen, d);
    } else {
      StartLeadsWithout(s, step, id, d);
    }
  }

  lemma StepLeadsWithout(s: State, step: Step, id: nat, seen: seq<Block>, d: multiset<Name>)
    requires StepOk(s, step) && WellFormed(s) && seen != [] && Accounts(s, id, seen) && AllPlain(Shown(s, step, id))
    requires Replay(NamesOf(seen[0]) - d, OpsOf(s.log, id)) == LeadsWithout(seen, d)
    ensures AllPlain(seen + Shown(s, step, id))
    ensures Replay(NamesOf(seen[0]) - d, OpsOf(Apply(s, step).log, id)) == LeadsWithout(seen + Shown(s, step, id), d)
  {
    var shown := Shown(s, step, id);
    var ops := StepOps(s, step, id, NamesOf(seen[|seen| - 1]));
    if shown == [] {
      assert seen + shown == seen && OpsOf(s.log, id) + ops == OpsOf(s.log, id);
    } else {
      assert shown == [shown[0]];
      LeadsOn(NamesOf(seen[0]) - d, OpsOf(s.log, id), ops, seen, shown[0], d);
    }
  }

  lemma StartLeadsWithout(s: State, step: Step, id: nat, d: multiset<Name>)
    requires StepOk(s, step) && WellFormed(s) && Accounts(s, id, []) && Shown(s, step, id) != []
    requires AllPlain(Shown(s, step, id)) && d <= NamesOf(Shown(s, step, id)[0])
    ensures Replay(NamesOf(Shown(s, step, id)[0]) - d, OpsOf(Apply(s, step).log, id))
         == LeadsWithout(Shown(s, step, id), d)
  {
    OpsOfAbsent(s.log, id);
  }

  // ----- from the names in use to the names in use

  function UsedNames(data: Block): multiset<Name>
    requires Walkable(data, 0)
  {
    Names(Used(Parse(data, 0)))
  }

  function UnusedNames(data: Block): multiset<Name>
    requires Walkable(data, 0)
  {
    Names(Unused(Parse(data, 0)))
  }

  lemma UsedAre(data: Block)
    requires Walkable(data, 0)
    ensures UnusedNames(data) <= NamesOf(data) && UsedNames(data) == NamesOf(data) - UnusedNames(data)
  {
    NamesSplit(Parse(data, 0));
  }

  lemma SameRest(m: multiset<Name>, d: multiset<Name>, e: multiset<Name>)
    requires d <= m && e <= m
    ensures m - d == m - e <==> d == e
  {
    if m - d == m - e {
      forall n: Name
        ensures d[n] == e[n]
      {
        assert (m - d)[n] == (m - e)[n];
      }
    }
  }

  /** The report of a watch leads from the names in use in the first block it was shown to those
      in the last if and only if the same names are not in use in both, and every block between
      has them. */
  lemma UsedReplayIff(steps: seq<Step>, id: nat)
    requires RunOk(Initial, steps) && AllPlain(Seen(steps, id)) && Seen(steps, id) != []
    ensures
      var seen := Seen(steps, id);
      var first, last := seen[0], seen[|seen| - 1];
      Replay(UsedNames(first), OpsOf(Run(Initial, steps).log, id)) == Some(UsedNames(last))
      <==> UnusedNames(first) == UnusedNames(last) && AllHave(seen, UnusedNames(first))
  {
    var seen := Seen(steps, id);
    var first, last := seen[0], seen[|seen| - 1];
    UsedAre(first);
    UsedAre(last);
    RunLeadsWithout(steps, id, UnusedNames(first));
    if AllHave(seen, UnusedNames(first)) {
      assert UnusedNames(first) <= NamesOf(last);
      SameRest(NamesOf(last), UnusedNames(first), UnusedNames(last));
    }
  }

  // ----- a deletion that is not reported

  /** A block of one file named "a", of any size. */
  function OneFile(inode: uint32, padding: seq<byte>): Block
    requires |padding| < 0xFFF0
  {
    EncodeBlock([Record(inode, 1, [97], padding)])
  }

  lemma OneFileParses(inode: uint32, padding: seq<byte>)
    requires |padding| < 0xFFF0
    ensures Parsable(OneFile(inode, padding)) && Plain(OneFile(inode, padding))
    ensures Parse(OneFile(inode, padding), 0) == [DirEntry(inode, 1, [97])]
    ensures Table(OneFile(inode, padding)) == [DirEntry(inode, 1, [97])]
  {
    var r := Record(inode, 1, [97], padding);
    OneRecord(r);
    CStringOf(r.name);
    var e := DirEntry(inode, 1, [97]);
    assert [e][..0] == [] && Sort([e]) == [e];
  }

  lemma OneFileUsed(inode: uint32)
    ensures Names(Used([DirEntry(inode, 1, [97])])) == if inode == 0 then multiset{} else multiset{[97]}
  {
    var e := DirEntry(inode, 1, [97]);
    assert [e][1..] == [];
    assert Used([e]) == if inode == 0 then [] else [e];
  }

  lemma NothingChanged(s: State, op: Step)
    requires op.BlockOp? && |op.unset| == DIR_MAX && BlockOf(op.sector) == 0 && Parsable(op.data)
    requires |s.watches| == 1 && s.watches[0].block == 0
    requires |s.watches[0].dir| == |Table(op.data)| == 1 && s.watches[0].dir[0].name == Table(op.data)[0].name
    ensures StepOk(s, op) && Apply(s, op) == s
  {
    var a, b := s.watches[0].dir, Table(op.data);
    LessIsStrict(a[0].name, b[0].name);
    assert a[1..] == [] && b[1..] == [] && Diff(a, b) == Diff(a[1..], b[1..]);
  }

  lemma TwoSteps(set_: Step, op: Step)
    requires StepOk(Initial, set_) && StepOk(Apply(Initial, set_), op)
    ensures RunOk(Initial, [set_, op]) && Run(Initial, [set_, op]) == Apply(Apply(Initial, set_), op)
  {
    var steps := [set_, op];
    assert steps[..0] == [] && steps[..2] == steps;
    RunOneMore(Initial, steps, 0);
    RunOneMore(Initial, steps, 1);
  }

  lemma UnreportedRewrite(path: string, a: Block, b: Block, unset: seq<Op>)
    requires Parsable(a) && Parsable(b) && |unset| == DIR_MAX
    requires |Table(a)| == |Table(b)| == 1 && Table(a)[0].name == Table(b)[0].name
    ensures RunOk(Initial, [SetBlock(0, path, a), BlockOp(0, b, unset)])
    ensures Run(Initial, [SetBlock(0, path, a), BlockOp(0, b, unset)]).log == []
  {
    NothingChanged(Apply(Initial, SetBlock(0, path, a)), BlockOp(0, b, unset));
    TwoSteps(SetBlock(0, path, a), BlockOp(0, b, unset));
  }

  /** The block is watched, then written with the inode of its file taken away: nothing is
      reported, although its name was in use and is no more. */
  lemma UnseenDeletion(path: string, inode: uint32, none: uint32, padding: seq<byte>, unset: seq<Op>)
    requires inode != 0 && none == 0 && |padding| < 0xFFF0 && |unset| == DIR_MAX
    ensures RunOk(Initial, [SetBlock(0, path, OneFile(inode, padding)), BlockOp(0, OneFile(none, padding), unset)])
    ensures
      var steps := [SetBlock(0, path, OneFile(inode, padding)), BlockOp(0, OneFile(none, padding), unset)];
      Run(Initial, steps).log == []
    ensures Walkable(OneFile(inode, padding), 0) && UsedNames(OneFile(inode, padding)) == multiset{[97]}
    ensures Walkable(OneFile(none, padding), 0) && UsedNames(OneFile(none, padding)) == multiset{}
  {
    OneFileParses(inode, padding);
    OneFileParses(none, padding);
    UnreportedRewrite(path, OneFile(inode, padding), OneFile(none, padding), unset);
    OneFileUsed(inode);
    OneFileUsed(none);
  }
}
