/** The report as it is printed: a line carries the path of its watch, not the watch.  When no
    other watch has the path of a directory, the lines with that path are those of its blocks. */
module ReportLines {
  import opened Bits
  import opened Common
  import opened DirNames
  import opened DirDiff
  import opened Ext2Dir
  import opened Monitor
  import opened DirectoryReplay

  /** The operations on the lines with a path. */
  function OpsOn(log: seq<Event>, path: string): seq<DirOp> {
    if log == [] then []
    else if log[0].path == path then [log[0].op] + OpsOn(log[1..], path)
    else OpsOn(log[1..], path)
  }

  /** The watches with the path, and their lines, are those with an id from `lo` up to `hi`. */
  predicate Owns(s: State, path: string, lo: nat, hi: nat) {
    && (forall i :: 0 <= i < |s.watches| ==> (s.watches[i].path == path <==> lo <= s.watches[i].id < hi))
    && (forall i :: 0 <= i < |s.log| ==> (s.log[i].path == path <==> lo <= s.log[i].id < hi))
  }

  lemma ObserveOwns(s: State, k: nat, t: seq<DirEntry>, unset: seq<Op>, path: string, lo: nat, hi: nat)
    requires k < |s.watches| && |Diff(s.watches[k].dir, t)| <= |unset| && Owns(s, path, lo, hi)
    ensures Owns(Observe(s, k, t, unset), path, lo, hi)
  {
    EventsOfAre(s.watches[k], EncodeAll(Diff(s.watches[k].dir, t), unset));
  }

  lemma StepOwns(s: State, step: Step, path: string, lo: nat, hi: nat)
    requires StepOk(s, step) && Owns(s, path, lo, hi)
    requires step.SetBlock? ==> (step.path == path <==> lo <= s.next < hi)
    ensures Owns(Apply(s, step), path, lo, hi)
  {
    if step.BlockOp? {
      var k := Top(s.watches, BlockOf(step.sector));
      if k < |s.watches| {
        ObserveOwns(s, k, Table(step.data), step.unset, path, lo, hi);
      }
    }
  }

  /** No watch with the path is set. */
  predicate Elsewhere(steps: seq<Step>, path: string) {
    forall i :: 0 <= i < |steps| && steps[i].SetBlock? ==> steps[i].path != path
  }

  lemma {:induction false} RunOwns(a: seq<Step>, b: seq<Step>, path: string, lo: nat, hi: nat)
    requires RunOk(Initial, a) && Owns(Run(Initial, a), path, lo, hi) && Run(Initial, a).next >= hi
    requires RunOk(Initial, a + b) && Elsewhere(b, path)
    ensures Owns(Run(Initial, a + b), path, lo, hi) && Run(Initial, a + b).next >= hi
    decreases |b|
  {
    if b == [] {
      assert a + b == a;
    } else {
      Snoc(a, b);
      RunOwns(a, b[..|b| - 1], path, lo, hi);
      StepOwns(Run(Initial, a + b[..|b| - 1]), b[|b| - 1], path, lo, hi);
    }
  }

  lemma {:induction false} SetsOwn(pre: seq<Step>, sets: seq<Step>, path: string, lo: nat)
    requires RunOk(Initial, pre) && Owns(Run(Initial, pre), path, lo, lo) && lo == Run(Initial, pre).next
    requires RunOk(Initial, pre + sets) && (forall i :: 0 <= i < |sets| ==> sets[i].SetBlock? && sets[i].path == path)
    ensures Run(Initial, pre + sets).next == lo + |sets|
    ensures Owns(Run(Initial, pre + sets), path, lo, lo + |sets|)
    decreases |sets|
  {
    if sets == [] {
      assert pre + sets == pre;
    } else {
      Snoc(pre, sets);
      var s := Run(Initial, pre + sets[..|sets| - 1]);
      SetsOwn(pre, sets[..|sets| - 1], path, lo);
      RunWellFormed(pre + sets[..|sets| - 1]);
      OwnsFurther(s, path, lo);
      StepOwns(s, sets[|sets| - 1], path, lo, s.next + 1);
    }
  }

  lemma OwnsFurther(s: State, path: string, lo: nat)
    requires WellFormed(s) && Owns(s, path, lo, s.next)
    ensures Owns(s, path, lo, s.next + 1)
  {
  }

  lemma OwnsNothing(s: State, path: string)
    requires WellFormed(s) && Owns(s, path, 0, 0)
    ensures Owns(s, path, s.next, s.next)
  {
  }

  lemma {:induction false} LinesAreOps(log: seq<Event>, path: string, lo: nat, hi: nat)
    requires forall i :: 0 <= i < |log| ==> (log[i].path == path <==> lo <= log[i].id < hi)
    ensures OpsOn(log, path) == OpsIn(log, lo, hi)
  {
    if log != [] {
      LinesAreOps(log[1..], path, lo, hi);
    }
  }

  lemma DirectoryOwns(pre: seq<Step>, sets: seq<Step>, steps: seq<Step>, path: string)
    requires RunOk(Initial, pre + sets + steps) && Elsewhere(pre, path) && Elsewhere(steps, path)
    requires forall i :: 0 <= i < |sets| ==> sets[i].SetBlock? && sets[i].path == path
    ensures RunOk(Initial, pre)
    ensures var lo := Run(Initial, pre).next; Owns(Run(Initial, pre + sets + steps), path, lo, lo + |sets|)
  {
    RunPrefix(pre + sets, steps);
    RunPrefix(pre, sets);
    assert [] + pre == pre;
    RunOwns([], pre, path, 0, 0);
    RunWellFormed(pre);
    OwnsNothing(Run(Initial, pre), path);
    var lo := Run(Initial, pre).next;
    SetsOwn(pre, sets, path, lo);
    RunOwns(pre + sets, steps, path, lo, lo + |sets|);
  }

  /** Where the lines with a path lead from a multiset of names. */
  function ReplayLines(log: seq<Event>, path: string, was: multiset<Name>): Option<multiset<Name>> {
    Replay(was, OpsOn(log, path))
  }

  /** The lines with a path replay from the names in one sequence of blocks to those in another. */
  predicate LinesTell(log: seq<Event>, path: string, was: seq<Block>, now: seq<Block>) {
    && |was| == |now| && AllPlain(was) && AllPlain(now)
    && ReplayLines(log, path, Sum(EachNames(was), |was|)) == Some(Sum(EachNames(now), |was|))
  }

  lemma OwnLinesReplay(s: State, path: string, lo: nat, n: nat, was: multiset<Name>)
    requires Owns(s, path, lo, lo + n)
    ensures ReplayLines(s.log, path, was) == ReplayN(s.log, lo, n, was)
  {
    LinesAreOps(s.log, path, lo, lo + n);
  }

  lemma OwnLinesTell(s: State, path: string, lo: nat, was: seq<Block>, now: seq<Block>)
    ensures TellAll(s.log, lo, was, now) && Owns(s, path, lo, lo + |was|) ==> LinesTell(s.log, path, was, now)
  {
    if TellAll(s.log, lo, was, now) && Owns(s, path, lo, lo + |was|) {
      OwnLinesReplay(s, path, lo, |was|, Sum(EachNames(was), |was|));
    }
  }

  /** A directory of distinct blocks is watched after any run, and no other watch has its path;
      whatever follows, as long as no call sets or drops a watch of these blocks: the lines with
      its path replay from the names in the directory then to the names in it now. */
  lemma DirectoryLinesReplay(pre: seq<Step>, sets: seq<Step>, steps: seq<Step>, path: string)
    requires RunOk(Initial, pre + sets + steps) && SetsDistinct(sets)
    requires forall i :: 0 <= i < |sets| ==> StaysPlain(sets[i], steps) && Quiet(steps, sets[i].block)
    requires Elsewhere(pre, path) && Elsewhere(steps, path) && (forall i :: 0 <= i < |sets| ==> sets[i].path == path)
    ensures LinesTell(Run(Initial, pre + sets + steps).log, path, AllRead(sets), AllLatest(sets, steps))
  {
    DirectoryReplays(pre, sets, steps);
    DirectoryOwns(pre, sets, steps, path);
    OwnLinesTell(Run(Initial, pre + sets + steps), path, Run(Initial, pre).next, AllRead(sets), AllLatest(sets, steps));
  }
}
