/** Whole runs of the monitor on its hash table: what it reports, and what that tells. */
module DiskRuns {
  import opened Bits
  import opened Common
  import opened Ext2Dir
  import opened Monitor
  import opened DirectoryReplay
  import opened ReportLines
  import opened DiskMonitor

  /** Any run on a new table of watches: its state is that of the machine. */
  method RunDisk(steps: seq<Step>) returns (disk: XaDisk)
    requires RunOk(Initial, steps)
    ensures disk.Valid() && disk.state == Run(Initial, steps)
    ensures fresh(disk) && fresh(disk.table) && fresh(disk.table.buckets) && fresh(disk.table.nodes)
    decreases |steps|
  {
    if steps == [] {
      disk := new XaDisk();
    } else {
      disk := RunDisk(steps[..|steps| - 1]);
      disk.Step(steps[|steps| - 1]);
    }
  }

  /** A directory is watched after any run, and no other watch has its path: the lines with its
      path, as the table of watches reports them, replay from the names in the directory then to
      the names in it now. */
  method WatchDirectory(pre: seq<Step>, sets: seq<Step>, steps: seq<Step>, path: string) returns (log: seq<Event>)
    requires RunOk(Initial, pre + sets + steps) && SetsDistinct(sets)
    requires forall i :: 0 <= i < |sets| ==> StaysPlain(sets[i], steps) && Quiet(steps, sets[i].block)
    requires Elsewhere(pre, path) && Elsewhere(steps, path) && (forall i :: 0 <= i < |sets| ==> sets[i].path == path)
    ensures LinesTell(log, path, AllRead(sets), AllLatest(sets, steps))
  {
    var disk := RunDisk(pre + sets + steps);
    log := disk.log;
    DirectoryLinesReplay(pre, sets, steps, path);
  }
}
