/** Runs from an empty cache in which the address cache misleads its clients, one for each of the
    conditions of the laws that need one, in a guest whose memory repeats one word. */
module CachePitfalls {
  import opened Bits
  import opened Common
  import opened LruList
  import opened AddressCache
  import opened Transparency
  import Guest
  import Ia32

  /** The frame of 0x5000, where the symbol "s" is, and another frame for the first page. */
  predicate Maps(w: World, frame: uint32, first: uint32) {
    && w.sysmap == map["s" := 0x5000]
    && w.walk(0x5000, 0) == frame && w.walk(1, 0) == first + 1
    && frame % 4096 == first % 4096 == 0 && 0 < first && 0 < frame
  }

  function PageCell(frame: uint32, t: int): Stamped<Entry> {
    Stamped(Entry("", 0x5000, frame, 0), t)
  }

  function SymbolCell(mach: uint32, t: int): Stamped<Entry> {
    Stamped(Entry("s", 0, mach, 0), t)
  }

  lemma FirstOfOne(c: Stamped<Entry>, p: Stamped<Entry> -> bool)
    ensures First([c], p) == if p(c) then 0 else 1
  {
    FirstIs([c], p, if p(c) then 0 else 1);
  }

  lemma FirstOfTwo(c: Stamped<Entry>, d: Stamped<Entry>, p: Stamped<Entry> -> bool)
    ensures First([c, d], p) == if p(c) then 0 else if p(d) then 1 else 2
  {
    FirstIs([c, d], p, if p(c) then 0 else if p(d) then 1 else 2);
  }

  /** A symbol, then its page, enter an empty cache. */
  lemma AfterSymbol(w: World, frame: uint32, first: uint32, t0: int, t1: int, t2: int, t3: int)
    requires Maps(w, frame, first)
    ensures AccessSym(w, [], "s", t0, t1, t2, t3).1 == [SymbolCell(frame, t1), PageCell(frame, t3)]
  {
    var s := [SymbolCell(frame, t1)];
    assert Update([], Some("s"), 0x5000, 0, 0, frame, t1) == s;
    FirstOfOne(s[0], VirtHit(0x5000, 0));
    FirstOfOne(s[0], At(0x5000));
    assert Update(s, None, 0x5000, 0, frame, frame, t3) == s + [PageCell(frame, t3)];
  }

  /** A page enters an empty cache. */
  lemma AfterPage(w: World, frame: uint32, first: uint32, t0: int, t1: int)
    requires Maps(w, frame, first)
    ensures AccessVirt(w, [], 0x5000, 0, t0, t1).1 == [PageCell(frame, t1)]
  {
    assert Update([], None, 0x5000, 0, frame, frame, t1) == [PageCell(frame, t1)];
  }

  /** An access to address 1 puts its own frame under the symbol. */
  lemma AfterLowAccess(w: World, frame: uint32, first: uint32, t: int, u: int, t0: int, t1: int)
    requires Maps(w, frame, first)
    ensures AccessVirt(w, [SymbolCell(frame, t), PageCell(frame, u)], 1, 0, t0, t1).1
         == [SymbolCell(first, t1), PageCell(frame, u)]
  {
    var s := [SymbolCell(frame, t), PageCell(frame, u)];
    FirstOfTwo(s[0], s[1], VirtHit(0, 0));
    FirstOfTwo(s[0], s[1], At(0));
  }

  lemma SpoiledIn(w: World, frame: uint32, first: uint32, clock: nat -> int)
    requires Maps(w, frame, first)
    ensures |ServeAll(w, [], [Sym("s"), Virt(1, 0), Sym("s")], clock, 0)| == 3
    ensures ServeAll(w, [], [Sym("s"), Virt(1, 0), Sym("s")], clock, 0)[2] == Some(first)
    ensures Fresh(w, Sym("s")) == Some(frame)
  {
    var rs := [Sym("s"), Virt(1, 0), Sym("s")];
    var s1 := [SymbolCell(frame, clock(1)), PageCell(frame, clock(3))];
    var s2 := [SymbolCell(first, clock(5)), PageCell(frame, clock(3))];
    AfterSymbol(w, frame, first, clock(0), clock(1), clock(2), clock(3));
    AfterLowAccess(w, frame, first, clock(1), clock(3), clock(4), clock(5));
    FirstOfTwo(s2[0], s2[1], SymHit("s", 0));
    assert rs[1..] == [Virt(1, 0), Sym("s")] && rs[1..][1..] == [Sym("s")];
    assert ServeAll(w, s2, [Sym("s")], clock, 8)[0] == Some(first);
    assert ServeAll(w, s1, rs[1..], clock, 4)[1] == Some(first);
  }

  lemma EmptyNameIn(w: World, frame: uint32, first: uint32, clock: nat -> int)
    requires Maps(w, frame, first)
    ensures |ServeAll(w, [], [Virt(0x5000, 0), Sym("")], clock, 0)| == 2
    ensures ServeAll(w, [], [Virt(0x5000, 0), Sym("")], clock, 0)[1] == Some(frame)
    ensures Fresh(w, Sym("")) == None
  {
    var rs := [Virt(0x5000, 0), Sym("")];
    var s := [PageCell(frame, clock(1))];
    AfterPage(w, frame, first, clock(0), clock(1));
    FirstOfOne(s[0], SymHit("", 0));
    assert rs[1..] == [Sym("")];
    assert ServeAll(w, s, [Sym("")], clock, 4)[0] == Some(frame);
  }

  lemma DeadIn(w: World, frame: uint32, first: uint32, t0: int, t1: int, t2: int, t3: int)
    requires Maps(w, frame, first)
    ensures
      var s := AccessVirt(w, [], 0x5000, 0, t0, t1).1;
      CheckSym(Update(s, Some("s"), 0x5000, 0, 0, frame, t2), "s", 0, t3).0 == None
    ensures FreshSym(w, "s") == Some(frame)
  {
    AfterPage(w, frame, first, t0, t1);
    FirstOfOne(PageCell(frame, t1), Named("s"));
    DeadSymbolMisses([PageCell(frame, t1)], "s", 0x5000, 0, 0, frame, t2, t3);
  }

  // ----- in a guest

  /** The word is the entry of the 4 MB page at 0x400000, such as 0x400081. */
  predicate SecondLargePage(e: uint32) {
    e / 0x40_0000 == 1 && e % 4096 <= 4092 && Ia32.P(e) && Ia32.PS(e)
  }

  function WorldOf(e: uint32): World {
    Guest.WorldOf(Guest.OneTask(e, map["s" := 0x5000]))
  }

  lemma WorldMaps(e: uint32)
    requires SecondLargePage(e)
    ensures Guest.RingOk(Guest.OneTask(e, map["s" := 0x5000])) && Maps(WorldOf(e), 0x40_5000, 0x40_0000)
  {
    Guest.OneTaskOk(e, map["s" := 0x5000]);
    Guest.OneTaskWalk(e, map["s" := 0x5000], 0x5000);
    Guest.OneTaskWalk(e, map["s" := 0x5000], 1);
  }

  /** The run: the symbol, address 1, the symbol.  The last answer is the frame of address 1. */
  lemma SpoiledSymbol(e: uint32, clock: nat -> int)
    requires SecondLargePage(e)
    ensures |ServeAll(WorldOf(e), [], [Sym("s"), Virt(1, 0), Sym("s")], clock, 0)| == 3
    ensures ServeAll(WorldOf(e), [], [Sym("s"), Virt(1, 0), Sym("s")], clock, 0)[2] == Some(0x40_0000)
    ensures Fresh(WorldOf(e), Sym("s")) == Some(0x40_5000)
  {
    WorldMaps(e);
    SpoiledIn(WorldOf(e), 0x40_5000, 0x40_0000, clock);
  }

  /** The run: a kernel page, the empty symbol.  The answer is the frame of that page. */
  lemma EmptyNameHits(e: uint32, clock: nat -> int)
    requires SecondLargePage(e)
    ensures |ServeAll(WorldOf(e), [], [Virt(0x5000, 0), Sym("")], clock, 0)| == 2
    ensures ServeAll(WorldOf(e), [], [Virt(0x5000, 0), Sym("")], clock, 0)[1] == Some(0x40_5000)
    ensures Fresh(WorldOf(e), Sym("")) == None
  {
    WorldMaps(e);
    EmptyNameIn(WorldOf(e), 0x40_5000, 0x40_0000, clock);
  }

  /** A kernel page, then an update for the mapped symbol on it: the symbol does not hit. */
  lemma DeadSymbol(e: uint32, t0: int, t1: int, t2: int, t3: int)
    requires SecondLargePage(e)
    ensures
      var s := AccessVirt(WorldOf(e), [], 0x5000, 0, t0, t1).1;
      CheckSym(Update(s, Some("s"), 0x5000, 0, 0, 0x40_5000, t2), "s", 0, t3).0 == None
    ensures FreshSym(WorldOf(e), "s") == Some(0x40_5000)
  {
    WorldMaps(e);
    DeadIn(WorldOf(e), 0x40_5000, 0x40_0000, t0, t1, t2, t3);
  }
}
