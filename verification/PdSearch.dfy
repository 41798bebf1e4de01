/** The search for the kernel's page directory, libxa/xenaccess/xa_memory.c: candidate pages
    are collected in a linked list, marked, and removed from it in place. */
module PdSearch {
  import opened Bits
  import opened Common
  import opened PdScore
  import Ia32

  datatype Os = Linux | Windows

  type Page = s: seq<uint32> | |s| == 1024 witness seq(1024, i => 0)

  /** Guest physical memory by page number; nothing where mapping fails. */
  type Pages = nat -> Option<Page>

  // ----- page by page

  function PageScore(page: Option<Page>, msize: uint32): int {
    if page.None? then 0 else Score(page.value, Entries(msize))
  }

  /** The directory entry for the first page of the kernel, where its address is 2 GB or 3 GB. */
  function KernelEntry(pageOffset: uint32): (i: nat)
    ensures i + 8 <= 1024
  {
    if pageOffset == 0x8000_0000 || pageOffset == 0xC000_0000 then pageOffset / 0x40_0000 else 0
  }

  function Total(ws: seq<uint32>): nat {
    if ws == [] then 0 else Total(ws[..|ws| - 1]) + ws[|ws| - 1]
  }

  /** The sum, modulo 2^32, of the first eight entries of the kernel region. */
  function Checksum(page: Option<Page>, pageOffset: uint32): uint32 {
    if page.None? then 0 else Total(page.value[KernelEntry(pageOffset)..KernelEntry(pageOffset) + 8]) % 0x1_0000_0000
  }

  /** The entry names the page at the address, whatever its flags. */
  predicate RefersTo(w: uint32, address: nat) {
    w != 0 && w / 4096 * 4096 == address
  }

  function SelfRefs(ws: seq<uint32>, address: nat): nat {
    if ws == [] then 0 else SelfRefs(ws[..|ws| - 1], address) + (if RefersTo(ws[|ws| - 1], address) then 1 else 0)
  }

  function PageSelfRefs(page: Option<Page>, address: nat): nat {
    if page.None? then 0 else SelfRefs(page.value, address)
  }

  method KernelPdScore(page: Option<Page>, msize: uint32) returns (score: int)
    ensures score == PageScore(page, msize)
  {
    if page.None? {
      return 0;
    }
    score := ScorePage(page.value, msize);
  }

  method KernelPdChecksum(page: Option<Page>, pageOffset: uint32) returns (checksum: uint32)
    ensures checksum == Checksum(page, pageOffset)
  {
    if page.None? {
      return 0;
    }
    var ws := page.value;
    var start := 0;
    if pageOffset == 0x8000_0000 {
      start := 4096 / 2;
    } else if pageOffset == 0xC000_0000 {
      start := 3 * 4096 / 4;
    }
    checksum := 0;
    for i := start / 4 to start / 4 + 8
      invariant checksum == Total(ws[start / 4..i]) % 0x1_0000_0000
    {
      assert ws[start / 4..i + 1][..i - start / 4] == ws[start / 4..i];
      checksum := Trunc(checksum + ws[i]);
    }
  }

  method KernelPdSelfref(page: Option<Page>, address: nat) returns (selfref: nat)
    ensures selfref == PageSelfRefs(page, address)
  {
    if page.None? {
      return 0;
    }
    var ws := page.value;
    selfref := 0;
    for i := 0 to |ws|
      invariant selfref == SelfRefs(ws[..i], address)
    {
      assert ws[..i + 1][..i] == ws[..i];
      Ia32.Base32(ws[i]);
      if ws[i] != 0 && And(ws[i], 0xFFFF_F000) == address {
        selfref := selfref + 1;
      }
    }
    assert ws[..|ws|] == ws;
  }

  // ----- the specification of the search

  /** What the search asks of the page at each address, the size of memory and the system. */
  datatype Search = Search(
    score: nat -> int,
    checksum: nat -> uint32,
    selfrefs: nat -> nat,
    end: uint32,
    os: Os)

  /** The page at an address. */
  function At(pages: Pages, a: nat): Option<Page> {
    pages(a / 4096)
  }

  ghost predicate Describes(q: Search, pages: Pages, pageOffset: uint32) {
    forall a: nat {:trigger At(pages, a)} ::
      && q.score(a) == PageScore(At(pages, a), q.end)
      && q.checksum(a) == Checksum(At(pages, a), pageOffset)
      && q.selfrefs(a) == PageSelfRefs(At(pages, a), a)
  }

  method ScoreAt(q: Search, pages: Pages, ghost pageOffset: uint32, a: nat) returns (score: int)
    requires Describes(q, pages, pageOffset)
    ensures score == q.score(a)
  {
    score := KernelPdScore(At(pages, a), q.end);
  }

  method ChecksumAt(q: Search, pages: Pages, pageOffset: uint32, a: nat) returns (checksum: uint32)
    requires Describes(q, pages, pageOffset)
    ensures checksum == q.checksum(a)
  {
    checksum := KernelPdChecksum(At(pages, a), pageOffset);
  }

  method SelfrefAt(q: Search, pages: Pages, ghost pageOffset: uint32, a: nat) returns (selfref: nat)
    requires Describes(q, pages, pageOffset)
    ensures selfref == q.selfrefs(a)
  {
    selfref := KernelPdSelfref(At(pages, a), a);
  }

  function SearchOf(pages: Pages, end: uint32, pageOffset: uint32, os: Os): Search {
    Search(
      (a: nat) => PageScore(At(pages, a), end),
      (a: nat) => Checksum(At(pages, a), pageOffset),
      (a: nat) => PageSelfRefs(At(pages, a), a),
      end,
      os)
  }

  lemma SearchDescribes(pages: Pages, end: uint32, pageOffset: uint32, os: Os)
    ensures Describes(SearchOf(pages, end, pageOffset, os), pages, pageOffset)
  {
  }

  /** The addresses, ascending, of the first p pages that score above 0. */
  function Scoring(q: Search, p: nat): seq<nat> {
    if p == 0 then []
    else if q.score(4096 * (p - 1)) > 0 then Scoring(q, p - 1) + [4096 * (p - 1)]
    else Scoring(q, p - 1)
  }

  /** The number of pages the search visits. */
  function PageCount(q: Search): nat {
    (q.end + 4095) / 4096
  }

  /** Address 0 ends the list, so a scoring page 0 hides all the others. */
  function Candidates(q: Search): seq<nat> {
    var s := Scoring(q, PageCount(q));
    if s != [] && s[0] == 0 then [] else s
  }

  lemma {:induction false} ScoringAscends(q: Search, p: nat)
    ensures forall i :: 0 <= i < |Scoring(q, p)| ==> Scoring(q, p)[i] % 4096 == 0 && Scoring(q, p)[i] < 4096 * p
    ensures forall i, j :: 0 <= i < j < |Scoring(q, p)| ==> Scoring(q, p)[i] < Scoring(q, p)[j]
  {
    if p > 0 {
      ScoringAscends(q, p - 1);
    }
  }

  // ----- the linked list

  class Candidate {
    var address: nat
    var checksum: uint32
    var score: int
    var matches: int
    var selfref: nat
    var next: Candidate?

    /** malloc leaves the address unset. */
    constructor (address: nat)
      ensures this.address == address && next == null
    {
      this.address, next := address, null;
      checksum, score, matches, selfref := 0, 0, 0, 0;
    }
  }

  /** A list of distinct nodes linked in order; the last one is the end mark. */
  ghost predicate Chain(nodes: seq<Candidate>)
    reads nodes
  {
    && nodes != []
    && (forall i {:trigger nodes[i].next} :: 0 <= i < |nodes| - 1 ==> nodes[i].next == nodes[i + 1])
    && (forall i, j :: 0 <= i < j < |nodes| ==> nodes[i] != nodes[j])
  }

  /** The nodes carry the given addresses, none of them 0, and the end mark carries 0. */
  ghost predicate Carries(nodes: seq<Candidate>, addresses: seq<nat>)
    reads nodes
  {
    && Chain(nodes)
    && |nodes| == |addresses| + 1
    && (forall i :: 0 <= i < |addresses| ==> nodes[i].address == addresses[i] != 0)
    && nodes[|addresses|].address == 0
  }

  /** The list under construction: its last node waits for the next candidate. */
  ghost predicate Open(nodes: seq<Candidate>, addresses: seq<nat>, unset: nat)
    reads nodes
  {
    && Chain(nodes)
    && |nodes| == |addresses| + 1
    && (forall i :: 0 <= i < |addresses| ==> nodes[i].address == addresses[i])
    && nodes[|addresses|].address == if addresses == [] then unset else 0
  }

  method AddCandidate(cur: Candidate, address: nat, score: int, ghost nodes: seq<Candidate>,
                      ghost addresses: seq<nat>, ghost unset: nat)
    returns (end: Candidate)
    requires Open(nodes, addresses, unset) && cur == nodes[|addresses|]
    modifies cur
    ensures fresh(end) && Open(nodes + [end], addresses + [address], unset)
  {
    end := new Candidate(0);
    cur.address := address;
    cur.score := score;
    cur.next := end;
    ghost var more := nodes + [end];
    assert forall i :: 0 <= i < |nodes| ==> more[i] == nodes[i];
  }

  /** Page p is scored and, if it scores, added at the end of the list. */
  method CollectOne(q: Search, pages: Pages, ghost pageOffset: uint32, cur: Candidate, address: nat,
                    ghost p: nat, ghost nodes: seq<Candidate>, ghost unset: nat)
    returns (end: Candidate, ghost nodes': seq<Candidate>)
    requires Describes(q, pages, pageOffset) && address == 4096 * p
    requires Open(nodes, Scoring(q, p), unset) && cur == nodes[|nodes| - 1]
    modifies cur
    ensures Open(nodes', Scoring(q, p + 1), unset) && end == nodes'[|nodes'| - 1] && nodes'[0] == nodes[0]
    ensures nodes' == nodes || (nodes' == nodes + [end] && fresh(end))
  {
    end, nodes' := cur, nodes;
    var score := ScoreAt(q, pages, pageOffset, address);
    if 0 < score {
      end := AddCandidate(cur, address, score, nodes, Scoring(q, p), unset);
      nodes' := nodes + [end];
    }
  }

  /** Collects the scoring pages; the head's address is what malloc left when none scores. */
  method Collect(q: Search, pages: Pages, ghost pageOffset: uint32, unset: nat)
    returns (list: Candidate, ghost nodes: seq<Candidate>)
    requires q.end <= 0xFFFF_F000 && Describes(q, pages, pageOffset)
    ensures Open(nodes, Scoring(q, PageCount(q)), unset) && list == nodes[0] && fresh(nodes)
  {
    list := new Candidate(unset);
    var cur := list;
    nodes := [list];
    var address := 0;
    ghost var p := 0;
    while address < q.end
      invariant address == 4096 * p && p <= PageCount(q)
      invariant Open(nodes, Scoring(q, p), unset)
      invariant list == nodes[0] && fresh(nodes) && cur == nodes[|nodes| - 1]
      decreases q.end - address
    {
      cur, nodes := CollectOne(q, pages, pageOffset, cur, address, p, nodes, unset);
      address := address + 4096;
      p := p + 1;
    }
  }

  /** One checksum per candidate. */
  method MarkChecksums(q: Search, pages: Pages, pageOffset: uint32, list: Candidate, ghost nodes: seq<Candidate>,
                       ghost addresses: seq<nat>)
    requires Carries(nodes, addresses) && list == nodes[0]
    requires Describes(q, pages, pageOffset)
    modifies nodes`checksum
    ensures forall i :: 0 <= i < |addresses| ==> nodes[i].checksum == q.checksum(addresses[i])
  {
    var cur := list;
    ghost var i := 0;
    while cur.address != 0
      invariant 0 <= i <= |addresses| && cur == nodes[i]
      invariant forall j :: 0 <= j < i ==> nodes[j].checksum == q.checksum(addresses[j])
      decreases |addresses| - i
    {
      var c := ChecksumAt(q, pages, pageOffset, cur.address);
      cur.checksum := c;
      cur := cur.next;
      i := i + 1;
    }
  }

  // ----- matching checksums

  /** How many of the addresses have the checksum c. */
  function Sharers(q: Search, s: seq<nat>, c: uint32): nat {
    if s == [] then 0
    else Sharers(q, s[..|s| - 1], c) + (if q.checksum(s[|s| - 1]) == c then 1 else 0)
  }

  /** The others with the same checksum; -1 for the checksum 0. */
  function Matches(q: Search, s: seq<nat>, a: nat): int {
    if q.checksum(a) != 0 then Sharers(q, s, q.checksum(a)) - 1 else -1
  }

  method CountMatches(q: Search, list: Candidate, cur: Candidate, ghost nodes: seq<Candidate>,
                      ghost addresses: seq<nat>, ghost a: nat)
    requires Carries(nodes, addresses) && list == nodes[0] && cur in nodes && cur.checksum == q.checksum(a)
    requires forall i :: 0 <= i < |addresses| ==> nodes[i].checksum == q.checksum(addresses[i])
    modifies cur`matches
    ensures cur.matches == Matches(q, addresses, a)
  {
    cur.matches := -1;
    var cur2 := list;
    ghost var i := 0;
    while cur2.address != 0
      invariant 0 <= i <= |addresses| && cur2 == nodes[i]
      invariant cur.matches == if q.checksum(a) != 0 then Sharers(q, addresses[..i], q.checksum(a)) - 1 else -1
      decreases |addresses| - i
    {
      assert addresses[..i + 1][..i] == addresses[..i];
      if cur.checksum == cur2.checksum && cur.checksum != 0 {
        cur.matches := cur.matches + 1;
      }
      cur2 := cur2.next;
      i := i + 1;
    }
    assert addresses[..|addresses|] == addresses;
  }

  method MarkMatches(q: Search, list: Candidate, ghost nodes: seq<Candidate>, ghost addresses: seq<nat>)
    requires Carries(nodes, addresses) && list == nodes[0]
    requires forall i :: 0 <= i < |addresses| ==> nodes[i].checksum == q.checksum(addresses[i])
    modifies nodes`matches
    ensures forall i :: 0 <= i < |addresses| ==> nodes[i].matches == Matches(q, addresses, addresses[i])
  {
    var cur := list;
    ghost var i := 0;
    while cur.address != 0
      invariant 0 <= i <= |addresses| && cur == nodes[i]
      invariant forall j :: 0 <= j < i ==> nodes[j].matches == Matches(q, addresses, addresses[j])
      decreases |addresses| - i
    {
      CountMatches(q, list, cur, nodes, addresses, addresses[i]);
      cur := cur.next;
      i := i + 1;
    }
  }

  method MarkSelfrefs(q: Search, pages: Pages, ghost pageOffset: uint32, list: Candidate,
                      ghost nodes: seq<Candidate>, ghost addresses: seq<nat>)
    requires Carries(nodes, addresses) && list == nodes[0] && Describes(q, pages, pageOffset)
    modifies nodes`selfref
    ensures forall i :: 0 <= i < |addresses| ==> nodes[i].selfref == q.selfrefs(addresses[i])
  {
    var cur := list;
    ghost var i := 0;
    while cur.address != 0
      invariant 0 <= i <= |addresses| && cur == nodes[i]
      invariant forall j :: 0 <= j < i ==> nodes[j].selfref == q.selfrefs(addresses[j])
      decreases |addresses| - i
    {
      var r := SelfrefAt(q, pages, pageOffset, cur.address);
      cur.selfref := r;
      cur := cur.next;
      i := i + 1;
    }
  }

  // ----- removal in place

  /** The elements at the positions that `keep` marks, and those beyond it. */
  function Pick<T>(s: seq<T>, keep: seq<bool>): seq<T>
    requires |s| >= |keep|
    decreases |keep|
  {
    if keep == [] then s
    else if keep[0] then [s[0]] + Pick(s[1..], keep[1..])
    else Pick(s[1..], keep[1..])
  }

  lemma PickStep<T>(before: seq<T>, s: seq<T>, keep: seq<bool>)
    requires |s| >= |keep| > 0
    ensures before + Pick(s, keep) == (if keep[0] then before + [s[0]] else before) + Pick(s[1..], keep[1..])
  {
  }

  /** Unlinks a node: the head moves on, or its predecessor is linked past it. */
  method RemoveNode(list: Candidate, prev: Candidate?, cur: Candidate, ghost nodes: seq<Candidate>, ghost k: nat)
    returns (list': Candidate, cur': Candidate)
    requires Chain(nodes) && k < |nodes| - 1 && cur == nodes[k] && list == nodes[0]
    requires if k == 0 then prev == null else prev == nodes[k - 1]
    modifies if prev == null then {} else {prev}`next
    ensures Chain(Without(nodes, k)) && list' == Without(nodes, k)[0] && cur' == nodes[k + 1]
  {
    cur' := cur.next;
    list' := list;
    if cur == list {
      list' := cur';
    } else {
      prev.next := cur';
    }
  }

  predicate Marked(bySelfref: bool, selfref: nat, matches: int) {
    if bySelfref then selfref > 0 else matches > 0
  }

  /** The list is `now`; the pass is at node m of it, behind which is `prev`. */
  ghost predicate PassAt(list: Candidate, prev: Candidate?, cur: Candidate, now: seq<Candidate>, m: nat)
    reads now
  {
    && Chain(now) && m < |now| && list == now[0] && cur == now[m]
    && (if m == 0 then prev == null else prev == now[m - 1])
  }

  method PassOne(list: Candidate, prev: Candidate?, cur: Candidate, marked: bool, ghost now: seq<Candidate>,
                 ghost m: nat)
    returns (list': Candidate, prev': Candidate?, cur': Candidate)
    requires PassAt(list, prev, cur, now, m) && m < |now| - 1
    modifies if prev == null then {} else {prev}`next
    ensures if marked then PassAt(list', prev', cur', now, m + 1) else PassAt(list', prev', cur', Without(now, m), m)
    ensures prev' == if marked then cur else prev
  {
    if !marked {
      list', cur' := RemoveNode(list, prev, cur, now, m);
      prev' := prev;
    } else {
      list', prev', cur' := list, cur, cur.next;
    }
  }

  /** `keep` records the marks of the nodes before the end mark. */
  ghost predicate Marks(nodes: seq<Candidate>, keep: seq<bool>, bySelfref: bool)
    reads nodes
  {
    && |nodes| == |keep| + 1 && nodes[|keep|].address == 0
    && forall i :: 0 <= i < |keep| ==>
      nodes[i].address != 0 && keep[i] == Marked(bySelfref, nodes[i].selfref, nodes[i].matches)
  }

  ghost predicate Within(prev: Candidate?, rest: seq<Candidate>, all: set<Candidate>) {
    (prev == null || prev in all) && forall i :: 0 <= i < |rest| ==> rest[i] in all
  }

  /** One node is decided: `before` are the nodes kept so far, `rest` those to come. */
  method Decide(bySelfref: bool, list: Candidate, prev: Candidate?, cur: Candidate,
                ghost before: seq<Candidate>, ghost rest: seq<Candidate>, ghost keep: seq<bool>)
    returns (list': Candidate, prev': Candidate?, cur': Candidate, ghost before': seq<Candidate>)
    requires Marks(rest, keep, bySelfref) && cur.address != 0
    requires PassAt(list, prev, cur, before + rest, |before|)
    modifies if prev == null then {} else {prev}`next
    ensures keep != [] && before' + Pick(rest[1..], keep[1..]) == before + Pick(rest, keep)
    ensures PassAt(list', prev', cur', before' + rest[1..], |before'|)
    ensures Marks(rest[1..], keep[1..], bySelfref)
    ensures prev' == prev || prev' == rest[0]
  {
    var marked := Marked(bySelfref, cur.selfref, cur.matches);
    ghost var now := before + rest;
    assert now[|before|] == rest[0] && keep != [];
    PickStep(before, rest, keep);
    list', prev', cur' := PassOne(list, prev, cur, marked, now, |before|);
    if marked {
      before' := before + [rest[0]];
      assert before' + rest[1..] == now;
    } else {
      before' := before;
      assert before + rest[1..] == Without(now, |before|);
    }
  }

  method DecideWithin(bySelfref: bool, list: Candidate, prev: Candidate?, cur: Candidate,
                      ghost before: seq<Candidate>, ghost rest: seq<Candidate>, ghost keep: seq<bool>,
                      ghost all: set<Candidate>)
    returns (list': Candidate, prev': Candidate?, cur': Candidate, ghost before': seq<Candidate>)
    requires Marks(rest, keep, bySelfref) && cur.address != 0
    requires PassAt(list, prev, cur, before + rest, |before|) && Within(prev, rest, all)
    modifies all`next
    ensures keep != [] && before' + Pick(rest[1..], keep[1..]) == before + Pick(rest, keep)
    ensures PassAt(list', prev', cur', before' + rest[1..], |before'|) && Within(prev', rest[1..], all)
    ensures Marks(rest[1..], keep[1..], bySelfref)
  {
    list', prev', cur', before' := Decide(bySelfref, list, prev, cur, before, rest, keep);
  }

  /** Removes the nodes that are not marked, in one pass over the list. */
  method RemoveUnmarked(list: Candidate, bySelfref: bool, ghost nodes: seq<Candidate>, ghost keep: seq<bool>)
    returns (list': Candidate, ghost nodes': seq<Candidate>)
    requires Chain(nodes) && list == nodes[0] && Marks(nodes, keep, bySelfref)
    modifies nodes`next
    ensures Chain(nodes') && list' == nodes'[0]
    ensures nodes' == Pick(nodes, keep)
  {
    list' := list;
    var prev: Candidate?, cur := null, list;
    ghost var before: seq<Candidate>, rest, todo := [], nodes, keep;
    ghost var all := set c | c in nodes;
    assert before + rest == nodes;
    while cur.address != 0
      invariant Marks(rest, todo, bySelfref)
      invariant PassAt(list', prev, cur, before + rest, |before|)
      invariant Within(prev, rest, all)
      invariant before + Pick(rest, todo) == Pick(nodes, keep)
      decreases |todo|
    {
      list', prev, cur, before := DecideWithin(bySelfref, list', prev, cur, before, rest, todo, all);
      rest, todo := rest[1..], todo[1..];
    }
    nodes' := before + rest;
  }

  // ----- the whole search

  function Decisions(s: seq<nat>, p: nat -> bool): (keep: seq<bool>)
    ensures |keep| == |s| && forall i :: 0 <= i < |s| ==> keep[i] == p(s[i])
  {
    seq(|s|, i requires 0 <= i < |s| => p(s[i]))
  }

  function Filtered(s: seq<nat>, p: nat -> bool): seq<nat> {
    Pick(s, Decisions(s, p))
  }

  function HasMatch(q: Search, s: seq<nat>): nat -> bool {
    (a: nat) => Matches(q, s, a) > 0
  }

  function HasSelfref(q: Search): nat -> bool {
    (a: nat) => q.selfrefs(a) > 0
  }

  function Survivors(q: Search): seq<nat> {
    var s := Filtered(Candidates(q), HasMatch(q, Candidates(q)));
    if q.os == Windows then Filtered(s, HasSelfref(q)) else s
  }

  /** The address of the first survivor, or 0. */
  function Found(q: Search): nat {
    if Survivors(q) == [] then 0 else Survivors(q)[0]
  }

  /** Removing nodes removes their addresses. */
  lemma {:induction false} PickAddresses(nodes: seq<Candidate>, addresses: seq<nat>, keep: seq<bool>)
    requires |nodes| == |addresses| + 1 == |keep| + 1
    requires forall i :: 0 <= i < |addresses| ==> nodes[i].address == addresses[i] != 0
    requires nodes[|addresses|].address == 0
    ensures var n, a := Pick(nodes, keep), Pick(addresses, keep);
      && |n| == |a| + 1 && n[|a|].address == 0
      && forall i :: 0 <= i < |a| ==> n[i].address == a[i] != 0
    decreases |keep|
  {
    if keep != [] {
      PickAddresses(nodes[1..], addresses[1..], keep[1..]);
    }
  }

  lemma PickNodes(nodes: seq<Candidate>, keep: seq<bool>)
    requires |nodes| >= |keep|
    ensures forall c :: c in Pick(nodes, keep) ==> c in nodes
    decreases |keep|
  {
    if keep != [] {
      PickNodes(nodes[1..], keep[1..]);
    }
  }

  /** The list that the scoring loop leaves is the list of candidates. */
  lemma CollectedCarries(q: Search, nodes: seq<Candidate>, unset: nat) returns (visible: seq<Candidate>)
    requires Open(nodes, Scoring(q, PageCount(q)), unset)
    requires unset == 0 || Scoring(q, PageCount(q)) != []
    ensures visible != [] && visible[0] == nodes[0] && Carries(visible, Candidates(q))
    ensures forall c :: c in visible ==> c in nodes
  {
    var s := Scoring(q, PageCount(q));
    ScoringAscends(q, PageCount(q));
    visible := if s != [] && s[0] == 0 then [nodes[0]] else nodes;
  }

  /** Removes the candidates without a match, or without a reference to themselves. */
  method Filter(list: Candidate, bySelfref: bool, ghost nodes: seq<Candidate>, ghost addresses: seq<nat>,
                ghost p: nat -> bool)
    returns (list': Candidate, ghost nodes': seq<Candidate>)
    requires Carries(nodes, addresses) && list == nodes[0]
    requires forall i :: 0 <= i < |addresses| ==>
      Marked(bySelfref, nodes[i].selfref, nodes[i].matches) == p(addresses[i])
    modifies nodes`next
    ensures Carries(nodes', Filtered(addresses, p)) && list' == nodes'[0]
    ensures forall c :: c in nodes' ==> c in nodes
  {
    ghost var keep := Decisions(addresses, p);
    list', nodes' := RemoveUnmarked(list, bySelfref, nodes, keep);
    PickAddresses(nodes, addresses, keep);
    PickNodes(nodes, keep);
  }

  ghost predicate AllIn(nodes: seq<Candidate>, all: set<Candidate>) {
    forall c :: c in nodes ==> c in all
  }

  /** Keeps the candidates that share a checksum with another one. */
  method KeepMatching(q: Search, pages: Pages, pageOffset: uint32, list: Candidate, ghost nodes: seq<Candidate>,
                      ghost addresses: seq<nat>, ghost all: set<Candidate>)
    returns (list': Candidate, ghost nodes': seq<Candidate>)
    requires Carries(nodes, addresses) && list == nodes[0] && AllIn(nodes, all) && Describes(q, pages, pageOffset)
    modifies all
    ensures Carries(nodes', Filtered(addresses, HasMatch(q, addresses))) && list' == nodes'[0] && AllIn(nodes', all)
  {
    MarkChecksums(q, pages, pageOffset, list, nodes, addresses);
    MarkMatches(q, list, nodes, addresses);
    list', nodes' := Filter(list, false, nodes, addresses, HasMatch(q, addresses));
  }

  /** Keeps the candidates that refer to themselves. */
  method KeepSelfref(q: Search, pages: Pages, ghost pageOffset: uint32, list: Candidate,
                     ghost nodes: seq<Candidate>, ghost addresses: seq<nat>, ghost all: set<Candidate>)
    returns (list': Candidate, ghost nodes': seq<Candidate>)
    requires Carries(nodes, addresses) && list == nodes[0] && AllIn(nodes, all) && Describes(q, pages, pageOffset)
    modifies all
    ensures Carries(nodes', Filtered(addresses, HasSelfref(q))) && list' == nodes'[0] && AllIn(nodes', all)
  {
    MarkSelfrefs(q, pages, pageOffset, list, nodes, addresses);
    list', nodes' := Filter(list, true, nodes, addresses, HasSelfref(q));
  }

  /** The two filters, the second on Windows only. */
  method KeepSurvivors(q: Search, pages: Pages, pageOffset: uint32, list: Candidate, ghost nodes: seq<Candidate>,
                       ghost all: set<Candidate>)
    returns (list': Candidate, ghost nodes': seq<Candidate>)
    requires Carries(nodes, Candidates(q)) && list == nodes[0] && AllIn(nodes, all) && Describes(q, pages, pageOffset)
    modifies all
    ensures Carries(nodes', Survivors(q)) && list' == nodes'[0]
  {
    list', nodes' := KeepMatching(q, pages, pageOffset, list, nodes, Candidates(q), all);
    if q.os == Windows {
      ghost var matching := Filtered(Candidates(q), HasMatch(q, Candidates(q)));
      list', nodes' := KeepSelfref(q, pages, pageOffset, list', nodes', matching, all);
    }
  }

  /** `xa_find_kernel_pd`, for the search `q` that describes the pages.  `unset` is the address
      malloc left in the first node: the list ends there if it is 0 and no page scores. */
  method FindKernelPd(q: Search, pages: Pages, pageOffset: uint32, unset: nat) returns (r: uint32)
    requires q.end <= 0xFFFF_F000 && Describes(q, pages, pageOffset)
    requires unset == 0 || Scoring(q, PageCount(q)) != []
    ensures r == Trunc(Found(q) + pageOffset)
  {
    var list, collected := Collect(q, pages, pageOffset, unset);
    ghost var nodes := CollectedCarries(q, collected, unset);
    list, nodes := KeepSurvivors(q, pages, pageOffset, list, nodes, set c | c in collected);
    r := Trunc(list.address + pageOffset);
  }

  // ----- what is found

  lemma {:induction false} ScoringMembers(q: Search, p: nat, a: nat)
    ensures a in Scoring(q, p) <==> a % 4096 == 0 && a < 4096 * p && q.score(a) > 0
  {
    if p > 0 {
      ScoringMembers(q, p - 1, a);
      assert a % 4096 == 0 && a < 4096 * p ==> a < 4096 * (p - 1) || a == 4096 * (p - 1);
    }
  }

  predicate Scores(q: Search, a: nat) {
    a % 4096 == 0 && a < q.end && q.score(a) > 0
  }

  predicate Twins(q: Search, a: nat, b: nat) {
    b != a && Scores(q, b) && q.checksum(b) == q.checksum(a)
  }

  /** A page that scores, shares a non-zero checksum with another page that scores and, on
      Windows, refers to itself. */
  ghost predicate Wanted(q: Search, a: nat) {
    && Scores(q, a)
    && q.checksum(a) != 0 && (exists b :: Twins(q, a, b))
    && (q.os == Windows ==> q.selfrefs(a) > 0)
  }

  lemma CandidateMembers(q: Search, a: nat)
    ensures a in Candidates(q) <==> Scores(q, a) && q.score(0) <= 0
  {
    var p := PageCount(q);
    ScoringMembers(q, p, a);
    ScoringMembers(q, p, 0);
    ScoringAscends(q, p);
    var s := Scoring(q, p);
    assert a % 4096 == 0 ==> (a < 4096 * p <==> a < q.end);
    if 0 in s {
      assert s[0] == 0;
    }
  }

  predicate Ascending(s: seq<nat>) {
    forall i, j :: 0 <= i < j < |s| ==> s[i] < s[j]
  }

  lemma {:induction false} FilteredMembers(s: seq<nat>, p: nat -> bool, a: nat)
    ensures a in Filtered(s, p) <==> a in s && p(a)
  {
    if s != [] {
      FilteredStep(s, p);
      FilteredMembers(s[1..], p, a);
    }
  }

  lemma FilteredStep(s: seq<nat>, p: nat -> bool)
    requires s != []
    ensures Filtered(s, p) == if p(s[0]) then [s[0]] + Filtered(s[1..], p) else Filtered(s[1..], p)
  {
    assert Decisions(s, p)[1..] == Decisions(s[1..], p);
  }

  lemma {:induction false} FilteredAscends(s: seq<nat>, p: nat -> bool)
    requires Ascending(s)
    ensures Ascending(Filtered(s, p))
  {
    if s != [] {
      FilteredStep(s, p);
      FilteredAscends(s[1..], p);
      forall i | 0 <= i < |Filtered(s[1..], p)|
        ensures s[0] < Filtered(s[1..], p)[i]
      {
        FilteredMembers(s[1..], p, Filtered(s[1..], p)[i]);
      }
    }
  }

  /** At least two sharers means another one, among distinct addresses. */
  lemma {:induction false} SharersMeans(q: Search, s: seq<nat>, c: uint32, a: nat)
    requires Ascending(s)
    ensures Sharers(q, s, c) >= (if a in s && q.checksum(a) == c then 2 else 1)
       <==> exists b :: b in s && b != a && q.checksum(b) == c
    ensures a in s && q.checksum(a) == c ==> Sharers(q, s, c) >= 1
  {
    if s != [] {
      var n := |s| - 1;
      SharersMeans(q, s[..n], c, a);
      var rest := s[..n];
      assert s == rest + [s[n]];
      if q.checksum(s[n]) == c && s[n] != a {
        assert s[n] in s;
      }
      if b :| b in rest && b != a && q.checksum(b) == c {
        assert b in s;
      }
    }
  }

  lemma CandidatesAscend(q: Search)
    ensures Ascending(Candidates(q))
  {
    ScoringAscends(q, PageCount(q));
  }

  lemma MatchedMeansTwins(q: Search, a: nat)
    requires Scores(q, a) && q.score(0) <= 0
    ensures HasMatch(q, Candidates(q))(a) <==> q.checksum(a) != 0 && exists b :: Twins(q, a, b)
  {
    var s := Candidates(q);
    CandidatesAscend(q);
    CandidateMembers(q, a);
    SharersMeans(q, s, q.checksum(a), a);
    if b :| b in s && b != a && q.checksum(b) == q.checksum(a) {
      CandidateMembers(q, b);
      assert Twins(q, a, b);
    }
    if b :| Twins(q, a, b) {
      CandidateMembers(q, b);
    }
  }

  /** Address 0 marks the end of the list, so a scoring page 0 leaves no survivor. */
  lemma SurvivorMembers(q: Search, a: nat)
    ensures a in Survivors(q) <==> Wanted(q, a) && q.score(0) <= 0
  {
    var s := Candidates(q);
    var t := Filtered(s, HasMatch(q, s));
    FilteredMembers(s, HasMatch(q, s), a);
    FilteredMembers(t, HasSelfref(q), a);
    CandidateMembers(q, a);
    if Scores(q, a) && q.score(0) <= 0 {
      MatchedMeansTwins(q, a);
    }
  }

  lemma FoundIsLowestSurvivor(q: Search)
    ensures Found(q) == 0 <==> forall a :: !(Wanted(q, a) && q.score(0) <= 0)
    ensures Found(q) != 0 ==> Wanted(q, Found(q)) && q.score(0) <= 0
    ensures Found(q) != 0 ==> forall a :: Wanted(q, a) ==> Found(q) <= a
  {
    var s := Candidates(q);
    CandidatesAscend(q);
    FilteredAscends(s, HasMatch(q, s));
    FilteredAscends(Filtered(s, HasMatch(q, s)), HasSelfref(q));
    var t := Survivors(q);
    forall a
      ensures a in t <==> Wanted(q, a) && q.score(0) <= 0
    {
      SurvivorMembers(q, a);
    }
    if t != [] {
      assert t[0] in t;
    }
  }

  /** The search finds the lowest wanted page, or 0 when there is none. */
  ghost predicate FindsLowest(q: Search) {
    if exists a :: Wanted(q, a) then Wanted(q, Found(q)) && (forall a :: Wanted(q, a) ==> Found(q) <= a)
    else Found(q) == 0
  }

  /** The search does what it is for if and only if page 0 does not score, or is wanted itself,
      or no page is. */
  lemma FindsLowestIff(q: Search)
    ensures FindsLowest(q) <==> q.score(0) <= 0 || Wanted(q, 0) || forall a :: !Wanted(q, a)
  {
    FoundIsLowestSurvivor(q);
  }

  // ----- a memory of three pages of which page 0 hides the others

  /** A word twice, then zeros. */
  function WordTwice(w: uint32): Page {
    seq(1024, i => if i < 2 then w else 0)
  }

  /** Page 0 starts with `low` twice, pages 1 and 2 with `high` twice. */
  function ThreePages(low: uint32, high: uint32): Pages {
    (p: nat) => if p == 0 then Some(WordTwice(low)) else if p <= 2 then Some(WordTwice(high)) else None
  }

  lemma {:induction false} FullAgreement(ns: seq<nat>, k: nat)
    requires |ns| == 2 && ns[0] == ns[1]
    ensures Agreements(ns, k) == k
    decreases k
  {
    if k > 0 {
      assert ns[0] % 2 == 0 || ns[0] % 2 == 1;
      assert AllEven(ns) || AllOdd(ns);
      FullAgreement(Halves(ns), k - 1);
    }
  }

  lemma WordTwiceScore(w: uint32, msize: uint32)
    requires 0 < w <= msize && w < 0xFFFF_FFFF
    ensures PageScore(Some(WordTwice(w)), msize) == 32
  {
    SmallIsEntry(0, msize);
    SmallIsEntry(w, msize);
    PaddedPair(WordTwice(w), Entries(msize));
    FullAgreement([w, w], 32);
  }

  lemma {:induction false} WordTwiceTotal(w: uint32, k: nat)
    requires 2 <= k <= 1024
    ensures Total(WordTwice(w)[..k]) == 2 * w
  {
    var ws := WordTwice(w);
    if k == 2 {
      assert ws[..2] == [w, w] && [w, w][..1] == [w] && [w][..0] == [];
      assert Total([w]) == w;
    } else {
      WordTwiceTotal(w, k - 1);
      assert ws[..k][..k - 1] == ws[..k - 1] && ws[..k][k - 1] == 0;
    }
  }

  lemma WordTwiceChecksum(w: uint32)
    requires w < 0x8000_0000
    ensures Checksum(Some(WordTwice(w)), 0) == 2 * w
  {
    WordTwiceTotal(w, 8);
    assert WordTwice(w)[0..8] == WordTwice(w)[..8];
  }

  lemma {:induction false} SelfRefsAt(ws: seq<uint32>, address: nat, i: nat)
    requires i < |ws| && RefersTo(ws[i], address)
    ensures SelfRefs(ws, address) > 0
  {
    if i < |ws| - 1 {
      SelfRefsAt(ws[..|ws| - 1], address, i);
    }
  }

  lemma WordTwiceRefers(w: uint32, a: nat)
    requires RefersTo(w, a)
    ensures PageSelfRefs(Some(WordTwice(w)), a) > 0
  {
    SelfRefsAt(WordTwice(w), a, 0);
  }

  /** The scores and checksums of the three pages. */
  lemma ThreePagesSearch(q: Search, low: uint32, high: uint32)
    requires q.end == 0x3000 && 0 < low <= q.end && high == 0x1000
    requires Describes(q, ThreePages(low, high), 0)
    ensures q.score(0) == q.score(0x1000) == q.score(0x2000) == 32
    ensures q.checksum(0) == 2 * low && q.checksum(0x1000) == q.checksum(0x2000) == 2 * high
    ensures q.selfrefs(0x1000) > 0
  {
    var pages := ThreePages(low, high);
    assert At(pages, 0) == Some(WordTwice(low)) && At(pages, 0x1000) == At(pages, 0x2000) == Some(WordTwice(high));
    WordTwiceScore(low, q.end);
    WordTwiceScore(high, q.end);
    WordTwiceChecksum(low);
    WordTwiceChecksum(high);
    WordTwiceRefers(high, high);
  }

  lemma HiddenTwins(q: Search)
    requires q.end == 0x3000 && q.score(0) == q.score(0x1000) == q.score(0x2000) == 32
    requires q.checksum(0) != q.checksum(0x1000) == q.checksum(0x2000)
    requires q.checksum(0x1000) != 0 && q.selfrefs(0x1000) > 0
    ensures Wanted(q, 0x1000) && Found(q) == 0 && !FindsLowest(q)
  {
    assert Twins(q, 0x1000, 0x2000);
    assert forall b :: Scores(q, b) ==> b == 0 || b == 0x1000 || b == 0x2000;
    assert Wanted(q, 0x1000) && !Wanted(q, 0);
    FoundIsLowestSurvivor(q);
    FindsLowestIff(q);
  }

  /** The search of this memory of three pages, with a low word other than the high one, finds
      nothing on either system, although page 1 is wanted. */
  lemma HiddenByPageZero(q: Search, low: uint32, high: uint32)
    requires 0 < low <= 0x3000 && high == 0x1000 && low != high
    requires q.end == 0x3000 && Describes(q, ThreePages(low, high), 0)
    ensures Wanted(q, 0x1000) && Found(q) == 0 && !FindsLowest(q)
  {
    ThreePagesSearch(q, low, high);
    HiddenTwins(q);
  }
}
