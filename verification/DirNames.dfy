/** Directory tables of libxadisk/xadisk_parse.c: names in the order of strcmp, entries, the
    insertion sort. */
module DirNames {
  import opened Bits

  /** A C string without its terminator. */
  type Name = seq<byte>

  datatype DirEntry = DirEntry(inode: uint32, kind: byte, name: Name)

  /** strcmp(a, b) < 0. */
  predicate Less(a: Name, b: Name) {
    if b == [] then false
    else if a == [] then true
    else if a[0] != b[0] then a[0] < b[0]
    else Less(a[1..], b[1..])
  }

  lemma {:induction false} LessIsStrict(a: Name, b: Name)
    ensures !(Less(a, b) && Less(b, a))
    ensures a == b <==> !Less(a, b) && !Less(b, a)
  {
    if a != [] && b != [] && a[0] == b[0] {
      LessIsStrict(a[1..], b[1..]);
      assert a == [a[0]] + a[1..] && b == [b[0]] + b[1..];
    }
  }

  /** The names agree up to k, where the first ends or has the smaller byte. */
  predicate SmallerAt(a: Name, b: Name, k: nat) {
    k <= |a| && k < |b| && a[..k] == b[..k] && (k == |a| || a[k] < b[k])
  }

  /** The order is lexicographic, by unsigned bytes, a prefix before its extensions. */
  lemma {:induction false} LessIsLexicographic(a: Name, b: Name)
    ensures Less(a, b) <==> exists k: nat :: SmallerAt(a, b, k)
  {
    if b != [] && a != [] {
      LessIsLexicographic(a[1..], b[1..]);
      if k: nat :| SmallerAt(a, b, k) && k > 0 {
        assert a[0] == a[..k][0] == b[..k][0] == b[0];
        assert a[1..][..k - 1] == a[..k][1..] && b[1..][..k - 1] == b[..k][1..];
        assert SmallerAt(a[1..], b[1..], k - 1);
      }
      if a[0] == b[0] && Less(a, b) {
        var k: nat :| SmallerAt(a[1..], b[1..], k);
        assert a[..k + 1] == [a[0]] + a[1..][..k] && b[..k + 1] == [b[0]] + b[1..][..k];
        assert SmallerAt(a, b, k + 1);
      } else if a[0] < b[0] {
        assert SmallerAt(a, b, 0);
      }
    } else if b != [] {
      assert SmallerAt(a, b, 0);
    }
  }

  lemma {:induction false} LessIsTransitive(a: Name, b: Name, c: Name)
    ensures Less(a, b) && Less(b, c) ==> Less(a, c)
  {
    if a != [] && b != [] && c != [] && a[0] == b[0] == c[0] {
      LessIsTransitive(a[1..], b[1..], c[1..]);
    }
  }

  /** a <= b <= c ==> a <= c, where a <= b is !Less(b, a). */
  lemma AtMostIsTransitive(a: Name, b: Name, c: Name)
    ensures !Less(b, a) && !Less(c, b) ==> !Less(c, a)
  {
    LessIsStrict(a, b);
    LessIsStrict(b, c);
    LessIsStrict(a, c);
    LessIsTransitive(a, b, c);
    LessIsTransitive(c, a, b);
  }

  predicate Sorted(s: seq<DirEntry>) {
    forall i, j :: 0 <= i < j < |s| ==> !Less(s[j].name, s[i].name)
  }

  // ----- insertion sort

  /** Inserts from the right, behind the last entry that is not greater. */
  function Insert(s: seq<DirEntry>, e: DirEntry): (r: seq<DirEntry>)
    ensures |r| == |s| + 1
  {
    if s != [] && Less(e.name, s[|s| - 1].name) then Insert(s[..|s| - 1], e) + [s[|s| - 1]] else s + [e]
  }

  function Sort(s: seq<DirEntry>): (r: seq<DirEntry>)
    ensures |r| == |s|
  {
    if s == [] then [] else Insert(Sort(s[..|s| - 1]), s[|s| - 1])
  }

  lemma {:induction false} InsertContents(s: seq<DirEntry>, e: DirEntry)
    ensures multiset(Insert(s, e)) == multiset(s) + multiset{e}
  {
    if s != [] && Less(e.name, s[|s| - 1].name) {
      InsertContents(s[..|s| - 1], e);
      assert s == s[..|s| - 1] + [s[|s| - 1]];
    }
  }

  lemma {:induction false} InsertSorted(s: seq<DirEntry>, e: DirEntry)
    requires Sorted(s)
    ensures Sorted(Insert(s, e))
    ensures forall i :: 0 <= i < |Insert(s, e)| ==> Insert(s, e)[i] == e || Insert(s, e)[i] in s
  {
    if s != [] && Less(e.name, s[|s| - 1].name) {
      var n := |s| - 1;
      InsertSorted(s[..n], e);
      var r := Insert(s[..n], e);
      forall i | 0 <= i < |r|
        ensures !Less(s[n].name, r[i].name)
      {
        LessIsStrict(e.name, s[n].name);
      }
    } else {
      forall i | 0 <= i < |s|
        ensures !Less(e.name, s[i].name)
      {
        AtMostIsTransitive(s[i].name, s[|s| - 1].name, e.name);
        LessIsStrict(s[i].name, s[i].name);
      }
    }
  }

  /** The entries with a given name, in order. */
  function Named(s: seq<DirEntry>, n: Name): seq<DirEntry> {
    if s == [] then []
    else
      var k := |s| - 1;
      if s[k].name == n then Named(s[..k], n) + [s[k]] else Named(s[..k], n)
  }

  lemma NamedLast(s: seq<DirEntry>, e: DirEntry, n: Name)
    ensures Named(s + [e], n) == if e.name == n then Named(s, n) + [e] else Named(s, n)
  {
    assert (s + [e])[..|s|] == s;
  }

  lemma {:induction false} InsertStable(s: seq<DirEntry>, e: DirEntry, n: Name)
    ensures Named(Insert(s, e), n) == Named(s + [e], n)
  {
    if s != [] && Less(e.name, s[|s| - 1].name) {
      var k := |s| - 1;
      InsertStable(s[..k], e, n);
      assert s == s[..k] + [s[k]];
      NamedLast(Insert(s[..k], e), s[k], n);
      NamedLast(s, e, n);
      NamedLast(s[..k], s[k], n);
      NamedLast(s[..k], e, n);
      LessIsStrict(e.name, s[k].name);
    }
  }

  lemma {:induction false} SortSorted(s: seq<DirEntry>)
    ensures Sorted(Sort(s))
  {
    if s != [] {
      SortSorted(s[..|s| - 1]);
      InsertSorted(Sort(s[..|s| - 1]), s[|s| - 1]);
    }
  }

  lemma ContentsLast(s: seq<DirEntry>)
    requires s != []
    ensures multiset(s) == multiset(s[..|s| - 1]) + multiset{s[|s| - 1]}
  {
    assert s == s[..|s| - 1] + [s[|s| - 1]];
  }

  lemma {:induction false} SortContents(s: seq<DirEntry>)
    ensures multiset(Sort(s)) == multiset(s)
  {
    if s != [] {
      ContentsLast(s);
      SortContents(s[..|s| - 1]);
      InsertContents(Sort(s[..|s| - 1]), s[|s| - 1]);
    }
  }

  lemma {:induction false} SortStable(s: seq<DirEntry>, n: Name)
    ensures Named(Sort(s), n) == Named(s, n)
  {
    if s != [] {
      var t, e := s[..|s| - 1], s[|s| - 1];
      SortStable(t, n);
      InsertStable(Sort(t), e, n);
      NamedLast(Sort(t), e, n);
      NamedLast(t, e, n);
      assert s == t + [e];
    }
  }

  /** The sort orders the names, keeps every entry, and keeps entries of one name in order. */
  lemma SortCorrect(s: seq<DirEntry>)
    ensures Sorted(Sort(s))
    ensures multiset(Sort(s)) == multiset(s)
    ensures forall n: Name :: Named(Sort(s), n) == Named(s, n)
  {
    SortSorted(s);
    SortContents(s);
    forall n: Name
      ensures Named(Sort(s), n) == Named(s, n)
    {
      SortStable(s, n);
    }
  }

  /** `sort_dir`, in place on the first n entries of the table. */
  method SortDir(table: array<DirEntry>, n: nat)
    requires n <= table.Length
    modifies table
    ensures table[..n] == Sort(old(table[..n]))
    ensures table[n..] == old(table[n..])
  {
    ghost var was := table[..];
    var i := 1;
    assert n > 0 ==> was[..1] == [] + [was[0]] && Sort(was[..1]) == was[..1];
    while i < n
      invariant n > 0 ==> 1 <= i <= n && table[..i] == Sort(was[..i]) && table[i..] == was[i..]
      invariant n == 0 ==> table[..] == was
    {
      InsertAt(table, i);
      assert was[..i + 1][..i] == was[..i];
      i := i + 1;
    }
    assert was[..n] == old(table[..n]);
  }

  /** Where the inner loop stops tells what the insertion yields. */
  lemma {:induction false} InsertWhere(s: seq<DirEntry>, e: DirEntry, k: nat)
    requires k <= |s|
    requires forall m :: k <= m < |s| ==> Less(e.name, s[m].name)
    requires k > 0 ==> !Less(e.name, s[k - 1].name)
    ensures Insert(s, e) == s[..k] + [e] + s[k..]
  {
    if k < |s| {
      var n := |s| - 1;
      InsertWhere(s[..n], e, k);
      assert s[..n][..k] == s[..k] && s[k..] == s[..n][k..] + [s[n]];
    }
  }

  /** The inner loop: the greater entries to the left of i move one place right. */
  method ShiftGreater(table: array<DirEntry>, i: nat, aux: DirEntry) returns (k: nat)
    requires 0 < i < table.Length
    modifies table
    ensures k <= i
    ensures forall m :: 0 <= m < k ==> table[m] == old(table[m])
    ensures forall m :: k < m <= i ==> table[m] == old(table[m - 1])
    ensures forall m :: i < m < table.Length ==> table[m] == old(table[m])
    ensures forall m :: k <= m < i ==> Less(aux.name, old(table[m]).name)
    ensures k > 0 ==> !Less(aux.name, old(table[k - 1]).name)
  {
    var j: int := i - 1;
    while j >= 0 && Less(aux.name, table[j].name)
      invariant -1 <= j < i
      invariant forall m :: 0 <= m <= j ==> table[m] == old(table[m])
      invariant forall m :: j + 2 <= m <= i ==> table[m] == old(table[m - 1])
      invariant forall m :: i < m < table.Length ==> table[m] == old(table[m])
      invariant forall m :: j + 1 <= m < i ==> Less(aux.name, old(table[m]).name)
    {
      table[j + 1] := table[j];
      j := j - 1;
    }
    k := j + 1;
  }

  /** Entry i goes to the place that the shift has cleared. */
  method MoveLeft(table: array<DirEntry>, i: nat) returns (k: nat)
    requires 0 < i < table.Length
    modifies table
    ensures k <= i && table[..i + 1] == old(table[..k]) + [old(table[i])] + old(table[k..i])
    ensures table[i + 1..] == old(table[i + 1..])
    ensures forall m :: k <= m < i ==> Less(old(table[i]).name, old(table[m]).name)
    ensures k > 0 ==> !Less(old(table[i]).name, old(table[k - 1]).name)
  {
    var aux := table[i];
    k := ShiftGreater(table, i, aux);
    table[k] := aux;
  }

  method InsertAt(table: array<DirEntry>, i: nat)
    requires 0 < i < table.Length
    modifies table
    ensures table[..i + 1] == Insert(old(table[..i]), old(table[i]))
    ensures table[i + 1..] == old(table[i + 1..])
  {
    ghost var s := table[..i];
    ghost var aux := table[i];
    var k := MoveLeft(table, i);
    InsertWhere(s, aux, k);
    assert s[..k] == old(table[..k]) && s[k..] == old(table[k..i]);
  }
}
