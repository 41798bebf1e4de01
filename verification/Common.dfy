/** Shared vocabulary: optional results and first matches in a sequence. */
module Common {

  datatype Option<+T> = None | Some(value: T)

  /** The index of the first element that satisfies `p`, or the length of `s`. */
  function First<T>(s: seq<T>, p: T -> bool): (k: nat)
    ensures k <= |s|
    ensures k < |s| ==> p(s[k])
    ensures forall i :: 0 <= i < k ==> !p(s[i])
  {
    if s == [] || p(s[0]) then 0
    else
      var rest := First(s[1..], p);
      assert forall i :: 1 <= i < rest + 1 ==> s[i] == s[1..][i - 1];
      rest + 1
  }

  lemma FirstIs<T>(s: seq<T>, p: T -> bool, k: nat)
    requires k <= |s|
    requires k < |s| ==> p(s[k])
    requires forall i :: 0 <= i < k ==> !p(s[i])
    ensures First(s, p) == k
  {
  }

  /** `s` without its element k. */
  function Without<T>(s: seq<T>, k: nat): (r: seq<T>)
    requires k < |s|
    ensures |r| == |s| - 1
    ensures forall i :: 0 <= i < |r| ==> r[i] == s[if i < k then i else i + 1]
  {
    s[..k] + s[k + 1..]
  }
}
