/** Python's `zip` and its inverse `zip(*pairs)` on sequences. */
module Pairs {

  /** `zip(a, b)`: pairs up positions, stopping at the shorter input. */
  function Zip<A, B>(a: seq<A>, b: seq<B>): (r: seq<(A, B)>)
    ensures |r| == if |a| <= |b| then |a| else |b|
    ensures forall i :: 0 <= i < |r| ==> r[i] == (a[i], b[i])
  {
    if a == [] || b == [] then [] else [(a[0], b[0])] + Zip(a[1..], b[1..])
  }

  /** First components: the first sequence `zip(*pairs)` produces. */
  function Firsts<A, B>(p: seq<(A, B)>): (r: seq<A>)
    ensures |r| == |p|
    ensures forall i :: 0 <= i < |p| ==> r[i] == p[i].0
  {
    seq(|p|, i requires 0 <= i < |p| => p[i].0)
  }

  /** Second components: the second sequence `zip(*pairs)` produces. */
  function Seconds<A, B>(p: seq<(A, B)>): (r: seq<B>)
    ensures |r| == |p|
    ensures forall i :: 0 <= i < |p| ==> r[i] == p[i].1
  {
    seq(|p|, i requires 0 <= i < |p| => p[i].1)
  }

  /** Unzipping then zipping gives back the pairs. */
  lemma ZipUnzip<A, B>(p: seq<(A, B)>)
    ensures Zip(Firsts(p), Seconds(p)) == p
  {
  }

  /** Zipping two equally long sequences then unzipping gives them back. */
  lemma UnzipZip<A, B>(a: seq<A>, b: seq<B>)
    requires |a| == |b|
    ensures Firsts(Zip(a, b)) == a && Seconds(Zip(a, b)) == b
  {
  }

  /** Slicing both sides then zipping is slicing the zip. */
  lemma ZipSlice<A, B>(a: seq<A>, b: seq<B>, lo: int, hi: int)
    requires |a| == |b|
    requires 0 <= lo <= hi <= |a|
    ensures Zip(a[lo..hi], b[lo..hi]) == Zip(a, b)[lo..hi]
  {
  }
}
