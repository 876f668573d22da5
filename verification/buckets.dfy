/** The bucketed access shared by `Dataset.__getitem__` and
    `TextDataset.__getitem__`: a bucket of `b` neighbouring entries whose
    start slides left near the end, so that the last bucket is still full. */
module Buckets {

  /** Why a single-entry read fails (Python's IndexError). */
  datatype AccessError = IndexOutOfRange(index: int, length: nat)

  /** `min(n - b, index)`: where the bucket asked for at `index` starts in a
      collection of `n` entries. */
  function Start(n: int, b: int, index: int): int
  {
    if n - b <= index then n - b else index
  }

  /** The bucket `s[start:start + b]` served for `index`. */
  function Window<T>(s: seq<T>, b: int, index: int): (r: seq<T>)
    requires 1 < b <= |s|
    requires 0 <= index
    ensures |r| == b
    ensures 0 <= Start(|s|, b, index) <= index
    ensures Start(|s|, b, index) + b <= |s|
    ensures forall j :: 0 <= j < b ==> r[j] == s[Start(|s|, b, index) + j]
  {
    s[Start(|s|, b, index)..Start(|s|, b, index) + b]
  }

  /** Away from the end the bucket starts exactly at the requested index. */
  lemma WindowAt<T>(s: seq<T>, b: int, index: int)
    requires 1 < b <= |s|
    requires 0 <= index <= |s| - b
    ensures Window(s, b, index) == s[index..index + b]
  {
  }

  /** Every index at or past `|s| - b` gets the same, last, full bucket. */
  lemma WindowTail<T>(s: seq<T>, b: int, index: int)
    requires 1 < b <= |s|
    requires |s| - b <= index
    ensures Window(s, b, index) == Window(s, b, |s| - b) == s[|s| - b..]
  {
  }

  /** The bucket asked for at any position `p` of the collection contains
      the entry at `p`: no entry is out of reach of bucketed reads. */
  lemma WindowCovers<T>(s: seq<T>, b: int, p: int) returns (j: int)
    requires 1 < b <= |s|
    requires 0 <= p < |s|
    ensures 0 <= j < b
    ensures Start(|s|, b, p) + j == p
    ensures Window(s, b, p)[j] == s[p]
  {
    j := p - Start(|s|, b, p);
  }
}
