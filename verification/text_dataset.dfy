/** `TextDataset` of corpus/commonvoice.py: token sequences alone, sorted
    longest first and served singly or in buckets. Its construction reads
    the files of a name that is never defined (line 68), so the model starts
    from the encoded sentences. */
module TextCorpus {
  import opened Wrappers
  import StableSort
  import Buckets

  /** The sort key of line 74. */
  function Length(t: seq<int>): int
  {
    |t|
  }

  datatype TextDataset = TextDataset(text: seq<seq<int>>, bucketSize: int)

  /** What one `__getitem__` returns: a bucket, or a single sequence. */
  datatype TextItem = TextBucket(sentences: seq<seq<int>>) | TextSingle(sentence: seq<int>)

  /** Line 74: `sorted(text, reverse=True, key=len)`, kept with the bucket
      size. */
  function BuildText(sentences: seq<seq<int>>, bucketSize: int): (d: TextDataset)
    ensures d.bucketSize == bucketSize
    ensures |d.text| == |sentences|
    ensures multiset(d.text) == multiset(sentences)
    ensures StableSort.StablySorted(sentences, d.text, Length, false)
  {
    StableSort.SortIsStable(sentences, Length, false);
    TextDataset(StableSort.Sort(sentences, Length, false), bucketSize)
  }

  /** `__len__`: the bound below which single reads succeed. */
  function LenText(d: TextDataset): (n: nat)
    ensures d.bucketSize <= 1 ==>
      forall index :: 0 <= index ==> (GetText(d, index).Success? <==> index < n)
  {
    |d.text|
  }

  /** `__getitem__(index)`, with the clamp of `Dataset.__getitem__`. */
  function GetText(d: TextDataset, index: int): (r: Result<TextItem, Buckets.AccessError>)
    requires 0 <= index
    requires d.bucketSize > 1 ==> d.bucketSize <= |d.text|
    ensures d.bucketSize > 1 ==> r.Success? && r.value.TextBucket?
    ensures d.bucketSize > 1 ==>
      var start := Buckets.Start(|d.text|, d.bucketSize, index);
      && 0 <= start <= index
      && start + d.bucketSize <= |d.text|
      && |r.value.sentences| == d.bucketSize
      && forall j :: 0 <= j < d.bucketSize ==> r.value.sentences[j] == d.text[start + j]
    ensures d.bucketSize <= 1 ==> (r.Success? <==> index < |d.text|)
    ensures d.bucketSize <= 1 && index < |d.text| ==> r == Success(TextSingle(d.text[index]))
    ensures d.bucketSize <= 1 && |d.text| <= index ==> r == Failure(Buckets.IndexOutOfRange(index, |d.text|))
  {
    if d.bucketSize > 1 then
      Success(TextBucket(Buckets.Window(d.text, d.bucketSize, index)))
    else if index < |d.text| then
      Success(TextSingle(d.text[index]))
    else
      Failure(Buckets.IndexOutOfRange(index, |d.text|))
  }

  /** The sequences are ordered longest first, neighbour by neighbour. */
  lemma BuildTextOrdersByLength(sentences: seq<seq<int>>, bucketSize: int)
    ensures var t := BuildText(sentences, bucketSize).text;
      forall i :: 0 <= i < |t| - 1 ==> |t[i]| >= |t[i + 1]|
  {
    var t := BuildText(sentences, bucketSize).text;
    StableSort.SortedAdjacent(t, Length, false);
  }

  /** `__len__` counts the sentences, whatever the bucket size. */
  lemma LenTextIsSentenceCount(sentences: seq<seq<int>>, bucketSize: int)
    ensures LenText(BuildText(sentences, bucketSize)) == |sentences|
  {
  }

  /** Every index at or past `len - bucket_size` reads the same last bucket. */
  lemma GetTextTailClamp(d: TextDataset, index: int)
    requires 1 < d.bucketSize <= LenText(d)
    requires LenText(d) - d.bucketSize <= index
    ensures GetText(d, index) == GetText(d, LenText(d) - d.bucketSize)
  {
    Buckets.WindowTail(d.text, d.bucketSize, index);
  }

  /** Away from the end a bucket starts at the requested index. */
  lemma GetTextAt(d: TextDataset, index: int)
    requires 1 < d.bucketSize <= LenText(d)
    requires 0 <= index <= LenText(d) - d.bucketSize
    ensures GetText(d, index) == Success(TextBucket(d.text[index..index + d.bucketSize]))
  {
    Buckets.WindowAt(d.text, d.bucketSize, index);
  }

  /** A bucket of a built dataset is itself ordered longest first. */
  lemma GetTextBucketOrdered(sentences: seq<seq<int>>, bucketSize: int, index: int)
    requires 1 < bucketSize <= |sentences|
    requires 0 <= index
    ensures var r := GetText(BuildText(sentences, bucketSize), index);
      StableSort.Sorted(r.value.sentences, Length, false)
  {
    var d := BuildText(sentences, bucketSize);
    var start := Buckets.Start(LenText(d), d.bucketSize, index);
    var bucket := GetText(d, index).value.sentences;
    forall i, j | 0 <= i < j < |bucket|
      ensures StableSort.Ordered(Length(bucket[i]), Length(bucket[j]), false)
    {
      assert bucket[i] == d.text[start + i] && bucket[j] == d.text[start + j];
    }
  }
}
