/** `Dataset` of corpus/commonvoice.py: reads the first line of every
    transcript file, encodes each transcript, sorts the (audio id, tokens)
    entries by token count and serves them singly or in buckets. The
    tokenizer is the parameter `encode`. */
module CommonVoice {
  import opened Wrappers
  import Transcript
  import Pairs
  import StableSort
  import Buckets

  /** One corpus entry: (audio id, token sequence). */
  type Utterance = (string, seq<int>)

  /** The sort key of line 44: the length of the token sequence. */
  function TokenCount(u: Utterance): int
  {
    |u.1|
  }

  /** The constructed dataset: the two sequences `zip(*...)` produces on
      line 43, and the bucket size. */
  datatype Dataset = Dataset(fileList: seq<string>, text: seq<seq<int>>, bucketSize: int)

  datatype BuildError =
    | EmptySplit                                           // `Parallel(n_jobs=0)` raises
    | Unreadable(file: nat, reason: Transcript.ReadError)  // `read_text` failed on `split[file]`
    | UnpackMismatch(files: nat)                           // line 36 as written, unless exactly two files

  /** What one `__getitem__` returns: a bucket, or a single entry. */
  datatype Item = Bucket(entries: seq<Utterance>) | Single(entry: Utterance)

  predicate Valid(d: Dataset)
  {
    |d.fileList| == |d.text|
  }

  /** The entries in order, `zip(file_list, text)`. */
  function Records(d: Dataset): seq<Utterance>
  {
    Pairs.Zip(d.fileList, d.text)
  }

  /** All the values when every result succeeds; otherwise the position and
      error of the first failure. */
  function Collect<T, E>(results: seq<Result<T, E>>): (r: Result<seq<T>, (nat, E)>)
    ensures r.Success? <==> forall i :: 0 <= i < |results| ==> results[i].Success?
    ensures r.Success? ==> |r.value| == |results|
    ensures r.Success? ==> forall i :: 0 <= i < |results| ==> results[i] == Success(r.value[i])
    ensures r.Failure? ==>
      && r.error.0 < |results|
      && results[r.error.0] == Failure(r.error.1)
      && forall i :: 0 <= i < r.error.0 ==> results[i].Success?
  {
    if results == [] then Success([])
    else if results[0].Failure? then Failure((0, results[0].error))
    else
      var rest := Collect(results[1..]);
      assert forall i :: 0 < i < |results| ==> results[1..][i - 1] == results[i];
      if rest.Failure? then Failure((rest.error.0 + 1, rest.error.1))
      else
        var r := [results[0].value] + rest.value;
        assert forall i :: 0 < i < |results| ==> r[i] == rest.value[i - 1];
        Success(r)
  }

  /** `read_text` over every file of the split, in order; the first file
      that cannot be read fails the whole construction. */
  function ReadAll(split: seq<string>): (r: Result<seq<Transcript.Row>, BuildError>)
    ensures r.Success? <==> forall i :: 0 <= i < |split| ==> Transcript.ReadText(split[i]).Success?
    ensures r.Success? ==> |r.value| == |split|
    ensures r.Success? ==> forall i :: 0 <= i < |split| ==> Transcript.ReadText(split[i]) == Success(r.value[i])
    ensures r.Failure? ==>
      && r.error.Unreadable?
      && r.error.file < |split|
      && Transcript.ReadText(split[r.error.file]).Failure?
      && Transcript.ReadText(split[r.error.file]).error == r.error.reason
      && forall i :: 0 <= i < r.error.file ==> Transcript.ReadText(split[i]).Success?
  {
    var results := seq(|split|, i requires 0 <= i < |split| => Transcript.ReadText(split[i]));
    assert forall i :: 0 <= i < |split| ==> results[i] == Transcript.ReadText(split[i]);
    match Collect(results)
    case Failure((i, e)) => Failure(Unreadable(i, e))
    case Success(rows) => Success(rows)
  }

  /** Lines 36-39 as evidently intended: each file's audio id paired with
      the encoding of that same file's transcript, in split order. */
  function PairRows(rows: seq<Transcript.Row>, encode: string -> seq<int>): (r: seq<Utterance>)
    ensures |r| == |rows|
    ensures forall i :: 0 <= i < |rows| ==> r[i] == (rows[i].1, encode(rows[i].0))
  {
    var text := Pairs.Firsts(rows);
    var fileList := Pairs.Seconds(rows);
    var tokens := seq(|text|, i requires 0 <= i < |text| => encode(text[i]));
    Pairs.Zip(fileList, tokens)
  }

  /** Lines 36-39 as written: the list of per-file tuples is unpacked into
      two names, which needs exactly two files and then takes the first
      file's tuple as the transcripts and the second file's as the ids. */
  function PairAsWritten(rows: seq<Transcript.Row>, encode: string -> seq<int>): (r: Result<seq<Utterance>, BuildError>)
    ensures r.Success? <==> |rows| == 2
    ensures r.Failure? ==> r.error == UnpackMismatch(|rows|)
  {
    if |rows| != 2 then Failure(UnpackMismatch(|rows|))
    else
      var text := [rows[0].0, rows[0].1];
      var fileList := [rows[1].0, rows[1].1];
      var tokens := [encode(text[0]), encode(text[1])];
      Success(Pairs.Zip(fileList, tokens))
  }

  /** Lines 43-44: the entries sorted by token count with `sorted`, then
      unzipped into `file_list` and `text`. */
  function Index(entries: seq<Utterance>, bucketSize: int, ascending: bool): (d: Dataset)
    ensures Valid(d)
    ensures |d.fileList| == |entries|
    ensures d.bucketSize == bucketSize
    ensures StableSort.StablySorted(entries, Records(d), TokenCount, ascending)
  {
    var sorted := StableSort.Sort(entries, TokenCount, ascending);
    StableSort.SortIsStable(entries, TokenCount, ascending);
    Pairs.ZipUnzip(sorted);
    Dataset(Pairs.Firsts(sorted), Pairs.Seconds(sorted), bucketSize)
  }

  /** The rows read from `split`, or none when some file cannot be read. */
  function RowsRead(split: seq<string>): seq<Transcript.Row>
  {
    match ReadAll(split)
    case Success(rows) => rows
    case Failure(_) => []
  }

  /** `Dataset(path, split, tokenizer, bucket_size, ascending)`, with each
      file of `split` given by its contents. */
  function Build(split: seq<string>, encode: string -> seq<int>, bucketSize: int, ascending: bool): (r: Result<Dataset, BuildError>)
    ensures split == [] ==> r == Failure(EmptySplit)
    ensures r.Success? <==> split != [] && ReadAll(split).Success?
  {
    if split == [] then Failure(EmptySplit)
    else
      var rows :- ReadAll(split);
      Success(Index(PairRows(rows, encode), bucketSize, ascending))
  }

  /** A readable split is indexed from its rows paired with their encodings,
      so everything proved of `Index` holds of the dataset built. */
  lemma BuildIsIndex(split: seq<string>, encode: string -> seq<int>, bucketSize: int, ascending: bool)
    requires Build(split, encode, bucketSize, ascending).Success?
    ensures ReadAll(split).Success?
    ensures var d := Build(split, encode, bucketSize, ascending).value;
      && d == Index(PairRows(RowsRead(split), encode), bucketSize, ascending)
      && Valid(d)
      && Len(d) == |split|
      && d.bucketSize == bucketSize
      && StableSort.StablySorted(PairRows(RowsRead(split), encode), Records(d), TokenCount, ascending)
  {
  }

  /** A split that cannot be read fails on a file that `read_text` rejects,
      and the error carries that file's reason. */
  lemma BuildNamesUnreadableFile(split: seq<string>, encode: string -> seq<int>, bucketSize: int, ascending: bool)
    requires split != []
    requires Build(split, encode, bucketSize, ascending).Failure?
    ensures var e := Build(split, encode, bucketSize, ascending).error;
      && e.Unreadable?
      && e.file < |split|
      && Transcript.ReadText(split[e.file]) == Failure(e.reason)
  {
  }

  /** `__len__`: the number of entries; bucketing plays no part. */
  function Len(d: Dataset): (n: nat)
    ensures Valid(d) ==> n == |Records(d)|
    ensures Valid(d) && d.bucketSize <= 1 ==>
      forall index :: 0 <= index ==> (Get(d, index).Success? <==> index < n)
  {
    |d.fileList|
  }

  /** `__getitem__(index)`. A bucket read needs at least `bucket_size`
      entries and a non-negative index (Python would otherwise wrap around);
      a single read past the end is Python's IndexError. */
  function Get(d: Dataset, index: int): (r: Result<Item, Buckets.AccessError>)
    requires Valid(d)
    requires 0 <= index
    requires d.bucketSize > 1 ==> d.bucketSize <= |d.fileList|
    ensures d.bucketSize > 1 ==> r == Success(Bucket(Buckets.Window(Records(d), d.bucketSize, index)))
    ensures d.bucketSize <= 1 ==> (r.Success? <==> index < |d.fileList|)
    ensures d.bucketSize <= 1 && index < |d.fileList| ==> r == Success(Single(Records(d)[index]))
    ensures d.bucketSize <= 1 && |d.fileList| <= index ==> r == Failure(Buckets.IndexOutOfRange(index, |d.fileList|))
  {
    if d.bucketSize > 1 then
      var b := d.bucketSize;
      var start := Buckets.Start(|d.fileList|, b, index);
      Pairs.ZipSlice(d.fileList, d.text, start, start + b);
      Success(Bucket(Pairs.Zip(d.fileList[start..start + b], d.text[start..start + b])))
    else if index < |d.fileList| then
      Success(Single((d.fileList[index], d.text[index])))
    else
      Failure(Buckets.IndexOutOfRange(index, |d.fileList|))
  }

  /** The indexed entries are exactly the given ones, stably sorted: the
      same entries with the same multiplicities, and the one arrangement
      the stable-sort specification allows. */
  lemma IndexContents(entries: seq<Utterance>, bucketSize: int, ascending: bool)
    ensures var d := Index(entries, bucketSize, ascending);
      && multiset(Records(d)) == multiset(entries)
      && Records(d) == StableSort.Sort(entries, TokenCount, ascending)
  {
    var d := Index(entries, bucketSize, ascending);
    StableSort.SortIsTheStableSort(entries, Records(d), TokenCount, ascending);
  }

  /** Neighbouring entries are ordered by token count: non-increasing by
      default, non-decreasing with `ascending`. */
  lemma IndexOrdersByLength(entries: seq<Utterance>, bucketSize: int, ascending: bool)
    ensures var d := Index(entries, bucketSize, ascending);
      forall i :: 0 <= i < |d.text| - 1 ==>
        if ascending then |d.text[i]| <= |d.text[i + 1]| else |d.text[i]| >= |d.text[i + 1]|
  {
    var d := Index(entries, bucketSize, ascending);
    var rs := Records(d);
    StableSort.SortedAdjacent(rs, TokenCount, ascending);
    assert forall i :: 0 <= i < |d.text| ==> TokenCount(rs[i]) == |d.text[i]|;
  }

  /** Equal token counts keep their input order, descending included. */
  lemma IndexIsStable(entries: seq<Utterance>, bucketSize: int, ascending: bool, k: int)
    ensures var d := Index(entries, bucketSize, ascending);
      StableSort.Filter(Records(d), TokenCount, k) == StableSort.Filter(entries, TokenCount, k)
  {
  }

  /** Every entry of a built dataset is some file's audio id with the
      encoding of that same file's transcript. */
  lemma IndexKeepsPairing(rows: seq<Transcript.Row>, encode: string -> seq<int>, bucketSize: int, ascending: bool, j: int)
    returns (i: int)
    requires 0 <= j < |rows|
    ensures 0 <= i < |rows|
    ensures var d := Index(PairRows(rows, encode), bucketSize, ascending);
      && d.fileList[j] == rows[i].1
      && d.text[j] == encode(rows[i].0)
  {
    var entries := PairRows(rows, encode);
    var d := Index(entries, bucketSize, ascending);
    IndexContents(entries, bucketSize, ascending);
    var rs := Records(d);
    assert rs[j] in multiset(entries);
    i :| 0 <= i < |entries| && entries[i] == rs[j];
  }

  /** A bucket read returns `bucket_size` neighbouring entries starting at
      `min(len - bucket_size, index)`. */
  lemma GetBucket(d: Dataset, index: int)
    requires Valid(d)
    requires 1 < d.bucketSize <= Len(d)
    requires 0 <= index
    ensures var b, start := d.bucketSize, Buckets.Start(Len(d), d.bucketSize, index);
      && 0 <= start <= index
      && start + b <= Len(d)
      && (index <= Len(d) - b ==> start == index)
      && Get(d, index) == Success(Bucket(Records(d)[start..start + b]))
      && forall j :: 0 <= j < b ==> Get(d, index).value.entries[j] == (d.fileList[start + j], d.text[start + j])
  {
  }

  /** Every index at or past `len - bucket_size` reads the same last bucket. */
  lemma GetTailClamp(d: Dataset, index: int)
    requires Valid(d)
    requires 1 < d.bucketSize <= Len(d)
    requires Len(d) - d.bucketSize <= index
    ensures Get(d, index) == Get(d, Len(d) - d.bucketSize)
  {
    Buckets.WindowTail(Records(d), d.bucketSize, index);
  }

  /** The bucket read at any entry's position contains that entry. */
  lemma GetCovers(d: Dataset, p: int)
    requires Valid(d)
    requires 1 < d.bucketSize <= Len(d)
    requires 0 <= p < Len(d)
    ensures (d.fileList[p], d.text[p]) in Get(d, p).value.entries
  {
    var j := Buckets.WindowCovers(Records(d), d.bucketSize, p);
    assert Get(d, p).value.entries[j] == (d.fileList[p], d.text[p]);
  }

  /** With `bucket_size <= 1` a read is the entry at that position, the same
      as the first entry of a two-entry bucket read there. */
  lemma GetSingleMatchesBucket(d: Dataset, index: int)
    requires Valid(d)
    requires d.bucketSize <= 1
    requires 0 <= index <= Len(d) - 2
    ensures Get(d, index) == Success(Single(Get(d.(bucketSize := 2), index).value.entries[0]))
  {
  }

  /** The worked example: files whose transcripts encode to 5, 2 and 8
      tokens are indexed as 8, 5, 2; with buckets of two, index 0 reads the
      first two entries and indices 1 and 2 both read the last two. */
  lemma Example(rows: seq<Transcript.Row>, encode: string -> seq<int>)
    requires |rows| == 3
    requires |encode(rows[0].0)| == 5 && |encode(rows[1].0)| == 2 && |encode(rows[2].0)| == 8
    ensures var d := Index(PairRows(rows, encode), 2, false);
      && d.fileList == [rows[2].1, rows[0].1, rows[1].1]
      && Get(d, 0) == Success(Bucket([(rows[2].1, encode(rows[2].0)), (rows[0].1, encode(rows[0].0))]))
      && Get(d, 1) == Get(d, 2) == Success(Bucket([(rows[0].1, encode(rows[0].0)), (rows[1].1, encode(rows[1].0))]))
  {
    var entries := PairRows(rows, encode);
    var a, b, c := entries[0], entries[1], entries[2];
    var d := Index(entries, 2, false);
    var sorted := [c, a, b];
    assert Records(d) == sorted by {
      IndexContents(entries, 2, false);
      ExampleOrder(entries);
    }
    assert d.fileList == [rows[2].1, rows[0].1, rows[1].1] by {
      Pairs.UnzipZip(d.fileList, d.text);
      assert Pairs.Firsts(sorted) == [c.0, a.0, b.0];
    }
    ExampleGets(d, c, a, b);
  }

  lemma ExampleGets(d: Dataset, x: Utterance, y: Utterance, z: Utterance)
    requires Valid(d) && d.bucketSize == 2
    requires Records(d) == [x, y, z]
    ensures Get(d, 0) == Success(Bucket([x, y]))
    ensures Get(d, 1) == Get(d, 2) == Success(Bucket([y, z]))
  {
    var s := [x, y, z];
    Buckets.WindowAt(s, 2, 0);
    assert s[0..2] == [x, y];
    Buckets.WindowAt(s, 2, 1);
    assert s[1..3] == [y, z];
    Buckets.WindowTail(s, 2, 2);
  }

  lemma ExampleOrder(entries: seq<Utterance>)
    requires |entries| == 3
    requires TokenCount(entries[0]) == 5 && TokenCount(entries[1]) == 2 && TokenCount(entries[2]) == 8
    ensures StableSort.Sort(entries, TokenCount, false) == [entries[2], entries[0], entries[1]]
  {
    var a, b, c := entries[0], entries[1], entries[2];
    var expected := [c, a, b];
    assert StableSort.Sorted(expected, TokenCount, false) by {
      assert TokenCount(expected[0]) == 8 && TokenCount(expected[1]) == 5 && TokenCount(expected[2]) == 2;
    }
    assert entries == [a, b, c];
    assert forall k :: StableSort.Filter(expected, TokenCount, k) == StableSort.Filter(entries, TokenCount, k) by {
      forall k
        ensures StableSort.Filter(expected, TokenCount, k) == StableSort.Filter(entries, TokenCount, k)
      {
        FilterOfThree(c, a, b, k);
        FilterOfThree(a, b, c, k);
      }
    }
    assert StableSort.StablySorted(entries, expected, TokenCount, false);
    StableSort.SortIsTheStableSort(entries, expected, TokenCount, false);
  }

  lemma FilterOfThree(x: Utterance, y: Utterance, z: Utterance, k: int)
    ensures StableSort.Filter([x, y, z], TokenCount, k)
         == (if TokenCount(x) == k then [x] else [])
          + (if TokenCount(y) == k then [y] else [])
          + (if TokenCount(z) == k then [z] else [])
  {
    var key := TokenCount;
    assert [x, y, z][1..] == [y, z];
    assert [y, z][1..] == [z];
    assert [z][1..] == [];
    assert StableSort.Filter([z], key, k) == (if key(z) == k then [z] else []) + StableSort.Filter([], key, k);
    assert StableSort.Filter([y, z], key, k) == (if key(y) == k then [y] else []) + StableSort.Filter([z], key, k);
    assert StableSort.Filter([x, y, z], key, k) == (if key(x) == k then [x] else []) + StableSort.Filter([y, z], key, k);
  }

  /** Finding, as written: with any number of files other than two,
      construction fails at line 36. */
  lemma AsWrittenRejects(rows: seq<Transcript.Row>, encode: string -> seq<int>)
    requires |rows| != 2
    ensures PairAsWritten(rows, encode) == Failure(UnpackMismatch(|rows|))
    ensures |PairRows(rows, encode)| == |rows|
  {
  }

  /** Finding, as written: with exactly two files, the second file's
      transcript is taken as an audio id and the first file's audio id is
      encoded as a transcript, so the pairing differs from the intended one. */
  lemma AsWrittenMispairs(rows: seq<Transcript.Row>, encode: string -> seq<int>)
    requires |rows| == 2
    requires rows[1].0 != rows[0].1
    ensures PairAsWritten(rows, encode).Success?
    ensures PairAsWritten(rows, encode).value[0].0 == rows[1].0
    ensures PairAsWritten(rows, encode).value[1] == (rows[1].1, encode(rows[0].1))
    ensures PairAsWritten(rows, encode) != Success(PairRows(rows, encode))
  {
    assert PairRows(rows, encode)[0].0 == rows[0].1;
  }
}
