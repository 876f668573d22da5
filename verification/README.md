# CommonVoice corpus index, modelled in Dafny

This project models the index that `corpus/commonvoice.py` builds over a
speech corpus for sequence training.

- `read_text` takes the first line of a transcript file and splits it on tabs.
  It returns the third field (the transcript) and the second field (the audio id).
- `Dataset` pairs every audio id with its tokenized transcript.
  It sorts the pairs by token count with Python's stable `sorted`: longest first, or shortest first with `ascending`.
  It then serves them one at a time, or in buckets of `bucket_size` neighbours.
  The start of a bucket slides left near the end, so the last bucket is always full.
- `TextDataset` does the same sort and bucketing over token sequences without audio ids.

Modules, one concept each:

- `Fields` is Python's `str.split` on one separator, with its inverse `join`.
- `Transcript` is `read_text` on a file's contents.
- `Pairs` is `zip` and unzipping.
- `StableSort` is `sorted(key=..., reverse=...)` for an integer key.
- `Buckets` is the sliding clamp `min(len - bucket_size, index)` and the bucket it selects.
- `CommonVoice` is `Dataset`.
- `TextCorpus` is `TextDataset`.
- `Wrappers` holds the `Result` type used for every Python exception that is modelled.

A file is given by its decoded text. Python's text mode reads with universal
newlines: `\n`, `\r` and `\r\n` each end a line, and the line comes back ending in `\n`.
`str.split('\t')` does not strip, so a line with exactly three fields gives a
transcript that still ends in `\n`. The model keeps that newline.
The tokenizer is the function parameter `encode`.

Three behaviours of the code are worth stating:

- A `bucket_size` of zero or less is not rejected. It simply selects single-entry reads.
- A malformed line fails with Python's IndexError, which does not name the file.
  The model reports the position of the file in the split.
- An empty split is not a valid index. The code sets the thread count to zero,
  and joblib refuses zero jobs, so construction fails (`EmptySplit`).

## Model

| member | source | states |
|---|---|---|
| Fields.Split | corpus/commonvoice.py:21 | `line.split('\t')` has one more piece than the line has tabs. No piece contains a tab, and joining the pieces with tabs gives the line back. |
| Fields.SplitJoin | corpus/commonvoice.py:21 | Splitting undoes joining: tab-free fields joined by tabs split back into exactly those fields. |
| Transcript.FirstLine | corpus/commonvoice.py:20 | The line the file loop yields first is never longer than the file. A file without a line break is that line. Otherwise the line is a break-free copy of the file's start, ending in `\n` where the file has its first `\n` or `\r`. |
| Transcript.FirstLineOf | corpus/commonvoice.py:20 | The first line the file loop yields ends at the first `\n` or `\r` and comes back ending in `\n`. Nothing after that break is part of it. |
| Transcript.ParseLine | corpus/commonvoice.py:21-22 | A line succeeds exactly when it has at least two tabs. Otherwise the error carries the field count (Python's IndexError on `split[2]`). |
| Transcript.ParseLineFields | corpus/commonvoice.py:21-22 | For any line `pre<TAB>id<TAB>transcript[<TAB>...]`, the result is (transcript, id): the third field, then the second. |
| Transcript.ReadText | corpus/commonvoice.py:15-22 | An empty file fails with `NoLines`, where Python's loop never runs and `None` is returned. Otherwise the read succeeds exactly when the first line has at least two tabs, and a failure is TooFewFields with the first line's field count. |
| Transcript.ReadTextRecord | corpus/commonvoice.py:19-22 | A file whose first line is a record and ends in a line break reads as (third field, second field), whatever follows. The transcript keeps the line's newline when it is the last field. |
| Transcript.ReadTextOnlyRecord | corpus/commonvoice.py:19-22 | A file that is one record line with no line break at all reads as (third field, second field), with no newline added to the transcript. |
| Transcript.ReadTextIgnoresLaterLines | corpus/commonvoice.py:20-22 | Two files that agree up to and including their first line break read the same: later lines are ignored. |
| Transcript.ReadTextShortLine | corpus/commonvoice.py:20-22 | A first line with fewer than two tabs, ended by a line break, fails with TooFewFields, giving the number of fields it had, whatever the later lines hold. |
| Transcript.ReadTextOnlyShortLine | corpus/commonvoice.py:20-22 | A non-empty file that is one short line with no line break fails in the same way, with TooFewFields and its field count. |
| Pairs.Zip | corpus/commonvoice.py:43-44 | `zip` is as long as the shorter input, and position i holds the pair of both inputs' i-th elements. |
| Pairs.Firsts | corpus/commonvoice.py:43 | The first sequence of `zip(*pairs)`: one element per pair, the pair's first component. |
| Pairs.Seconds | corpus/commonvoice.py:43 | The second sequence of `zip(*pairs)`: one element per pair, the pair's second component. |
| Pairs.ZipUnzip | corpus/commonvoice.py:43-44 | Zipping the two unzipped sequences gives back the pairs, so `file_list` and `text` zip back to the sorted entries. |
| Pairs.UnzipZip | corpus/commonvoice.py:43-51 | Unzipping the zip of two equally long sequences gives back both sequences. |
| Pairs.ZipSlice | corpus/commonvoice.py:50-51 | Slicing `file_list` and `text` alike and then zipping them equals the same slice of the zipped entries. |
| StableSort.Insert | corpus/commonvoice.py:44 | Inserting adds exactly one element, and for every key it puts the new element ahead of the elements already holding that key. |
| StableSort.InsertSorted | corpus/commonvoice.py:44 | Inserting into a sorted sequence keeps it sorted in the chosen direction. |
| StableSort.Sort | corpus/commonvoice.py:44 | `sorted(key=..., reverse=not ascending)` orders by key in the chosen direction and is a permutation. For every key, the elements with that key keep their input order, with `reverse=True` as well. |
| StableSort.SortIsStable | corpus/commonvoice.py:44 | The result satisfies the stable-sort specification and has the input's length. |
| StableSort.SortedByParts | corpus/commonvoice.py:44 | Two sorted sequences with the same per-key subsequences are equal, so a stable sort's result is determined by its input. |
| StableSort.SortIsTheStableSort | corpus/commonvoice.py:44 | A sequence meets the stable-sort specification for an input exactly when it is the sort of that input. |
| Buckets.Window | corpus/commonvoice.py:49-51 | A bucket has exactly `bucket_size` entries. They are neighbours in the collection, read from `min(len - bucket_size, index)`, which is in bounds and at most `index`. |
| Buckets.WindowAt | corpus/commonvoice.py:49-51 | When `index <= len - bucket_size`, the bucket starts at `index` itself. |
| Buckets.WindowTail | corpus/commonvoice.py:49-51 | Every `index >= len - bucket_size` gets the same bucket: the last `bucket_size` entries. |
| Buckets.WindowCovers | corpus/commonvoice.py:49-51 | The bucket read at any position contains the entry at that position, so no entry is unreachable. |
| CommonVoice.Collect | corpus/commonvoice.py:36-37 | The per-file results combine to all their values exactly when every file succeeds. Otherwise the failure names the first failing position, with every earlier one successful. |
| CommonVoice.ReadAll | corpus/commonvoice.py:36-37 | Reading every file succeeds exactly when each file reads. Result i is file i's (transcript, id). A failure names a file that fails, with every earlier file readable. |
| CommonVoice.PairRows | corpus/commonvoice.py:36-39 | The corrected pairing: entry i is file i's audio id with the encoding of file i's own transcript. |
| CommonVoice.PairAsWritten | corpus/commonvoice.py:36-39 | Line 36 as written: unpacking the per-file list into two names succeeds only for exactly two files. Otherwise it is Python's ValueError. |
| CommonVoice.Index | corpus/commonvoice.py:43-44 | `file_list` and `text` are equally long, with one entry per input pair. Zipped together they are the input pairs stably sorted by token count in the chosen direction. |
| CommonVoice.Build | corpus/commonvoice.py:26-44 | An empty split fails. Otherwise construction succeeds exactly when every file of the split reads. |
| CommonVoice.BuildIsIndex | corpus/commonvoice.py:36-44 | A successful construction is the index of the files' (id, encoded transcript) pairs. `__len__` is the number of files for any bucket size, and the entries are those pairs stably sorted by token count. |
| CommonVoice.BuildNamesUnreadableFile | corpus/commonvoice.py:36-37 | When a non-empty split fails, the error names a file of the split that `read_text` rejects, with that file's own reason. |
| CommonVoice.IndexContents | corpus/commonvoice.py:43-44 | The indexed entries are a permutation of the input pairs, and equal their stable sort. |
| CommonVoice.IndexOrdersByLength | corpus/commonvoice.py:44 | Neighbouring token sequences have non-increasing length by default, and non-decreasing length with `ascending`. |
| CommonVoice.IndexIsStable | corpus/commonvoice.py:44 | For each token count, entries with that count appear in their input order, in both directions. |
| CommonVoice.IndexKeepsPairing | corpus/commonvoice.py:36-44 | Every indexed entry's audio id is some file's id, and its tokens are the encoding of that same file's transcript. |
| CommonVoice.Len | corpus/commonvoice.py:55-56 | `__len__` is the number of (id, tokens) entries, and without bucketing a read succeeds exactly for the indices below it. |
| CommonVoice.Get | corpus/commonvoice.py:46-53 | With `bucket_size > 1` a read returns the bucket of `bucket_size` (id, tokens) entries from the clamped start. Otherwise it returns the entry at `index`, or IndexError (with the index and length) past the end. |
| CommonVoice.GetBucket | corpus/commonvoice.py:47-51 | A bucket read returns `bucket_size` contiguous (id, tokens) entries. They start at `min(len - bucket_size, index)`, which is `index` itself away from the tail, and every position read is in bounds. |
| CommonVoice.GetTailClamp | corpus/commonvoice.py:49 | Every `index >= len - bucket_size` reads the same bucket as `len - bucket_size`. |
| CommonVoice.GetCovers | corpus/commonvoice.py:49-51 | The bucket read at any entry's position contains that entry. |
| CommonVoice.GetSingleMatchesBucket | corpus/commonvoice.py:52-53 | A single read at `index` is the entry at that position, the same entry that leads a two-entry bucket read there. |
| CommonVoice.Example | corpus/commonvoice.py:36-51 | Three files whose transcripts encode to 5, 2 and 8 tokens are indexed as 8, 5, 2, with their ids in that order. With buckets of two, index 0 reads the first two entries, and indices 1 and 2 both read the last two. |
| CommonVoice.AsWrittenRejects | corpus/commonvoice.py:36-37 | As written, any number of files other than two makes construction fail, while the corrected pairing has one entry per file. |
| CommonVoice.AsWrittenMispairs | corpus/commonvoice.py:36-44 | As written, with two files, the second file's transcript becomes an audio id, and the first file's audio id is encoded as a transcript. The result differs from the corrected pairing. |
| TextCorpus.BuildText | corpus/commonvoice.py:74 | The sentences are a permutation of the input, sorted longest first and stably. The bucket size is kept. |
| TextCorpus.BuildTextOrdersByLength | corpus/commonvoice.py:74 | Neighbouring token sequences have non-increasing length. |
| TextCorpus.LenText | corpus/commonvoice.py:84-85 | Without bucketing, a read succeeds exactly for the indices below `__len__`. |
| TextCorpus.LenTextIsSentenceCount | corpus/commonvoice.py:84-85 | `__len__` is the number of sentences. |
| TextCorpus.GetText | corpus/commonvoice.py:76-82 | With `bucket_size > 1` the read returns `bucket_size` neighbouring sequences from the clamped start, which is in bounds. Otherwise it returns the sequence at `index`, or IndexError past the end. |
| TextCorpus.GetTextTailClamp | corpus/commonvoice.py:78 | Every `index >= len - bucket_size` reads the same last bucket. |
| TextCorpus.GetTextAt | corpus/commonvoice.py:78-80 | Away from the tail, the bucket is the slice starting at `index`. |
| TextCorpus.GetTextBucketOrdered | corpus/commonvoice.py:74-80 | A bucket of a built text dataset is itself ordered longest first. |

## Left out

- Opening and reading files (line 19), `pathlib` and `str(f)`: a file is given as its decoded text. Byte decoding is not modelled, and neither are lines after the first.
- joblib's `Parallel`/`delayed` and the thread count (lines 27, 32-33).
  Reads are modelled sequentially, in split order.
  When several files are malformed, the model reports the first one; which error joblib surfaces is not modelled.
  Lowering the module-wide `READ_FILE_THREADS` is not modelled, and each construction is independent.
  In Python, one construction with an empty split leaves it at zero, which would make every later construction fail.
- `tokenizer.encode`: a function parameter with no assumed behaviour. `tqdm` and the torch `Dataset` base class are left out, and so is the stored `path`, which nothing reads.
- `TextDataset.__init__` lines 64-71: they read the files of a name that is never defined, a NameError in Python. `TextCorpus.BuildText` starts from the encoded sentences and models only the sort of line 74.
- The unused constants `OFFICIAL_TXT_SRC` and `REMOVE_TOP_N_TXT` (lines 8-10).
- CommonVoice.Get: requires `0 <= index`, and `bucket_size <= len` when bucketing, because Python would wrap a negative start or index around to the end and that wraparound is not modelled. It also requires `file_list` and `text` to be equally long, which every `Build` result satisfies, so Python's truncating `zip` never drops an entry (`CommonVoice.Index`).
- TextCorpus.GetText: same index preconditions as `CommonVoice.Get`, for the same reason.
- An empty file makes `read_text` return `None`, which would fail later in Python. The model fails at once with `NoLines`.

## Findings

| source | as written | input that shows it | evidently intended | confidence | as-written member | corrected member |
|---|---|---|---|---|---|---|
| corpus/commonvoice.py:36-37 | The list of per-file (transcript, id) tuples is unpacked straight into `text, file_list`. | Three readable files raise ValueError. Two files with rows (t1, a) and (t2, b) index id t2 with the tokens of t1, and id b with the tokens of a. | Unzip the per-file tuples into the transcripts and the ids, then pair each id with its own transcript's tokens. | high; not executed | CommonVoice.AsWrittenMispairs | CommonVoice.PairRows |
