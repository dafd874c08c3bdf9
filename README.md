# bloom_history_aggregator core, in Dafny

This project models the storage-and-merge core of the Bloom history aggregator, `bloom_history_aggregator/api.py`.

The service stores serialized Bloom filters ("segments"), one per time window `[from, to]`, in a directory per bucket. Each segment lives in a file named `<from>-<to>.bloom`. The route `/<bucket>/<from>/<to>/` works as follows:

- **POST** stores a segment.
- **DELETE** removes every segment the window contains.
- **GET** merges every segment the window contains and returns the result serialized. The work is done by the filter engine, libbloom.

The modules follow the structure of the program:

- `SegmentNamer` (pure): `filename_make` and `filename_parse`, together with the pieces of Python they rely on: `str(int)`, `int(str)`, `os.path.basename`, and the anchored match of `(\d+)-(\d+)\.bloom`.
- `SegmentSelector` (pure): `filename_filter`, modelled as a function over the listing that `glob` returned.
- `FilterEngine`: the four libbloom calls the core makes, as seen from the core.
  - The engine's behaviour is a value `Engine<F>` of three functions: read a file, merge two handles, serialize a handle.
  - `F` stands for the opaque filter contents.
  - A `Library` object tracks which handles and buffers currently hold engine memory (`live`).
  - `Handle` is a `struct bloom`. `BufferCell` is the `uint8_t **` that serialization fills.
- `MergeAccumulator`: `bloom_serialize` and `bloom_merge_all` as methods over handles.
  - `BloomSerialize` has no loop; it is proved against the function `Serialized`.
  - `BloomMergeAll` and its second loop `MergeRemaining` are proved against the functions `FirstGood`, `Accumulate` and `MergeAll`.
  - `FirstGood` is the first loop: it finds the first file that loads.
  - `Accumulate` is the second loop: it merges in every remaining file, whatever its read returned.
  - The methods also prove that everything they allocate is freed on every exit.
- `BucketOperations`: the instance directory as a class `BucketStore` with a field of type `map<bucket, map<file name, bytes>>`.
  - Its methods are `PostBloom`, `DeleteBloom`, `GetMerged` and the route guard `Endpoint`.
  - The functions `Posted` and `Deleted` give the new directory state.

Behaviours of the code that its own shape or its tests bear on:

- **Decoding is looser than the names `filename_make` writes.** The regular expression is anchored only at the start, and `int()` accepts leading zeros. So `01-2.bloom` and `1-2.bloom.bak` both decode to `(1, 2)`; see `ParseAcceptsNonCanonical`.
- **The `if not files: abort(404)` tests in `delete_bloom` and `get_merged` (api.py:142-143, 157-158) never fire.** `files` is a generator, and a generator is always true. The unreachable `abort(404)` shows the intent, 404 on an empty selection, but as written:
  - an empty selection in an existing bucket deletes nothing and answers 200;
  - a merge over an empty selection raises `LibbloomError` with code 0 (see `EmptySelectionRaises`).

  The model follows the code. The tests in `tests/test_api.py:247-260` expect the `LibbloomError`.
- **An existing but empty bucket directory is not "not found"**: 404 is returned only when the directory does not exist.

The engine is a parameter. A few lemmas assume properties of it, each stated as a predicate:

- `MergeRejectsUnready`: a merge whose other side is not ready fails.
- `SerializeRestoresFile`: serializing a freshly read file gives back its bytes.
- `SerializesReady`: a ready handle always serializes.

Two further engine assumptions are built into the structure of `AfterRead` and `AfterMerge`:

- a failed read leaves the handle not ready;
- a failed merge leaves the accumulator unchanged.

One engine assumption is built into the resource accounting of `Library`. `live` is a set of handles and buffers, not of allocations, so a handle holds memory or does not:

- a read into a handle releases or reuses whatever the handle already held, so one `bloom_free_` releases everything the handle holds. The first loop of `bloom_merge_all` (api.py:92-98) reads into the same handle again after a failed read, with no free in between, and "everything is freed on every exit" relies on this.

## Model

| member | source | states |
|---|---|---|
| SegmentNamer.FilenameMake | bloom_history_aggregator/api.py:34-35 | the name `<from>-<to>.bloom`; its round trip, injectivity and shape are proved by `ParseMake`, `FilenameMakeInjective` and `MadeNameSelectsItself` |
| SegmentNamer.FilenameParse | bloom_history_aggregator/api.py:38-40 | the match on the basename, None where the source raises AttributeError; what it accepts is stated by `ParseAcceptsPath`, `MatchOnlyShape` and `ParseRejectsMalformed` |
| SegmentNamer.MatchSegmentName | bloom_history_aggregator/api.py:25 | the start-anchored match of `(\d+)-(\d+)\.bloom` and the two `int()` conversions; its acceptance set is `SegmentNameShape`, by `MatchAcceptsShape` and `MatchOnlyShape` |
| SegmentNamer.DecimalValue | bloom_history_aggregator/api.py:40 | `int()` on a digit group; it inverts `DecimalString` (`DecimalValueOfString`, `DecimalStringOfValue`) |
| SegmentNamer.DecimalString | bloom_history_aggregator/api.py:35 | `str(int(n))` is a non-empty string of decimal digits with no leading zero unless it is `"0"` |
| SegmentNamer.DecimalValueOfString | bloom_history_aggregator/api.py:34-40 | `int(str(n)) == n`: reading back the digits a name was written with gives the timestamp |
| SegmentNamer.DecimalStringOfValue | bloom_history_aggregator/api.py:35 | a digit string without a superfluous leading zero is exactly the rendering of its own value |
| SegmentNamer.DecimalValueIgnoresLeadingZero | bloom_history_aggregator/api.py:40 | `int()` ignores a leading zero |
| SegmentNamer.Basename | bloom_history_aggregator/api.py:39 | the basename holds no `/`, is a suffix of the path, and is preceded by `/` whenever it is shorter than the path |
| SegmentNamer.BasenameAfterSlash | bloom_history_aggregator/api.py:39 | the basename of `dir + "/" + name` is `name` when `name` holds no `/`, for every `dir` |
| SegmentNamer.BasenameOfPlainName | bloom_history_aggregator/api.py:39 | a path without `/` is its own basename |
| SegmentNamer.DigitRun | bloom_history_aggregator/api.py:25 | the greedy `\d+`: the run consumed is all digits, and the character after it, if any, is not a digit |
| SegmentNamer.MatchAcceptsShape | bloom_history_aggregator/api.py:25 | every name of the form digits `-` digits `.bloom` followed by anything matches, and yields the two numbers |
| SegmentNamer.MatchOnlyShape | bloom_history_aggregator/api.py:25 | conversely, every name that matches has that form, with the yielded numbers as the digit groups' values |
| SegmentNamer.ParseAcceptsPath | bloom_history_aggregator/api.py:38-40 | such a name decodes to its two numbers on its own and under any directory prefix |
| SegmentNamer.ParseMake | bloom_history_aggregator/api.py:34-40 | round trip: `filename_parse(filename_make(from, to)) == (from, to)`, with or without a directory prefix |
| SegmentNamer.FilenameMakeInjective | bloom_history_aggregator/api.py:34-35 | distinct windows get distinct file names |
| SegmentNamer.TextTimestampsEncodeAsIntegers | tests/test_api.py:25-30 | digit text and the integer it denotes give the same name, which decodes back; canonical text appears verbatim in the name |
| SegmentNamer.ParseRejectsMalformed | tests/test_api.py:54-68 | `a-b.bloom`, `-.bloom`, `.bloom`, `11.bloom`, `1-1`, `dir/a-1.boom` and `1-2.bloom/x` do not decode |
| SegmentNamer.ParseAcceptsNonCanonical | bloom_history_aggregator/api.py:38-40 | a leading `0` and any `/`-free text after `.bloom` decode to the same window |
| SegmentSelector.Contains | bloom_history_aggregator/api.py:47 | the window encloses the segment: `from <= start` and `end <= to`; overlap is not enough (`StraddlingSegmentsAreSkipped`) |
| SegmentSelector.Selected | bloom_history_aggregator/api.py:46-47 | a path decodes and its window is contained; for stored names this is `Contains` itself (`SegmentSelectedIffContained`) |
| SegmentSelector.FilenameFilter | bloom_history_aggregator/api.py:43-50 | a path is kept if and only if it is listed, decodes, and lies inside the window; undecodable paths are skipped; the output is no longer than the listing |
| SegmentSelector.FilterKeepsListingOrder | bloom_history_aggregator/api.py:44-48 | the kept paths are a subsequence of the listing, in its order |
| SegmentSelector.FilterKeepsDistinct | bloom_history_aggregator/api.py:44-48 | a listing without repeats yields a selection without repeats |
| SegmentSelector.FilterKeepsEveryCopy | bloom_history_aggregator/api.py:44-48 | each selected path is kept as many times as the listing holds it, and other paths not at all |
| SegmentSelector.SegmentSelectedIffContained | bloom_history_aggregator/api.py:47 | a stored segment is selected if and only if the window contains its range |
| SegmentSelector.StraddlingSegmentsAreSkipped | tests/test_api.py:82 | of segments 0-3, 1-2 and 2-3 (in general: one straddling the start, one inside, one straddling the end), the window [1, 2] keeps only 1-2 |
| FilterEngine.Code | bloom_history_aggregator/api.py:64-65 | a libbloom return code is 0 exactly when the call succeeded |
| FilterEngine.AfterRead | bloom_history_aggregator/api.py:93 | a handle is ready after a read exactly when the read succeeded |
| FilterEngine.AfterMerge | bloom_history_aggregator/api.py:110 | a failed merge leaves the accumulator unchanged |
| FilterEngine.Handle.constructor | bloom_history_aggregator/api.py:85-86 | a freshly allocated `struct bloom` is not ready |
| FilterEngine.BufferCell.constructor | bloom_history_aggregator/api.py:61 | a freshly allocated `uint8_t **` is zeroed: it holds no buffer |
| FilterEngine.Library.FileRead | bloom_history_aggregator/api.py:93 | the return code and the handle state are those of the engine's read of the file (None when it is absent); after a success the handle holds memory, after a failure it may or may not, and nothing else is held or released |
| FilterEngine.Library.Merge | bloom_history_aggregator/api.py:110 | the return code and the accumulator's new state are those of the engine's merge; the other handle is untouched |
| FilterEngine.Library.Serialize | bloom_history_aggregator/api.py:64 | the return code is the engine's; on success the cell holds the serialized bytes, as a new allocation; on failure the cell may hold memory, and nothing else changes hands |
| FilterEngine.Library.Free | bloom_history_aggregator/api.py:116 | the handle is released and not ready; freeing twice is harmless |
| FilterEngine.Library.FreeSerialized | bloom_history_aggregator/api.py:75 | the serialization buffer is released; harmless on an empty cell |
| MergeAccumulator.ReadFile | bloom_history_aggregator/api.py:93 | the engine's read of a path: of the file's bytes when it exists, of None otherwise; the same call serves both loops (api.py:104) |
| MergeAccumulator.FirstGood | bloom_history_aggregator/api.py:92-100 | the first loop; its meaning is stated by `FirstGoodStopsAtFirstLoadable` and `BloomMergeAll` is proved against it |
| MergeAccumulator.MergeInto | bloom_history_aggregator/api.py:104-110 | one step of the second loop: read into the scratch handle, merge it in; an unusable file leaves the accumulator as it was (`AccumulateSkipsUnusable`) |
| MergeAccumulator.Accumulate | bloom_history_aggregator/api.py:103-116 | the second loop over the remaining paths; `MergeRemaining` is proved against it and `AccumulateSkipsUnusable` states what it keeps |
| MergeAccumulator.MergeAll | bloom_history_aggregator/api.py:78-121 | what `bloom_merge_all` returns or raises; stated by `MergeFailsIffNothingLoads` and `LoneReadableFileIsReturned`, implemented by `BloomMergeAll` |
| MergeAccumulator.Serialized | bloom_history_aggregator/api.py:64-73 | serialization yields the bytes exactly when the engine call succeeds, and otherwise raises with its code |
| MergeAccumulator.FirstGoodStopsAtFirstLoadable | bloom_history_aggregator/api.py:92-100 | the first loop stops at the first file that reads, all earlier files having failed, and leaves the iterator just after it; if it runs out, every file failed and the code is the last read's (or 0 for no files) |
| MergeAccumulator.MergeFailsIffNothingLoads | bloom_history_aggregator/api.py:92-100 | the merge raises if and only if no selected file reads (given that a ready handle serializes); the raised code is 0 for an empty selection, otherwise the last read's |
| MergeAccumulator.AccumulateSkipsUnusable | bloom_history_aggregator/api.py:103-116 | in the second loop, files that fail to read or fail to merge leave the accumulator unchanged |
| MergeAccumulator.LoneReadableFileIsReturned | bloom_history_aggregator/api.py:92-118 | a single readable file among files that do not read or do not merge comes back byte for byte |
| MergeAccumulator.BloomSerialize | bloom_history_aggregator/api.py:53-75 | the result is the engine's serialization of the handle, or LibbloomError with its code; the buffer is freed on both paths, which takes the `finally` free since a failed call may have allocated |
| MergeAccumulator.MergeRemaining | bloom_history_aggregator/api.py:103-116 | the second loop: the accumulator ends as every remaining file merged in, in order, whatever each read returned; the scratch handle is freed after each file |
| MergeAccumulator.BloomMergeAll | bloom_history_aggregator/api.py:78-121 | the result is `MergeAll` of the paths, raising and successful paths alike, and every handle and buffer allocated during the call has been released, by the frees in `finally` on the raising path too |
| BucketOperations.IsBloomEntry | bloom_history_aggregator/api.py:44 | the glob pattern `*.bloom`: the name ends in `.bloom` |
| BucketOperations.IsListing | bloom_history_aggregator/api.py:44 | a glob result: every `.bloom` entry of the directory once, and nothing else; `Glob` establishes it |
| BucketOperations.Selection | bloom_history_aggregator/api.py:137 | the entries a delete or merge acts on (also api.py:152); `FilterOfListingIsSelection` ties it to the filtered listing |
| BucketOperations.Posted | bloom_history_aggregator/api.py:124-133 | after a post, the bucket exists, the window's file holds the payload, and every other file and bucket is as it was; a new bucket holds just that file |
| BucketOperations.LastPostWins | bloom_history_aggregator/api.py:130-131 | posting the same window twice leaves only the second payload, as if the first post had not happened |
| BucketOperations.PostsOfDistinctWindowsCommute | bloom_history_aggregator/api.py:124-133 | posts of different windows commute |
| BucketOperations.Deleted | bloom_history_aggregator/api.py:136-148 | after a delete, the bucket still exists and holds exactly its unselected entries, unchanged; other buckets are untouched |
| BucketOperations.FilterOfListingIsSelection | bloom_history_aggregator/api.py:137 | glob followed by the filter selects exactly the bucket's `.bloom` entries that the window contains, each once |
| BucketOperations.SoleSelectedSegmentIsReturned | bloom_history_aggregator/api.py:151-161 | a window that selects a single entry, under any name, returns that entry's bytes unchanged (as the windows 0-2 and 2-4 of tests/test_api.py:232-244 do) |
| BucketOperations.SelectionAfterStore | bloom_history_aggregator/api.py:130-131 | storing an entry that a window selects, where the window selected at most that entry, leaves it the window's only selection |
| BucketOperations.PostedSelection | bloom_history_aggregator/api.py:124-133 | after a post, a window that selected at most its own entry selects exactly that entry |
| BucketOperations.MadeNameSelectsItself | bloom_history_aggregator/api.py:34-47 | the name of a window is a `.bloom` entry that the window itself selects |
| BucketOperations.PostThenGetReturnsPayload | bloom_history_aggregator/api.py:124-161 | a payload posted for a window comes back byte for byte from a merge over that window, when no other entry of the bucket lies inside it |
| BucketOperations.EmptySelectionRaises | bloom_history_aggregator/api.py:157-160 | a window that selects nothing in an existing bucket raises LibbloomError with code 0, not 404 |
| BucketOperations.BucketStore.Glob | bloom_history_aggregator/api.py:44 | the listing holds each `.bloom` entry of the bucket exactly once, and nothing else |
| BucketOperations.BucketStore.PostBloom | bloom_history_aggregator/api.py:124-133 | always answers 200, and the directory becomes `Posted` of the old one |
| BucketOperations.BucketStore.RemoveEntries | bloom_history_aggregator/api.py:145-146 | the removal loop drops exactly the listed entries from the bucket and changes nothing else |
| BucketOperations.BucketStore.DeleteBloom | bloom_history_aggregator/api.py:136-148 | 404 and no change when the bucket is absent; otherwise 200 (an empty selection included) and the directory becomes `Deleted` of the old one |
| BucketOperations.BucketStore.GetMerged | bloom_history_aggregator/api.py:151-161 | 404 when the bucket is absent; otherwise the outcome of `MergeAll` over the selection from the listing glob gave; the directory is unchanged and no engine memory leaks |
| BucketOperations.BucketStore.Endpoint | bloom_history_aggregator/api.py:164-176 | `from >= to` answers 400 and changes nothing; otherwise POST, DELETE and GET behave exactly as the three operations above |

## Left out

- HTTP plumbing is not modelled: Flask, `make_response`, `abort` as an exception, and the response headers. Outcomes are given as the `Outcome` datatype.
- The `/health` route is not modelled: it answers 200 and touches nothing.
- Path details are not modelled: the instance path, `os.path.join` and the bucket directory's path. A bucket is a key of the store map, and its existence stands for `os.path.exists`.
- Entries are addressed by basename within their bucket. `filename_parse` takes the basename first, so this changes no decision; `ParseMake` covers the prefixed form.
- Real file-system behaviour is not modelled: I/O failures of `os.makedirs`, `open`, `write`, `os.remove` and file reads, concurrent requests, and files changing between glob and use. Every store operation succeeds atomically.
- `glob`'s rule that `*` skips names starting with `.` is not modelled. Such names never decode, so no selection changes.
- BucketOperations.BucketStore.GetMerged: the order in which `glob` lists the files is not fixed by the source. The order is returned as a ghost `listing` about which only `IsListing` is known.
- Logging of undecodable names and of failed reads, merges and serialization is not modelled. It has no effect on results.
- Integers are modelled as plain naturals. The route's `<int:...>` converter accepts only non-negative decimal integers, so timestamps are `nat`.
  - Unicode digits, which `\d` and `int()` would accept in a stored name, are not modelled; only ASCII digits are.
  - `filename_make` on non-numeric text (ValueError or TypeError) is unreachable from the route and is not modelled. Text made of digits is covered by `TextTimestampsEncodeAsIntegers`.
- Engine memory is tracked per handle, not per allocation: a handle is in `live` or not. Leftover memory from a failed read that a later read into the same handle would leak is not modelled; the engine assumption above rules it out.
- libbloom itself is not modelled: the filter's bits and hashing, `bindings.py`, and the sizes and pointers of the C interface. This includes the 32-bit size out-parameter and `ffi.unpack`.
  - The engine's behaviour is a parameter.
  - Whether merging is commutative or order-independent is a property of the engine and is not stated. The model keeps the source's merge order.
- MergeAccumulator.BloomMergeAll: the second loop is a separate method, `MergeRemaining`. The `for ... else` of the first loop becomes a `found` flag.
- The `except TypeError` in `filename_filter` is unreachable once names are strings, and is not modelled.
- `setup.py` is packaging only and is not part of this model.
