# Columnar vector storage: chunk addressing, the C1S chunk, word-count helpers

A Dafny model of three sequential pieces of H2O's `water.fvec` column store:

- **Row-to-chunk addressing in `Vec`** (`vec.dfy`, module `Vectors`). A vector owns a key
  and the element-start-per-chunk table `espc`. From `espc` it gets its row count, its chunk
  count, the binary search from a row to its chunk, and each chunk's first row and local row
  offset. Each chunk's store key is derived from the vector key. A fetched chunk is bound once
  to its start row and vector. `nextBV` steps to the following chunk, and `get` composes all of
  these. The distributed store is a `map<Key, C1SChunk>` parameter.
- **The C1S scaled-byte chunk** (`c1s_chunk.dfy`, module `Chunks`). A byte buffer with a
  12-byte header: 8 bytes of scale, then 4 bytes of bias. One unsigned byte per row follows.
  The model covers the constructor that writes the header in place, the unsigned row code plus
  bias, the read-only `append2`, and serialization with its round trip.
- **The word-count and histogram helpers of the vector tests** (`word_count.dfy`,
  `byte_histo.dfy`). `isChar` folds letters to lower case. `VStr` is a word stored as a slice of
  a shared byte array: `append` grows and compacts the array, and there are a content `equals`, a
  31-polynomial `hashCode` and a frequency-then-alphabetical `compareTo`. `ByteHisto` has `map`
  and `reduce`.

`java_ints.dfy` (module `JavaInts`) holds the Java integer semantics the three rely on:

- signed bytes, and `0xFF & b`;
- 32-bit wrap-around, and `>>> 1`;
- the 4-byte integer field of `UDP.set4`/`get4`;
- `System.arraycopy`.

`results.dfy` holds the error values.

Classes are used where the Java code updates fields in place: `Vec` (immutable fields, so its
functions read nothing), `C1SChunk`, `VStr` and `ByteHisto`. Loops in the source are loops here,
proved against specification functions: `ChunkKeyOf`, `Hash`, `WordOrder`, `Counts`, `Merged`.

## Model

| member | source | states |
|---|---|---|
| `Vectors.Vec.constructor` | src/main/java/water/fvec/Vec.java:26-33 | The vector keeps its key, which must carry the vector tag, and its espc table. |
| `Vectors.Vec.ChunkSizesSumToLength` | src/main/java/water/fvec/Vec.java:37-41 | The sizes of the `NChunks()` chunks add up to `Length()`. In a non-decreasing table every chunk start lies in `[0, Length()]`. |
| `Vectors.SizeSumTelescopes` | src/main/java/water/fvec/Vec.java:18-22 | The chunk sizes up to chunk n add up to `espc[n] - espc[0]`. |
| `Vectors.PartitionsOrdered` | src/main/java/water/fvec/Vec.java:18-22 | A table that never decreases between neighbours is ordered between any two entries. |
| `Vectors.Vec.Elem2ChunkIdx` | src/main/java/water/fvec/Vec.java:51-60 | For `0 <= i < length()` the search returns `c` with `0 <= c < nChunks()` and `espc[c] <= i < espc[c+1]`. It needs only `espc[0] == 0`. The result is also where the search function `SearchFrom` ends. The loop keeps `espc[lo] <= i < espc[hi]`, and `hi - lo` shrinks. |
| `JavaInts.MidpointNoOverflow` | src/main/java/water/fvec/Vec.java:55 | `(hi + lo) >>> 1` is the true midpoint for any two non-negative ints, even when `hi + lo` overflows. |
| `Vectors.Vec.InChunkUnique` | src/main/java/water/fvec/Vec.java:47-60 | In a non-decreasing table each row lies in exactly one chunk, so the search result is the only answer. |
| `Vectors.Vec.LocalRowInChunk` | src/main/java/water/fvec/Vec.java:86-88 | The chunk-local row of `i` in its chunk `c` is `i - chunk2StartElem(c)`, with no loss in the int cast. It lies in `[0, espc[c+1] - espc[c])` (chunks of at most 2^31 rows). |
| `Vectors.ChunkKeyOf` | src/main/java/water/fvec/Vec.java:69-75 | The chunk key has the vector key's length. Byte 0 is the chunk tag, byte 1 is -1, bytes 2..5 read back (`get4`) as the chunk number, and every byte from 6 on is the vector key's. |
| `Vectors.Vec.ChunkKey` | src/main/java/water/fvec/Vec.java:69-75 | Copying the key bytes into a fresh array and overwriting bytes 0, 1 and 2..5 produces exactly `ChunkKeyOf(key, cidx)`. The vector key itself is untouched. |
| `Vectors.ChunkKeyInjective` | src/main/java/water/fvec/Vec.java:69-75 | For one vector key, two chunk numbers give the same key iff they are equal. |
| `Vectors.ChunkKeyIsNotVecKey` | src/main/java/water/fvec/Vec.java:71 | A chunk key never equals, nor has the layout of, a vector key. |
| `Vectors.ChunkKeyDeterminesVecAndIndex` | src/main/java/water/fvec/Vec.java:14-15 | For vector keys in the layout of line 14, a chunk key determines both the vector key and the chunk number. So chunks of different vectors never collide. |
| `JavaInts.Int4RoundTrip` | src/main/java/water/fvec/Vec.java:73 | `get4` at offset 0 of the four bytes `set4` writes for an int gives that int back. |
| `JavaInts.Int4Injective` | src/main/java/water/fvec/Vec.java:73 | Two ints have the same 4-byte field iff they are equal. |
| `Vectors.Vec.ChunkIdx` | src/main/java/water/fvec/Vec.java:79-83 | The fetch, under the key `chunkKey` builds, succeeds iff the chunk key is in the store, and then yields the stored chunk. Otherwise it yields `MissingChunk`. `Elem2BV` fetches through it. |
| `Vectors.Vec.Elem2BV` | src/main/java/water/fvec/Vec.java:90-99 | A missing key gives `MissingChunk`. A chunk already at `chunk2StartElem(cidx)` is returned unchanged. An unbound chunk (`start == -1`) gets that start and this vector. Any other start is a `BindConflict`. The buffer, length, scale and bias never change. |
| `Vectors.Vec.Elem2BVTwice` | src/main/java/water/fvec/Vec.java:90-99 | A second bind returns the same result as the first. The chunk ends as one call leaves it. A chunk already at `espc[cidx]` keeps its start and vector. An unbound chunk is bound to `espc[cidx]` and this vector. A chunk bound elsewhere keeps both and gives `BindConflict`. |
| `Vectors.Vec.NextChunkHoldsNextRow` | src/main/java/water/fvec/Vec.java:102-105 | Chunk c+1 starts at the row just past chunk c. When chunk c+1 is not empty it is the only chunk holding that row. `NextBVStepsToNextChunk` uses this to show that `nextBV` of chunk c yields chunk c+1. |
| `Vectors.Vec.NextBV` | src/main/java/water/fvec/Vec.java:102-105 | The result is `NoNextChunk` iff `bv` ends the vector, and then nothing changes. Otherwise `c` is the chunk holding row `start + len`, and a missing key gives `MissingChunk`. A present chunk keeps its buffer, length, scale and bias. If it is already at `espc[c]` it is returned with its vector kept. If it is unbound it is bound to `espc[c]` and this vector and returned. If it is bound elsewhere the result is `BindConflict` and it is left alone. Objects other than that chunk are unchanged, and a store that matched the layout still does, so a scan can chain calls. |
| `Vectors.Vec.NextBVStepsToNextChunk` | src/main/java/water/fvec/Vec.java:102-105 | For chunk `c0` bound at its start, `nextBV` finds chunk `c0 + 1` when that chunk holds rows. It returns that chunk bound at `espc[c0+1]` when it was unbound or already there, and returns `NoNextChunk` exactly when `c0` is the last chunk. |
| `Vectors.Vec.SearchStep` | src/main/java/water/fvec/Vec.java:54-57 | One step of the search narrows to the lower half when the row lies below the midpoint `(hi + lo) >>> 1`, and to the upper half otherwise. |
| `Vectors.Vec.AsWrittenNullGuardDead` | src/main/java/water/fvec/Vec.java:104 | For a vector with at least one chunk, the search never ends at `nChunks()`, for any row. The row just past the last chunk lies in no chunk, so the range check rejects it, and without that check the search returns the last chunk again. So `cidx == nChunks()` never holds. |
| `Vectors.Vec.SearchPastEnd` | src/main/java/water/fvec/Vec.java:52-59 | In a non-decreasing table, the search for the row just past the vector always moves `lo` up and ends at the last chunk. |
| `Vectors.Vec.Get` | src/main/java/water/fvec/Vec.java:108 | `c` is the chunk holding row `i`. A missing key gives `MissingChunk`. A present chunk keeps its buffer, bias, scale and length, and the read succeeds iff the chunk was unbound or already at `espc[c]`. A failed read of a present chunk is `BindConflict`, with the chunk left alone. A successful one binds an unbound chunk to this vector and keeps the vector of one already bound. The value is then the chunk's pre-scale value at local row `i - espc[c]`, which lies inside that chunk. Objects other than that chunk are unchanged, and the store still matches the layout, so reads compose. |
| `Vectors.GetOfFreshChunk` | src/main/java/water/fvec/Vec.java:108 | Reading row 1 of a three-row vector, whose one fresh chunk has bias 10 and stores `0xFF` for that row, gives 265. |
| `Chunks.HeaderRoundTrip` | src/main/java/water/fvec/C1SChunk.java:12-24 | Whatever payload follows the 12-byte header, reading it back as the `read` method does gives the scale and bias the constructor wrote. |
| `Chunks.C1SChunk.constructor` | src/main/java/water/fvec/C1SChunk.java:10-14 | The chunk takes the buffer as its own, unbound (`start == -1`), with the given bias and scale. It writes scale into bytes 0..7 and bias into 8..11, leaves the payload from `OFF` on untouched, and counts the payload rows. |
| `Chunks.C1SChunk.Code` | src/main/java/water/fvec/C1SChunk.java:15 | The row's code `0xFF & mem[i+OFF]` is in 0..255, whatever the sign of the stored byte. It is the unique such code whose byte cast is the stored byte. |
| `Chunks.C1SChunk.Unscaled` | src/main/java/water/fvec/C1SChunk.java:15-16 | The value `get`/`getd` multiply by the scale is a Java int. When the bias leaves room it is exactly code + bias, in `[bias, bias + 255]`. |
| `Chunks.C1SChunk.Append2` | src/main/java/water/fvec/C1SChunk.java:17 | Appending to a compressed chunk always fails with `ReadOnlyChunk` and changes nothing. |
| `Chunks.C1SChunk.Write` | src/main/java/water/fvec/C1SChunk.java:18 | Serializing appends the whole buffer, header included, to the output. |
| `Chunks.C1SChunk.Read` | src/main/java/water/fvec/C1SChunk.java:19-26 | Deserializing makes the bytes the new buffer and leaves the chunk unbound. Scale and bias are decoded from the header and the row count from the length. |
| `Chunks.WireRoundTrip` | src/main/java/water/fvec/C1SChunk.java:18-26 | Writing a chunk and reading the bytes into a blank one rebuilds the same buffer, scale, bias and row count, with `start == -1`. |
| `Chunks.AsWrittenLenOverruns` | src/main/java/water/fvec/C1SChunk.java:10 | A chunk whose row count is `_mem.length` has a last admitted row whose byte lies past the buffer, so it never meets the layout invariant that `Code` and `Unscaled` require. A 15-byte chunk claims 15 rows, and row 3 already lies past the buffer. |
| `Chunks.RowCountExact` | src/main/java/water/fvec/C1SChunk.java:15 | In a chunk whose row count excludes the header, row `i` is admitted (`i < len`) iff its byte `i + OFF` lies in the buffer. |
| `JavaInts.Put` | src/main/java/water/fvec/C1SChunk.java:12-13 | Storing a byte string at an offset replaces exactly those bytes of the array. |
| `WordCount.IsChar` | src/test/java/water/fvec/FVecTest.java:164-168 | The result is non-negative iff the input is an ASCII letter. A letter maps to its lower-case form in `'a'..'z'` (itself, or the upper-case letter plus 32). Anything else maps to -1. |
| `WordCount.IsCharFolds` | src/test/java/water/fvec/FVecTest.java:164-168 | An upper-case letter and its lower-case partner fold to the same letter, and folding is idempotent. |
| `WordCount.VStr.constructor` | src/test/java/water/fvec/FVecTest.java:237 | A new word is empty, at the given offset of the given array, with count 1. |
| `WordCount.VStr.Append` | src/test/java/water/fvec/FVecTest.java:239-249 | The word becomes the old word plus `(byte)c`, one longer, with the count unchanged. With room, the same array holds it, only byte `off+len` changes, and the offset stays. When full, a fresh array of `min(32767, 2*length)` bytes holds it at offset 0, raised to at least 1024 for a short word not at 0. The old array is untouched. |
| `WordCount.VStr.Grow` | src/test/java/water/fvec/FVecTest.java:240-247 | The full-array branch moves the word, unchanged, to offset 0 of a fresh array of `GrowLength` bytes (`min(32767, length << 1)`, raised to 1024 for a short word not at 0), keeping its length and count. |
| `JavaInts.ArrayCopy` | src/test/java/water/fvec/FVecTest.java:244 | Copying `n` bytes between distinct arrays replaces exactly the target range. |
| `WordCount.VStr.Equals` | src/test/java/water/fvec/FVecTest.java:271-278 | The result is true iff the argument is a VStr with the same word (length and bytes). The counts are ignored. |
| `WordCount.VStr.HashCode` | src/test/java/water/fvec/FVecTest.java:279-284 | The hash is the wrapped 31-polynomial `Hash` of the word. |
| `WordCount.HashIsWrappedPoly` | src/test/java/water/fvec/FVecTest.java:279-284 | Wrapping `31*h + b` at every step equals wrapping the unbounded polynomial once. |
| `WordCount.EqualsAgreesWithHashCode` | src/test/java/water/fvec/FVecTest.java:271-284 | Equal VStrs have equal hash codes, and `equals` holds exactly on equal words. |
| `WordCount.VStr.CompareTo` | src/test/java/water/fvec/FVecTest.java:261-270 | The result is `WordOrder`: the count difference (larger counts first), else the first differing signed byte, else shorter first. |
| `WordCount.ByteOrderAntisymmetric` | src/test/java/water/fvec/FVecTest.java:265-269 | Swapping the two words negates the alphabetical comparison. |
| `WordCount.ByteOrderZeroIffEqual` | src/test/java/water/fvec/FVecTest.java:265-269 | The alphabetical comparison is zero iff the words are equal. |
| `WordCount.ByteOrderTransitive` | src/test/java/water/fvec/FVecTest.java:265-269 | The alphabetical comparison is transitive. |
| `WordCount.WordOrderIsTotalOrder` | src/test/java/water/fvec/FVecTest.java:261-270 | For counts in `[0, 2^31)` the count difference cannot overflow. `compareTo` is antisymmetric and transitive, and zero iff counts and words both agree, so `x.compareTo(x) == 0`. |
| `Histogram.ByteHisto.Map` | src/test/java/water/fvec/FVecTest.java:37-41 | A fresh 256-bucket array where bucket v counts the rows with byte value v. |
| `Histogram.CountsTotal` | src/test/java/water/fvec/FVecTest.java:25-29 | The buckets of a chunk's histogram add up to its row count. |
| `Histogram.ByteHisto.Reduce` | src/test/java/water/fvec/FVecTest.java:43-46 | Each bucket becomes its old value plus `bh`'s, as a Java int. `bh` is unchanged unless it shares the array. |
| `Histogram.MergedTotal` | src/test/java/water/fvec/FVecTest.java:43-46 | Where no bucket overflows, the merged histogram's total is the sum of the two totals. |
| `Histogram.MergedCommutes` | src/test/java/water/fvec/FVecTest.java:43-46 | Merging is symmetric. |
| `Histogram.TotalBump` | src/test/java/water/fvec/FVecTest.java:40 | Adding one to one bucket adds one to the total. |

## Findings

| source | as written | input that shows it | evidently intended | confidence | as-written member | corrected member |
|---|---|---|---|---|---|---|
| src/main/java/water/fvec/C1SChunk.java:10 | `_len = _mem.length` (also line 22 in `read`) counts the 12 header bytes as rows | a 15-byte buffer (header plus 3 rows) gives `_len == 15`. Row 3 is admitted, and `get(3)` reads `_mem[15]`, past the buffer | `_len = _mem.length - OFF`, one row per payload byte | medium, not executed | `Chunks.AsWrittenLenOverruns` | `Chunks.RowCountExact` |
| src/main/java/water/fvec/Vec.java:104 | `cidx == nChunks() ? null : ...` tests a value the search never returns for a vector with at least one chunk, because the loop keeps `lo < hi <= nChunks()`. Only on an empty vector (`espc = {0}`, assertions off) is the loop skipped, so that the search returns `0 == nChunks()` | a one-chunk vector with `espc = {0, 3}`: `nextBV` of its chunk calls `elem2ChunkIdx(3)`, which fails the range assert of line 52. With assertions off the search returns 0, so the same chunk comes back instead of `null` | `null` (no next chunk) when `bv` ends the vector; subclasses that override `elem2ChunkIdx` (lines 47-50) may return `nChunks()` there | low, not executed | `Vectors.Vec.AsWrittenNullGuardDead` | `Vectors.Vec.NextBV` |

`Chunks.AsWrittenLen` is the as-written row count. `Chunks.RowCount` is the corrected one, and
the constructor, `Read`, `Valid` and the vector-level lemmas all use it. With the as-written
count, `nextBV` (which adds `_len` to `_start`) would also miss the next chunk's start by 12
rows.

## Left out

- Floating point is not modelled:
  - the `* _scale` step of `get`/`getd`;
  - `UDP.set8d`/`get8d` as doubles (the scale is kept as its 8 stored bytes);
  - `Vec._min/_max/_sum`, with the `MIN_VALUE` to NaN mapping;
  - `Vec.toString`;
  - the `Sum` task of the test file.
- `Chunks.C1SChunk.Unscaled`: it stops before the multiplication by the scale and the `(long)` cast of `get`.
- `Vectors.Vec.Get`: it returns that pre-scale value. `Chunk.at`, `atd` and `isNA` are not part of this model, so `getd` and `isNA` are left out. `Get` assumes `at(i)` decodes local row `i - start`.
- The `Chunk` base class is not part of this model. The store holds `C1SChunk` objects, the only encoding shown.
- The back-reference `vec` is an `object?`.
- The compressor `NewChunk.compress` and the other chunk encodings are not part of this model. Neither is their test `NewVectorTest`, whose checks are floating-point tolerances.
- `DKV.get` and `Key.make` are replaced by a map from keys to chunk objects. The map plays the role of the store's deserialized-object cache, which is what makes repeated binds see the same object.
- `Key.java` is not part of this model. The tag values `VEC = 4` and `DVEC = 5` are placeholders; only their difference is used.
- `AutoBuffer` is replaced by byte sequences. `Write` appends to an output sequence, and `Read` takes the bytes that `bufClose()` would hand back. `WireRoundTrip` assumes the buffer delivers exactly the bytes written.
- The `super(0xFF)` call of the `C1SChunk` constructor is not modelled. It passes the chunk's type code to the `Chunk` base class, which is not part of this model.
- Row numbers and `espc` entries are unbounded integers, not Java `long`s. Tables of more than 2^63 rows are not excluded.
- `Vectors.Vec.Length`, `NChunks`, `Chunk2StartElem` and `Elem2ChunkElem` are the plain definitions of Vec.java lines 37, 41, 65 and 86-88. They have no contract of their own; `ChunkSizesSumToLength` and `LocalRowInChunk` state their properties.
- `WordCount.VStr.GrowLength` is the plain definition of the new capacity at FVecTest.java lines 241-242. `Grow` and `Append` state the capacity they allocate in its terms.
- `Vectors.Vec.SearchFrom` is the search of Vec.java lines 53-59 written as a function. `Elem2ChunkIdx`, `SearchStep`, `SearchPastEnd` and `AsWrittenNullGuardDead` state its properties.
- UDP byte order: `set4`/`get4` are modelled little-endian. Only that the encoding is invertible is relied on.
- Concurrency:
  - the race between two binders in `elem2BV`;
  - `VStr.inc` (its compare-and-swap loop);
  - `NonBlockingHashMap`;
  - `WordCount`'s `init`, `map`, `reduce`, `read`, `write` and `copyOver`;
  - the map/reduce task scheduling.
- Java `assert`s are read as checks: `assert val != null` is `MissingChunk`, and `assert bv._start == -1` is `BindConflict`. `elem2ChunkIdx`'s range assert is a precondition. With assertions disabled the Java code would go on instead.
- `Vectors.Vec.NextBV` returns `NoNextChunk` for the last chunk, where the Java code fails an assert (see Findings).
- `Vectors.Vec.Elem2ChunkElem`: for chunks larger than 2^31 rows the `(int)` cast wraps. `LocalRowInChunk` is stated only for smaller chunks.
- `WordCount.VStr.Append`: `len < 32767` is required, because a longer word would wrap the `short` length. The caller stops at 32700.
- `WordCount.VStr.Append`: a full array must grow to more than `len` bytes. This excludes an empty backing array (`cs.length == 0`), where the grown length is 0 and the Java code throws on the store at FVecTest.java:248. The test's callers always pass a non-empty array.
- `Vectors.IsVecKey`: it asks for at least 6 key bytes, more than the tag check at Vec.java:27. `chunkKey` writes bytes 0-5, so a shorter vector key would throw there.
- `VStr.toString` (string formatting) is not modelled.
- The test bodies (`testBasicCRUD`, `testNewVec`, `testParse`, `testParse2`, `testWordCount`) are not modelled. They do file and parse I/O through `NFSFileVec`, `ParseDataset2` and `UKV`.
- `Histogram.ByteHisto.Map`: the rows are a parameter, since `Chunk.at0` is not part of this model.
- The `ByteHisto` constructor and `C1SChunk.Blank` stand for Java's default allocation.
