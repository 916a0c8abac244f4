/** A distributed vector column: its key, the element-start-per-chunk table
    `espc` that partitions the rows into chunks, the derivation of each
    chunk's storage key, and the one-time binding of a fetched chunk to its
    start row and vector. The distributed store is a map from keys to the
    chunk objects it holds. */
module Vectors {
  import opened JavaInts
  import opened Results
  import opened Chunks

  /** Key kind tags (byte 0 of a key). Key.java is not part of this model;
      only that the two tags differ is relied on. */
  const VEC: byte := 4
  const DVEC: byte := 5

  /** A store key: its raw bytes. */
  datatype Key = Key(kb: seq<byte>)

  /** A vector key long enough to hold the kind, home and chunk-number fields. */
  predicate IsVecKey(k: Key)
  {
    |k.kb| >= 6 && k.kb[0] == VEC
  }

  /** The layout a vector key has: home byte 0 and chunk-number field 0. */
  predicate IsCanonicalVecKey(k: Key)
  {
    IsVecKey(k) && k.kb[1] == 0 && k.kb[2..6] == Int4(0)
  }

  /** The key of chunk `cidx`: the vector key with byte 0 set to the chunk
      tag, byte 1 to -1 (not homed) and bytes 2..5 to the chunk number. */
  function ChunkKeyOf(k: Key, cidx: int): (ck: Key)
    requires |k.kb| >= 6 && IsInt(cidx)
    ensures |ck.kb| == |k.kb|
    ensures ck.kb[0] == DVEC && ck.kb[1] == -1
    ensures Get4(ck.kb, 2) == cidx
    ensures forall j :: 6 <= j < |k.kb| ==> ck.kb[j] == k.kb[j]
  {
    var kb := [DVEC, -1 as byte] + Int4(cidx) + k.kb[6..];
    Get4Window(kb, 2);
    assert kb[2..6] == Int4(cidx);
    Int4RoundTrip(cidx);
    Key(kb)
  }

  /** For one vector, different chunk numbers give different keys. */
  lemma ChunkKeyInjective(k: Key, c1: int, c2: int)
    requires |k.kb| >= 6 && IsInt(c1) && IsInt(c2)
    ensures ChunkKeyOf(k, c1) == ChunkKeyOf(k, c2) <==> c1 == c2
  {
    if ChunkKeyOf(k, c1) == ChunkKeyOf(k, c2) {
      assert Get4(ChunkKeyOf(k, c1).kb, 2) == c1;
    }
  }

  /** A chunk key is never a vector key. */
  lemma ChunkKeyIsNotVecKey(k: Key, cidx: int)
    requires IsVecKey(k) && IsInt(cidx)
    ensures ChunkKeyOf(k, cidx) != k
    ensures !IsVecKey(ChunkKeyOf(k, cidx))
  {
  }

  /** A chunk key determines both the vector (for keys in the vector-key
      layout) and the chunk number: chunks of different vectors never share
      a key. */
  lemma ChunkKeyDeterminesVecAndIndex(k1: Key, k2: Key, c1: int, c2: int)
    requires IsCanonicalVecKey(k1) && IsCanonicalVecKey(k2)
    requires IsInt(c1) && IsInt(c2)
    ensures ChunkKeyOf(k1, c1) == ChunkKeyOf(k2, c2) <==> k1 == k2 && c1 == c2
  {
    if ChunkKeyOf(k1, c1) == ChunkKeyOf(k2, c2) {
      var a, b := k1.kb, k2.kb;
      assert |a| == |b|;
      assert a[..6] == [VEC, 0] + Int4(0) == b[..6];
      forall j | 6 <= j < |a| ensures a[j] == b[j] {
        assert ChunkKeyOf(k1, c1).kb[j] == ChunkKeyOf(k2, c2).kb[j];
      }
      assert a == a[..6] + a[6..] && b == b[..6] + b[6..];
      assert a == b;
      ChunkKeyInjective(k1, c1, c2);
    }
  }

  /** The espc table lists, per chunk, its first row and ends with the total
      row count; consecutive entries never decrease. */
  ghost predicate Partitions(espc: seq<int>)
  {
    forall c :: 0 <= c < |espc| - 1 ==> espc[c] <= espc[c + 1]
  }

  /** Adjacent order gives order between any two entries. */
  lemma {:induction false} PartitionsOrdered(espc: seq<int>, a: int, b: int)
    requires Partitions(espc) && 0 <= a <= b < |espc|
    ensures espc[a] <= espc[b]
  {
    if a < b {
      PartitionsOrdered(espc, a, b - 1);
    }
  }

  /** Total of the chunk sizes `espc[c+1] - espc[c]` for `c < n`. */
  function SizeSum(espc: seq<int>, n: nat): int
    requires n < |espc|
  {
    if n == 0 then 0 else SizeSum(espc, n - 1) + (espc[n] - espc[n - 1])
  }

  /** The chunk sizes add up to the last entry less the first. */
  lemma {:induction false} SizeSumTelescopes(espc: seq<int>, n: nat)
    requires n < |espc|
    ensures SizeSum(espc, n) == espc[n] - espc[0]
  {
    if n > 0 {
      SizeSumTelescopes(espc, n - 1);
    }
  }

  class Vec {
    const key: Key
    const espc: seq<int>

    /** What the row-to-chunk search needs: a vector key, a table of
        `nChunks() + 1` entries (a Java array) starting at row 0. */
    predicate WellFormed()
    {
      IsVecKey(key) && 1 <= |espc| <= MAX_INT && espc[0] == 0
    }

    /** A finished layout: well formed and non-decreasing. */
    ghost predicate Valid()
    {
      WellFormed() && Partitions(espc)
    }

    constructor (key: Key, espc: seq<int>)
      requires IsVecKey(key)
      ensures this.key == key && this.espc == espc
    {
      this.key := key;
      this.espc := espc;
    }

    /** Number of rows: the last table entry. */
    function Length(): int
      requires WellFormed()
    {
      espc[|espc| - 1]
    }

    /** Number of chunks: one less than the table entries. */
    function NChunks(): int
      requires WellFormed()
    {
      |espc| - 1
    }

    /** The rows of all chunks together are exactly the vector's rows. */
    lemma ChunkSizesSumToLength()
      requires WellFormed()
      ensures SizeSum(espc, NChunks()) == Length()
      ensures Partitions(espc) ==> forall c :: 0 <= c <= NChunks() ==> 0 <= espc[c] <= Length()
    {
      SizeSumTelescopes(espc, NChunks());
      if Partitions(espc) {
        forall c | 0 <= c <= NChunks() ensures 0 <= espc[c] <= Length() {
          PartitionsOrdered(espc, 0, c);
          PartitionsOrdered(espc, c, NChunks());
        }
      }
    }

    /** Row `i` lies in chunk `c`. */
    predicate InChunk(i: int, c: int)
      requires WellFormed()
    {
      0 <= c < NChunks() && espc[c] <= i < espc[c + 1]
    }

    /** Where the binary search between `lo` and `hi` ends, whatever `i` is
        (the range check before it aside): always below `hi`. */
    function SearchFrom(i: int, lo: int, hi: int): (c: int)
      requires WellFormed() && 0 <= lo < hi <= NChunks()
      ensures lo <= c < hi
      decreases hi - lo
    {
      if lo < hi - 1 then
        MidpointNoOverflow(lo, hi);
        var mid := UShr1(Wrap(hi + lo));
        if i < espc[mid] then SearchFrom(i, lo, mid) else SearchFrom(i, mid, hi)
      else lo
    }

    /** Row number to chunk number, by binary search over `espc`. */
    method Elem2ChunkIdx(i: int) returns (c: int)
      requires WellFormed() && 0 <= i < Length()
      ensures InChunk(i, c)
      ensures c == SearchFrom(i, 0, NChunks())
    {
      var lo, hi := 0, NChunks();
      while lo < hi - 1
        invariant 0 <= lo < hi <= NChunks()
        invariant espc[lo] <= i < espc[hi]
        invariant SearchFrom(i, lo, hi) == SearchFrom(i, 0, NChunks())
        decreases hi - lo
      {
        MidpointNoOverflow(lo, hi);
        var mid := UShr1(Wrap(hi + lo));
        if i < espc[mid] {
          hi := mid;
        } else {
          lo := mid;
        }
      }
      c := lo;
    }

    /** In a finished layout every row lies in exactly one chunk. */
    lemma InChunkUnique(i: int, c1: int, c2: int)
      requires Valid() && InChunk(i, c1) && InChunk(i, c2)
      ensures c1 == c2
    {
      if c1 < c2 {
        PartitionsOrdered(espc, c1 + 1, c2);
      } else if c2 < c1 {
        PartitionsOrdered(espc, c2 + 1, c1);
      }
    }

    /** First row of chunk `cidx`. */
    function Chunk2StartElem(cidx: int): int
      requires WellFormed() && 0 <= cidx < |espc|
    {
      espc[cidx]
    }

    /** Global row to row within chunk `cidx`, narrowed to a Java int. */
    function Elem2ChunkElem(i: int, cidx: int): int
      requires WellFormed() && 0 <= cidx < |espc|
    {
      Wrap(i - Chunk2StartElem(cidx))
    }

    /** The local row of a row in its chunk is its distance from the chunk's
        first row, and lies within the chunk, for chunks of at most 2^31 rows. */
    lemma LocalRowInChunk(i: int, c: int)
      requires WellFormed() && InChunk(i, c)
      requires espc[c + 1] - espc[c] <= MAX_INT + 1
      ensures Elem2ChunkElem(i, c) == i - espc[c]
      ensures 0 <= Elem2ChunkElem(i, c) < espc[c + 1] - espc[c]
    {
    }

    /** Chunk number to chunk key: copy the vector key's bytes, then overwrite
        the kind, home and chunk-number fields in the copy. */
    method ChunkKey(cidx: int) returns (k: Key)
      requires WellFormed() && IsInt(cidx)
      ensures k == ChunkKeyOf(key, cidx)
    {
      var bits := new byte[|key.kb|](j requires 0 <= j < |key.kb| => key.kb[j]);
      bits[0] := DVEC;
      bits[1] := -1;
      Put(bits, 2, Int4(cidx));
      k := Key(bits[..]);
      assert k.kb == ChunkKeyOf(key, cidx).kb;
    }

    /** The stored chunk object for chunk `cidx`, or MissingChunk. */
    method ChunkIdx(store: map<Key, C1SChunk>, cidx: int) returns (r: Result<C1SChunk>)
      requires WellFormed() && IsInt(cidx)
      ensures r.Ok? <==> ChunkKeyOf(key, cidx) in store
      ensures r.Ok? ==> r.value == store[ChunkKeyOf(key, cidx)]
      ensures r.Err? ==> r.error == MissingChunk
    {
      var k := ChunkKey(cidx);
      if k in store {
        r := Ok(store[k]);
      } else {
        r := Err(MissingChunk);
      }
    }

    /** The objects a fetch of chunk `cidx` may touch. */
    function Fetched(store: map<Key, C1SChunk>, cidx: int): set<C1SChunk>
      requires WellFormed() && IsInt(cidx)
    {
      var k := ChunkKeyOf(key, cidx);
      if k in store then {store[k]} else {}
    }

    /** Fetch chunk `cidx` and, if it is still unbound, bind it to its start
        row and to this vector. A chunk already bound to that row is returned
        untouched; one bound elsewhere is a conflict. */
    method Elem2BV(store: map<Key, C1SChunk>, cidx: int) returns (r: Result<C1SChunk>)
      requires WellFormed() && 0 <= cidx < |espc|
      modifies Fetched(store, cidx)
      ensures ChunkKeyOf(key, cidx) !in store ==> r == Err(MissingChunk)
      ensures ChunkKeyOf(key, cidx) in store ==>
        var bv := store[ChunkKeyOf(key, cidx)];
        && bv.mem == old(bv.mem) && bv.len == old(bv.len)
        && bv.scale == old(bv.scale) && bv.bias == old(bv.bias)
        && (old(bv.start) == espc[cidx] ==> r == Ok(bv) && bv.vec == old(bv.vec) && bv.start == old(bv.start))
        && (old(bv.start) != espc[cidx] && old(bv.start) == -1 ==>
              r == Ok(bv) && bv.start == espc[cidx] && bv.vec == this)
        && (old(bv.start) != espc[cidx] && old(bv.start) != -1 ==>
              r == Err(BindConflict) && bv.vec == old(bv.vec) && bv.start == old(bv.start))
    {
      var start := Chunk2StartElem(cidx);
      var fetched := ChunkIdx(store, cidx);
      if fetched.Err? {
        return fetched;
      }
      var bv := fetched.value;
      if bv.start == start {
        return Ok(bv);
      }
      if bv.start != -1 {
        return Err(BindConflict);
      }
      bv.start := start;
      bv.vec := this;
      r := Ok(bv);
    }

    /** Binding twice is binding once: the second call returns what the first
        returned, and the chunk ends as a single call leaves it. */
    method Elem2BVTwice(store: map<Key, C1SChunk>, cidx: int) returns (r1: Result<C1SChunk>, r2: Result<C1SChunk>)
      requires Valid() && 0 <= cidx < |espc|
      modifies Fetched(store, cidx)
      ensures r2 == r1
      ensures r1.Ok? ==> r1.value.start == espc[cidx]
      ensures ChunkKeyOf(key, cidx) in store ==>
        var bv := store[ChunkKeyOf(key, cidx)];
        && (old(bv.start) == espc[cidx] ==> r1 == Ok(bv) && bv.vec == old(bv.vec) && bv.start == old(bv.start))
        && (old(bv.start) != espc[cidx] && old(bv.start) == -1 ==>
              r1 == Ok(bv) && bv.start == espc[cidx] && bv.vec == this)
        && (old(bv.start) != espc[cidx] && old(bv.start) != -1 ==>
              r1 == Err(BindConflict) && bv.vec == old(bv.vec) && bv.start == old(bv.start))
    {
      r1 := Elem2BV(store, cidx);
      ghost var k := ChunkKeyOf(key, cidx);
      ghost var mid := if k in store then store[k].start else 0;
      ghost var midVec := if k in store then store[k].vec else null;
      r2 := Elem2BV(store, cidx);
      assert k in store ==> store[k].start == mid && store[k].vec == midVec;
    }

    /** Chunk `c + 1` starts where chunk `c` ends; when it is not empty it is
        the one chunk holding that row. */
    lemma NextChunkHoldsNextRow(c: int, d: int)
      requires Valid() && 0 <= c && c + 1 < NChunks()
      requires espc[c + 1] < espc[c + 2]
      ensures InChunk(espc[c + 1], c + 1)
      ensures InChunk(espc[c + 1], d) ==> d == c + 1
    {
      if InChunk(espc[c + 1], d) {
        InChunkUnique(espc[c + 1], d, c + 1);
      }
    }

    /** One step of the search: `>>> 1` of the wrapped sum is the midpoint. */
    lemma SearchStep(i: int, lo: int, hi: int)
      requires WellFormed() && 0 <= lo < hi - 1 && hi <= NChunks()
      ensures SearchFrom(i, lo, hi) ==
        if i < espc[(lo + hi) / 2] then SearchFrom(i, lo, (lo + hi) / 2) else SearchFrom(i, (lo + hi) / 2, hi)
    {
      MidpointNoOverflow(lo, hi);
    }

    /** From any range ending at the last chunk, the search for the row just
        past the vector always moves up and ends at the last chunk. */
    lemma {:induction false} SearchPastEnd(lo: int)
      requires Valid() && 0 <= lo < NChunks()
      ensures SearchFrom(Length(), lo, NChunks()) == NChunks() - 1
      decreases NChunks() - lo
    {
      var hi := NChunks();
      if lo < hi - 1 {
        var mid := (lo + hi) / 2;
        SearchStep(Length(), lo, hi);
        PartitionsOrdered(espc, mid, hi);
        SearchPastEnd(mid);
      }
    }

    /** The null guard of `nextBV` as written never fires: the search never
        ends at `nChunks()`, for any row. The row just past the last chunk,
        the only one that could call for `null`, lies in no chunk; the range
        check rejects it, and without that check the search returns the last
        chunk again. */
    lemma AsWrittenNullGuardDead(i: int, c: int)
      requires Valid()
      ensures NChunks() > 0 ==> SearchFrom(i, 0, NChunks()) != NChunks()
      ensures !InChunk(Length(), c)
      ensures NChunks() > 0 ==> SearchFrom(Length(), 0, NChunks()) == NChunks() - 1
    {
      if 0 <= c < NChunks() {
        PartitionsOrdered(espc, c + 1, NChunks());
      }
      if NChunks() > 0 {
        SearchPastEnd(0);
      }
    }

    /** The chunk after `bv`: the chunk holding the row just past its end,
        fetched and bound, or `NoNextChunk` when `bv` ends the vector. */
    method NextBV(store: map<Key, C1SChunk>, bv: C1SChunk) returns (r: Result<C1SChunk>, ghost c: int)
      requires WellFormed() && 0 <= bv.start + bv.len <= Length()
      modifies store.Values
      ensures r == Err(NoNextChunk) <==> old(bv.start + bv.len) == Length()
      ensures r == Err(NoNextChunk) ==> forall o :: o in store.Values ==> unchanged(o)
      ensures r != Err(NoNextChunk) ==>
        && InChunk(old(bv.start + bv.len), c)
        && (ChunkKeyOf(key, c) !in store ==> r == Err(MissingChunk))
        && (forall o :: o in store.Values && o !in Fetched(store, c) ==> unchanged(o))
      ensures r != Err(NoNextChunk) && ChunkKeyOf(key, c) in store ==>
        var nb := store[ChunkKeyOf(key, c)];
        && nb.mem == old(nb.mem) && nb.len == old(nb.len)
        && nb.scale == old(nb.scale) && nb.bias == old(nb.bias)
        && (old(nb.start) == espc[c] ==> r == Ok(nb) && nb.vec == old(nb.vec) && nb.start == old(nb.start))
        && (old(nb.start) != espc[c] && old(nb.start) == -1 ==>
              r == Ok(nb) && nb.start == espc[c] && nb.vec == this)
        && (old(nb.start) != espc[c] && old(nb.start) != -1 ==>
              r == Err(BindConflict) && nb.vec == old(nb.vec) && nb.start == old(nb.start))
      ensures old(StoreMatches(store)) ==> StoreMatches(store)
    {
      var i := bv.start + bv.len;
      if i == Length() {
        return Err(NoNextChunk), 0;
      }
      var cidx := Elem2ChunkIdx(i);
      c := cidx;
      r := Elem2BV(store, cidx);
    }

    /** For chunk `c0` bound at its start, `nextBV` steps to chunk `c0 + 1`
        (when that chunk holds rows), binding it if it was unbound, and
        answers `NoNextChunk` after the last chunk. */
    method NextBVStepsToNextChunk(store: map<Key, C1SChunk>, bv: C1SChunk, c0: int) returns (r: Result<C1SChunk>, ghost c: int)
      requires Valid() && 0 <= c0 < NChunks()
      requires bv.start == espc[c0] && bv.len == espc[c0 + 1] - espc[c0]
      requires c0 + 1 < NChunks() ==> espc[c0 + 1] < espc[c0 + 2]
      modifies store.Values
      ensures r == Err(NoNextChunk) <==> c0 + 1 == NChunks()
      ensures c0 + 1 < NChunks() ==> c == c0 + 1
      ensures c0 + 1 < NChunks() && ChunkKeyOf(key, c0 + 1) in store ==>
        var nb := store[ChunkKeyOf(key, c0 + 1)];
        (old(nb.start) == -1 || old(nb.start) == espc[c0 + 1]) ==> r == Ok(nb) && nb.start == espc[c0 + 1]
    {
      var i := bv.start + bv.len;
      assert i == espc[c0 + 1];
      assert 0 <= i <= Length() by {
        PartitionsOrdered(espc, 0, c0 + 1);
        PartitionsOrdered(espc, c0 + 1, NChunks());
      }
      if c0 + 1 < NChunks() {
        PartitionsOrdered(espc, c0 + 2, NChunks());
        assert i < Length();
      }
      r, c := NextBV(store, bv);
      if c0 + 1 < NChunks() {
        NextChunkHoldsNextRow(c0, c);
      }
    }

    /** The chunks the store holds for this vector are well formed and hold
        as many rows as the layout gives them. */
    ghost predicate StoreMatches(store: map<Key, C1SChunk>)
      reads store.Values`mem, store.Values`len, store.Values`bias, store.Values`scale
      reads set o | o in store.Values :: o.mem
      requires WellFormed()
    {
      forall c :: 0 <= c < NChunks() && ChunkKeyOf(key, c) in store ==>
        var bv := store[ChunkKeyOf(key, c)];
        bv.Valid() && bv.len == espc[c + 1] - espc[c]
    }

    /** Element `i` the slow way: find its chunk, fetch and bind it, and decode
        the local row (before scaling). */
    method Get(store: map<Key, C1SChunk>, i: int) returns (r: Result<int>, ghost c: int)
      requires WellFormed() && 0 <= i < Length() && StoreMatches(store)
      modifies store.Values
      ensures InChunk(i, c)
      ensures ChunkKeyOf(key, c) !in store ==> r == Err(MissingChunk)
      ensures ChunkKeyOf(key, c) in store ==>
        var bv := store[ChunkKeyOf(key, c)];
        && bv.mem == old(bv.mem) && bv.bias == old(bv.bias) && bv.len == old(bv.len) && bv.scale == old(bv.scale)
        && (r.Ok? <==> old(bv.start) == espc[c] || old(bv.start) == -1)
        && (r.Err? ==> r == Err(BindConflict) && bv.vec == old(bv.vec) && bv.start == old(bv.start))
        && (old(bv.start) == espc[c] ==> bv.vec == old(bv.vec))
        && (old(bv.start) != espc[c] && old(bv.start) == -1 ==> bv.vec == this)
      ensures r.Ok? ==>
        var bv := store[ChunkKeyOf(key, c)];
        bv.Valid() && bv.start == espc[c] && 0 <= i - espc[c] < bv.len && r.value == bv.Unscaled(i - espc[c])
      ensures forall o :: o in store.Values && o !in Fetched(store, c) ==> unchanged(o)
      ensures StoreMatches(store)
    {
      var cidx := Elem2ChunkIdx(i);
      c := cidx;
      ghost var k := ChunkKeyOf(key, cidx);
      assert k in store ==> store[k].Valid() && store[k].len == espc[cidx + 1] - espc[cidx];
      var b := Elem2BV(store, cidx);
      if b.Err? {
        return Err(b.error), c;
      }
      var bv := b.value;
      assert bv == store[k] && bv.mem[..] == old(bv.mem[..]);
      assert bv.Valid() && bv.len == espc[c + 1] - espc[c];
      r := Ok(bv.Unscaled(i - bv.start));
    }
  }

  /** A one-chunk vector of three rows over a fresh 15-byte C1S chunk with
      bias 10 whose row 1 stores 0xFF. */
  method OneChunkVector() returns (v: Vec, store: map<Key, C1SChunk>, ch: C1SChunk)
    ensures v.WellFormed() && v.espc == [0, 3] && store == map[ChunkKeyOf(v.key, 0) := ch]
    ensures v.StoreMatches(store) && fresh(ch)
    ensures ch.start == -1 && ch.bias == 10 && ch.mem.Length == 15 && ch.mem[OFF + 1] == -1
  {
    var key := Key([VEC, 0, 0, 0, 0, 0]);
    v := new Vec(key, [0, 3]);
    var bs := new byte[15](_ => 0);
    bs[OFF + 1] := -1;
    ch := new C1SChunk(bs, 10, [0, 0, 0, 0, 0, 0, 0, 0]);
    assert bs[OFF + 1] == -1;
    store := map[ChunkKeyOf(key, 0) := ch];
    assert v.StoreMatches(store) by {
      forall c | 0 <= c < v.NChunks() && ChunkKeyOf(key, c) in store
        ensures store[ChunkKeyOf(key, c)].Valid() && store[ChunkKeyOf(key, c)].len == v.espc[c + 1] - v.espc[c]
      {
        assert c == 0;
      }
    }
  }

  /** Reading row 1 of that vector binds the chunk and gives 255 + 10. */
  method GetOfFreshChunk() returns (r: Result<int>)
    ensures r == Ok(265)
  {
    var v, store, ch := OneChunkVector();
    ghost var c;
    r, c := v.Get(store, 1);
    assert c == 0;
  }
}
