/** The C1S chunk: one unsigned byte per row behind a 12-byte header that
    holds the chunk's scale (8 bytes) and bias (4 bytes). A row decodes to
    `((0xFF & mem[i + OFF]) + bias) * scale`; the scale is kept as its eight
    stored bytes and never interpreted as a floating-point number. */
module Chunks {
  import opened JavaInts
  import opened Results

  /** Header size: 8 bytes of scale, then 4 bytes of bias. */
  const OFF: int := 8 + 4
  const SCALE_AT: int := 0
  const BIAS_AT: int := 8

  /** The eight bytes `UDP.set8d` stores for the scale. */
  type ScaleBits = s: seq<byte> | |s| == 8 witness [0, 0, 0, 0, 0, 0, 0, 0]

  /** The header the constructor lays down in front of the payload. */
  function Header(scale: ScaleBits, bias: int): (h: seq<byte>)
    requires IsInt(bias)
    ensures |h| == OFF
  {
    scale + Int4(bias)
  }

  /** The scale a buffer's header holds (`UDP.get8d(mem, 0)`, as bytes). */
  function HeaderScale(m: seq<byte>): ScaleBits
    requires OFF <= |m|
  {
    m[SCALE_AT..SCALE_AT + 8]
  }

  /** The bias a buffer's header holds (`UDP.get4(mem, 8)`). */
  function HeaderBias(m: seq<byte>): int
    requires OFF <= |m|
  {
    Get4(m, BIAS_AT)
  }

  /** Reading the header back from any buffer that starts with it gives the
      scale and bias that were written, whatever payload follows. */
  lemma {:induction false} HeaderRoundTrip(scale: ScaleBits, bias: int, payload: seq<byte>)
    requires IsInt(bias)
    ensures HeaderScale(Header(scale, bias) + payload) == scale
    ensures HeaderBias(Header(scale, bias) + payload) == bias
  {
    var m := Header(scale, bias) + payload;
    Get4Window(m, BIAS_AT);
    assert m[BIAS_AT..BIAS_AT + 4] == Int4(bias);
    Int4RoundTrip(bias);
  }

  /** Rows in a buffer of `n` bytes, as the constructor and `read` count them:
      the whole buffer, header included. */
  function AsWrittenLen(n: nat): int
  {
    n
  }


  /** Rows in a buffer of `n` bytes once the header is not counted. */
  function RowCount(n: nat): int
    requires OFF <= n
  {
    n - OFF
  }

  class C1SChunk {
    var mem: array<byte>      // header + payload, owned by the chunk
    var start: int            // first global row; -1 while unbound
    var len: int              // rows held
    var vec: object?          // back-reference to the owning vector
    var scale: ScaleBits
    var bias: int

    /** The header in `mem` agrees with the decoded fields, and `len` counts
        the payload rows. */
    ghost predicate Valid()
      reads this`mem, this`len, this`bias, this`scale, mem
    {
      && OFF <= mem.Length
      && len == RowCount(mem.Length)
      && IsInt(bias)
      && HeaderScale(mem[..]) == scale
      && HeaderBias(mem[..]) == bias
    }

    /** The chunk that compression hands back: `bs` holds the payload from
        `OFF` on; the header is written in place. */
    constructor (bs: array<byte>, bias: int, scale: ScaleBits)
      requires OFF <= bs.Length && IsInt(bias)
      modifies bs
      ensures Valid()
      ensures mem == bs && start == -1 && vec == null
      ensures this.bias == bias && this.scale == scale
      ensures mem[..] == Header(scale, bias) + old(bs[OFF..])
    {
      mem := bs;
      start := -1;
      len := RowCount(bs.Length);
      this.bias := bias;
      this.scale := scale;
      vec := null;
      new;
      Put(bs, SCALE_AT, scale);
      Put(bs, BIAS_AT, Int4(bias));
      assert bs[..] == Header(scale, bias) + old(bs[OFF..]);
      HeaderRoundTrip(scale, bias, old(bs[OFF..]));
    }

    /** A blank instance, as deserialization allocates before `Read`. */
    constructor Blank()
      ensures start == 0 && len == 0 && vec == null && mem.Length == 0
    {
      mem := new byte[0];
      start, len, vec := 0, 0, null;
      scale, bias := [0, 0, 0, 0, 0, 0, 0, 0], 0;
    }

    /** The stored code of row `i`, read unsigned: always 0..255, and the
        unique such code whose signed-byte store is the payload byte. */
    function Code(i: int): (c: int)
      reads this, mem
      requires Valid() && 0 <= i < len
      ensures 0 <= c <= 255
      ensures ToByte(c) == mem[i + OFF]
      ensures forall d :: 0 <= d <= 255 && ToByte(d) == mem[i + OFF] ==> d == c
    {
      Unsigned(mem[i + OFF])
    }

    /** The integer that `get`/`getd` multiply by the scale: the code plus the
        bias, summed as a Java int. */
    function Unscaled(i: int): (v: int)
      reads this, mem
      requires Valid() && 0 <= i < len
      ensures IsInt(v)
      ensures bias <= MAX_INT - 255 ==> v == Code(i) + bias && bias <= v <= bias + 255
    {
      Wrap(Unsigned(mem[i + OFF]) + bias)
    }

    /** A compressed chunk is read-only: appending always fails. */
    method Append2(l: int, exp: int) returns (r: Result<()>)
      ensures r == Err(ReadOnlyChunk)
    {
      r := Err(ReadOnlyChunk);
    }

    /** Serialization: the whole buffer, header included, is appended to the
        output. */
    method Write(out: seq<byte>) returns (r: seq<byte>)
      ensures r == out + mem[..]
    {
      r := out + mem[..];
    }

    /** Deserialization: take the bytes as the new buffer, decode the header
        and leave the chunk unbound. */
    method Read(bytes: seq<byte>)
      requires OFF <= |bytes|
      modifies this
      ensures Valid() && fresh(mem)
      ensures mem[..] == bytes && start == -1 && len == RowCount(|bytes|)
      ensures scale == HeaderScale(bytes) && bias == HeaderBias(bytes)
      ensures vec == old(vec)
    {
      var m := new byte[|bytes|](i requires 0 <= i < |bytes| => bytes[i]);
      mem := m;
      start := -1;
      len := RowCount(m.Length);
      scale := HeaderScale(m[..]);
      bias := HeaderBias(m[..]);
    }
  }

  /** In a chunk that keeps the layout, whose row count excludes the header,
      a row index is admitted exactly when its byte lies inside the buffer. */
  lemma RowCountExact(c: C1SChunk, i: int)
    requires c.Valid() && 0 <= i
    ensures i < c.len <==> i + OFF < c.mem.Length
  {
  }

  /** A chunk whose row count is the as-written one breaks the layout: its
      last admitted row has no byte in the buffer, so no such chunk meets
      `Valid` (which `Code` and `Unscaled` require). A 15-byte chunk (header
      plus 3 rows) claims 15 rows, and row 3 already reads `mem[15]`. */
  lemma AsWrittenLenOverruns(c: C1SChunk)
    requires OFF <= c.mem.Length && c.len == AsWrittenLen(c.mem.Length)
    ensures 0 <= c.len - 1 && !(c.len - 1 + OFF < c.mem.Length)
    ensures !c.Valid()
    ensures c.mem.Length == 15 ==> c.len == 15 && 3 < c.len && !(3 + OFF < c.mem.Length)
  {
  }

  /** Writing a chunk and reading the bytes into a blank instance rebuilds
      the same buffer, header fields and row count, unbound. */
  method WireRoundTrip(src: C1SChunk) returns (dst: C1SChunk)
    requires src.Valid()
    ensures fresh(dst) && dst.Valid()
    ensures dst.mem[..] == src.mem[..] && dst.len == src.len
    ensures dst.scale == src.scale && dst.bias == src.bias
    ensures dst.start == -1
  {
    var wire := src.Write([]);
    dst := new C1SChunk.Blank();
    dst.Read(wire);
  }
}
