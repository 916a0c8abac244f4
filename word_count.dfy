/** The word-count helpers: `isChar`, which keeps ASCII letters (lower-cased)
    and rejects everything else, and `VStr`, a word held as a slice
    `cs[off..off+len]` of a byte array that several words may share, with a
    count, a growing `append`, content equality, a 31-polynomial hash and a
    frequency-then-alphabetical order. */
module WordCount {
  import opened JavaInts

  const UPPER_A: int := 'A' as int
  const UPPER_Z: int := 'Z' as int
  const LOWER_A: int := 'a' as int
  const LOWER_Z: int := 'z' as int

  predicate IsAsciiLetter(b: int)
  {
    UPPER_A <= b <= UPPER_Z || LOWER_A <= b <= LOWER_Z
  }

  /** Lower-case a letter; -1 for anything that is not a letter. */
  function IsChar(b: int): (r: int)
    ensures r >= 0 <==> IsAsciiLetter(b)
    ensures r >= 0 ==> LOWER_A <= r <= LOWER_Z && (r == b || r == b + (LOWER_A - UPPER_A))
    ensures r < 0 ==> r == -1
  {
    if UPPER_A <= b && b <= UPPER_Z then b - UPPER_A + LOWER_A
    else if LOWER_A <= b && b <= LOWER_Z then b
    else -1
  }

  /** An upper-case letter and its lower-case partner fold to the same
      letter, and folding a folded letter changes nothing. */
  lemma IsCharFolds(b: int)
    ensures UPPER_A <= b <= UPPER_Z ==> IsChar(b) == IsChar(b + (LOWER_A - UPPER_A)) == b + (LOWER_A - UPPER_A)
    ensures IsChar(b) >= 0 ==> IsChar(IsChar(b)) == IsChar(b)
  {
  }

  /** Java's polynomial hash of a byte string: `h = 31 * h + b`, each step
      wrapped to a Java int. */
  function Hash(s: seq<byte>): (h: int)
    ensures IsInt(h)
  {
    if s == [] then 0 else Wrap(31 * Hash(s[..|s| - 1]) + s[|s| - 1] as int)
  }

  /** The same polynomial over unbounded integers: sum of `s[j] * 31^(n-1-j)`. */
  function Poly(s: seq<byte>): int
  {
    if s == [] then 0 else 31 * Poly(s[..|s| - 1]) + s[|s| - 1] as int
  }

  /** Wrapping at every step is wrapping once at the end. */
  lemma {:induction false} HashIsWrappedPoly(s: seq<byte>)
    ensures Hash(s) == Wrap(Poly(s))
  {
    if s != [] {
      var p := s[..|s| - 1];
      var b := s[|s| - 1] as int;
      HashIsWrappedPoly(p);
      var w := Wrap(Poly(p));
      var k := (w - Poly(p)) / TWO32;
      assert w - Poly(p) == k * TWO32;
      assert (31 * w + b) - (31 * Poly(p) + b) == (31 * k) * TWO32;
      WrapCongruent(31 * w + b, 31 * Poly(p) + b, 31 * k);
    }
  }

  /** Lexicographic comparison of byte strings: the difference of the first
      differing (signed) bytes, else the difference of the lengths. */
  function ByteOrder(a: seq<byte>, b: seq<byte>): int
  {
    if a == [] || b == [] then |a| - |b|
    else if a[0] != b[0] then a[0] as int - b[0] as int
    else ByteOrder(a[1..], b[1..])
  }

  /** Swapping the arguments negates the comparison. */
  lemma {:induction false} ByteOrderAntisymmetric(a: seq<byte>, b: seq<byte>)
    ensures ByteOrder(a, b) == -ByteOrder(b, a)
  {
    if a != [] && b != [] && a[0] == b[0] {
      ByteOrderAntisymmetric(a[1..], b[1..]);
    }
  }

  /** The comparison is zero exactly on equal strings. */
  lemma {:induction false} ByteOrderZeroIffEqual(a: seq<byte>, b: seq<byte>)
    ensures ByteOrder(a, b) == 0 <==> a == b
  {
    if a != [] && b != [] && a[0] == b[0] {
      ByteOrderZeroIffEqual(a[1..], b[1..]);
      assert a == [a[0]] + a[1..] && b == [b[0]] + b[1..];
    }
  }

  /** The comparison orders strings transitively. */
  lemma {:induction false} ByteOrderTransitive(a: seq<byte>, b: seq<byte>, c: seq<byte>)
    requires ByteOrder(a, b) < 0 && ByteOrder(b, c) < 0
    ensures ByteOrder(a, c) < 0
  {
    if a != [] && b != [] && c != [] && a[0] == b[0] && b[0] == c[0] {
      ByteOrderTransitive(a[1..], b[1..], c[1..]);
    }
  }

  /** `compareTo`: larger counts first, then alphabetical. */
  function WordOrder(cntA: int, a: seq<byte>, cntB: int, b: seq<byte>): int
  {
    var f := Wrap(cntB - cntA);
    if f != 0 then f else ByteOrder(a, b)
  }

  /** For counts that are Java ints at least 0, the count difference never
      wraps: the order is antisymmetric, zero exactly on equal count and word,
      and transitive. */
  lemma WordOrderIsTotalOrder(ca: int, a: seq<byte>, cb: int, b: seq<byte>, cc: int, c: seq<byte>)
    requires 0 <= ca <= MAX_INT && 0 <= cb <= MAX_INT && 0 <= cc <= MAX_INT
    ensures WordOrder(ca, a, cb, b) == -WordOrder(cb, b, ca, a)
    ensures WordOrder(ca, a, cb, b) == 0 <==> ca == cb && a == b
    ensures WordOrder(ca, a, cb, b) < 0 && WordOrder(cb, b, cc, c) < 0 ==> WordOrder(ca, a, cc, c) < 0
  {
    ByteOrderAntisymmetric(a, b);
    ByteOrderZeroIffEqual(a, b);
    if ByteOrder(a, b) < 0 && ByteOrder(b, c) < 0 {
      ByteOrderTransitive(a, b, c);
    }
  }

  class VStr {
    var cs: array<byte>     // possibly shared with other words
    var off: int            // Java short
    var len: int            // Java short
    var cnt: int

    ghost predicate Valid()
      reads this
    {
      0 <= off <= MAX_SHORT && 0 <= len <= MAX_SHORT && off + len <= cs.Length
      && 0 <= cnt <= MAX_INT
    }

    /** The word this VStr denotes. */
    ghost function Word(): seq<byte>
      reads this, cs
      requires Valid()
    {
      cs[off..off + len]
    }

    /** An empty word at `off` in `cs`, counted once. */
    constructor (cs: array<byte>, off: int)
      requires 0 <= off <= cs.Length && off <= MAX_SHORT
      ensures Valid() && this.cs == cs && this.off == off && len == 0 && cnt == 1
      ensures Word() == []
    {
      this.cs := cs;
      this.off := off;
      len := 0;
      cnt := 1;
    }

    /** Capacity `append` allocates when the word has reached the end of
        `cs`: double (as a Java int), at most 32767, but at least 1024 for a
        short word that did not start at 0. */
    static function GrowLength(csLength: int, off: int, len: int): int
    {
      var n := Min(MAX_SHORT, Wrap(csLength * 2));
      if off > 0 && len < 512 then Max(1024, n) else n
    }

    /** The full-array branch of `append`: move the word to the front of a
        new, larger array. */
    method Grow()
      requires Valid() && off + len >= cs.Length && len < GrowLength(cs.Length, off, len)
      modifies this
      ensures Valid() && fresh(cs) && off == 0 && len == old(len) && cnt == old(cnt)
      ensures cs.Length == GrowLength(old(cs.Length), old(off), old(len))
      ensures Word() == old(Word())
    {
      var newlen := Min(MAX_SHORT, Wrap(cs.Length * 2));
      if off > 0 && len < 512 {
        newlen := Max(1024, newlen);
      }
      var ncs := new byte[newlen](_ => 0);
      ArrayCopy(cs, off, ncs, 0, len);
      assert ncs[..len] == cs[off..off + len];
      off := 0;
      cs := ncs;
    }

    /** Add one character. With room after the word it is written in place;
        otherwise the word moves to the front of a new, larger array. */
    method Append(c: int)
      requires Valid() && len < MAX_SHORT
      requires off + len < cs.Length || len < GrowLength(cs.Length, off, len)
      modifies this, cs
      ensures Valid() && len == old(len) + 1 && cnt == old(cnt)
      ensures Word() == old(Word()) + [ToByte(c)]
      ensures old(off + len < cs.Length) ==>
        cs == old(cs) && off == old(off) && cs[..] == old(cs[..])[old(off + len) := ToByte(c)]
      ensures old(off + len >= cs.Length) ==>
        fresh(cs) && off == 0 && cs.Length == GrowLength(old(cs.Length), old(off), old(len))
        && old(cs)[..] == old(cs[..])
    {
      if off + len >= cs.Length {
        Grow();
      }
      ghost var w := Word();
      cs[off + len] := ToByte(c);
      assert cs[off..off + len + 1] == w + [ToByte(c)];
      len := len + 1;
    }

    /** Content equality: same length and same bytes; the count is ignored.
        A null argument stands for an object that is not a VStr. */
    method Equals(o: VStr?) returns (b: bool)
      requires Valid() && (o != null ==> o.Valid())
      ensures b <==> o != null && Word() == o.Word()
    {
      if o == null || o.len != len {
        return false;
      }
      var i := 0;
      while i < len
        invariant 0 <= i <= len
        invariant cs[off..off + i] == o.cs[o.off..o.off + i]
      {
        if cs[off + i] != o.cs[o.off + i] {
          assert Word()[i] != o.Word()[i];
          return false;
        }
        i := i + 1;
      }
      assert cs[off..off + len] == o.cs[o.off..o.off + len];
      return true;
    }

    method HashCode() returns (h: int)
      requires Valid()
      ensures h == Hash(Word())
    {
      h := 0;
      var i := 0;
      while i < len
        invariant 0 <= i <= len
        invariant h == Hash(cs[off..off + i])
      {
        assert cs[off..off + i + 1][..i] == cs[off..off + i];
        h := Wrap(31 * h + cs[off + i] as int);
        i := i + 1;
      }
    }

    /** Order by descending count, then alphabetically, shorter first. */
    method CompareTo(vs: VStr) returns (r: int)
      requires Valid() && vs.Valid()
      ensures r == WordOrder(cnt, Word(), vs.cnt, vs.Word())
    {
      var f := Wrap(vs.cnt - cnt);
      if f != 0 {
        return f;
      }
      var n := Min(len, vs.len);
      var i := 0;
      while i < n
        invariant 0 <= i <= n
        invariant ByteOrder(Word(), vs.Word()) == ByteOrder(Word()[i..], vs.Word()[i..])
      {
        assert Word()[i..][1..] == Word()[i + 1..] && vs.Word()[i..][1..] == vs.Word()[i + 1..];
        if cs[off + i] != vs.cs[vs.off + i] {
          return cs[off + i] as int - vs.cs[vs.off + i] as int;
        }
        i := i + 1;
      }
      r := len - vs.len;
    }
  }

  /** Equal words hash alike, as a hash map over VStr keys needs. */
  method EqualsAgreesWithHashCode(a: VStr, b: VStr) returns (eq: bool, ha: int, hb: int)
    requires a.Valid() && b.Valid()
    ensures eq ==> ha == hb
    ensures eq <==> a.Word() == b.Word()
  {
    eq := a.Equals(b);
    ha := a.HashCode();
    hb := b.HashCode();
  }
}
