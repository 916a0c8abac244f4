/** The byte histogram task: `map` counts how often each byte value occurs
    in one chunk, `reduce` adds another partial histogram into this one
    bucket by bucket. Summing all buckets of the merged histograms gives the
    number of bytes seen, which is what the file-length check relies on. */
module Histogram {
  import opened JavaInts

  const BUCKETS: int := 256

  /** Bucket-wise sum of `a` and the first `|a|` buckets of `b`, each as a
      Java int. */
  function Merged(a: seq<int>, b: seq<int>): seq<int>
    requires |a| <= |b|
  {
    seq(|a|, i requires 0 <= i < |a| => Wrap(a[i] + b[i]))
  }

  /** Sum of all buckets. */
  function Total(s: seq<int>): int
  {
    if s == [] then 0 else Total(s[..|s| - 1]) + s[|s| - 1]
  }

  /** Occurrences of `v` in `rows`, per bucket. */
  function Counts(rows: seq<int>): seq<int>
  {
    seq(BUCKETS, v requires 0 <= v < BUCKETS => multiset(rows)[v])
  }

  /** Where no bucket overflows, merging adds the totals. */
  lemma {:induction false} MergedTotal(a: seq<int>, b: seq<int>)
    requires |a| == |b|
    requires forall i :: 0 <= i < |a| ==> IsInt(a[i] + b[i])
    ensures Total(Merged(a, b)) == Total(a) + Total(b)
  {
    if a != [] {
      var n := |a| - 1;
      assert Merged(a, b)[..n] == Merged(a[..n], b[..n]);
      MergedTotal(a[..n], b[..n]);
    }
  }

  /** Merging is symmetric. */
  lemma MergedCommutes(a: seq<int>, b: seq<int>)
    requires |a| == |b|
    ensures Merged(a, b) == Merged(b, a)
  {
  }

  /** Adding one to one bucket adds one to the total. */
  lemma {:induction false} TotalBump(s: seq<int>, v: int)
    requires 0 <= v < |s|
    ensures Total(s[v := s[v] + 1]) == Total(s) + 1
  {
    var n := |s| - 1;
    if v < n {
      assert s[v := s[v] + 1][..n] == s[..n][v := s[v] + 1];
      TotalBump(s[..n], v);
    } else {
      assert s[v := s[v] + 1][..n] == s[..n];
    }
  }

  /** Every row with a byte value lands in one bucket, so the buckets add up
      to the number of rows. */
  lemma {:induction false} CountsTotal(rows: seq<int>)
    requires forall j :: 0 <= j < |rows| ==> 0 <= rows[j] < BUCKETS
    ensures Total(Counts(rows)) == |rows|
  {
    if rows == [] {
      ZeroTotal(Counts(rows));
    } else {
      var n := |rows| - 1;
      var v := rows[n];
      assert rows == rows[..n] + [v];
      CountsTotal(rows[..n]);
      assert Counts(rows) == Counts(rows[..n])[v := Counts(rows[..n])[v] + 1];
      TotalBump(Counts(rows[..n]), v);
    }
  }

  /** All-zero buckets total zero. */
  lemma {:induction false} ZeroTotal(s: seq<int>)
    requires forall i :: 0 <= i < |s| ==> s[i] == 0
    ensures Total(s) == 0
  {
    if s != [] {
      ZeroTotal(s[..|s| - 1]);
    }
  }

  class ByteHisto {
    var x: array<int>

    constructor ()
      ensures fresh(x) && x.Length == 0
    {
      x := new int[0];
    }

    /** Count the byte values of one chunk's rows (the values the chunk's
        `at0` returns) into a fresh 256-bucket array. */
    method Map(rows: seq<int>)
      requires |rows| <= MAX_INT
      requires forall j :: 0 <= j < |rows| ==> 0 <= rows[j] < BUCKETS
      modifies this
      ensures fresh(x) && x[..] == Counts(rows)
    {
      x := new int[BUCKETS](_ => 0);
      var i := 0;
      assert x[..] == Counts(rows[..0]) by {
        assert forall v :: 0 <= v < BUCKETS ==> x[..][v] == 0 == Counts([])[v];
      }
      while i < |rows|
        invariant 0 <= i <= |rows|
        invariant fresh(x) && x.Length == BUCKETS
        invariant x[..] == Counts(rows[..i])
      {
        assert rows[..i + 1] == rows[..i] + [rows[i]];
        assert x[rows[i]] <= i by {
          assert multiset(rows[..i])[rows[i]] <= |multiset(rows[..i])|;
        }
        x[rows[i]] := Wrap(x[rows[i]] + 1);
        i := i + 1;
      }
      assert rows[..|rows|] == rows;
    }

    /** Add `bh`'s buckets into this histogram; `bh` itself is not changed
        (unless it shares this histogram's array). */
    method Reduce(bh: ByteHisto)
      requires x.Length <= bh.x.Length
      modifies x
      ensures x[..] == Merged(old(x[..]), old(bh.x[..]))
      ensures bh.x != x ==> bh.x[..] == old(bh.x[..])
    {
      var i := 0;
      while i < x.Length
        invariant 0 <= i <= x.Length
        invariant forall k :: 0 <= k < i ==> x[k] == Wrap(old(x[k]) + old(bh.x[k]))
        invariant forall k :: i <= k < x.Length ==> x[k] == old(x[k])
        invariant forall k :: i <= k < bh.x.Length ==> bh.x[k] == old(bh.x[k])
        invariant bh.x != x ==> bh.x[..] == old(bh.x[..])
      {
        x[i] := Wrap(x[i] + bh.x[i]);
        i := i + 1;
      }
    }
  }
}
