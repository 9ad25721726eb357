/**
 Cutting a sequence into consecutive runs of a fixed size, the way
 `range(0, len(xs), n)` with slices `xs[i:min(i + n, len(xs))]` does, and
 the integer facts about Euclidean division the cutting needs.
 */
module Chunking {

  function Min(a: int, b: int): int { if a <= b then a else b }

  function Max(a: int, b: int): int { if a >= b then a else b }

  /** Concatenation of a sequence of sequences, in order. */
  function Flatten<T>(ss: seq<seq<T>>): seq<T>
  {
    if |ss| == 0 then [] else ss[0] + Flatten(ss[1..])
  }

  lemma {:induction false} FlattenAppend<T>(a: seq<seq<T>>, b: seq<seq<T>>)
    ensures Flatten(a + b) == Flatten(a) + Flatten(b)
    decreases |a|
  {
    if |a| == 0 {
      assert a + b == b;
    } else {
      assert (a + b)[1..] == a[1..] + b;
      FlattenAppend(a[1..], b);
    }
  }

  /** A slice whose end is clipped to the length of `xs` runs to the end of `xs`. */
  lemma {:induction false} SliceToEnd<T>(xs: seq<T>, a: int, b: int)
    requires 0 <= a <= |xs| <= b
    ensures xs[a .. Min(b, |xs|)] == xs[a..]
  {
  }

  /** One step of a loop that builds `whole` front to back: `x` moves from the pending tail to the done part. */
  lemma {:induction false} AppendStep<T>(done: seq<T>, x: T, rest: seq<T>, tail: seq<T>, whole: seq<T>)
    requires done + tail == whole && tail == [x] + rest
    ensures (done + [x]) + rest == whole
  {
    assert (done + [x]) + rest == done + ([x] + rest);
  }

  /** Consecutive runs of `n` elements of `xs`; only the last run may be shorter. */
  function Chunks<T>(xs: seq<T>, n: nat): (cs: seq<seq<T>>)
    requires n >= 1
    ensures |xs| > 0 ==> |cs| > 0
    ensures forall k | 0 <= k < |cs| :: 0 < |cs[k]| <= n
    decreases |xs|
  {
    if |xs| == 0 then []
    else if |xs| <= n then [xs]
    else [xs[..n]] + Chunks(xs[n..], n)
  }

  /** The runs, put back together in order, are the original sequence. */
  lemma {:induction false} FlattenChunks<T>(xs: seq<T>, n: nat)
    requires n >= 1
    ensures Flatten(Chunks(xs, n)) == xs
    decreases |xs|
  {
    if |xs| == 0 {
    } else if |xs| <= n {
      assert Flatten([xs]) == xs + Flatten([]);
    } else {
      var rest := Chunks(xs[n..], n);
      FlattenChunks(xs[n..], n);
      assert ([xs[..n]] + rest)[1..] == rest;
      assert xs == xs[..n] + xs[n..];
    }
  }

  /** Unfolding of `Chunks` that also covers a last, short run. */
  lemma {:induction false} ChunksCons<T>(xs: seq<T>, n: nat)
    requires n >= 1 && |xs| > 0
    ensures Chunks(xs, n) == [xs[..Min(n, |xs|)]] + Chunks(xs[Min(n, |xs|)..], n)
  {
    if |xs| <= n {
      assert xs[..|xs|] == xs;
      assert xs[|xs|..] == [];
    }
  }

  lemma {:induction false} DivModUnique(a: int, n: int, q: int, r: int)
    requires n > 0 && a == q * n + r && 0 <= r < n
    ensures a / n == q && a % n == r
  {
    var q' := a / n;
    DivMod(a, n);
    if q' > q {
      MulMonotone(q + 1, q', n);
      MulStep(q, n);
      assert false;
    }
    if q' < q {
      MulMonotone(q' + 1, q, n);
      MulStep(q', n);
      assert false;
    }
  }

  lemma {:induction false} DivMod(a: int, n: int)
    requires n > 0
    ensures a == (a / n) * n + a % n && 0 <= a % n < n
    ensures a >= 0 ==> a / n >= 0
  {
    if a >= 0 && a / n < 0 {
      MulMonotone(a / n, -1, n);
      assert false;
    }
  }

  lemma {:induction false} DivAddDivisor(a: int, n: int)
    requires n > 0
    ensures (a + n) / n == a / n + 1 && (a + n) % n == a % n
  {
    DivModUnique(a + n, n, a / n + 1, a % n);
  }

  lemma {:induction false} MulNonNegative(a: int, b: int)
    requires a >= 0 && b >= 0
    ensures a * b >= 0
  {
  }

  lemma {:induction false} MulMonotone(a: int, b: int, n: int)
    requires a <= b && n >= 0
    ensures a * n <= b * n
  {
  }

  lemma {:induction false} MulStep(j: int, n: int)
    ensures (j + 1) * n == j * n + n
  {
  }

  /** Run `j` starts at `j * n` and ends at `(j + 1) * n` or at the end of `xs`. */
  lemma {:induction false} ChunkAt<T>(xs: seq<T>, n: nat, j: nat)
    requires n >= 1 && j < |Chunks(xs, n)|
    ensures j * n < |xs|
    ensures Chunks(xs, n)[j] == xs[j * n .. Min((j + 1) * n, |xs|)]
    decreases |xs|
  {
    if j == 0 {
      ChunksCons(xs, n);
      assert j * n == 0 && (j + 1) * n == n;
    } else {
      var rest := xs[n..];
      assert Chunks(xs, n) == [xs[..n]] + Chunks(rest, n);
      ChunkAt(rest, n, j - 1);
      ShiftedRun(xs, n, j);
    }
  }

  /** Run `j - 1` of `xs[n..]` is run `j` of `xs`, read in `xs`'s own indices. */
  lemma {:induction false} ShiftedRun<T>(xs: seq<T>, n: nat, j: nat)
    requires 1 <= n < |xs| && j >= 1
    requires (j - 1) * n < |xs| - n
    ensures j * n < |xs|
    ensures xs[n..][(j - 1) * n .. Min(j * n, |xs| - n)] == xs[j * n .. Min((j + 1) * n, |xs|)]
  {
    MulStep(j - 1, n);
    MulStep(j, n);
  }

  /** There are `ceil(|xs| / n)` runs. */
  lemma {:induction false} ChunksCount<T>(xs: seq<T>, n: nat)
    requires n >= 1
    ensures |Chunks(xs, n)| == (|xs| + n - 1) / n
    decreases |xs|
  {
    if |xs| == 0 {
      DivModUnique(n - 1, n, 0, n - 1);
    } else if |xs| <= n {
      DivModUnique(|xs| + n - 1, n, 1, |xs| - 1);
    } else {
      ChunksCount(xs[n..], n);
      DivAddDivisor(|xs| - 1, n);
    }
  }

  /** `k = ceil(m / n)` is the one `k` with `(k - 1) * n < m <= k * n`, for `m > 0`. */
  lemma {:induction false} CeilBounds(m: nat, n: nat, k: int)
    requires n >= 1 && m > 0 && k == (m + n - 1) / n
    ensures k > 0 && (k - 1) * n < m <= k * n
  {
    var r := (m + n - 1) % n;
    DivMod(m + n - 1, n);
    assert m + n - 1 == k * n + r;
    MulStep(k - 1, n);
    if k <= 0 {
      MulMonotone(k, 0, n);
      assert false;
    }
  }

  /** Element `i` of `xs` is element `i % n` of run `i / n`. */
  lemma {:induction false} ChunkElement<T>(xs: seq<T>, n: nat, i: nat)
    requires n >= 1 && i < |xs|
    ensures i / n < |Chunks(xs, n)|
    ensures i % n < |Chunks(xs, n)[i / n]|
    ensures Chunks(xs, n)[i / n][i % n] == xs[i]
  {
    var q, r := i / n, i % n;
    DivMod(i, n);
    ChunkElementAt(xs, n, q, r);
  }

  /** Element `q * n + r` of `xs`, with `r < n`, is element `r` of run `q`. */
  lemma {:induction false} ChunkElementAt<T>(xs: seq<T>, n: nat, q: nat, r: nat)
    requires n >= 1 && r < n && q * n + r < |xs|
    ensures q < |Chunks(xs, n)|
    ensures r < |Chunks(xs, n)[q]|
    ensures Chunks(xs, n)[q][r] == xs[q * n + r]
    decreases q
  {
    if q == 0 {
      ChunksCons(xs, n);
    } else {
      var q' := q - 1;
      var k := q' * n + r;
      MulStep(q', n);
      MulNonNegative(q', n);
      var rest := xs[n..];
      ChunkElementAt(rest, n, q', r);
      assert rest[k] == xs[q * n + r];
      assert Chunks(xs, n) == [xs[..n]] + Chunks(rest, n);
    }
  }

  /** When `|xs|` leaves one element over, the last run is that element alone. */
  lemma {:induction false} LastRunSingle<T>(xs: seq<T>, n: nat)
    requires n >= 1 && |xs| % n == 1
    ensures |Chunks(xs, n)| > 0
    ensures Chunks(xs, n)[|Chunks(xs, n)| - 1] == [xs[|xs| - 1]]
  {
    var m := |xs|;
    var q := m / n;
    assert m == q * n + 1 by {
      DivMod(m, n);
    }
    ChunksCount(xs, n);
    MulStep(q, n);
    DivModUnique(m + n - 1, n, q + 1, 0);
    ChunkAt(xs, n, q);
    MulStep(q, n);
  }

  /** Cutting `xs + ys` when `|xs|` is a multiple of `n` cuts `xs` and `ys` separately. */
  lemma {:induction false} ChunksAppend<T>(xs: seq<T>, ys: seq<T>, n: nat)
    requires n >= 1 && |xs| % n == 0
    ensures Chunks(xs + ys, n) == Chunks(xs, n) + Chunks(ys, n)
  {
    ChunksAppendRuns(xs, ys, n, |xs| / n);
  }

  lemma {:induction false} ChunksAppendRuns<T>(xs: seq<T>, ys: seq<T>, n: nat, q: nat)
    requires n >= 1 && |xs| == q * n
    ensures Chunks(xs + ys, n) == Chunks(xs, n) + Chunks(ys, n)
    decreases q
  {
    if q == 0 {
      assert xs + ys == ys;
    } else {
      var q' := q - 1;
      MulStep(q', n);
      MulNonNegative(q', n);
      var rest := xs[n..];
      ChunksAppendRuns(rest, ys, n, q');
      ChunksCons(xs + ys, n);
      ChunksCons(xs, n);
      assert (xs + ys)[..n] == xs[..n];
      assert (xs + ys)[n..] == rest + ys;
    }
  }
}
