/**
 * `join_batches`: long listings are sent as several chat messages, each
 * holding at most `batch_size` lines joined by newlines.
 */
module Batches {
  import opened Strings

  /** The batch size the loop actually uses: a size below 1 flushes after every line. */
  function Width(batchSize: int): (n: nat)
    ensures n >= 1
    ensures batchSize >= 1 ==> n == batchSize
  {
    if batchSize < 1 then 1 else batchSize
  }

  /** Consecutive groups of `n` lines; the last group holds the remainder. */
  function Chunks<T>(lines: seq<T>, n: nat): seq<seq<T>>
    requires n >= 1
    decreases |lines|
  {
    if |lines| == 0 then []
    else if |lines| <= n then [lines]
    else [lines[..n]] + Chunks(lines[n..], n)
  }

  function Flatten<T>(groups: seq<seq<T>>): seq<T> {
    if groups == [] then [] else groups[0] + Flatten(groups[1..])
  }

  /** Each group as one message: its lines joined by "\n". */
  function JoinEach(groups: seq<seq<string>>): (msgs: seq<string>)
    ensures |msgs| == |groups|
    ensures forall k :: 0 <= k < |groups| ==> msgs[k] == Join(groups[k], '\n')
  {
    seq(|groups|, k requires 0 <= k < |groups| => Join(groups[k], '\n'))
  }

  /** Splitting after a whole number `m` of groups splits the grouping the same way. */
  lemma {:induction false} ChunksAppend<T>(p: seq<T>, q: seq<T>, n: nat, m: nat)
    requires n >= 1 && |p| == m * n
    ensures Chunks(p + q, n) == Chunks(p, n) + Chunks(q, n)
    decreases m
  {
    if m == 0 {
      assert p + q == q;
    } else if q == [] {
      assert p + q == p;
    } else {
      assert |p[n..]| == (m - 1) * n;
      assert (p + q)[..n] == p[..n];
      assert (p + q)[n..] == p[n..] + q;
      ChunksAppend(p[n..], q, n, m - 1);
      if m == 1 {
        assert p[n..] == [];
      }
    }
  }

  lemma JoinEachSnoc(groups: seq<seq<string>>, g: seq<string>)
    ensures JoinEach(groups + [g]) == JoinEach(groups) + [Join(g, '\n')]
  {
  }

  /** A non-empty remainder of at most `n` lines is one group. */
  lemma ChunksOfShort<T>(q: seq<T>, n: nat)
    requires n >= 1 && 0 < |q| <= n
    ensures Chunks(q, n) == [q]
  {
  }

  /** The loop: fill a buffer, flush it once it holds `batch_size` lines, flush the rest at the end. */
  method JoinBatches(lines: seq<string>, batchSize: int) returns (res: seq<string>)
    ensures res == JoinEach(Chunks(lines, Width(batchSize)))
  {
    var n := Width(batchSize);
    res := [];
    var buf: seq<string> := [];
    var i := 0;
    ghost var m: nat := 0;
    while i < |lines|
      invariant 0 <= |buf| <= i <= |lines| && |buf| < n
      invariant i - |buf| == m * n
      invariant buf == lines[i - |buf|..i]
      invariant res == JoinEach(Chunks(lines[..i - |buf|], n))
    {
      var k := i - |buf|;
      buf := buf + [lines[i]];
      i := i + 1;
      if |buf| >= n {
        assert lines[..i] == lines[..k] + buf;
        ChunksAppend(lines[..k], buf, n, m);
        ChunksOfShort(buf, n);
        JoinEachSnoc(Chunks(lines[..k], n), buf);
        res := res + [Join(buf, '\n')];
        buf := [];
        m := m + 1;
      }
    }
    var k := i - |buf|;
    assert lines == lines[..k] + buf;
    ChunksAppend(lines[..k], buf, n, m);
    if buf != [] {
      ChunksOfShort(buf, n);
      JoinEachSnoc(Chunks(lines[..k], n), buf);
      res := res + [Join(buf, '\n')];
    } else {
      assert lines[..k] == lines;
    }
  }

  // ---------------------------------------------------------------------
  // What the grouping promises
  // ---------------------------------------------------------------------

  /** Nothing is lost, duplicated or reordered: the groups put back together are the input. */
  lemma {:induction false} ChunksFlatten<T>(lines: seq<T>, n: nat)
    requires n >= 1
    ensures Flatten(Chunks(lines, n)) == lines
    decreases |lines|
  {
    if |lines| > n {
      ChunksFlatten(lines[n..], n);
      assert lines == lines[..n] + lines[n..];
    } else if |lines| > 0 {
      assert Flatten([lines]) == lines + Flatten([]);
    }
  }

  /** Every group is non-empty and holds at most `n` lines; all but the last hold exactly `n`. */
  lemma {:induction false} ChunksSizes<T>(lines: seq<T>, n: nat)
    requires n >= 1
    ensures lines == [] <==> Chunks(lines, n) == []
    ensures forall k :: 0 <= k < |Chunks(lines, n)| ==> 1 <= |Chunks(lines, n)[k]| <= n
    ensures forall k :: 0 <= k < |Chunks(lines, n)| - 1 ==> |Chunks(lines, n)[k]| == n
    decreases |lines|
  {
    if |lines| > n {
      ChunksSizes(lines[n..], n);
      var rest := Chunks(lines[n..], n);
      assert Chunks(lines, n) == [lines[..n]] + rest;
      assert forall k :: 1 <= k < |Chunks(lines, n)| ==> Chunks(lines, n)[k] == rest[k - 1];
    }
  }

  /** The number of groups is the least whole number of `n`-line windows that covers the input. */
  lemma {:induction false} ChunksCount<T>(lines: seq<T>, n: nat)
    requires n >= 1
    ensures |lines| <= |Chunks(lines, n)| * n
    ensures |lines| > 0 ==> (|Chunks(lines, n)| - 1) * n < |lines|
    decreases |lines|
  {
    if |lines| > n {
      ChunksCount(lines[n..], n);
      var c := |Chunks(lines[n..], n)|;
      assert |Chunks(lines, n)| == c + 1;
      assert (c + 1) * n == c * n + n;
    }
  }

  lemma MulStep(k: nat, n: nat)
    requires k >= 1
    ensures (k - 1) * n + n == k * n && k * n + n == (k + 1) * n
  {
  }

  /** Group `k` is the `k`-th window of `n` consecutive lines. */
  lemma {:induction false} ChunkAt<T>(lines: seq<T>, n: nat, k: nat)
    requires n >= 1 && k < |Chunks(lines, n)|
    ensures k * n < |lines|
    ensures Chunks(lines, n)[k] == lines[k * n .. if (k + 1) * n < |lines| then (k + 1) * n else |lines|]
    decreases |lines|
  {
    if |lines| > n && k > 0 {
      var rest := lines[n..];
      assert Chunks(lines, n)[k] == Chunks(rest, n)[k - 1];
      ChunkAt(rest, n, k - 1);
      MulStep(k, n);
      var lo := (k - 1) * n;
      var hi := if k * n < |rest| then k * n else |rest|;
      assert rest[lo..hi] == lines[lo + n..hi + n];
    }
  }

  /** Lines without newlines are recovered by splitting each message at "\n". */
  lemma {:induction false} JoinedChunksRoundTrip(groups: seq<seq<string>>)
    requires forall k :: 0 <= k < |groups| ==> |groups[k]| >= 1
    requires forall k, j :: 0 <= k < |groups| && 0 <= j < |groups[k]| ==> '\n' !in groups[k][j]
    ensures Flatten(seq(|groups|, k requires 0 <= k < |groups| => Split(JoinEach(groups)[k], '\n'))) == Flatten(groups)
  {
    if groups != [] {
      var split := seq(|groups|, k requires 0 <= k < |groups| => Split(JoinEach(groups)[k], '\n'));
      var rest := groups[1..];
      var splitRest := seq(|rest|, k requires 0 <= k < |rest| => Split(JoinEach(rest)[k], '\n'));
      assert split[1..] == splitRest;
      SplitJoin(groups[0], '\n');
      JoinedChunksRoundTrip(rest);
    }
  }

  /** Every line of every group is one of the input lines. */
  lemma ChunkMember<T>(lines: seq<T>, n: nat, k: nat, j: nat)
    requires n >= 1 && k < |Chunks(lines, n)| && j < |Chunks(lines, n)[k]|
    ensures Chunks(lines, n)[k][j] in lines
  {
    ChunkAt(lines, n, k);
    var lo := k * n;
    var hi := if (k + 1) * n < |lines| then (k + 1) * n else |lines|;
    var g := lines[lo..hi];
    assert g[j] == lines[lo + j];
  }

  /** The messages `join_batches` produces split back into the input lines. */
  lemma JoinBatchesRoundTrip(lines: seq<string>, n: nat)
    requires n >= 1
    requires forall j :: 0 <= j < |lines| ==> '\n' !in lines[j]
    ensures var msgs := JoinEach(Chunks(lines, n));
            Flatten(seq(|msgs|, k requires 0 <= k < |msgs| => Split(msgs[k], '\n'))) == lines
  {
    var groups := Chunks(lines, n);
    ChunksSizes(lines, n);
    ChunksFlatten(lines, n);
    forall k, j | 0 <= k < |groups| && 0 <= j < |groups[k]| ensures '\n' !in groups[k][j] {
      ChunkMember(lines, n, k, j);
    }
    JoinedChunksRoundTrip(groups);
  }
}
