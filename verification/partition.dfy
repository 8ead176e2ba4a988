/** The split of the body indices among the worker threads: each thread
    takes a contiguous block of ceil(N / threads) indices, the last blocks
    clipped at N. */
module Partition {

  /** Block length: N / threads rounded up, the least length whose
      `threads` blocks reach N. */
  function ChunkLen(n: nat, threads: nat): (len: nat)
    requires 0 < threads
    ensures n <= len * threads
    ensures 0 < len ==> (len - 1) * threads < n
  {
    (n + threads - 1) / threads
  }

  /** The half-open index range [first, last) of one thread; it is empty
      when first >= last. */
  datatype Span = Span(first: nat, last: nat) {
    predicate Contains(i: int) {
      first <= i < last
    }
  }

  lemma MulMono(k: nat, a: nat, b: nat)
    requires a <= b
    ensures k * a <= k * b
  {
    assert k * b == k * a + k * (b - a);
  }

  /** Integer division by a positive length places each index in exactly
      one block. */
  lemma BlockOfIndex(i: nat, len: nat, rank: nat)
    requires 0 < len
    ensures i / len == rank <==> len * rank <= i < len * rank + len
  {
    var q := i / len;
    assert len * q <= i < len * q + len;
    if q < rank {
      MulMono(len, q + 1, rank);
    } else if q > rank {
      MulMono(len, rank + 1, q);
    }
  }

  /** The range of thread `rank` among `threads` over N indices. */
  function Range(n: nat, threads: nat, rank: nat): (s: Span)
    requires 0 < threads && rank < threads
    ensures s.last <= n
    ensures forall i :: s.Contains(i) <==> 0 <= i < n && i / ChunkLen(n, threads) == rank
  {
    var len := ChunkLen(n, threads);
    var first := len * rank;
    var last := if first + len > n then n else first + len;
    assert forall i :: 0 <= i < n && len * rank <= i < len * rank + len ==> i / len == rank by {
      forall i | 0 <= i < n && len * rank <= i < len * rank + len
        ensures i / len == rank
      {
        BlockOfIndex(i, len, rank);
      }
    }
    assert forall i :: 0 <= i < n && i / len == rank ==> len * rank <= i < len * rank + len by {
      forall i | 0 <= i < n && i / len == rank
        ensures len * rank <= i < len * rank + len
      {
        BlockOfIndex(i, len, rank);
      }
    }
    Span(first, last)
  }

  /** The owner of index i, the thread whose range holds it. */
  function Owner(n: nat, threads: nat, i: nat): (rank: nat)
    requires 0 < threads && i < n
    ensures rank < threads && Range(n, threads, rank).Contains(i)
  {
    var len := ChunkLen(n, threads);
    var rank := i / len;
    assert rank < threads by {
      BlockOfIndex(i, len, rank);
      if threads <= rank {
        MulMono(len, threads, rank);
      }
    }
    rank
  }

  /** The ranges of all threads cover [0, N), never reach past it, and no
      index belongs to two threads. */
  lemma RangesPartitionIndices(n: nat, threads: nat, i: int, r1: nat, r2: nat)
    requires 0 < threads && r1 < threads && r2 < threads
    ensures Range(n, threads, r1).Contains(i) ==> 0 <= i < n
    ensures Range(n, threads, r1).Contains(i) && Range(n, threads, r2).Contains(i) ==> r1 == r2
    ensures 0 <= i < n ==> Range(n, threads, Owner(n, threads, i)).Contains(i)
  {
  }

  /** With more threads than indices each thread gets at most one index,
      and the threads numbered N and above get none. */
  lemma SurplusThreadsIdle(n: nat, threads: nat, rank: nat)
    requires n < threads && rank < threads
    ensures ChunkLen(n, threads) <= 1
    ensures Range(n, threads, rank).last <= Range(n, threads, rank).first + 1
    ensures n <= rank ==> forall i :: !Range(n, threads, rank).Contains(i)
  {
    var len := ChunkLen(n, threads);
    if 2 <= len {
      MulMono(threads, 1, len - 1);
    }
    if 0 < len && 0 < rank {
      MulMono(len, 1, rank);
    }
  }
}
