/**
 Byte payloads cut into chunks, and the byte stream a peer delivers: the
 socket is modelled as the list of arrivals still queued for reading, an
 empty arrival (or the end of the list) being the peer's orderly close.
 */
module Chunks {

  /** All bytes of `cs`, in order. */
  function Concat(cs: seq<seq<bv8>>): seq<bv8> {
    if |cs| == 0 then [] else cs[0] + Concat(cs[1..])
  }

  predicate AllNonEmpty(cs: seq<seq<bv8>>) {
    forall k :: 0 <= k < |cs| ==> |cs[k]| > 0
  }

  /** The bytes readable from a socket whose pending arrivals are `arrivals`:
      everything up to the first empty arrival, which marks the close. */
  function Stream(arrivals: seq<seq<bv8>>): seq<bv8> {
    if |arrivals| == 0 || |arrivals[0]| == 0 then [] else arrivals[0] + Stream(arrivals[1..])
  }

  /** Appending one chunk appends its bytes. */
  lemma {:induction false} ConcatSnoc(cs: seq<seq<bv8>>, c: seq<bv8>)
    ensures Concat(cs + [c]) == Concat(cs) + c
  {
    if |cs| > 0 {
      assert (cs + [c])[1..] == cs[1..] + [c];
      ConcatSnoc(cs[1..], c);
    } else {
      assert (cs + [c])[1..] == [];
    }
  }

  /** A list of chunks none of which is empty delivers exactly its concatenation. */
  lemma {:induction false} StreamOfNonEmpty(cs: seq<seq<bv8>>)
    requires AllNonEmpty(cs)
    ensures Stream(cs) == Concat(cs)
  {
    if |cs| > 0 {
      StreamOfNonEmpty(cs[1..]);
    }
  }

  /** What is read first is a prefix of what was available. */
  lemma PrefixOfJoin(read: seq<bv8>, rest: seq<bv8>, all: seq<bv8>)
    requires read + rest == all
    ensures |read| <= |all| && read == all[..|read|]
  {
    assert all[..|read|] == (read + rest)[..|read|];
  }

  /** The counter value before the `k`-th chunk: nothing before the first,
      else the value recorded after the previous one. */
  function Before(progress: seq<int>, k: nat): int
    requires k <= |progress|
  {
    if k == 0 then 0 else progress[k - 1]
  }

  /** `progress` records a byte counter advanced by the length of each chunk in turn. */
  predicate RunningTotals(chunks: seq<seq<bv8>>, progress: seq<int>) {
    && |progress| == |chunks|
    && forall k {:trigger chunks[k]} :: 0 <= k < |chunks| ==> progress[k] == Before(progress, k) + |chunks[k]|
  }

  /** Recording one more chunk keeps the counter a running total. */
  lemma RunningTotalsSnoc(chunks: seq<seq<bv8>>, progress: seq<int>, c: seq<bv8>)
    requires RunningTotals(chunks, progress)
    ensures RunningTotals(chunks + [c], progress + [Before(progress, |progress|) + |c|])
  {
    var chunks', progress' := chunks + [c], progress + [Before(progress, |progress|) + |c|];
    forall k | 0 <= k < |chunks'|
      ensures progress'[k] == Before(progress', k) + |chunks'[k]|
    {
      if k < |chunks| {
        assert chunks'[k] == chunks[k];
        assert Before(progress', k) == Before(progress, k);
      }
    }
  }

  lemma {:induction false} RunningTotalsStep(chunks: seq<seq<bv8>>, progress: seq<int>, i: nat, j: nat)
    requires RunningTotals(chunks, progress) && AllNonEmpty(chunks)
    requires i < j < |progress|
    ensures progress[i] < progress[j]
    decreases j - i
  {
    assert progress[j] == progress[j - 1] + |chunks[j]|;
    if i < j - 1 {
      RunningTotalsStep(chunks, progress, i, j - 1);
    }
  }

  /** With no empty chunk the recorded counter strictly increases, so the
      progress it reports never goes backwards. */
  lemma RunningTotalsIncrease(chunks: seq<seq<bv8>>, progress: seq<int>)
    requires RunningTotals(chunks, progress) && AllNonEmpty(chunks)
    ensures forall i, j :: 0 <= i < j < |progress| ==> progress[i] < progress[j]
  {
    forall i, j | 0 <= i < j < |progress|
      ensures progress[i] < progress[j]
    {
      RunningTotalsStep(chunks, progress, i, j);
    }
  }
}
