/**
 The receiving side once a connection is accepted: parse the first read as
 the header, create the destination file, then read until the declared size
 is reached or the peer closes.
 */
module Receiver {
  import opened Wrappers
  import opened Constants
  import opened Chunks
  import opened Socket
  import opened Header

  /** How a receiving session ends. */
  datatype ServerOutcome =
    | Rejected(error: HeaderError)                        // handler reached before any file is opened
    | CreateFailed(name: string)                          // opening the destination raised
    | Saved(name: string, declared: int, data: seq<bv8>)  // success status, with the bytes written

  /** What ends up in the file for a declared size and a peer delivering `arrivals`:
      the first `filesize` bytes of the stream, or all of it if the peer closes sooner. */
  function Delivered(filesize: int, arrivals: seq<seq<bv8>>): (d: seq<bv8>)
    ensures |d| <= |Stream(arrivals)| && d == Stream(arrivals)[..|d|]
    ensures filesize > 0 ==> |d| == Min(filesize, |Stream(arrivals)|)
    ensures filesize <= 0 ==> d == []
  {
    var s := Stream(arrivals);
    if filesize <= 0 then [] else s[..Min(filesize, |s|)]
  }

  /** The bookkeeping of the receive loop so far: `requests` are the lengths
      passed to each `recv`, `chunks` the non-empty blocks written to the file
      and `progress` the byte counter after each of them. Every request lies in
      `1..BUFFER_SIZE` and never asks past `filesize`, so the counter never
      overshoots it; a request beyond the last chunk is the read that found the
      connection closed. */
  predicate ReadLog(filesize: int, chunks: seq<seq<bv8>>, requests: seq<int>, progress: seq<int>) {
    && RunningTotals(chunks, progress)
    && (|requests| == |chunks| || |requests| == |chunks| + 1)
    && (forall k :: 0 <= k < |requests| ==>
          && 1 <= requests[k] <= BUFFER_SIZE
          && requests[k] == Min(BUFFER_SIZE, filesize - Before(progress, k)))
    && (forall k :: 0 <= k < |chunks| ==> 0 < |chunks[k]| <= requests[k])
    && (forall k :: 0 <= k < |progress| ==> progress[k] <= filesize)
  }

  /** A read that returned `got` extends the log by one request, one chunk and one counter value. */
  lemma LogChunk(filesize: int, chunks: seq<seq<bv8>>, requests: seq<int>, progress: seq<int>, got: seq<bv8>)
    requires ReadLog(filesize, chunks, requests, progress) && |requests| == |chunks|
    requires Before(progress, |progress|) < filesize
    requires 0 < |got| <= Min(BUFFER_SIZE, filesize - Before(progress, |progress|))
    ensures ReadLog(filesize, chunks + [got],
                    requests + [Min(BUFFER_SIZE, filesize - Before(progress, |progress|))],
                    progress + [Before(progress, |progress|) + |got|])
  {
    var last := Before(progress, |progress|);
    var want := Min(BUFFER_SIZE, filesize - last);
    var chunks', requests', progress' := chunks + [got], requests + [want], progress + [last + |got|];
    RunningTotalsSnoc(chunks, progress, got);
    forall k | 0 <= k <= |progress|
      ensures Before(progress', k) == Before(progress, k)
    {
    }
    forall k | 0 <= k < |requests'|
      ensures 1 <= requests'[k] <= BUFFER_SIZE
      ensures requests'[k] == Min(BUFFER_SIZE, filesize - Before(progress', k))
    {
      if k < |requests| {
        assert requests'[k] == requests[k];
      }
    }
    forall k | 0 <= k < |chunks'|
      ensures 0 < |chunks'[k]| <= requests'[k]
    {
      if k < |chunks| {
        assert chunks'[k] == chunks[k];
      }
    }
  }

  /** A read that found the connection closed adds its request and nothing else. */
  lemma LogClosed(filesize: int, chunks: seq<seq<bv8>>, requests: seq<int>, progress: seq<int>)
    requires ReadLog(filesize, chunks, requests, progress) && |requests| == |chunks|
    requires Before(progress, |progress|) < filesize
    ensures ReadLog(filesize, chunks, requests + [Min(BUFFER_SIZE, filesize - Before(progress, |progress|))], progress)
  {
  }

  /** The state of the receive loop between iterations: the file holds
      `data`, which together with the still-queued bytes makes up the stream,
      and the log of reads so far is consistent with the byte counter. */
  predicate Receiving(filesize: int, arrivals: seq<seq<bv8>>, queue: seq<seq<bv8>>, data: seq<bv8>,
                      received: int, chunks: seq<seq<bv8>>, requests: seq<int>, progress: seq<int>) {
    && received == |data| && data == Concat(chunks)
    && data + Stream(queue) == Stream(arrivals)
    && (filesize > 0 ==> received <= filesize)
    && (filesize <= 0 ==> requests == [] && received == 0)
    && ReadLog(filesize, chunks, requests, progress) && |requests| == |chunks|
    && received == Before(progress, |progress|)
  }

  /** One iteration that read a non-empty block keeps the loop state consistent. */
  lemma ReceiveStep(filesize: int, arrivals: seq<seq<bv8>>, queue: seq<seq<bv8>>, data: seq<bv8>,
                    received: int, chunks: seq<seq<bv8>>, requests: seq<int>, progress: seq<int>)
    requires Receiving(filesize, arrivals, queue, data, received, chunks, requests, progress)
    requires received < filesize
    requires Recv(queue, Min(BUFFER_SIZE, filesize - received)).0 != []
    ensures
      var want := Min(BUFFER_SIZE, filesize - received);
      var (got, rest) := Recv(queue, want);
      Receiving(filesize, arrivals, rest, data + got, received + |got|,
                chunks + [got], requests + [want], progress + [received + |got|])
  {
    var want := Min(BUFFER_SIZE, filesize - received);
    var (got, rest) := Recv(queue, want);
    LogChunk(filesize, chunks, requests, progress, got);
    ConcatSnoc(chunks, got);
  }

  /** The receive loop: what it writes, how much it counts and why it stops. */
  method ReceiveBody(filesize: int, arrivals: seq<seq<bv8>>)
    returns (data: seq<bv8>, received: int, chunks: seq<seq<bv8>>, requests: seq<int>, progress: seq<int>)
    ensures data == Delivered(filesize, arrivals)
    ensures data == Concat(chunks) && received == |data|
    ensures filesize <= 0 ==> requests == [] && received == 0
    ensures |requests| > 0 ==> filesize > 0
    ensures filesize > 0 ==> received == filesize || received == |Stream(arrivals)| < filesize
    ensures ReadLog(filesize, chunks, requests, progress)
    ensures |requests| == |chunks| + 1 ==> received < filesize
    ensures filesize > 0 && received < filesize ==> |requests| == |chunks| + 1
    ensures received == Before(progress, |progress|)
  {
    var queue := arrivals;
    data, received, chunks, requests, progress := [], 0, [], [], [];
    while received < filesize
      invariant Receiving(filesize, arrivals, queue, data, received, chunks, requests, progress)
      decreases filesize - received
    {
      var want := Min(BUFFER_SIZE, filesize - received);
      var (got, rest) := Recv(queue, want);
      if got == [] {
        LogClosed(filesize, chunks, requests, progress);
        requests := requests + [want];
        break;
      }
      ReceiveStep(filesize, arrivals, queue, data, received, chunks, requests, progress);
      queue := rest;
      data := data + got;
      chunks := chunks + [got];
      requests := requests + [want];
      received := received + |got|;
      progress := progress + [received];
    }
    PrefixOfJoin(data, Stream(queue), Stream(arrivals));
  }

  /** One receiving session after `accept`: `firstRead` is the decoded first
      read of at most `BUFFER_SIZE` bytes, `arrivals` what the peer sends after
      it, and `createOk` whether the file system lets the destination be created. */
  method Serve(firstRead: string, arrivals: seq<seq<bv8>>, createOk: bool) returns (outcome: ServerOutcome)
    ensures var h := ParseHeader(firstRead);
      && (h.Failure? <==> outcome.Rejected?)
      && (h.Failure? ==> outcome.error == h.error)
      && (h.Success? && !createOk ==> outcome == CreateFailed(h.value.name))
      && (h.Success? && createOk ==> outcome == Saved(h.value.name, h.value.size, Delivered(h.value.size, arrivals)))
    ensures outcome.Saved? ==> '/' !in outcome.name
    ensures outcome.Saved? && |outcome.data| < outcome.declared ==> outcome.data == Stream(arrivals)
  {
    match ParseHeader(firstRead)
    case Failure(e) =>
      outcome := Rejected(e);
    case Success(meta) =>
      if !createOk {
        outcome := CreateFailed(meta.name);
      } else {
        var data, received, chunks, requests, progress := ReceiveBody(meta.size, arrivals);
        outcome := Saved(meta.name, meta.size, data);
      }
  }
}
