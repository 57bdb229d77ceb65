/**
 One blocking `recv(n)` on a stream socket. The pending data is the list of
 arrivals still queued; a read returns the front of the first arrival, at most
 `n` bytes of it, and leaves the remainder queued. Any sequence of reads a real
 transport could return is obtained by choosing the arrivals to be exactly
 those reads.
 */
module Socket {
  import opened Chunks

  /** `recv(n)`: the bytes returned, and the arrivals still queued afterwards. */
  function Recv(queue: seq<seq<bv8>>, n: nat): (res: (seq<bv8>, seq<seq<bv8>>))
    ensures |res.0| <= n
    ensures res.0 + Stream(res.1) == Stream(queue)
    ensures n > 0 ==> (res.0 == [] <==> Stream(queue) == [])
  {
    if |queue| == 0 || |queue[0]| == 0 then ([], queue)
    else if n < |queue[0]| then
      var rest := [queue[0][n..]] + queue[1..];
      assert rest[1..] == queue[1..];
      assert queue[0] == queue[0][..n] + queue[0][n..];
      (queue[0][..n], rest)
    else (queue[0], queue[1..])
  }
}
