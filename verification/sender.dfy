/**
 The sending side after the header: read the file in blocks of
 `BUFFER_SIZE` bytes and hand each block whole to the socket, until the
 file ends or the size taken from `os.path.getsize` has been reached.
 */
module Sender {
  import opened Constants
  import opened Chunks

  /** `f.read(BUFFER_SIZE)` on a file holding `content`, positioned at `pos`. */
  function FileRead(content: seq<bv8>, pos: nat): (block: seq<bv8>)
    requires pos <= |content|
    ensures |block| == Min(BUFFER_SIZE, |content| - pos)
    ensures content[pos..pos + |block|] == block
  {
    content[pos..Min(pos + BUFFER_SIZE, |content|)]
  }

  /** The smallest multiple of `BUFFER_SIZE` that is at least `filesize`: the
      loop only looks at the counter between whole blocks, so this is where it
      stops when the file holds enough bytes. */
  function BlockCeiling(filesize: int): (c: int)
    requires filesize > 0
    ensures c % BUFFER_SIZE == 0 && filesize <= c < filesize + BUFFER_SIZE
  {
    ((filesize + BUFFER_SIZE - 1) / BUFFER_SIZE) * BUFFER_SIZE
  }

  /** A whole number of blocks that reaches `filesize` reaches its block ceiling. */
  lemma CeilingIsLeast(filesize: int, blocks: nat)
    requires filesize > 0 && filesize <= BUFFER_SIZE * blocks
    ensures BlockCeiling(filesize) <= BUFFER_SIZE * blocks
  {
    var q := (filesize + BUFFER_SIZE - 1) / BUFFER_SIZE;
    assert BlockCeiling(filesize) == q * BUFFER_SIZE;
    assert q <= blocks;
  }

  /** A whole number of blocks short of `filesize` is a full block short of its ceiling. */
  lemma BelowCeiling(filesize: int, blocks: nat)
    requires filesize > 0 && BUFFER_SIZE * blocks < filesize
    ensures BUFFER_SIZE * (blocks + 1) <= BlockCeiling(filesize)
  {
    var q := (filesize + BUFFER_SIZE - 1) / BUFFER_SIZE;
    assert BlockCeiling(filesize) == q * BUFFER_SIZE;
    assert blocks < q;
  }

  /** The send loop over a file holding `content` whose size was reported as
      `filesize`. `chunks` are the blocks passed to `sendall`, `sent` the byte
      counter and `progress` its value after each block. */
  method SendBody(content: seq<bv8>, filesize: int)
    returns (sent: int, chunks: seq<seq<bv8>>, progress: seq<int>)
    ensures 0 <= sent <= |content|
    ensures Concat(chunks) == content[..sent]
    ensures AllNonEmpty(chunks)
    ensures forall k :: 0 <= k < |chunks| ==> |chunks[k]| <= BUFFER_SIZE
    ensures forall k :: 0 <= k < |chunks| - 1 ==> |chunks[k]| == BUFFER_SIZE
    ensures filesize <= 0 ==> sent == 0 && chunks == []
    ensures filesize > 0 ==> sent == Min(|content|, BlockCeiling(filesize))
    ensures |content| == filesize ==> Concat(chunks) == content && sent == filesize
    ensures RunningTotals(chunks, progress)
    ensures |progress| > 0 ==> progress[|progress| - 1] == sent && filesize > 0
  {
    sent, chunks, progress := 0, [], [];
    while sent < filesize
      invariant 0 <= sent <= |content|
      invariant Concat(chunks) == content[..sent]
      invariant AllNonEmpty(chunks)
      invariant forall k :: 0 <= k < |chunks| ==> |chunks[k]| <= BUFFER_SIZE
      invariant forall k :: 0 <= k < |chunks| - 1 ==> |chunks[k]| == BUFFER_SIZE
      invariant sent < |content| ==> sent == BUFFER_SIZE * |chunks|
      invariant sent < |content| && |chunks| > 0 ==> |chunks[|chunks| - 1]| == BUFFER_SIZE
      invariant filesize <= 0 ==> sent == 0 && chunks == []
      invariant filesize > 0 ==> sent <= BlockCeiling(filesize)
      invariant RunningTotals(chunks, progress)
      invariant |progress| > 0 ==> progress[|progress| - 1] == sent && filesize > 0
      decreases |content| - sent
    {
      var data := FileRead(content, sent);
      if data == [] {
        break;
      }
      BelowCeiling(filesize, |chunks|);
      ConcatSnoc(chunks, data);
      RunningTotalsSnoc(chunks, progress, data);
      assert content[..sent + |data|] == content[..sent] + data;
      chunks := chunks + [data];
      sent := sent + |data|;
      progress := progress + [sent];
    }
    if filesize > 0 && sent < |content| {
      CeilingIsLeast(filesize, |chunks|);
    }
  }
}
