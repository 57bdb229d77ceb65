/**
 A whole transfer: the sender's session feeding the receiver's session over
 a transport that delivers each block the sender hands to `sendall`.
 */
module Transfer {
  import opened Text
  import opened Constants
  import opened Chunks
  import opened Paths
  import opened Header
  import opened Sender
  import opened Receiver

  /** Send the file at `path`, holding `content`, to a receiver whose file
      system answers `createOk` when the destination is opened. The header is
      the receiver's first read on its own; the body arrives as the blocks sent. */
  method Transfer(path: string, content: seq<bv8>, createOk: bool) returns (outcome: ServerOutcome)
    ensures !Contains(Basename(path), SEPARATOR) && createOk ==>
      outcome == Saved(Basename(path), |content|, content)
    ensures !Contains(Basename(path), SEPARATOR) && !createOk ==>
      outcome == CreateFailed(Basename(path))
    ensures Contains(Basename(path), SEPARATOR) ==> outcome.Rejected? && outcome.error.PartCount?
  {
    var filesize := |content|;
    var filename := Basename(path);
    var header := BuildHeader(filename, filesize);
    var sent, chunks, progress := SendBody(content, filesize);
    StreamOfNonEmpty(chunks);
    if !Contains(filename, SEPARATOR) {
      HeaderRoundTrip(filename, filesize);
      BasenameIdempotent(path);
    } else {
      SeparatorInNameRejected(filename, filesize);
    }
    outcome := Serve(header, chunks, createOk);
  }
}
