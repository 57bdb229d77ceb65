# Local file transfer: protocol and byte accounting in Dafny

This project models the core of a small LAN file-transfer program. One side
listens on a TCP port and receives a single file. The other side connects
and sends it. The graphical shell around it is not modelled. The model covers:

- **Header framing.** The sender writes one text frame,
  `name + "<SEPARATOR>" + str(size)`. The receiver splits its first read
  (at most 4096 bytes) on the separator. It requires exactly two parts and
  reads the size with `int()`.
- **Name sanitisation.** The receiver keeps only the text after the last `/`
  (POSIX `os.path.basename`).
- **Receive loop.** Each read asks for `min(BUFFER_SIZE, filesize - received)`
  bytes and appends what arrives. The loop stops when the counter reaches the
  declared size or when a read comes back empty.
- **Send loop.** Each iteration reads a 4096-byte block of the file and
  `sendall`s it. The loop stops at end of file or once the counter reaches the
  size reported by `os.path.getsize`.

Sockets and files are replaced by sequences:

- **The socket.** It is a queue of arrivals, a `seq<seq<bv8>>`. `recv(n)`
  returns the front of the first arrival, at most `n` bytes of it, and leaves
  the rest queued. An empty arrival, or the end of the queue, is the peer's
  orderly close. Any sequence of reads a real transport could return is one
  such queue, namely the reads themselves.
- **The source file.** It is its byte contents, a `seq<bv8>`.
- **Creating the destination file.** Whether this succeeds is a boolean
  parameter, because the file system answers it.
- **The header.** It is handled as decoded text, `seq<char>`.

Modules:

- `Text`: `str.find` and `str.split`.
- `Decimal`: `str(n)` and `int(text)`.
- `Paths`: basename.
- `Chunks`: concatenation, stream and running totals.
- `Socket`: `recv`.
- `Header`: building and parsing the frame.
- `Receiver`: the receive loop and the receiving session.
- `Sender`: the send loop.
- `Transfer`: the two sessions connected end to end.

### Behaviour worth knowing

- **Peer closes early.** The receive loop leaves at the first empty read, and
  the receiver still reports success (filetransfer.py:119-126). `Serve`
  returns `Saved` with the partial data. Its contract states that a short
  file holds the whole stream the peer delivered.
- **When the send loop stops.** The loop stops at end of file, and also once
  `bytes_sent >= filesize` (filetransfer.py:201). If the file grew after it
  was measured, the sender sends up to the next multiple of 4096 bytes at or
  above the measured size. `SendBody` states this exactly through
  `BlockCeiling`.
- **Negative sizes.** `int()` accepts a leading minus sign, so a header may
  declare a negative size. The receiver then opens the file, reads nothing
  and reports success (filetransfer.py:109-126).

## Model

| member | source | states |
|---|---|---|
| Text.IndexOf | filetransfer.py:107 | the result is the leftmost position where the separator occurs, and it is absent exactly when the text does not contain the separator |
| Text.Split | filetransfer.py:107 | `str.split` returns at least one part; joining the parts with the separator gives back the input; no part contains the separator |
| Text.SplitJoin | filetransfer.py:107 | for a separator that cannot overlap itself, splitting the join of separator-free parts returns those parts |
| Text.TwoPartsOnce | filetransfer.py:107 | if the split of a text on a self-disjoint separator has two parts, the separator occurs in the text exactly once |
| Text.OnceTwoParts | filetransfer.py:107 | if the separator occurs exactly once, the split has exactly two parts |
| Text.SplitInTwo | filetransfer.py:107 | the split has exactly two parts (the tuple unpack succeeds) if and only if the separator occurs exactly once |
| Text.NoStraddle | filetransfer.py:196 | in `name + SEPARATOR + rest`, no occurrence of the separator straddles the seam, so the inserted separator cannot combine with the name's text |
| Decimal.FromNat | filetransfer.py:196 | `str(size)` is a non-empty string of digits with no leading zero (except `"0"`), and its decimal value is `size` |
| Decimal.TrimLeft | filetransfer.py:109 | the leading white space that `int()` skips is removed: the result is a suffix, everything dropped is white space, and it does not start with white space |
| Decimal.TrimRight | filetransfer.py:109 | the trailing white space that `int()` skips is removed, in the same sense |
| Decimal.IsSpace | filetransfer.py:109 | the white space `int()` skips around a number, restricted to ASCII: space, tab, line feed, vertical tab, form feed and carriage return, and not the separators 0x1C-0x1F |
| Decimal.ParseInt | filetransfer.py:109 | `int(text)` in base 10: optional white space, an optional `+` or `-`, digits with single underscores between digits, optional white space; any other text is refused (`None`, the `ValueError`) |
| Decimal.ParseIntNeedsDigit | filetransfer.py:109 | `int(text)` gives a number only if the text contains a decimal digit |
| Decimal.SignedDigits | filetransfer.py:109 | a minus sign directly followed by plain digits is accepted, and the result is the negated decimal value of those digits |
| Decimal.LeadingSeparatorRefused | filetransfer.py:109 | a size preceded by the file separator 0x1C is refused, because `int()` does not skip it |
| Decimal.TrailingSeparatorRefused | filetransfer.py:109 | a size followed by the unit separator 0x1F is refused likewise |
| Decimal.ParseFromNat | filetransfer.py:109 | `int(str(n)) == n` for every `n >= 0` |
| Decimal.ParseNegative | filetransfer.py:109 | a size written with a minus sign is accepted and negated, so a header can declare a negative size |
| Paths.Basename | filetransfer.py:108 | the sanitised name contains no `/`; it is a suffix of the input; and it is either the whole input or preceded by a `/` |
| Paths.BasenameIdempotent | filetransfer.py:108 | applying basename again leaves the sanitised name unchanged |
| Paths.DirectoriesStripped | filetransfer.py:108 | any directory prefix, `../` segments included, is discarded, leaving the final segment |
| Header.BuildHeader | filetransfer.py:196 | the frame is the name, the separator and the decimal size laid end to end; when the name does not contain the separator, the first separator in the frame is the one after the name |
| Header.DigitsAvoidSeparator | filetransfer.py:196 | the decimal size never contains the separator |
| Header.ParseHeader | filetransfer.py:106-109 | the header is accepted exactly when the separator occurs once and the size part is an integer; when the separator does not occur exactly once it is refused with the part count; when it occurs once but the size part is not an integer it is refused as a bad size; an accepted name contains no `/` |
| Header.HeaderRoundTrip | filetransfer.py:106-109 | for a name without the separator, the frame built at line 196 splits into `[name, str(size)]`, and parsing yields the basename of the name and exactly `size` |
| Header.ControlPaddedSizeRefused | filetransfer.py:106-109 | a frame whose size part starts with 0x1C is refused as a bad size |
| Header.SeparatorInNameRejected | filetransfer.py:107 | if the name contains the separator, the frame holds it more than once and is refused by the two-way unpack |
| Chunks.ConcatSnoc | filetransfer.py:121 | appending a block to the file appends its bytes after everything written before |
| Chunks.StreamOfNonEmpty | filetransfer.py:205 | blocks that are all non-empty reach the receiver as exactly their concatenation |
| Chunks.RunningTotalsIncrease | filetransfer.py:122-124 | the byte counter behind each progress report strictly increases from one report to the next |
| Socket.Recv | filetransfer.py:118 | a read returns at most the requested number of bytes; those bytes followed by what remains queued are the stream before the read; and for a positive request the read is empty exactly when the peer has closed and nothing is left |
| Receiver.Delivered | filetransfer.py:114-124 | what the file ends up holding: a prefix of the byte stream the peer delivered, of length `min(filesize, stream length)`, and empty for `filesize <= 0` |
| Receiver.LogChunk | filetransfer.py:116-122 | after one more non-empty read, every request is still in `1..BUFFER_SIZE` and equals `min(BUFFER_SIZE, filesize - counter)`; every block fits its request; the counter stays at most `filesize` |
| Receiver.ReceiveStep | filetransfer.py:116-122 | one iteration with a non-empty read keeps the loop state consistent: the file plus the still-queued bytes is the whole stream, and the read log matches the counter |
| Receiver.ReceiveBody | filetransfer.py:114-124 | the file is the first `filesize` bytes of the stream, or all of it if the peer closes first; the counter equals its length; the loop ends with the counter at `filesize`, or below it when the stream is exhausted, and the counter is below `filesize` exactly when the last read found the connection closed; every request is in `1..BUFFER_SIZE` and never asks past `filesize`; with `filesize <= 0` no read (and so no progress division) happens |
| Receiver.Serve | filetransfer.py:106-131 | a refused header leads to the error handler with no file opened; a failed open is reported; otherwise the outcome is success with the sanitised name, the declared size and the delivered bytes; a short file is still reported as success and holds everything the peer sent |
| Sender.FileRead | filetransfer.py:202 | `f.read(BUFFER_SIZE)` returns the next `min(BUFFER_SIZE, remaining)` bytes of the file in place |
| Sender.BlockCeiling | filetransfer.py:201-206 | the stopping point of the send loop for a file at least that long: a multiple of `BUFFER_SIZE` in `[filesize, filesize + BUFFER_SIZE)` |
| Sender.SendBody | filetransfer.py:199-208 | the blocks sent are the file's bytes in order, each non-empty and at most `BUFFER_SIZE`, all but the last full; the counter is a running total; nothing is sent when `filesize <= 0`; the counter ends at `min(len(file), BlockCeiling(filesize))`; and when the file holds `filesize` bytes the blocks concatenate to the file and the counter ends at `filesize` |
| Transfer.Transfer | filetransfer.py:188-206 | sending a file whose basename does not contain the separator makes the receiver save exactly the file's bytes under that basename with the right declared size (or report the failed open); a basename containing the separator makes the receiver refuse the header |

## Left out

- The tkinter window, widgets, status labels and message boxes (filetransfer.py:12-92, 140-183) are presentation only.
- Threads and daemon threads (filetransfer.py:84-89, 168-180) are left out because concurrency is not part of the protocol logic.
- Socket creation, `bind`, `listen`, `accept`, `connect` and `close`, and their failures (port in use, refused connection, bad address), are left out. They are operating-system I/O; the model starts after `accept` on one side and after `connect` on the other.
- The listening socket is closed in `finally`. The accepted connection socket is never closed explicitly. Neither is modelled, because resource release is not observable in a value model.
- `get_local_ip` (filetransfer.py:49-61) is left out because it is an OS and network query.
- `os._exit` on window close (filetransfer.py:45-47) is left out.
- The floating-point progress percentages and their `%.2f` formatting (filetransfer.py:123-124, 207-208) are left out. Only the integer counters behind them are modelled. The model shows they increase, and on the receiving side they stay within `1..filesize`, so the division is never by zero.
- UTF-8 encoding and decoding of the header are left out. The header is a `seq<char>`, so a first read that is not valid UTF-8 (a `UnicodeDecodeError`, handled by the same error handler) is not modelled.
- A header and payload that arrive together in the receiver's first read are not modelled. This is a known limitation of the protocol. `Transfer.Transfer` assumes the header is the whole of the first read.
- Likewise, a header longer than 4096 bytes is not modelled. It would be cut at the first read and the rest would be taken as file data.
- `Serve`'s first read is not bounded by 4096 characters in the model, because no property depends on the bound.
- `Transfer.Transfer`: the header goes out with `socket.send`, which may in principle send only part of it. The model assumes the whole header is sent, as it is for short headers in practice.
- `Transfer.Transfer`: the file is assumed to hold exactly the bytes measured by `os.path.getsize`. A file that changes between measurement and reading is covered by `Sender.SendBody` alone.
- An exception from `recv` inside the receive loop (filetransfer.py:118), such as a connection reset, is not modelled. The real receiver then reaches the error handler at filetransfer.py:129-131 instead of reporting success. The model's reads only return data or signal an orderly close.
- An exception from `f.write` (filetransfer.py:121), such as a full disk, is not modelled. It also reaches the error handler.
- A peer that neither sends nor closes is not modelled. `recv` then blocks forever. In the model the arrivals are a finite sequence, so `ReceiveBody` always ends.
- A failure of `sendall` in the middle of the body (the peer goes away) is not modelled. It raises into the client's error handler.
- The mapping from exception types to messages in `client_logic` (filetransfer.py:213-224) is message selection, not protocol logic, and is left out.
- Whether the destination file can be created is the parameter `createOk`. On a POSIX system it is always false for an empty name, which arises when the sent name ends in `/`.
- Paths.Basename: models the POSIX `/` rule only, not the Windows backslash rule.
- Decimal.ParseInt: accepts only ASCII digits and the six ASCII white-space characters that `int()` skips. Python also accepts non-ASCII decimal digits and non-ASCII white space (such as U+0085 or U+2003), which the model refuses.
- Decimal.ParseInt: Python 3.11+ limits `int()` to 4300 digits. This is not modelled; a 4096-byte first read cannot reach that limit anyway.
