# Serial monitor stream framing, modelled in Dafny

This project models the two stream-framing routines of the Serial_Monitor test-bench tool:

- **The START/STOP message framer** of the reader thread in `SerialMonitor.read_from_port`
  (`AM60_TB_FAST.py`). Each decoded line from the device is appended to a text buffer.
  Once the buffer contains both the literal `START` and the literal `STOP`, the framer
  takes the text from the first `START` to the end of the first `STOP`. It strips that
  text and appends it, with a timestamp, to `captured_messages`. It then drops the buffer
  up to the end of that first `STOP`. Each line leads to at most one extraction.
- **The barcode line assembler** of `QR_Scanner.py`. Bytes from the scanner collect in a
  buffer. A `\n` or `\r` byte emits a non-empty buffer as one barcode and empties the
  buffer. A terminator on an empty buffer emits nothing, and a read with no byte changes
  nothing.

Files:

- `pystr.dfy` (module `PyStr`): the Python `str` operations the framer uses. These are
  `in`, `find`, slicing with clamped bounds, and `strip()` with Python's whitespace set
  (`str.isspace`).
- `serial_monitor.dfy` (module `SerialMonitor`):
  - `Extract` is the reference extraction on the buffer after a line was appended.
  - Lemmas state what the captured message is in each ordering of the markers.
  - The class `MessageFramer` has the fields `buffer` and `captured`. Its method `Feed`
    performs one pass of the read loop and is proved against `Extract`.
- `qr_scanner.dfy` (module `QrScanner`):
  - `Split` is a reference segmentation of the byte stream: cut at every terminator,
    terminators dropped. `Completed` and `Pending` are built from it.
  - Lemmas relate one more byte to the segmentation, and show that the barcodes are
    exactly the bytes received.
  - The class `Scanner` has the fields `buffer` and `scanned`. `Step` performs one pass
    of the loop. `Run` is that loop over a finite sequence of reads, proved against
    `Split`.
- `wrappers.dfy` (module `Wrappers`): `Option`.

When the first `STOP` in the buffer comes before the first `START`
(`AM60_TB_FAST.py:167-170`), the slice from `find("START")` to the end of that `STOP` is
empty. The reader then captures an empty message and still cuts the buffer after that
`STOP`: see `SerialMonitor.StopFirstCapturesEmpty`.

## Model

| member | source | states |
|---|---|---|
| `PyStr.Find` | AM60_TB_FAST.py:167-168 | `find` gives -1 exactly when the pattern does not occur; otherwise the pattern occurs at the result and at no earlier index |
| `PyStr.FindFrom` | AM60_TB_FAST.py:167-168 | the scan from index `k`: -1 only when the pattern occurs nowhere from `k` on; otherwise an index from `k` on where it occurs, with no occurrence between `k` and it |
| `PyStr.FindIs` | AM60_TB_FAST.py:167-168 | an index where the pattern occurs, with no occurrence before it, is exactly what `find` returns |
| `PyStr.Slice` | AM60_TB_FAST.py:170 | Python slice `s[i:j]`: both bounds are clamped to the length; the result is `s[min(i,len):min(j,len)]` when `i < j` (so `s[i..j]` when `j <= len(s)`), and empty when `j <= i` |
| `PyStr.StripLeft` | AM60_TB_FAST.py:170 | the result is a suffix of the input; everything dropped is whitespace; the result is empty or starts with a non-whitespace character |
| `PyStr.StripRight` | AM60_TB_FAST.py:170 | the result is a prefix of the input; everything dropped is whitespace; the result is empty or ends with a non-whitespace character |
| `PyStr.Strip` | AM60_TB_FAST.py:170 | `strip()` keeps one contiguous part of the text; everything around it is whitespace; what is kept is empty or starts and ends with non-whitespace |
| `PyStr.StripUnchanged` | AM60_TB_FAST.py:170 | `strip()` leaves a text alone when it neither starts nor ends with whitespace |
| `SerialMonitor.Extract` | AM60_TB_FAST.py:165-189 | an extraction happens exactly when both `START` and `STOP` are in the buffer; the buffer left behind is a suffix at least 4 characters shorter |
| `SerialMonitor.MarkersApart` | AM60_TB_FAST.py:167-168 | a `START` and a `STOP` in the buffer never overlap, so the two `find` results always differ |
| `SerialMonitor.SpanBetweenMarkers` | AM60_TB_FAST.py:167-170 | the slice from a `START` to the end of a later `STOP` lies in the buffer; it begins with `START` and ends with `STOP` |
| `SerialMonitor.FramedMessage` | AM60_TB_FAST.py:165-189 | when the first `START` precedes the first `STOP`, the message is exactly `buffer[find(START):find(STOP)+4]`; it is unchanged by strip, begins with `START` and ends with `STOP`; the new buffer is what follows that `STOP` |
| `SerialMonitor.StopFirstCapturesEmpty` | AM60_TB_FAST.py:165-189 | when the first `STOP` precedes the first `START`, the captured message is the empty string, and the buffer is still cut after that `STOP` |
| `SerialMonitor.SecondFrameWaits` | AM60_TB_FAST.py:165-189 | for any frame (starting with `START`, ending with its first `STOP`) followed by any text, one extraction yields exactly that frame and leaves the following text, further frames included, in the buffer (single `if`, not a loop) |
| `SerialMonitor.MessageFramer.constructor` | AM60_TB_FAST.py:42 | the monitor starts with no captured messages (and no buffered text) |
| `SerialMonitor.MessageFramer.Restart` | AM60_TB_FAST.py:149-152 | each start of the reader, a reconnect included, empties the buffer, dropping any half-received frame, and keeps every message captured so far |
| `SerialMonitor.MessageFramer.Feed` | AM60_TB_FAST.py:157-189 | an empty line changes nothing. Otherwise the line is appended. With a marker missing, the buffer is old buffer + line and nothing is captured. Otherwise one `(ts, message)` entry from `Extract` is appended and the buffer becomes the rest. Earlier entries are kept, and the list grows by at most one |
| `QrScanner.NonEmpty` | QR_Scanner.py:16 | dropping empty pieces keeps no empty piece and never lengthens the list |
| `QrScanner.Split` | QR_Scanner.py:13-21 | the stream cut at terminators has one more piece than there are terminators, and no piece holds a terminator |
| `QrScanner.Completed` | QR_Scanner.py:15-19 | every barcode the stream yields is non-empty and free of `\n` and `\r` |
| `QrScanner.Pending` | QR_Scanner.py:20-21 | the scan in progress never holds a terminator |
| `QrScanner.SplitTerminatorFree` | QR_Scanner.py:20-21 | a stream without terminators is a single, unfinished scan |
| `QrScanner.SplitSnocTerminator` | QR_Scanner.py:15-19 | a terminator at the end of the stream closes the last piece and opens an empty one |
| `QrScanner.SplitSnocByte` | QR_Scanner.py:20-21 | any other byte at the end of the stream extends the last piece |
| `QrScanner.StreamStep` | QR_Scanner.py:13-21 | one more byte: a terminator emits the scan in progress if it is non-empty and resets it to empty; any other byte is appended and emits nothing |
| `QrScanner.FlattenSplit` | QR_Scanner.py:13-21 | joining the pieces gives back every non-terminator byte, in order |
| `QrScanner.BarcodesCoverPayload` | QR_Scanner.py:13-21 | the emitted barcodes followed by the scan in progress are exactly the non-terminator bytes received, in order |
| `QrScanner.CrLfYieldsOneBarcode` | QR_Scanner.py:15-16 | a scan ended by `\r\n` yields exactly one barcode and leaves the buffer empty |
| `QrScanner.ReadStep` | QR_Scanner.py:13-23 | a read with no byte changes neither the scan in progress nor the barcodes; a read with a byte acts as in `StreamStep` |
| `QrScanner.Scanner.constructor` | QR_Scanner.py:7 | the script starts with an empty buffer and nothing emitted |
| `QrScanner.Scanner.Step` | QR_Scanner.py:13-23 | no byte: nothing changes. A non-terminator is appended to the buffer and nothing is emitted. A terminator emits the buffer when it is non-empty and empties it. The buffer never holds a terminator |
| `QrScanner.Scanner.Run` | QR_Scanner.py:12-23 | after a finite run of reads, the buffer is `Pending` and the emitted list has grown by `Completed` of the old buffer plus the bytes received |

## Left out

- The Tkinter GUI (`AM60_TB_FAST.py:29-147`) and every log-window insert, delete and scroll in the read loop: user interface only.
- Serial I/O: port enumeration, opening and closing the port, and `readline`. Each decoded line is a parameter of `Feed`.
- UTF-8 decoding with `errors="ignore"` of each line: `Feed` receives the decoded text.
- The reader thread, the `connection_active` flag and `thread.join`: concurrency, not framing. `Feed` is one pass of the loop body.
- The `except` branch of the read loop (AM60_TB_FAST.py:191-194): any exception in the loop body, whether from `readline`, a log-window call, or opening or writing `captured_messages.txt`, ends the reader with `break`; when it comes before the `append` or the trim, nothing is captured and the buffer is not cut. `Feed` assumes no exception is raised.
- Writing `captured_messages.txt` (AM60_TB_FAST.py:175-176): file I/O.
- `datetime.now().strftime(...)`: the timestamp is the `ts` parameter of `Feed`.
- `resource_path` and `set_window_icon`: OS path and icon glue.
- `export_txt`, `export_csv` and `export_xml`: they sit inside a string literal and never run.
- `db_loader.py`: pandas CSV reading and MySQL insertion, with no framing logic.
- The `scanner_lib` DE2120 library. `scanner.read()` is modelled as returning at most one byte (`Option<byte>`); a multi-byte chunk is not modelled.
- QrScanner.Scanner.Step: the barcode is kept as raw bytes. The UTF-8 decode with `errors='ignore'`, the `strip()` and the `print` of the decoded text are not modelled, because the result only goes to standard output.
- The infinite `while True` driver of `QR_Scanner.py`: `Run` processes a finite sequence of reads instead.
