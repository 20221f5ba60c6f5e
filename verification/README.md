# File transfer protocol, modelled in Dafny

The program is a Java client/server file uploader. For each file, the client
(`FileUploadThread.run`) builds a fixed 1024-byte header. The header holds the file
length's decimal digits as raw values 0-9, least significant first, then the separator
`','` (44), then the name's characters narrowed to bytes, then space padding (32) up to
offset 1023.

The client then:
1. connects and writes the header;
2. waits for a one-byte acknowledgement;
3. streams the file in chunks of at most 4096 bytes, posting the running byte count to
   a progress bar after each chunk;
4. waits for a second acknowledgement and closes.

The server (`RequestProcessor.run`) mirrors this:
1. reads the header (`readHeaderData`);
2. decodes the length (`getLengthOfFile`) and the name (`getFileName`);
3. replaces `uploads/` + the decoded name;
4. acknowledges with the byte 1;
5. copies whole reads from the socket into the file until at least `lengthOfFile` bytes
   are in, which can be up to 4095 bytes more (`receiveAndSaveFileData`);
6. acknowledges again and closes.

The model is functional:
- Java's fixed-width values are written out over unbounded integers (`JavaInts`). The
  model covers signed bytes, 16-bit chars, `int` and `long` wrap-around, truncating
  division, and the `(byte)` and `(char)` casts.
- `String.trim()` is modelled in `JavaText`.
- A socket or file input is a `Stream`: the bytes still to come, cut into the pieces in
  which the transport hands them over (`Streams`). A `read` returns 1 to `limit` bytes of
  the next piece, or -1 once the stream is exhausted.
- Every loop except the encoder's is a recursive function that carries the loop
  variables.
- The header encoder appears twice. `HeaderFormat.EncodeHeader` is declarative.
  `HeaderFormat.BuildHeader` is the literal `while` loops, with loop invariants.
- The decoders follow the source literally (`HeaderDecode.GetLengthOfFile`,
  `HeaderDecode.GetFileName`). Next to them, `HeaderDecode.DecodeHeader` reads the name
  as the text between the first `','` and the space padding.
- A client run (`UploadSession.UploadFile`) produces an event trace and an outcome. So
  does a server connection. The server is modelled twice:
  - `ReceiveSession.ServeConnectionAsWritten` is `RequestProcessor.run` as written.
  - `ReceiveSession.ServeConnection` is the corrected server: the full 1024-byte read
    `ReceiveSession.ReadHeaderExact` followed by `HeaderDecode.DecodeHeader`.
- `Handshake` states each side's protocol as a state machine. It proves that every
  run of both servers follows it, and so does every client run on a file below 2^31
  bytes. Past that the client posts wrapped, negative totals, which the machine rejects.
- `Transfer` connects the two sides:
  - The program's server saves the file under `,<name>`, because the separator
    survives `getFileName`. A transport that delivers the first 1023 header bytes as
    one piece makes it save the file shifted by one padding byte.
  - For an ASCII name that does not end in a blank, the corrected server saves exactly
    the bytes the client sent, under `<name>`, however the transport cuts them.
  - For a successful upload of a non-empty file below 2^31 bytes, the progress bar
    climbs to 100. An empty file posts no report, so its bar never moves.

A `read` that returns -1 inside one of the source's `continue` loops would spin
forever. The model records that as a stalled outcome. The client's `int` counter `j`
wraps as in Java, so a file of 2^31 bytes or more never completes its chunk loop.

The encoder pads the header with bytes of value 32 (FTClient.java:359-361). But
`getFileName` scans back over bytes of value 0 (FTServer.java:89-91), and so stops at
offset 1023. The model has both the literal decoder and a decoder that reads the text
between the first `','` and the padding. The difference is listed under Findings.

## Model

| member | source | states |
|---|---|---|
| JavaInts.Int32 | FTClient.java:379-384 | Java `int` addition: the result is an `int` congruent to the exact sum modulo 2^32, and equal to it whenever the sum fits |
| JavaInts.Int64 | FTClient.java:303 | Java `long` multiplication: the result is a `long` congruent to the exact product modulo 2^64, and equal to it whenever the product fits |
| JavaInts.JavaDiv | FTClient.java:303 | Java `/` truncates toward zero: for every sign of dividend and divisor, the quotient is the floor quotient of the magnitudes, negated exactly when the signs differ |
| JavaInts.CharToByte | FTClient.java:355 | `(byte) c` keeps the character's value modulo 256 as a signed byte and leaves ASCII characters unchanged |
| JavaInts.ByteToChar | FTServer.java:94 | `(char) b` sign-extends: the result is congruent to the byte modulo 65536, and equals it for non-negative bytes |
| JavaText.TrimStart | FTServer.java:97 | the result is no longer than the text and does not start with a character at or below U+0020 |
| JavaText.TrimStartDropsBlanks | FTServer.java:97 | trimming the front keeps a suffix of the text and drops only characters at or below U+0020 |
| JavaText.TrimEnd | FTServer.java:97 | the result is a prefix of the text whose last character is above U+0020, and every character dropped is at or below U+0020 |
| JavaText.Trim | FTServer.java:97 | the trimmed text neither starts nor ends with a character at or below U+0020 |
| JavaText.TrimAroundField | FTServer.java:97 | trimming blanks, a non-blank character, a text and more blanks gives that character and the text with only its trailing blanks removed |
| Streams.Read | FTServer.java:61 | a read returns -1 exactly when nothing is left; otherwise it returns 1 to `limit` bytes that are the stream's next bytes, and a short read consumes exactly one transport piece |
| HeaderFormat.Digits | FTClient.java:344-349 | the length's digits are each 0-9; there are none exactly for length 0; their count is the number of decimal places of the length |
| HeaderFormat.DigitsValueOfDigits | FTClient.java:344-349 | the least-significant-first digits read back as sum digit[k]·10^k give the length again |
| HeaderFormat.EncodeHeader | FTClient.java:338-362 | the header is 1024 bytes: digits 0-9 at offsets 0..d-1, 44 at offset d, the name's `(byte)` casts after it, 32 from there to offset 1023; the digit field denotes the length |
| HeaderFormat.BuildHeader | FTClient.java:338-362 | the encoding loops produce a header exactly when digits + 1 + name length fits 1024 bytes (otherwise an index runs off the array), and the header is then the laid-out frame |
| HeaderFormat.WriteDigits | FTClient.java:343-349 | the digit loop succeeds exactly when the digits fit the array, and it leaves them at offsets 0.. with `i` just past them |
| HeaderFormat.WriteName | FTClient.java:350-358 | the name loop succeeds exactly when the whole header fits, and it leaves digits, separator and name bytes in order at the front |
| HeaderFormat.WritePadding | FTClient.java:359-362 | after digits, separator and name, the padding loop completes exactly the laid-out frame |
| HeaderDecode.LengthLoop | FTServer.java:76-80 | the accumulation loop throws (None) exactly when no `','` lies ahead; started from an `int`, it yields an `int` |
| HeaderDecode.GetLengthOfFile | FTServer.java:71-83 | `getLengthOfFile` fails exactly when the header has no `','`, always yields an `int`, and yields 0 when the header starts with `','` |
| HeaderDecode.LengthLoopSumsDigits | FTServer.java:76-80 | over a field of at most ten digits whose value fits an `int`, the loop started at any digit with the exact partial sum returns the field's exact value, despite its `int` arithmetic |
| HeaderDecode.LengthOfDigitField | FTServer.java:71-83 | a field of at most ten digits before the first `','` whose value fits an `int` decodes to that value |
| HeaderDecode.LengthRoundTrip | FTServer.java:71-83 | decoding the length of an encoded header gives back every length up to `Integer.MAX_VALUE` |
| HeaderDecode.ScanBack | FTServer.java:87-91 | the backward scan stops at the largest index at or below its start holding a non-zero byte, or at -1, having skipped only zero bytes |
| HeaderDecode.CollectBackward | FTServer.java:92-95 | the buffer holds `(char) header[j]`, `(char) header[j-1]`, ..., `(char) header[0]` |
| HeaderDecode.Reverse | FTServer.java:97 | `reverse` puts character k at position length-1-k |
| HeaderDecode.ReversedCollection | FTServer.java:92-97 | collecting from `i-1` down to 0 and reversing gives the characters of bytes 0..i-1 in order, without byte i |
| HeaderDecode.GetFileName | FTServer.java:86-98 | the name is the trimmed text of all bytes before the last non-zero byte, so it neither starts nor ends with a blank |
| HeaderDecode.GetFileNameOfEncoded | FTServer.java:86-98 | on an encoded header with room for padding, the name read back is `','` followed by the echoed name without its trailing blanks |
| HeaderDecode.GetFileNameOfLayout | FTServer.java:86-98 | the same for any buffer with the header's layout |
| HeaderDecode.GetFileNameOfFullFrame | FTServer.java:86-98 | when the name reaches offset 1023, its last character is lost as well |
| HeaderDecode.GetFileNameKeepsSeparator | FTServer.java:86-98 | an ASCII name ending in a printable character is read back with `','` in front of it |
| HeaderDecode.SeparatorFrom | FTServer.java:76 | finds the first `','` at or after a position, or reports that there is none |
| HeaderDecode.StripPadding | FTClient.java:359-361 | corrected server (Finding 2): strips exactly the trailing run of the space padding (32) that the encoder writes |
| HeaderDecode.DecodeName | FTServer.java:86-98 | corrected server (Finding 2): the name decoding fails exactly when there is no `','` |
| HeaderDecode.DecodeHeader | FTServer.java:33-34 | corrected server (Finding 2): decoding fails exactly when there is no `','`, and otherwise agrees with `getLengthOfFile` on the length and with the corrected name decoding |
| HeaderDecode.DecodeNameOfEncoded | FTClient.java:350-362 | the corrected decoding returns the name of any encoded header, up to the byte casts, unless the name ends in a byte 32 |
| HeaderDecode.DecodeHeaderRoundTrip | FTClient.java:338-362 | decoding an encoded header returns its length and name, for `int` lengths and ASCII names not ending in a space |
| Progress.Percentage | FTClient.java:298-308 | the bar shows 100 when the count equals the length; below the length (without `long` overflow) it shows the floor of count·100/length, between 0 and 99 |
| Progress.PercentageMonotone | FTClient.java:298-308 | the bar never moves back while the count grows toward the length |
| Progress.FullExactlyAtEnd | FTClient.java:305-307 | the bar shows 100, and the label switches to "Uploaded", exactly when the whole file is counted |
| UploadSession.RunningTotalsCount | FTClient.java:384-385 | each reported count is the bytes of all chunks sent so far |
| UploadSession.RunningTotalsIncrease | FTClient.java:384-385 | the reported counts rise strictly from the start |
| UploadSession.UploadLoop | FTClient.java:376-393 | chunks are at most 4096 bytes and are the file's bytes in order; one count is reported per chunk. Without wrap-around, each count is the running total; the loop completes exactly when the file holds the announced length; it overshoots the length by less than a chunk and sends a file of exactly that length whole. A length above `int` range never completes |
| UploadSession.StreamEvents | FTClient.java:380-392 | each chunk written is followed by the progress report for it |
| UploadSession.TransmittedChunks | FTClient.java:382 | the chunk writes put exactly the chunks' bytes on the socket |
| UploadSession.UploadFile | FTClient.java:336-405 | an oversized header aborts before connecting; the header is the first thing sent; no reply leaves the client waiting; a success has read both acknowledgements and then closes; without wrap-around, success happens exactly when the header fits, the connection opens, two reply bytes arrive and the file holds the announced length |
| ReceiveSession.ReadHeaderLoop | FTServer.java:59-65 | the loop as written ends with a count between 1023 and 1024 |
| ReceiveSession.ReadHeaderLoopFills | FTServer.java:59-65 | the loop puts the stream's bytes, in order, at the offsets it advances over, and leaves the rest of the buffer and the stream untouched |
| ReceiveSession.ReadHeaderLoopStalls | FTServer.java:59-65 | the loop spins forever exactly when the stream ends before byte 1023 |
| ReceiveSession.ReadHeaderLoopStopsShort | FTServer.java:59-65 | the loop stops at 1023 bytes exactly when a run of leading pieces holds 1023 bytes |
| ReceiveSession.ReadHeaderData | FTServer.java:56-68 | the header read stalls exactly below 1023 bytes; otherwise it returns 1023 or 1024 bytes that are the stream's first bytes, leaves zeros after them and the rest in the stream; it returns 1023 exactly when the transport cuts there |
| ReceiveSession.ReadFully | FTServer.java:56-68 | corrected server (Finding 1): the loop keeps reading until the buffer is full; it stalls exactly when too few bytes come, and otherwise fills the buffer with the stream's next bytes |
| ReceiveSession.ReadHeaderExact | FTServer.java:29-31 | corrected server (Finding 1): the header read stalls exactly below 1024 bytes, and otherwise takes exactly the first 1024 bytes |
| ReceiveSession.ReceiveLoop | FTServer.java:116-131 | chunks are at most 4096 bytes and are the stream's bytes in order; the loop ends exactly when enough bytes arrive; the count then reaches the length, overshoots it by less than a chunk, and equals the bytes written; a stall has written everything that came; a stream of exactly the length is written whole |
| ReceiveSession.Writes | FTServer.java:125 | one file write per chunk, in order |
| ReceiveSession.ServeConnection | FTServer.java:21-53 | corrected server (Findings 1-2), not the program's: a connection stalls in the header exactly below 1024 bytes and is malformed exactly when those bytes hold no `','`; a saved file goes to `uploads/` + the corrected decoded name, holds at least the announced length and is a prefix of what follows the header; a stream of exactly the announced length after the header is saved whole |
| ReceiveSession.ServeFrame | FTServer.java:33-41 | corrected server (Finding 2): after the header, a frame without `','` is malformed; a saved file goes to the corrected decoded name and is a prefix of the rest of at least the announced length; a rest of exactly that length is saved whole |
| ReceiveSession.ServeDecoded | FTServer.java:38-42 | after the header, for whatever length and name were decoded, the file is saved exactly when the announced length arrives, at `uploads/<name>`; it holds a prefix of the data, at least the length and less than a chunk more; a stall has written all the data that came |
| ReceiveSession.Destination | FTServer.java:101-102 | `saveFile` puts the file under `uploads`, then `/`, with the decoded name as the last component |
| ReceiveSession.DestinationInjective | FTServer.java:101-102 | two decoded names give the same path string exactly when they are equal |
| ReceiveSession.ServeConnectionAsWritten | FTServer.java:21-53 | the server as written stalls exactly below 1023 bytes and is malformed exactly when the buffer it read holds no `','`; a saved file goes to `uploads/` + `getFileName` of that buffer and is a prefix of what the header read left |
| Handshake.StreamingWalk | FTClient.java:380-393 | chunks of at most 4096 bytes, each followed by its running total, are accepted by the client protocol and advance the count by their bytes |
| Handshake.OpeningWalk | FTClient.java:363-393 | a 1024-byte header, an acknowledgement and then the chunks with their totals follow the client protocol |
| Handshake.ClosingWalk | FTClient.java:395-401 | the second acknowledgement and the close end the client protocol |
| Handshake.ClientFollowsProtocol | FTClient.java:363-401 | every client run without wrap-around follows header, acknowledgement, chunk/report pairs, acknowledgement, close; it reaches the close exactly when it succeeds; a stall or a short file leaves it mid-protocol |
| Handshake.WrappedTotalLeavesProtocol | FTClient.java:380-385 | one byte sent after `Integer.MAX_VALUE` bytes makes the client report `Integer.MIN_VALUE`, and the protocol rejects that report |
| Handshake.WritesWalk | FTServer.java:122-128 | chunk writes of at most 4096 bytes advance the server's written count by their bytes |
| Handshake.PrologueWalk | FTServer.java:33-40 | header, file replacement, acknowledgement and chunk writes follow the server protocol and put exactly one byte 1 on the socket |
| Handshake.FinishWalk | FTServer.java:41-42 | the second acknowledgement and the close end the server protocol, with a second byte 1 sent |
| Handshake.AcksAppend | FTServer.java:109-113 | the bytes sent over a concatenated trace are those of each part |
| Handshake.ServeDecodedFollowsProtocol | FTServer.java:38-42 | after any decoded header the run follows the protocol and ends exactly when the file is saved; it sends one byte 1 before the payload and a second after it, and a payload stall has sent only the first |
| Handshake.ServeFrameFollowsProtocol | FTServer.java:33-42 | corrected server (Finding 2): after a 1024-byte header every run follows the protocol; it ends exactly when the file is saved, having written all of it before the second acknowledgement; it sends two bytes of value 1 on success, one after a payload stall, none on a malformed header |
| Handshake.ServerFollowsProtocol | FTServer.java:21-53 | corrected server (Findings 1-2): the same for a whole connection; a stall in the header sends nothing |
| Handshake.ServeConnectionAsWrittenFollowsProtocol | FTServer.java:21-53 | the program's server follows the protocol: it stalls with nothing sent exactly below 1023 bytes; a buffer without `','` ends it before any acknowledgement; otherwise it sends one byte 1 after decoding and before the payload and a second after the payload loop, and it closes exactly when the file is saved |
| Transfer.StreamedBytes | FTClient.java:365-393 | up to the last chunk the client has sent the header followed by the chunks' bytes |
| Transfer.WireCarriesHeaderThenFile | FTClient.java:336-405 | a client that never connects sends nothing; otherwise it sends the header and then a prefix of the file; a successful upload of a file of the announced length sends header + file exactly |
| Transfer.FileArrivesIntact | FTServer.java:21-53 | corrected server (Findings 1-2): for an ASCII name not ending in a space and two reply bytes, the upload succeeds; however the transport cuts what the client sent, the corrected server saves exactly the file at `uploads/<name>` and acknowledges twice with 1; the program's server uses `,<name>` instead (Transfer.CommaPrefixesSavedName) |
| Transfer.ReportsAppend | FTClient.java:386-392 | the reports of a concatenated trace are those of each part |
| Transfer.ReportsOfStream | FTClient.java:385-391 | the reports posted during streaming are the loop's counts |
| Transfer.ReportsOfUpload | FTClient.java:376-393 | a successful run posts exactly the chunk loop's counts |
| Transfer.TotalsClimbToFull | FTClient.java:376-393 | the running totals of chunks holding n bytes rise strictly, stay within 1..n, end at n and drive a bar that never moves back and shows 100 only at the end |
| Transfer.ProgressClimbsToFull | FTClient.java:298-308 | on a successful upload of a non-empty file, the counts posted to the progress bar rise strictly to the file length; the bar never moves back and shows 100 on the last report only |
| Transfer.SplitHeaderShiftsFile | FTServer.java:56-68 | on a wire delivering 1023 header bytes first, the header read as written stops at 1023, and the server as written saves a file that starts with the padding byte 32 followed by the file; the exact read saves the file intact |
| Transfer.ShortReadShiftsData | FTServer.java:29-41 | after a header read that stopped at 1023, the server as written receives byte 1023 and then the data as the file |
| Transfer.SplitWireReadsShort | FTServer.java:59-65 | a wire whose first piece is 1023 header bytes makes the loop stop there and leave byte 1023 in front of the data |
| Transfer.LengthOfShortFrame | FTServer.java:71-83 | a buffer missing only byte 1023 of a header still decodes to its length |
| Transfer.FileArrivesOnExactRead | FTServer.java:21-53 | corrected server (Finding 1): it saves the file intact from any wire carrying header + file |
| Transfer.CommaPrefixesSavedName | FTServer.java:86-98 | when the first 1024 bytes reach the header read whole, the server as written saves the file under `','` + name, and the corrected decoding saves it under the name |
| Transfer.WholeFrameRead | FTServer.java:56-68 | when the transport does not cut at 1023, the header read as written takes exactly the first 1024 bytes |

## Left out

- The Swing interfaces (file chooser, file table, progress panels, server log window) are not modelled. `updateProgressBar` is modelled only as the value it would set and whether it reaches 100.
- Threads are not modelled: the server's accept loop, the one-thread-per-connection dispatch, the per-file upload threads and `SwingUtilities.invokeLater`. Each connection and each upload is modelled on its own. `invokeLater` runs posted updates in the order they were posted, so the progress reports are modelled as a sequence in sending order.
- The uploader and connection ids are not modelled, because `UUID.randomUUID` is random and only labels log lines.
- Console and log output is not modelled.
- File-system effects are events, not effects. `saveFile`'s existence check and delete become one `FileReplaced` event. The written file's bytes are the outcome's content. `File.length` and `getName` are parameters.
- `File.separator` is taken to be `/`, as on Unix.
- Whether `new Socket(host, port)` succeeds is a boolean parameter. Other I/O exceptions are not modelled. Neither is a `FileInputStream` that cannot be opened.
- Exceptions that end a run become outcomes: `HeaderOverflow` for the encoder's index overflow, `FileEndedEarly` for `os.write(bytes, 0, -1)`, `MalformedHeader` for `getLengthOfFile` running off the array. Stack traces and printing are not modelled.
- Liveness is not modelled. A read returning -1 inside a `continue` loop spins forever in the source. The model records that as a stalled outcome and makes no claim about time.
- Names holding surrogate code units (characters outside the Basic Multilingual Plane) cannot be represented, because a Dafny `char` is never a surrogate. The characters `(char)` makes from bytes are never surrogates, so `StringBuffer.reverse` is a plain reversal in the model.
- A name character outside ASCII is narrowed by `(byte)` and widened back by `(char)` exactly as Java does. The round-trip lemmas are claimed only for ASCII names, because other names do not come back unchanged.
- Transfer.FileArrivesIntact: stated for the corrected server only. For the program's server, Transfer.CommaPrefixesSavedName and Transfer.SplitHeaderShiftsFile state what happens. The announced length is taken to be the file's byte count. The lemma does not cover a file whose size changes between `file.length()` and reading it.
- Handshake.ClientFollowsProtocol: stated for files below 2^31 bytes. Past that, the client's `int` total wraps to a negative report (FTClient.java:384-385), and the protocol machine rejects that report (Handshake.WrappedTotalLeavesProtocol).
- Transfer.ProgressClimbsToFull: stated for files below 2^31 bytes, because the client's `int` counter wraps past that; UploadSession.UploadLoop states that such a file never completes.
- Progress.Percentage: requires a non-zero length unless the count equals it. Java would throw `ArithmeticException` there, which no upload reaches: an empty file posts no report.
- Progress.Percentage: states the value only for lengths up to `Long.MAX_VALUE / 100`. For a longer file, `bytesUploaded * 100` can overflow a `long`. The wrapped value is computed but not characterised.
- HeaderDecode.GetFileName: the name decoded from a header of which the as-written read took only 1023 bytes is given by the general contract only. No lemma names it.
- ReceiveSession.DestinationInjective: the lemma is about the path string. The path normalisation of `java.io.File` is not modelled, so two different strings such as `a/` and `a`, or `a//b` and `a/b`, can still name the same file.
- ReceiveSession.ReceiveLoop: the server's `long m` is kept unbounded. It cannot wrap for any stream shorter than 2^63 bytes.

## Findings

| source | as written | input that shows it | evidently intended | confidence | as-written member | corrected member |
|---|---|---|---|---|---|---|
| FTServer.java:59-65 | `readHeaderData` loops while `j < 1024` with `j` one ahead of the count `i`, so it returns once 1023 bytes are in | a transport that hands over the header's first 1023 bytes as one piece, then byte 1023 and the file `hi`: the header read stops at 1023 and the padding byte leads the data, so the saved file starts with a space where `h` belongs | keep reading until all 1024 header bytes are in | not executed | Transfer.SplitHeaderShiftsFile | ReceiveSession.ReadHeaderExact, ReceiveSession.ServeConnection, Transfer.FileArrivesOnExactRead |
| FTServer.java:89-97 | `getFileName` scans back over zero bytes, but the client pads with spaces (32); it then collects from `i - 1` down to 0, and `trim` removes only the digits, not the separator | the header for `test.txt` (8 bytes): the name read back is `,test.txt`, so the file is saved as `uploads/,test.txt` | the text between the separator and the padding | not executed | HeaderDecode.GetFileNameKeepsSeparator | HeaderDecode.DecodeHeaderRoundTrip, ReceiveSession.ServeFrame, Handshake.ServerFollowsProtocol, Transfer.FileArrivesIntact |
