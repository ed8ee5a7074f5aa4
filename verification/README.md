# Verified models of iop-hal's digest, parsers, string and log algorithms

iop-hal is a hardware abstraction layer for IoT firmware. This project models its algorithmic core in Dafny and
proves what that core is for, over all inputs and all runs:

- **MD5.** The streaming `MD5_Init` / `MD5_Update` / `MD5_Final` equals the one-shot definition of RFC 1321 for every
  way of cutting the message and for every word type of 32 bits or more, as `src/cpp17/md5.hpp` claims. The definition
  is written out in `Rfc1321.dfy`; the implementation, in `Md5.dfy`, is a class with the fields of `MD5_CTX`, whose
  registers are natural numbers below a power of two that is a parameter (`width`). `longWidth` is the number of bits
  of `unsigned long`. The two users of the digest, the firmware hashes of the POSIX and the ESP devices, follow.
- **HTTP client and server.** The client's response loop over a fixed buffer is proved against a grammar on whole
  texts: a run ends in the final return exactly when no read splits a line, and then its result does not depend on
  the cuts. The server's request parser and response printer are modelled the same way, and the two programs are
  proved against each other in both directions: the server reads what the client prints, the client reads what the
  server prints.
- **Forms.** `percentDecode` and `arg` undo every reasonable printing of a form.
- **Strings.** `hashString` tells any two texts apart that differ in one byte; `scapeNonPrintable` is one function in
  spite of its fast path.
- **Logs.** The global four-state machine prints well-framed lines exactly when every line is proper.

Where a property does not hold on all inputs, the model keeps what the code does, a lemma shows a concrete input, and
the exact condition is proved: `HttpServer.PayloadExactly`, `RoundTrip.RequestReadExactly`, `Form.ArgExactly`,
`Form.PastEndExactly`, `HeaderLookup.RightLineExactly`, `HttpClient.ViewIsLineExactly`, `HttpClient.PathOfStripped`,
`Escape.UnescapedUndoes`, `LogLines.FramesExactly`, for cut requests `RoundTrip.RequestCutExactly`, and for cut responses
`HttpClient.ReadResponse` with `HttpClient.AlignedOrFails`.

## Files

| file | models |
|---|---|
| `Bits.dfy` | unsigned words of any width and the bitwise operators of C |
| `Rfc1321.dfy`, `Md5Step.dfy`, `Md5.dfy` | the RFC, the macros, the streaming digest |
| `FirmwareHash.dfy` | chunked hashing and the two `firmwareMD5` |
| `StringHash.dfy`, `Escape.dfy` | `src/string.cpp` |
| `LogLines.dfy` | the log state machine |
| `Text.dfy` | `find`, C strings, decimal numbers, header lines |
| `ResponseGrammar.dfy`, `HttpClient.dfy`, `HeaderLookup.dfy` | the client |
| `Form.dfy`, `HttpServer.dfy` | the server |
| `RoundTrip.dfy`, `ResponseTrip.dfy` | client and server against each other |

A read of a socket is an element of a list of byte chunks, a write appends to an output text. Constants of the code, such as
the seed of the hash, the level names or the reason phrases, are pinned by statements with the numbers and texts written
out. Allocation results, flash read results, whether the station has an address and whether `char` is signed are
parameters. Strings are sequences of characters, one per byte. `dafny verify dfyconfig.toml` checks everything. Nothing was
executed.

Code and documentation disagree in one place that matters here: the client's panic message speaks of header lines above
4 KB (`src/openssl/client.hpp:257`), while its buffer has 8192 bytes (`src/openssl/client.hpp:34`) and the panic happens
on any read without a newline before the payload. The model follows the code.

## Model

| member | source | states |
|---|---|---|
| `Md5Step.SelectForms` | src/cpp17/md5.hpp:66-67 | The selection that `F` (and, with its arguments turned round, `G`) computes without an and-not is the RFC's `xy v not(x)z`, for words of any width |
| `Bits.BitwiseBits` | src/cpp17/md5.hpp:66-77 | The operators `&`, `|` and `^` on words of any width, bit by bit: both, either, just one |
| `Md5Step.ExpandIsAuxiliary` | src/cpp17/md5.hpp:59-70 | On 32-bit words `F`, `G`, `H`, `H2` and `I` are the functions of RFC 1321 section 3.4 for the round they are used in |
| `Md5Step.ExpandTrunc` | src/cpp17/md5.hpp:45-46 | Each macro on words of any width from 32 bits up agrees, modulo 2^32, with itself on the low 32 bits, the complement in `I` included |
| `Md5Step.RotateTrunc` | src/cpp17/md5.hpp:77 | Modulo 2^32, the shift-or-mask expression on a wide word is the RFC's circular rotation of its low 32 bits |
| `Md5Step.StepIsOperation` | src/cpp17/md5.hpp:75-78 | One `STEP` on registers of any width from 32 bits up computes, modulo 2^32, the operation of step `i` of RFC 1321 section 3.4 |
| `Md5Step.FourSteps` | src/cpp17/md5.hpp:134-204 | Four consecutive `STEP` lines, which rotate the names of the registers, make four table-driven steps of the RFC, which rotate the registers |
| `Md5.OrOfBytes` | src/cpp17/md5.hpp:103-106 | Or-ing the four shifted bytes of `SET` gives the little-endian word |
| `Md5.Context.Set` | src/cpp17/md5.hpp:101-108 | Returns the RFC's word `n` of the block and caches it without disturbing the words cached before, which is what later `GET`s rely on |
| `Md5.Context.Round1FirstHalf` | src/cpp17/md5.hpp:134-142 | From any registers, steps 1 to 8 of the RFC modulo 2^32; words 0 to 7 of the block are cached |
| `Md5.Context.Round1SecondHalf` | src/cpp17/md5.hpp:143-150 | Steps 9 to 16 of the RFC; all 16 words are cached |
| `Md5.Context.Round2` | src/cpp17/md5.hpp:152-168 | Steps 17 to 32 of the RFC, with the words read in the order `5i+1 mod 16` |
| `Md5.Context.Round3` | src/cpp17/md5.hpp:170-186 | Steps 33 to 48 of the RFC, with `H` and `H2` alternating and the words read in the order `3i+5 mod 16` |
| `Md5.Context.Round4` | src/cpp17/md5.hpp:188-204 | Steps 49 to 64 of the RFC, with the words read in the order `7i mod 16` |
| `Md5.SumsReduce` | src/cpp17/md5.hpp:206-209 | Adding the saved registers at the machine's width is the RFC's addition modulo 2^32 |
| `Md5.Context.Body` | src/cpp17/md5.hpp:111-220 | For every positive multiple of 64 bytes the loop ends, returns the end of its input, and leaves registers that reduce to the RFC's fold of the compression over those blocks |
| `Md5.Context.Init` | src/cpp17/md5.hpp:222-231 | Establishes the invariant of a digest in progress, for the empty message |
| `Md5.CountersAdvance` | src/cpp17/md5.hpp:238-241 | After any number of bytes, `lo` is the length modulo 2^29 and `hi` the rest modulo its width: the comparison detects exactly the carry, sizes of 2^29 and more included, and the widths of the operands do not matter |
| `Md5.UsedBytes` | src/cpp17/md5.hpp:243 | `lo & 0x3f` is the number of bytes of the message behind its last whole block |
| `Md5.Context.Update` | src/cpp17/md5.hpp:233-265 | Keeps the invariant and appends exactly `data[..size]` to the message: the registers are the fold over all whole blocks, the buffer holds exactly the bytes left over, the counters hold the length |
| `Md5.Context.Absorb` | src/cpp17/md5.hpp:243-264 | Pending bytes and new bytes together are compressed block by block in order, and what is left over is in the buffer, whether or not a block could be completed |
| `Md5.Context.AbsorbRest` | src/cpp17/md5.hpp:259-264 | The whole blocks are compressed in place and the rest, shorter than a block, is copied |
| `Md5.Context.Out` | src/cpp17/md5.hpp:267-271 | Stores the low 32 bits of a word of any width, low-order byte first, and nothing else |
| `Md5.LowBytes` | src/cpp17/md5.hpp:267-271 | The four bytes that `OUT` takes from a wide word are those of its low 32 bits |
| `Md5.BitLength` | src/cpp17/md5.hpp:292-294 | The low 64 bits of the length in bits, as two words, come from the two parts of the byte count |
| `Md5.LengthBytesOfCounters` | src/cpp17/md5.hpp:292-294 | Shifting `lo` left by three and writing both counters gives the low 64 bits of the length in bits, low-order word first (RFC 1321 section 3.2) |
| `Rfc1321.PaddingIsShortest` | src/cpp17/md5.hpp:279-290 | The number of zero bytes of the padding completes a block and is the least that does |
| `Rfc1321.PaddingBlocks` | src/cpp17/md5.hpp:283-294 | The padded rest of a message is one block if it leaves eight bytes for the length and two blocks otherwise |
| `Md5.Context.FinalBlocks` | src/cpp17/md5.hpp:279-296 | Both padding cases compress exactly the pending bytes followed by the padding of RFC 1321 sections 3.1 and 3.2 |
| `Md5.Context.LengthBlock` | src/cpp17/md5.hpp:290-296 | The last block is the bytes kept, zeros and the length |
| `Md5.Context.OutputRegisters` | src/cpp17/md5.hpp:298-301 | The 16 result bytes are the RFC's output of the registers (section 3.5) |
| `Md5.Context.Final` | src/cpp17/md5.hpp:273-304 | The result is the RFC 1321 digest of the whole message passed to `Update`, for every word width; the bytes behind the result are untouched and the context is zeroed |
| `Md5.Context.Clear` | src/cpp17/md5.hpp:303 | Every field, the buffer and the cache are zero |
| `Rfc1321.Feed` | src/cpp17/md5.hpp:243-264 | For the reference: once its whole blocks are digested, only the bytes behind the last one matter for what follows |
| `Rfc1321.TailOfConcat` | src/cpp17/md5.hpp:243-264 | For the reference: the bytes left over depend only on those left over before and the new ones |
| `Rfc1321.PadsTail` | src/cpp17/md5.hpp:273-301 | For the reference: the one-shot digest of the padded message is reached from the state and tail that a streaming digest keeps |
| `FirmwareHash.HashChunks` | src/cpp17/md5.hpp:55-57 | For every list of chunks of any sizes, empty ones included, and every word width from 32 bits up: one Init, one Update per chunk and one Final give the RFC 1321 digest of the concatenation |
| `FirmwareHash.Device.FirmwareMD5` | src/cpp17/device.hpp:25-53 | Panics exactly when the file cannot be opened, read and closed and nothing is cached; otherwise the first call returns the upper-case hexadecimal RFC 1321 digest of the file, and every later one the same text whatever the file holds by then |
| `FirmwareHash.Device.WriteHex` | src/cpp17/device.hpp:47-49 | The 32 characters are the two digits of each byte in order |
| `FirmwareHash.HexTextReadsBack` | src/cpp17/device.hpp:47-49 | The text is twice as long as the digest and every byte can be read back from it |
| `FirmwareHash.HexDigitsPrinted` | src/cpp17/device.hpp:47-49 | All sixteen digits, in capitals, the high one of a byte first |
| `FirmwareHash.HexTextConcat` | src/cpp17/device.hpp:47-49 | The text of a concatenation is the concatenation of the texts |
| `FirmwareHash.EspDevice.FirmwareMD5` | src/arduino/esp/device.hpp:34-75 | For every image size, every outcome of the allocations and every outcome of the reads: too low on RAM exactly when neither 512 nor 256 bytes could be had, else a flash error exactly when a read of the chosen size fails, else the RFC 1321 digest of exactly the image; only a success is cached |
| `FirmwareHash.EspDevice.HashFlash` | src/arduino/esp/device.hpp:54-70 | Hashes `flash[0..size)` in order, each byte once, whatever the buffer size |
| `FirmwareHash.EspDevice.AddBlock` | src/arduino/esp/device.hpp:57-66 | The aligned read fits the buffer and only the bytes of the image in it are hashed |
| `StringHash.HashString` | src/string.cpp:18-34 | The loop and the five lines compute the function about which the lemmas below are proved |
| `StringHash.OneByteHash` | src/string.cpp:18-34 | The hash of one byte, with the seed, the prime and the sign extension written out |
| `StringHash.KnownHashes` | src/string.cpp:18-34 | The hashes of the empty text, of `a`, of `ab` and of the byte 128 for both kinds of `char`, as numbers |
| `StringHash.MixUndone` | src/string.cpp:23-25 | A turn of the loop can be undone by whoever knows the byte: the prime has an inverse modulo 2^64 |
| `StringHash.MixTellsBytesApart` | src/string.cpp:23-25 | From the same state, a turn of the loop gives the same state for two bytes only if they are equal, with signed and with unsigned `char` |
| `StringHash.FinishIsBijective` | src/string.cpp:27-31 | The five avalanche lines are a bijection of the 64-bit words, with an explicit inverse |
| `StringHash.RewindUndoesAbsorb` | src/string.cpp:21-25 | The loop run backwards over the text gives back the state it started from |
| `StringHash.AbsorbConcat` | src/string.cpp:21-25 | The loop over a concatenation is the loop over the parts |
| `StringHash.HashRewinds` | src/string.cpp:18-34 | The hash and the last bytes of a text determine the state before them |
| `StringHash.CommonSuffix` | src/string.cpp:18-34 | A common suffix neither makes nor hides a collision (both directions) |
| `StringHash.OneByteChange` | src/string.cpp:18-34 | Changing one byte of any text changes the hash if and only if the byte changes |
| `Escape.IsAllPrintable` | src/string.cpp:36-46 | True exactly when every character lies between 32 and 126 |
| `Escape.ScapeNonPrintable` | src/string.cpp:48-65 | The fast path and the loop compute one function; the result is a view of the argument exactly when every character lies between a space and a tilde |
| `Escape.EscapedConcat` | src/string.cpp:55-63 | Escaping distributes over concatenation |
| `Escape.EscapedShape` | src/string.cpp:55-63 | The result is printable, at least as long as the text and at most six times as long, and longer exactly when something was escaped |
| `Escape.EscapedFixpoints` | src/string.cpp:48-65 | Escaping is the identity exactly on texts of the characters from the space to the tilde, and idempotent |
| `Escape.PrintableUnchanged` | src/string.cpp:49-50 | The fast path agrees with the loop |
| `Escape.UnescapedUndoes` | src/string.cpp:55-63 | Reading the escapes from left to right gives the text back if and only if the text holds nothing that looks like an escape; otherwise the result is shorter |
| `Escape.UnescapedUndoesPlain` | src/string.cpp:55-63 | In particular on every text without the two characters that open an escape |
| `Escape.TwoTextsOneEscape` | src/string.cpp:55-63 | A concrete text on which escaping cannot be undone |
| `LogLines.LogSystem.UpdateState` | include/iop-hal/log.hpp:147-161 | The state before a piece of a line |
| `LogLines.LogSystem.FinalizeState` | include/iop-hal/log.hpp:162-177 | The state before the end of a line |
| `LogLines.LogSystem.PrintLogType` | src/log.cpp:71-101 | Prints the five events of the header exactly for START and STARTEND |
| `LogLines.LogSystem.Log` | src/log.cpp:103-135 | What one call prints; nothing below the threshold |
| `LogLines.EnabledExactly` | include/iop-hal/log.hpp:31 | Which levels each threshold lets through, as sets |
| `LogLines.HeaderText` | src/log.cpp:71-101 | The text of the header of each level, written out |
| `LogLines.LevelKept` | src/log.cpp:103-118 | Everything that a call prints has the level of the call |
| `LogLines.WarningPrinted` | src/log.cpp:103-118 | A warning at the default threshold, event by event |
| `LogLines.LogSystem.Piece` | include/iop-hal/log.hpp:181-184 | Every call of every logger keeps the invariant: the events printed are a function of the calls made so far |
| `LogLines.LogSystem.Line` | include/iop-hal/log.hpp:229-232 | The same for the calls that end a line |
| `LogLines.EventsConcat` | src/log.cpp:103-118 | What later calls print depends on the earlier ones only through the state |
| `LogLines.WholeLine` | src/log.cpp:71-118 | A line prints its header if it starts here and its first call is enabled, every enabled message in order, and the newline if its last call is enabled |
| `LogLines.LineVersusFrame` | src/log.cpp:103-118 | One line prints its frame, whatever follows, exactly when it is proper: if anything of it is shown, its first call is, and its last one if it is ended |
| `LogLines.FramesExactly` | src/log.cpp:71-118 | Over every run of calls of any loggers, the output is the sequence of the frames of the lines if and only if every line is proper |
| `LogLines.HeaderLost` | src/log.cpp:106-107 | A concrete run whose line starts filtered: text without a header |
| `LogLines.NewLineLost` | src/log.cpp:106-107 | A concrete run whose line ends filtered: a frame left open |
| `LogLines.ReadFrames` | src/log.cpp:71-118 | A sequence of frames reads as START, CONTINUITY+, END over and over, with at most one frame open at the end |
| `LogLines.LineText` | src/log.cpp:87-91 | The text of an enabled line is `[LEVEL] target: `, its messages in order, and a newline if it is ended |
| `LogLines.UniformIsProper` | src/log.cpp:106-107 | Lines whose calls are all enabled or all filtered are proper |
| `LogLines.RunReadsAsLines` | src/log.cpp:71-135 | Over every run of calls from any interleaving of loggers in which each line is all enabled or all filtered, the output is well-framed lines and no reader is ever lost |
| `HttpClient.Socket.Recv` | src/openssl/client.hpp:104-111 | A read brings at most `len` of the bytes waiting, at the place asked for, and leaves the rest |
| `HttpClient.ShiftChars` | src/openssl/client.hpp:38-45 | The bytes kept are moved to the front and everything behind them is NUL |
| `HttpClient.ViewIsLine` | src/openssl/client.hpp:314-337 | Matching a key against the whole buffer and reading its value there is the same as on the first line alone: a match cannot reach into the CRLF and the loop that skips spaces stops at the CRLF at the latest |
| `HttpClient.ViewIsLineExactly` | src/openssl/client.hpp:314-337 | Of the lower-case keys, that holds of exactly those that hold no CRLF and do not end with a CR, or hold a NUL and never match; for every other one, there is a view on which the two differ |
| `HttpClient.CollectHeaders` | src/openssl/client.hpp:314-337 | The loop over the keys collects from the line at the front of the buffer what the grammar says |
| `HttpClient.ReadHeaderLines` | src/openssl/client.hpp:300-351 | Succeeds exactly when the bytes in the buffer are whole header lines up to a blank line or the end; discarded bytes followed by the buffer are always the bytes it started with; without a blank line nothing is left |
| `HttpClient.ReadStatusLine` | src/openssl/client.hpp:266-290 | Finds the status of the first read exactly when its view ends and holds a positive number; the rest of the buffer is what follows the first newline |
| `ResponseGrammar.Spaces` | src/openssl/client.hpp:278 | The six characters that `atoi` skips |
| `ResponseGrammar.AtoiReads` | src/openssl/client.hpp:278 | `atoi` of white space, a number with or without a sign, and what does not go on with a digit |
| `ResponseGrammar.AtoiOfNothing` | src/openssl/client.hpp:278 | And 0 where there is no number |
| `HttpClient.ParseChunk` | src/openssl/client.hpp:234-351 | One read parsed from each state of the loop; the reason of a failure is exactly the one the order of the checks gives |
| `HttpClient.Turn` | src/openssl/client.hpp:218-362 | One turn keeps the invariant of the loop: what has been received so far parses to exactly the status, headers and payload held, and discarded bytes followed by the payload are all of it |
| `HttpClient.ReadResponse` | src/openssl/client.hpp:189-372 | For every sequence of reads: the final return is reached exactly when the socket does not fail and no cut splits a line, and then the result is the grammar's parse of all bytes as one text; otherwise the outcome is fixed by the first read that splits a line; `size` is 0 at the head of the loop |
| `HttpClient.FailureOn` | src/openssl/client.hpp:256-290 | A read that cannot be parsed ends in a panic exactly if it has no newline, and in an overread exactly if it is the first, fills the 8192 bytes and has no NUL behind the ninth |
| `HttpClient.AlignedOrFails` | src/openssl/client.hpp:199-362 | Either every read is aligned or one of them is the first that is not |
| `HttpClient.ReadTwice` | src/openssl/client.hpp:199-372 | Two connections that deliver the same bytes cut differently never return different answers: each run returns the same status, headers and payload or stops with an error |
| `ResponseGrammar.ParseHeadersResumes` | src/openssl/client.hpp:300-351 | Header lines that parse so far parse on from there, whatever comes next |
| `ResponseGrammar.ParseResumes` | src/openssl/client.hpp:199-362 | The same for a response; this is what makes the result independent of the cuts |
| `ResponseGrammar.HeadersComplete` | src/openssl/client.hpp:300-351 | A header section parses exactly when it holds a blank line or ends with its last line, and the payload is what follows the first blank line |
| `ResponseGrammar.ParsesExactly` | src/openssl/client.hpp:256-351 | Which texts parse, in terms a caller can check: a positive status code, a newline, and behind it nothing, whole lines or a blank line |
| `ResponseTrip.CutsAtLineEnds` | src/openssl/client.hpp:199-362 | Cutting behind any CRLF, or anywhere behind the blank line, is aligned |
| `ResponseTrip.SplitHeaderLine` | src/openssl/client.hpp:347-350 | A concrete response that is accepted in one read and refused when a cut splits a header line |
| `HttpClient.PathOfStripped` | src/openssl/client.hpp:157-159 | For the URI a session holds, without its scheme: the path sent is the text from the first slash on if and only if no `://` is left in it, or the first slash behind that is as far from it as the first slash of all is from the start |
| `HttpClient.UrlInQuery` | src/openssl/client.hpp:157-159 | A concrete session, of `http://h:80/p?u=http://x/y`, whose request asks for `:80/p?u=http://x/y` |
| `HttpClient.Session.SendHeaders` | src/openssl/client.hpp:176-181 | Every header is sent once, in some order |
| `HttpClient.Session.SendHead` | src/openssl/client.hpp:168-175 | The request line and the length line |
| `HttpClient.RequestPrinted` | src/openssl/client.hpp:168-183 | A whole request, written out |
| `HttpClient.Session.SendRequest` | src/openssl/client.hpp:144-373 | Sends exactly the printed request, with the headers in some order, and returns as the response loop does; sends nothing without a connection |
| `HeaderLookup.HTTPClient.HeadersToCollect` | src/openssl/client.hpp:113-119 | The keys are kept in order, each spelled the same and without capitals |
| `Text.LowerSame` | src/openssl/client.hpp:113-124 | Two texts agree in lower case exactly when they are spelled the same, with capitals 32 below small letters |
| `Text.LowerIs` | src/openssl/client.hpp:113-124 | Lower case is the one spelling without capitals |
| `HeaderLookup.CollectLineAt` | src/openssl/client.hpp:314-337 | Whatever the other keys and their order, a line writes the entry of a key only if it starts with that key and the entry is still free |
| `HeaderLookup.CollectedFirst` | src/openssl/client.hpp:300-351 | Each key gets the rest of the first line that starts with it |
| `HeaderLookup.RightLineExactly` | src/openssl/client.hpp:316-328 | The line taken is the first header of that name if and only if the first line that starts with the key is a header of that name |
| `HeaderLookup.HeaderIgnoresCase` | src/openssl/client.hpp:113-126 | From end to end, with any casing at both ends: `header` returns the rest of the first line that starts with the key, and under the condition above the space-trimmed value of the first header of that name, or nothing exactly when there is none |
| `ResponseTrip.CasingIgnored` | src/openssl/client.hpp:113-126 | A concrete response: `header("ETAG")` returns `7` for the line `ETag: 7` and the key `etag` |
| `ResponseTrip.LongerNameTaken` | src/openssl/client.hpp:316-328 | A concrete response on which `header("etag")` returns the value of `etags` |
| `Form.PercentDecode` | src/posix/server.hpp:292-328 | On every view followed by `&` or NUL the pointer loop agrees with a decoder that never looks behind the view, although it reads up to two characters there; where its reading ends is stated exactly |
| `Form.HexDigits` | src/posix/server.hpp:295-312 | The table gives a value to exactly the 22 hexadecimal digits |
| `Form.DecodedGoesOn` | src/posix/server.hpp:314-327 | Decoding a text without raw NULs and going on is decoding the whole |
| `Form.DecodedStops` | src/posix/server.hpp:314-327 | A raw NUL ends the value; an escape that is cut or not hexadecimal leaves none |
| `Form.PastEndExactly` | src/posix/server.hpp:317-320 | The loop reads two characters behind its view exactly when the view ends with a `%`, what is before it decodes, and no NUL stops the loop |
| `Form.PastEndIsNothing` | src/posix/server.hpp:317-322 | And then there is no value |
| `Form.DecodedUndoesEncoded` | src/posix/server.hpp:314-327 | Decoding inverts every encoder that escapes at least `%` and NUL, with upper- and lower-case digits in any mixture |
| `Form.Arg` | src/posix/server.hpp:337-360 | For every payload and name, the result is that of the specification the lemmas below are about, whatever lies behind the payload in memory; the character behind the NUL of the payload is read exactly when the field found is the last one and ends with a `%` at which decoding arrives |
| `Form.SearchFindsAlways` | src/posix/server.hpp:342-346 | In a printed form, the search for `&name=` finds the first later field of that name, and none exactly when there is none |
| `Form.IntendedIsFirst` | src/posix/server.hpp:342-346 | On any payload, looking for `name=` at the start and then for `&name=` anywhere finds the first of the fields between the `&`s that starts with `name=`, and none exactly when none does |
| `Form.ArgUndoesForm` | src/posix/server.hpp:337-360 | For every printed form, `arg` returns the value of the first field of that name, and nothing exactly when there is none |
| `Form.FormReadInside` | src/posix/server.hpp:337-360 | On a printed form, a value is found exactly when there is a field of that name, and nothing behind the NUL is read |
| `Form.PercentAtEnd` | src/posix/server.hpp:317-320 | A concrete body, `a=%`, on which the character behind the NUL is read |
| `Form.ArgExactly` | src/posix/server.hpp:342-346 | On all payloads and names, `arg` is off if and only if `&name=` stands at the very start and the escapes of its value are well-formed; then the value starts with the `=`; what it is measured against is, for names without `&`, the value of the first field that starts with `name=` |
| `Form.LeadingAmpersand` | src/posix/server.hpp:342-346 | A concrete payload of that kind |
| `Form.NoLeadingAmpersand` | src/posix/server.hpp:342-346 | No printed form is of that kind |
| `HttpServer.DropLinesExactly` | src/posix/server.hpp:232-247 | The payload is what follows the first blank line; without one it is empty if the last line is whole, and the server panics if not |
| `HttpServer.PayloadExactly` | src/posix/server.hpp:222-247 | In a request with a blank line, the payload is everything after the first one if and only if a header line stands before it or nothing follows it |
| `HttpServer.PayloadLost` | src/posix/server.hpp:222-247 | A concrete request without header lines on which the server panics |
| `HttpServer.OutcomeExactly` | src/posix/server.hpp:196-263 | How every request text ends: not dispatched exactly without any of the three method names, cut too short exactly if it is no more than one of them, and otherwise dispatched exactly if it has a line end and behind the first one nothing, whole lines or a blank line |
| `HttpServer.OneRead` | src/posix/server.hpp:157-158 | A read brings a prefix of the request, of 4096 characters at most |
| `HttpServer.HttpServer.DropHeaderLines` | src/posix/server.hpp:232-247 | The loop ends and leaves exactly that payload at the front of the buffer |
| `HttpServer.HttpServer.ParseAndDispatch` | src/posix/server.hpp:196-263 | The outcome of every request text, and the route and payload the handler sees |
| `HttpServer.HttpServer.HandleClient` | src/posix/server.hpp:115-272 | The outcome of every read; unless the server panicked, the connection is reset, keeps only the route, and the server is free again |
| `HttpServer.HttpConnection.Reset` | src/posix/server.hpp:330-336 | Everything but the route is cleared |
| `HttpServer.HttpConnection.SendHeader` | src/posix/server.hpp:396-399 | Appends one header line to those given so far |
| `HttpServer.HttpConnection.Send` | src/posix/server.hpp:362-390 | Writes exactly the printed response, and panics exactly without a client, with a code other than 200, 302 and 404, or with an empty content type; what it has written before a panic is stated too |
| `HttpServer.KnownCodes` | src/posix/server.hpp:41-51 | The codes that do not panic are 200, 302 and 404 |
| `HttpServer.StatusLines` | src/posix/server.hpp:371-375 | The three status lines, written out |
| `HttpServer.NotFoundPrinted` | src/posix/server.hpp:362-388 | A whole response, written out |
| `HttpServer.HttpConnection.SendHead` | src/posix/server.hpp:371-378 | The status line and the type line; an empty content type fails the check of the write at line 37 |
| `RoundTrip.LinesDropped` | src/posix/server.hpp:232-247 | The server drops every header line that the client printed and nothing of the data |
| `RoundTrip.SectionBlank` | src/openssl/client.hpp:172-183 | The first blank line of a printed request is the one behind its headers |
| `RoundTrip.RequestRoundTrip` | src/openssl/client.hpp:168-183 | Every printed request (section 5 of RFC 1945) on a path without a space, with any headers in any order and any data, is dispatched on exactly its path with exactly its data, if no method name that the server looks for first occurs in it |
| `RoundTrip.RequestReadExactly` | src/posix/server.hpp:198-219 | Those conditions are exact: a path with a space is never the route, nor is any path after an earlier method name, but for OPTIONS on a path `NS` or `ONS`, which is what the server then leaves of the method name (both directions) |
| `RoundTrip.PrefixParsed` | src/posix/server.hpp:157-263 | What the server makes of every prefix of a printed request, such as its one read may bring: the part of the data that is there, or nothing behind whole header lines, or no dispatch |
| `RoundTrip.RequestCutExactly` | src/posix/server.hpp:157-263 | For every length of that prefix: it is dispatched on the path with the data if and only if the route is taken right and nothing is missing, or there is no data and only whole header lines are missing |
| `RoundTrip.DataCut` | src/posix/server.hpp:157-263 | A cut inside the data goes unnoticed: the handler gets exactly the part of the data before the cut |
| `RoundTrip.LongPost` | src/posix/server.hpp:157-158 | A concrete request, a POST of 5000 bytes, of which the handler gets the first 4054 |
| `RoundTrip.PostInData` | src/posix/server.hpp:198-202 | A concrete GET that is dispatched on another route because its data says POST |
| `ResponseTrip.Ask` | src/openssl/client.hpp:144-183 | The client asks and the server dispatches, through both programs, on what one read of 4096 bytes brings: the outcome for every size of the request, and exactly when it is the path with the data |
| `ResponseTrip.StatusCodeRead` | src/openssl/client.hpp:269-278 | The client reads the code that the server printed |
| `ResponseTrip.SectionAfterBlank` | src/openssl/client.hpp:300-351 | The content of a printed response is what follows its first blank line, as no header line is empty |
| `ResponseTrip.ResponseParses` | src/posix/server.hpp:362-390 | Every printed response (section 6 of RFC 1945) parses, with any collected keys, to the same code and the same content |
| `ResponseTrip.SectionLines` | src/posix/server.hpp:376-385 | The lines of a printed header section are its headers: looking a key up in the text is looking it up in the list |
| `ResponseTrip.TakenRight` | src/openssl/client.hpp:316-328 | If the first name that starts with the key is the key, what is taken is the trimmed value of the first header of that name |
| `ResponseTrip.ResponseHeaderTravels` | src/posix/server.hpp:362-399 | For every list of headers, a collected header, asked for in any casing, has what the first printed line that starts with it holds; if that is a header of that name, this is the value that the server gave it, without leading spaces, and there is none exactly when there is no such header; the type and length headers of the server are included |
| `ResponseTrip.Exchange` | src/posix/server.hpp:362-390 | A handler answers and the client reads, with the bytes cut anywhere between lines: same code, same content, and for every collected header in every casing what the lemma above says |

## Left out

- Sockets, `accept`, `fcntl`, retries on `EAGAIN`, TLS, DNS, Wi-Fi, updates, GPIO and the `noop` backends: input and output. Writes are complete, and a failing read is one that returns a negative number.
- The origin of the MD5 table in the sine function, of which RFC 1321 prints the numbers in its appendix, and the unaligned-cast variant of `SET`, which reads the same little-endian word on the machines that use it.
- Md5.Context.Set: takes the 64 bytes of a block as a value, since `body` only reads them; that `body` may be given the context's own buffer is kept, in `Body`.
- Md5.Context.Body: the 64 steps of its loop are split into one method per round, two for the first, without other change.
- FirmwareHash.EspDevice.FirmwareMD5: the digest of the Arduino core's `MD5Builder` is modelled by the same MD5 context and returned as 16 bytes; its hexadecimal text is foreign code.
- FirmwareHash.Device.FirmwareMD5: `front()` of an empty file is not modelled; the NUL that `sprintf` writes behind each pair of digits is left out.
- HttpClient.ReadResponse: each read brings from 1 to 8192 bytes, and no collected key holds a CRLF or ends with a CR unless it holds a NUL; `ViewIsLineExactly` shows that for any other key in lower case what is collected is not a function of the header lines. A first read that fills the buffer with no NUL behind its ninth byte makes the status view run past the buffer; that is the outcome `Overread`, of which nothing more is said.
- ResponseGrammar.StatusCodeExtends: `atoi` is modelled on unbounded integers; a status that does not fit an `int` is not modelled.
- HttpClient.Session.SendRequest: the order in which a hash map yields its headers is arbitrary. `HTTPClient::begin`, which strips the scheme before a session exists, is not modelled, so `PathOf` is stated for every text. `addHeader` and `setAuthorization` keep the first value of a key and have no row.
- HeaderLookup.HeaderIgnoresCase: one direction only for the value: when the first line that starts with the key is another header, its value may still happen to be the same text; which line is taken is stated in both directions by `RightLineExactly`.
- HttpServer.HttpServer.HandleClient: a request is what one read brings, at most 4096 bytes, as in the code, which leaves its loop after the first read; that a request may be longer is the subject of `RequestCutExactly`. The handlers are callbacks; the model ends with the route and payload they are given, and whether the route is known.
- Form.PercentDecode: the table of hexadecimal digits holds -1 in a `char`, which is taken to be signed, as on the targets of the POSIX server. `+` for a space is not decoded by the code and not modelled.
- Form.ArgUndoesForm: the keys of a form and the name asked for hold neither `&` nor `=`, which would need escapes that the code does not undo in keys.
- LogLines.LogSystem.Log: flushing, hook swapping, tracing and the log calls of other types of argument, which convert to text first, are left out.
- `Moment`, `Storage`, status and code names, certificate lookup: easy members.
