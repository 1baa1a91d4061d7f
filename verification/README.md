# aprx TNC line layer (ttyreader.c) in Dafny

This project models the serial/TCP TNC line layer of aprx, `ttyreader.c`. A
*line* is one serial device or `tcp!host!port!opts` connection to a TNC. Its
record (`Lines.Line`, the C `struct serialport`) holds:

- a read buffer with a consume cursor;
- an in-progress frame with a decoder state (sync-hunt, collecting, escape
  pending);
- a write buffer with a send cursor;
- 16 sub-channel slots, each with a callsign binding, an internal AX.25
  network handle and an init string;
- the SMACK bits and probe deadlines;
- the idle timer and the reconnect deadline.

Every operation is a pure function from a line (and the current time) to a new
line plus the effects it hands to collaborators. Those effects are
`Lines.Event` values: `erlang_add` RX/TX/DROP counts, `ax25_to_tnc2`,
`netax25_sendax25` and `igate_to_aprsis`.

Syscall and collaborator results come from an `Lines.Io` record of functions:
`read`, `write`, `open` plus `tcsetattr`, `getaddrinfo` plus `socket` plus
`connect`, `crc16_calc`, `kissencoder` and the accept/reject answer of
`ax25_to_tnc2`. Time is the parameter `now`.

Modules, following the source:

- `Bytes`: byte type, KISS marker bytes (FEND 0xC0, FESC 0xDB, TFEND 0xDC,
  TFESC 0xDD, from Chepponis and Karn, "The KISS TNC"), CR/LF, and small
  sequence helpers.
- `Kiss`: the KISS stream decoder of `ttyreader_getc` and
  `ttyreader_pullkiss`, modelled as written (`Decode`) and as corrected
  (`DecodeResync`; see Findings). It also holds a reference KISS encoder used
  to state the round trips.
- `Text`: the CR/LF text decoder of `ttyreader_pulltext` and the `:` offset of
  `ttyreader_pulltnc2`.
- `Lines`: the line record, the events, the I/O oracles and `ttyreader_new`.
- `WriteBuffer`: `ttyreader_linewrite` and `ttyreader_kisswrite`.
- `Classifier`: `ttyreader_kissprocess`, covering the command nibble, the
  sub-channel binding, the BPQ XOR trailer, the SMACK CRC trailer and bits,
  the rate-limited SMACK probe, the 17-byte minimum, and forward versus drop.
- `Reader`: `ttyreader_lineread`, covering read-buffer compaction, end of
  file, and dispatch to the KISS or text puller.
- `Lifecycle`: `ttyreader_linesetup` (device open or TCP connect, the
  `tcp!host!port!opts` split, the read-side reset), `ttyreader_prepoll` and
  `ttyreader_postpoll`.
- `Config`: the keyword dispatch of `ttyreader_parse_ttyparams` over a list of
  words.

The buffer capacities (`sizeof(rdbuf)`, `sizeof(wrbuf)`, `sizeof(rdline)`)
come from a header that is not part of this model. They are fields of the line
record, fixed when it is created. The frame and text-line limit is
`sizeof(rdline) - 3` (`Lines.FrameLimit`).

Where the design description of the line layer and its code differ, the model
follows the code:

- The BPQ XOR check covers the bytes after the command byte, not the command
  byte itself (`ttyreader.c:93-95`).
- A frame that `ax25_to_tnc2` rejects is counted once as RX and then once more
  as DROP (`ttyreader.c:222-234`).
- A failed TCP connect leaves the reconnect deadline at 0, so the line is
  retried at the next poll round, not after 30 s (`ttyreader.c:722`,
  `829-836`).
- A line of the BPQ XOR type never reaches the KISS puller. `ttyreader_lineread`
  treats it as a bad line type and closes it for a retry
  (`ttyreader.c:682-701`). This is kept as written; `Reader.XorLineClosed` and
  `Reader.XorFrameNeverClassified` state it.
- The whole `radio` line is lower-cased before its words are cut, so init
  strings are stored lower-cased (`ttyreader.c:1023`).
- Init strings are appended to the write buffer with no bound check
  (`ttyreader.c:766-771`). The model requires, as part of `Lines.Valid`, that
  they fit. `Config.ParseParams` says exactly when a configuration keeps this
  true.

## Model

| member | source | states |
|---|---|---|
| Lines.New | ttyreader.c:984-997 | A new line is well formed, closed (fd -1), due for opening at once (deadline before now), plain KISS, sync-hunting, with empty buffers and no sub-channel bindings. |
| Lines.SubChannel | ttyreader.c:109 | The sub-channel of a command byte is below 16, and below 8 under SMACK, where the top bit of the tncid is chopped off. |
| Lines.CommandByteRoundTrip | ttyreader.c:557 | The outgoing command byte (tncid shifted left by 4, plus 0x80 on SMACK lines) has a zero low nibble. The receiving classifier recovers the tncid from it (modulo 8 under SMACK). On a SMACK line bit 7 is always set. On any other line bit 7 is set exactly when the tncid is 8 to 15, because the shift puts the tncid's top bit there. |
| Kiss.CollectStepSpec | ttyreader.c:321-375 | One byte of the collecting loop: (1) the frame bound is kept; (2) a frame is emitted exactly when a FEND meets a non-empty frame, it is the frame collected so far, and the decoder becomes empty-collecting; (3) a FEND on an empty frame changes nothing, so a pending escape stays pending; (4) an overflow throws the frame away and sets sync-hunt; (5) nothing else sets sync-hunt; (6) FESC starts an escape; (7) after FESC, TFEND and TFESC store FEND and FESC, and any other byte but FEND is dropped with the state back to collecting; (8) below the limit a plain data byte is appended unchanged. |
| Kiss.Store | ttyreader.c:364-375 | A data byte is appended while the frame is below the limit. At the limit the frame is thrown away and the decoder enters sync-hunt. |
| Kiss.HuntDiscards | ttyreader.c:291-305 | A sync-hunting decoder discards every byte up to and including the first FEND, then collects the rest. |
| Kiss.CollectEscaped | ttyreader.c:340-361 | After FESC, TFEND is stored as FEND and TFESC as FESC. Decoding the stuffed form of a frame therefore appends exactly that frame, emits nothing and never overflows. |
| Kiss.RoundTrip | ttyreader.c:291-375 | A non-empty frame within the limit, stuffed and bracketed by FENDs, decodes back to itself, both on a fresh line and after a previous frame. |
| Kiss.RoundTripAll | ttyreader.c:321-338 | A stream of back-to-back encoded frames decodes to exactly those frames, in order. Repeated FENDs are absorbed. |
| Kiss.SplitRead | ttyreader.c:309-318 | For a synchronised decoder without overflow, decoding two reads in turn equals decoding their concatenation. |
| Kiss.PartialRead | ttyreader.c:309-338 | One encoded frame split into two reads at any point is delivered exactly once, and the decoder ends empty. |
| Kiss.PartialReadFresh | ttyreader.c:291-338 | The same, starting from a freshly opened, sync-hunting line. |
| Kiss.CollectBounds | ttyreader.c:364-375 | The collecting loop keeps the frame within `sizeof(rdline)-3`. It emits only non-empty frames within that bound, and emits none from bytes that hold no FEND. |
| Kiss.DecodeBounds | ttyreader.c:274-381 | The same bounds for one pullkiss pass. A sync-hunting decoder fed no FEND is left exactly as it was. |
| Kiss.NoOverflowKeepsSync | ttyreader.c:364-372 | Without an overflow a synchronised decoder never returns to sync-hunt. |
| Kiss.OversizeTailDispatched | ttyreader.c:364-372 | As written: after an overflow, bytes later in the same read are collected and dispatched at the next FEND. |
| Kiss.SplitChangesResultAsWritten | ttyreader.c:291-372 | As written: the same bytes dispatch a frame when they arrive in one read and nothing when the read is split after the overflow. |
| Kiss.CollectStepResync | ttyreader.c:340-372 | Corrected loop: a decoder in sync-hunt emits nothing, discards every byte but FEND and resumes collecting on FEND. Out of sync-hunt it keeps the escape rules: FESC starts an escape, and a byte after FESC other than FEND, TFEND or TFESC is dropped with the state back to collecting. |
| Kiss.DecodeResyncIsCollect | ttyreader.c:291-305 | With the correction, the entry hunt and the hunt inside the loop are the same thing. |
| Kiss.ResyncSplitInvariant | ttyreader.c:274-381 | Corrected decoder: the result never depends on where the read boundaries fall, for every state and every pair of reads. |
| Kiss.ResyncDiscardsUntilFend | ttyreader.c:364-372 | Corrected decoder: after an overflow nothing is dispatched before the next FEND, which resynchronises onto an empty frame. |
| Kiss.CollectAgrees | ttyreader.c:309-375 | Without an overflow the corrected loop and the loop as written give the same result. |
| Kiss.ResyncRoundTrip | ttyreader.c:291-375 | Corrected decoder: a stuffed frame bracketed by FENDs decodes to itself from a fresh line and after a previous frame. |
| Kiss.ResyncRoundTripAll | ttyreader.c:321-338 | Corrected decoder: back-to-back encoded frames decode to exactly those frames. |
| Kiss.ResyncPartialRead | ttyreader.c:309-338 | Corrected decoder: one encoded frame split into two reads anywhere is delivered exactly once. |
| Kiss.ResyncHuntDiscards | ttyreader.c:291-305 | Corrected decoder: the entry hunt discards up to and including the first FEND. |
| Kiss.DecodeResyncBounds | ttyreader.c:364-375 | Corrected decoder: the frame bound is kept, emitted frames are non-empty and bounded, and no frame comes from bytes without a FEND. |
| Text.TextStepSpec | ttyreader.c:467-507 | One byte of the text decoder: (1) the line bound is kept; (2) a line is delivered exactly when CR or LF ends a non-empty line outside the hunt, and it is the line collected so far; (3) CR or LF always clears the line; (4) while hunting the line stays empty and CR or LF ends the hunt; (5) other bytes are stored while they fit, and at the limit the line is thrown away and the hunt restarts. |
| Text.TextHunt | ttyreader.c:467-474 | While hunting, bytes without CR or LF are discarded. The first CR or LF ends the hunt with an empty line. |
| Text.TextRoundTrip | ttyreader.c:478-497 | Non-empty, terminator-free lines within the limit, each ended by LF, are delivered exactly, in order, without the terminator. |
| Text.TextRoundTripCrLf | ttyreader.c:478-497 | With CR LF endings the empty line between CR and LF is not delivered, so the same lines come out. |
| Text.TextOverflowDiscards | ttyreader.c:500-504 | A line of any length greater than the limit is never delivered. It is thrown away at the first byte past the limit, the rest of it is discarded, and the terminator leaves the decoder collecting an empty line. |
| Text.TextBounds | ttyreader.c:452-512 | The text decoder keeps the line within the limit and free of terminators. Every delivered line is non-empty, bounded and terminator-free. |
| Text.AddrLen | ttyreader.c:392-394 | The address length is the offset of the first `:` of the line, or 0 when there is none. |
| Reader.TextEventsShape | ttyreader.c:396-402 | Each delivered text line yields one RX count of its length and one hand-over to the APRS-IS gate, with its `:` offset, on the sub-channel-0 callsign, in order. |
| WriteBuffer.Flush | ttyreader.c:609-625 | One write of the pending bytes. What was written followed by what is still pending is the old pending part. After a write of more than 0 bytes, the unsent rest sits at offset 0. A failed write changes nothing. |
| WriteBuffer.LineWrite | ttyreader.c:598-626 | An empty or fully sent buffer is reset to empty. Otherwise one write is attempted with nothing lost or reordered. The cursor is either 0 afterwards or the line is unchanged, and only the write buffer changes. |
| WriteBuffer.LineWriteCompacts | ttyreader.c:614-625 | A complete write leaves an empty buffer. A partial write leaves exactly the unsent suffix at offset 0. |
| WriteBuffer.Enqueue | ttyreader.c:561-573 | Bytes are appended to the pending part exactly when the strict check `wrlen + len < sizeof(wrbuf)` holds. Otherwise the line is unchanged. |
| WriteBuffer.KissWrite | ttyreader.c:519-593 | On a non-KISS line nothing happens. Otherwise at most one TX count of the raw length is made, the line stays well formed, and only the write buffer changes. |
| WriteBuffer.KissWriteQueued | ttyreader.c:557-592 | When the encoded frame fits, it is queued behind the old pending bytes and one TX is counted. The bytes of the two writes, followed by what is still pending, are exactly the old pending bytes followed by the frame. |
| WriteBuffer.KissWriteNoFit | ttyreader.c:561-573 | When the encoded frame does not fit, the buffer holds what the first flush left and no TX is counted. |
| Classifier.KissProcess | ttyreader.c:31-249 | Classifying a frame keeps the line well formed. It never reaches the catch-all of the SMACK branch (`ttyreader.c:191-198`), and it changes only the write side, the SMACK bits and the probe deadlines. |
| Classifier.SubChannelNibbles | ttyreader.c:191-198 | A command byte with a zero low nibble has `cmd & 0x8F` equal to 0x80 or 0x00, so the SMACK catch-all is unreachable. |
| Classifier.SmackProcess | ttyreader.c:107-199 | The SMACK branch never yields the catch-all verdict. It changes only the write side, the SMACK bits and the probe deadlines. |
| Classifier.XorProcess | ttyreader.c:78-105 | The BPQ branch changes nothing in the line. |
| Classifier.Deliver | ttyreader.c:201-234 | The common tail changes nothing in the line. |
| Classifier.DeliverShape | ttyreader.c:201-234 | Fewer than 17 bytes give exactly one DROP. Otherwise there is one RX and the payload without the command byte is handed to ax25_to_tnc2. On acceptance the payload is copied to the bound AX.25 handle, if any; on rejection one DROP follows. |
| Classifier.AdmittedIff | ttyreader.c:54-234 | A frame reaches ax25_to_tnc2 if and only if four things hold: its low nibble is 0; a callsign is bound to its (masked) sub-channel; its XOR or CRC trailer checks out; and at least 17 bytes remain without the trailer. It is then counted and handed over with the stripped length. |
| Classifier.DropAccounting | ttyreader.c:54-208 | Every drop verdict (bad command, no interface, bad checksum, too short) produces exactly one DROP count and nothing else. The count is made on the callsign of the looked-up sub-channel, with the length the frame had at that point. |
| Classifier.SmackBits | ttyreader.c:121-156 | On a SMACK line, a frame passing the nibble and callsign checks sets its sub-channel's SMACK bit when the flag is on, even if the CRC then fails. It clears the bit when the flag is off. No other frame changes the bits. |
| Classifier.ProbeQueued | ttyreader.c:161-189 | A probe is queued behind the pending bytes, flushed once, and the deadline advanced by 1800 s exactly when the deadline has passed and the probe fits. Otherwise the line is untouched. |
| Classifier.ProbeRateLimited | ttyreader.c:161-183 | Single step: applying the probe again to a line that has just been probed, on the same sub-channel and at most 1800 s later, changes nothing. The rate over runs of frames is stated by Reader.ProbeOncePerPass and Reader.ProbeRateLimitedPass. |
| Classifier.KissProcessProbe | ttyreader.c:161-183 | One frame through the classifier moves a sub-channel's probe deadline only from a past value to now + 1800. The write side changes only when some deadline moves, so no bytes are queued without a probe being counted. |
| Classifier.XorTrailerAccepted | ttyreader.c:93-102 | A body followed by its own XOR sum passes the BPQ check. |
| Classifier.XorDetectsCorruption | ttyreader.c:93-102 | Flipping bits in any one byte of a frame that passed the BPQ check makes it fail. |
| Classifier.ProcessCursor | ttyreader.c:174-181 | The classifier either leaves the write cursor alone or, after flushing a probe, puts it at 0. |
| Reader.Compact | ttyreader.c:640-655 | Compaction moves the unread bytes to offset 0 and changes nothing else. |
| Reader.ProcessAll | ttyreader.c:321-331 | Classifying the decoded frames in order keeps the line well formed and changes only the write side, the SMACK bits and the probe deadlines. |
| Reader.ProbeOncePerPass | ttyreader.c:161-183 | However many frames one read delivers, each sub-channel is probed at most once, never while its deadline has not passed. Its deadline ends at now + 1800 exactly when it was probed, and is unchanged otherwise. |
| Reader.ProbeRateLimitedPass | ttyreader.c:161-183 | After a pass that probed a sub-channel, any later pass at most 1800 s on probes it no more, whatever frames it brings. |
| Reader.PullKiss | ttyreader.c:274-381 | The KISS puller consumes every unread byte with the corrected decoder. It leaves the read buffer empty and does not touch the descriptor or the retry deadline. |
| Reader.PullText | ttyreader.c:452-512 | The text puller consumes every unread byte and leaves the read buffer empty and the line well formed. |
| Reader.Dispatch | ttyreader.c:682-710 | After processing the read cursor is 0. The line either keeps its descriptor and deadline or is closed for a 30 s retry. |
| Reader.LineRead | ttyreader.c:634-711 | lineread ends with the read cursor at 0 and the line well formed. It changes none of the configuration (name, type, capacities, callsigns). It either keeps the descriptor and deadline or closes the line for a 30 s retry. |
| Reader.LineReadEof | ttyreader.c:657-666 | A read of 0 bytes sets fd -1 and the deadline to now+30. It processes nothing and keeps the unread bytes. |
| Reader.LineReadFailed | ttyreader.c:667-668 | A failed read leaves the line as the compaction made it, with no effects. |
| Reader.LineReadKiss | ttyreader.c:670-686 | On a KISS line the decoder sees exactly the unread bytes followed by the bytes just read. The read buffer is emptied and the decoder keeps the state it ends in. |
| Reader.XorLineClosed | ttyreader.c:697-701 | A BPQ XOR line that receives data is closed for a 30 s retry, with the bytes kept unprocessed. |
| Reader.XorFrameNeverClassified | ttyreader.c:682-701 | Even a complete, well-formed frame on a BPQ XOR line yields no effect, although the classifier would have produced at least one. |
| Reader.ProcessIgnoresReadState | ttyreader.c:31-249 | The classifier's effects and verdict do not depend on the read side of the line. |
| Reader.PullOneFrame | ttyreader.c:321-331 | A buffer holding one encoded frame, with an idle decoder, yields exactly the classifier's effects for that frame and leaves the decoder empty. |
| Reader.ReadOneFrame | ttyreader.c:634-711 | End to end on a plain KISS line: one read bringing one encoded frame is classified as it stands, and the decoder is left empty. |
| Reader.ReadTextLines | ttyreader.c:634-711 | End to end on a TNC2 line: CR LF-terminated lines read in one go are each counted and handed to the APRS-IS gate, in order. |
| Reader.PullTextLines | ttyreader.c:452-512 | A TNC2 line whose buffer holds CR LF-terminated lines delivers each of them, in order, and leaves the decoder collecting an empty line. |
| Lifecycle.CutBang | ttyreader.c:788-800 | Cutting at the first `!` gives a head without `!`, and joining the parts gives the string back. |
| Lifecycle.SplitTcp | ttyreader.c:787-802 | The host runs up to the next `!` and the port up to the one after it; the options are the rest. Options exist only with a port, and joining the fields gives back the name. |
| Lifecycle.TcpNameRoundTrip | ttyreader.c:1201 | For a host and port without `!`, splitting the name that `radio tcp host port` builds gives back that host and port, with empty options. |
| Lifecycle.LineSetup | ttyreader.c:718-852 | Setup leaves the write cursor at 0 and the line well formed. An open descriptor has no retry deadline. Only the descriptor, the deadline, the idle clock, and the read and write sides change. |
| Lifecycle.SetupOutcome | ttyreader.c:722-851 | A device that cannot be opened or configured gets fd -1, a 30 s retry deadline and an empty write buffer; its read side is untouched. Otherwise the read buffer, cursor, frame, decoder state, SMACK bits and probe deadlines are reset and the idle clock restarts. An opened device gets the init strings in sub-channel order, and what the first write did not take is still pending. |
| Lifecycle.SetupOpened | ttyreader.c:766-775 | On an opened device the pending bytes are a suffix of the concatenated init strings. |
| Lifecycle.TcpFailureRetriesAtOnce | ttyreader.c:829-836 | A failed TCP connect leaves the line closed with deadline 0, so it is not waiting and the next poll round sets it up again. |
| Lifecycle.PrepollLine | ttyreader.c:876-922 | A poll request is made only for an open line, and asks for output exactly when unsent bytes exist. A waiting named line pulls the global timeout down to its deadline. A nameless line is skipped. An open line past its idle timeout is closed for a 30 s retry and not polled. Any other open line is left unchanged and polled. A closed line whose deadline has passed is set up: if the setup fails it stays closed and is not polled, and if it opens it is polled at once. |
| Lifecycle.Prepoll | ttyreader.c:869-925 | All lines stay well formed, at most one poll request is made per line, and the timeout never grows. |
| Lifecycle.PrepollSkipsWaiting | ttyreader.c:880-889 | A closed line whose deadline lies ahead is left alone and only lowers the timeout to its deadline. |
| Lifecycle.PrepollIdleTimeout | ttyreader.c:903-912 | An open line silent for longer than its timeout is closed for a 30 s retry and not polled. |
| Lifecycle.NewOpensAtOnce | ttyreader.c:880-922 | A new line on a device that opens is opened at the first poll round and polled for input, and for output exactly when init bytes are unsent. |
| Lifecycle.RestKept | ttyreader.c:704-710 | Every operation keeps a line at rest, that is: well formed, both cursors at 0, and an open line never waiting. |
| Lifecycle.ServeLine | ttyreader.c:944-951 | A line whose descriptor does not match the ready one is untouched. |
| Lifecycle.ServeAllMatching | ttyreader.c:942-951 | Only the lines whose descriptor matches the ready one change. |
| Lifecycle.Postpoll | ttyreader.c:931-956 | Postpoll keeps the number of lines and their well-formedness. |
| Lifecycle.PostpollIgnoresWriteOnly | ttyreader.c:939-940 | Poll results with only POLLOUT, or nothing, change no line and have no effects. |
| Config.Classify | ttyreader.c:1034-1068 | A word is a speed exactly when atol of it is one of the six recognised rates. The speed test comes before every keyword. |
| Config.ParseFrom | ttyreader.c:1026-1134 | The word loop keeps the current tncid within 0..15 and the tables at 16 entries. It changes only the line type, the timeout and the three sub-channel tables. |
| Config.ParseParams | ttyreader.c:1012-1136 | The parsed line is well formed exactly when its init strings fit the write buffer. Only the type, the timeout and the tables change. |
| Config.ParseRender | ttyreader.c:1026-1134 | Round trip: parsing the words rendered from expressible settings gives a line with exactly that type, timeout and set of bindings. Sub-channels not named keep their entries. |
| Config.ParseBindings | ttyreader.c:1087-1128 | The words of distinct, well-formed bindings bind exactly those sub-channels, with no effect on the type or the timeout. |
| Config.ParseOneBinding | ttyreader.c:1087-1128 | `tncid n` followed by `callsign` and `initstring` words binds them to sub-channel n. |
| Config.StepWord | ttyreader.c:1034-1081 | A speed word, or a word that is no keyword, is consumed and changes nothing. A line-type word sets the line type and nothing else. |
| Config.StepCallsign | ttyreader.c:1087-1100 | `callsign`/`alias` stores the next word upper-cased on the current sub-channel and opens its AX.25 network handle. |
| Config.StepTimeout | ttyreader.c:1102-1106 | `timeout` sets the idle timeout to atol of the next word. |
| Config.StepTncid | ttyreader.c:1108-1114 | `tncid` selects atoi of the next word, or 0 when that is outside 0..15. |
| Config.StepInit | ttyreader.c:1119-1128 | `initstring` stores the next, lower-cased word on the current sub-channel. |
| Config.TncidSelects | ttyreader.c:1087-1114 | A callsign after `TncId 3` is bound to sub-channel 3 and stored upper-cased, whatever the case of the words. |
| Config.TncidOutOfRange | ttyreader.c:1113-1114 | Example: `tncid 99` selects sub-channel 0, so a following `alias` binds sub-channel 0. Config.StepTncid states the rule for every word. |
| Config.InitStringLowered | ttyreader.c:1023 | An init string is stored lower-cased whatever was written. |
| Config.SpeedWordSkipped | ttyreader.c:1035-1067 | Example: `9600baud`, which atol reads as a supported speed despite its trailing text, is consumed and changes nothing. Config.StepWord with Config.Classify states the rule for every word. |
| Config.AtolDecimal | ttyreader.c:1035 | atol reads back a printed number, signed or not, whatever non-digit text follows. |
| Config.CaseRoundTrip | ttyreader.c:1092 | Upper-casing a lower-cased word equals upper-casing the word. A word without lower-case letters survives the round trip. |

## Left out

- Syscalls (`open`, `read`, `write`, `close`, `socket`, `connect`, `getaddrinfo`, `tcsetattr`, `tcflush`, `fd_nonblockingmode`) are outcomes taken from `Lines.Io`; closing a descriptor is only the `fd := -1` it implies.
- `aprx_cfmakeraw`, the termios structure and the baud-rate constants are termios flag mechanics with no effect on the byte-level logic; a speed word is recognised and skipped.
- `crc16_calc`, `kissencoder`, `ax25_to_tnc2`, `netax25_open` are outside this file and are uninterpreted functions; the SMACK CRC is not reimplemented and the KISS encoder used in the round trips is a reference encoder of the KISS framing, not the repository's.
- `kissencoder` returning a negative length on failure is not modelled; its result is a byte string.
- The `interface[tncid]` argument of `ax25_to_tnc2` is not passed to the oracle, which sees the callsign, sub-channel, command byte and payload.
- `erlang_set`, the debug `printf`s and the append-to-logfile block after a rejected frame are logging only.
- The `#if 0` AEA parser is dead code.
- The `ttys` registry with its `realloc`, `ttyreader_register`, `ttyreader_init` and the mode/name handling of `ttyreader_serialcfg` are memory plumbing; only the name `sprintf` of the `tcp` mode is modelled, as `Lifecycle.TcpName`.
- `config_SKIPTEXT` and `config_SKIPSPACE` (quoting, escapes) are not modelled: the parser works on a list of words, and `config_STRLOWER` is applied word by word, which is the same for ASCII letters.
- `poll(2)` itself and the `aprxpolls` array are left out: prepoll returns its requests as a sequence and postpoll takes the results as one.
- Config.Atol: does not model `long` overflow of `atol`/`atoi` on very long digit strings.
- Config.Lower: only ASCII letters change case, as in the C locale.
- Lines.Valid: requires that the init strings fit the write buffer, which the source never checks; a configuration that breaks this is an overrun in the source and is outside the model (`Config.ParseParams` states when it holds).
- Reader.PullKiss: after an overflow inside one read it discards the bytes up to the next FEND, where the loop as written (`Kiss.Decode`) would collect and dispatch them. It follows the intended behaviour, as recorded under Findings, so `Reader.LineRead` and `Reader.LineReadKiss` do not reproduce that overflow case of ttyreader.c:364-375.
- WriteBuffer.KissWrite: requires a tncid below 16, which the source leaves to its callers (it indexes 16-entry tables with it).

## Findings

| source | as written | input that shows it | evidently intended | confidence | as-written member | corrected member |
|---|---|---|---|---|---|---|
| ttyreader.c:364-372 | After an oversize frame the state is set to sync-hunt, but the collecting loop never looks at that state again: the bytes after the overflow in the same read are collected and dispatched as a frame at the next FEND, and the result depends on where the read boundaries fall | frame limit 1, in-progress frame `01`, one read `02 03 C0` dispatches the frame `03`; the same bytes split after `02` dispatch nothing | discard everything up to the next FEND (the comment says the frame is discarded and the decoder resynchronises), independently of read boundaries | not executed; high | Kiss.OversizeTailDispatched, Kiss.SplitChangesResultAsWritten | Kiss.DecodeResync, Kiss.ResyncSplitInvariant, Kiss.ResyncDiscardsUntilFend |

The read path (`Reader.PullKiss`) uses the corrected decoder. On input without an overflow the two agree (`Kiss.CollectAgrees`).
