# A verified model of nago-wss

`nago-wss` is a WebSocket stack (RFC 6455) in Rust: a protocol core without I/O, a connection that drives it
over a byte stream, and the opening handshake that comes first. This project models the stack from the masking
loop up to a whole session and proves what it is for: **what one side sends is what the other side reads, in
order, however the wire is cut into reads, keys are drawn and roles are paired**. What the code refuses, it
refuses in its place and without losing anything else.

The model has the form of the code. `Conn.Connection`, `Messages.Assembler` and `Sha1.Hasher` are classes whose
methods update their fields; `mask::apply`, the header encoder and the SHA-1 message schedule work in arrays,
with loops; `parse_request`, `check_response`, the head builders and `base64_encode` are loops that push. Each
of these is proved against a function on values, and the theorems are about those functions. The sender, the
receiver and the handshake meet in `Delivery` and `Opening`.

| module | what it models |
|---|---|
| `Bytes`, `Bits`, `Text`, `Utf8` | octets, big-endian integers, words, strings of scalar values, RFC 3629 |
| `Opcode`, `Frame`, `Mask` | the frame codec and masking, sections 5.2 and 5.3 |
| `Messages`, `Reassembly` | the message assembler, sections 5.4 to 5.5, and its runs over lists of frames |
| `Receiving`, `Sending`, `Conn` | `read` and `write` as functions, and the connection that carries them out |
| `Delivery`, `Closing` | theorems about two connections and the wire between them, and about the closes one of them sends |
| `Generator` | the masking key generator |
| `FrameExamples`, `AcceptExample` | the worked examples of RFC 6455, calculated: the frames of section 5.7, the accept value of section 1.3 |
| `Sha1`, `Base64`, `Handshake`, `Heads`, `RoundTrip`, `Response`, `Refusal` | keys, hashing, and the HTTP heads printed and read back |
| `Upgrade`, `Opening` | reading a head from a stream, and the step from handshake to frames |

Conventions. An octet is a natural number below 256 and exclusive or is defined digit by digit; SHA-1 works on
32-bit vectors. `usize` is 64 bits wide. Both byte orders are covered: whatever depends on the machine's byte
order takes an `Endian`. The socket is a list of non-empty chunks still to arrive, after which the stream is at
its end, and the octets written so far. A Rust `str` is a Dafny string, a sequence of scalar values; its octets
are `Utf8.Encode` of it. A state the code keeps in fields is a value in the specification: `Receiver` is the
reading half of a connection, `State` the assembler.

Where the code and its documentation part, the model follows the code:

* `head_end` promises to find the end of a head on a stream, but prefers any CRLFCRLF to an earlier LFLF. So
  what `read_head` returns can depend on how the bytes were cut: `Upgrade.CutMatters` shows seven octets that are
  one head or another. `Upgrade.ReturnsIff` and `Upgrade.GivesUpIff` say exactly what cuts into reads of at most
  a given size can come to, and `Upgrade.IndependentIffSettled` when that is one thing only.
* `HeadTooLarge` is documented as the guard on the size of a head, but `read_head` compares with its limit only
  between reads. `Upgrade.LimitHoldsIff` says exactly when reads of at most `largest` octets respect it; with one
  end of a head, that end is within the limit, or out of reach of the read that starts within it. A server is
  safe, since `parse_request` has the same limit (`Upgrade.LongHeadIsRefused`). A client is not, since
  `check_response` has none: it can accept an answer of up to `max_head` + `largest` octets, and always accepts
  one of `max_head` + 1 (`Opening.AnswerAcceptedIff`). `Opening.LongAnswerIsAccepted` exhibits such an answer. The
  size of a read is a parameter; the code's reads always have room for 1024 octets (`src/upgrade.rs:45-47`), and
  the default `read_buf` takes at most 16 KiB (`src/stream.rs:39-47`).
* `BadKey` is documented as a key that is not 16 octets of base64, but `is_valid_key` looks at characters only.
  `Handshake.ExactKeyIff` says which valid keys are base64 of 16 octets, and `Handshake.LooseKeyIsValid` shows
  one that is valid and is base64 of nothing.
* `close_sent` is documented as the reason a close is not sent twice, but only `close` looks at it.
  `Closing.CloseCount` says how many close frames any sequence of calls sends; `Closing.TwoClosesAreSent` shows
  two.
* `write` checks nothing, so delivery has a condition. `Delivery.DeliveredIffGoodBatch` says exactly which
  batches arrive: every message within the peer's limits and the rules of RFC 6455, nothing behind a close. A
  ping of 126 octets is sent and comes out as an error (`Delivery.LongPingIsLost`).

## Model

| member | source | states |
|---|---|---|
| Utf8.GrammarIsEncodings | src/proto/message.rs:96-106 | The octets `is_utf8` accepts, by the grammar of section 4 of RFC 3629, are exactly those that spell some text |
| Utf8.DecodeEncode | src/proto/message.rs:96-106 | Every text is well formed as octets and read back as itself |
| Utf8.EncodeDecode | src/proto/message.rs:96-106 | Well-formed octets are the only spelling of the text they are read as |
| Text.TrimBlanks | src/proto/handshake.rs:807 | White space around what neither starts nor ends with any, however long, is removed and nothing else is; the characters are listed |
| Text.TrimManyCR | src/proto/handshake.rs:775 | Any number of carriage returns at the end of a line is removed, and nothing else |
| Text.SameNameIff | src/proto/handshake.rs:806-807 | Two names are the same if and only if they differ in the case of ASCII letters at most |
| Text.ContainsIff | src/proto/handshake.rs:989 | A text is contained if and only if it starts at some position |
| Text.TokensAppend | src/proto/handshake.rs:822-828 | The tokens of a list: those on either side of a comma, and without one the trimmed text unless it is empty |
| Opcode.FromToBits | src/proto/opcode.rs:30-55 | Every opcode is recovered from its four bits |
| Opcode.ToFromBits | src/proto/opcode.rs:30-55 | Four bits that name an opcode are the bits of that opcode |
| Mask.MaskedTwice | src/proto/mask.rs:24-64 | Masking is its own inverse, for every payload, key and offset |
| Mask.MaskedInPieces | src/proto/mask.rs:20-64 | Two pieces, the second from the wrapped offset returned for the first, make one pass |
| Mask.RotationAligns | src/proto/mask.rs:40-47 | In either byte order the rotated key, as octets, starts with the key octet the offset calls for |
| Mask.WordMasks | src/proto/mask.rs:50-57 | Exclusive or of an eight-octet word with the doubled key masks each of its octets by the definition |
| Mask.ApplyWords | src/proto/mask.rs:52-57 | The word loop masks exactly the whole groups of eight and touches nothing else |
| Mask.ApplyTail | src/proto/mask.rs:59-61 | The tail loop masks exactly the octets behind them |
| Mask.Apply | src/proto/mask.rs:24-64 | In place, in either byte order, octet i becomes payload[i] xor key[(offset + i) mod 4]; the offset returned wraps |
| Frame.Encode | src/proto/frame.rs:156-201 | A buffer shorter than `encoded_len` is left alone and reported; otherwise exactly the header's octets are written at its front |
| Frame.EncodedDecodes | src/proto/frame.rs:60-201 | Every well-formed header decodes to itself in front of any octets, taking `encoded_len` of them |
| Frame.DecodedIsEncoding | src/proto/frame.rs:60-201 | Every successful decode names a well-formed header whose encoding is what was read: no header has two encodings |
| Frame.HeaderBijection | src/proto/frame.rs:60-201 | Decoding gives a header and a length if and only if the header is well formed and the input starts with its encoding |
| Frame.IllFormedFails | src/proto/frame.rs:60-201 | A header that breaks a rule is refused by exactly that rule, in front of any octets |
| Frame.ReservedFails | src/proto/frame.rs:71-84 | Reserved bits and reserved opcodes are refused if and only if they are there, the bits first |
| Frame.LongFormFails | src/proto/frame.rs:87-121 | A length field is refused if and only if it is not the shortest form of its value, or past 2^63 |
| Frame.ControlFails | src/proto/frame.rs:84-89 | A control frame is refused as such if and only if, under clear reserved bits, its final bit is clear or its length field above 125 |
| Frame.TooLargeFails | src/proto/frame.rs:91-125 | An extended length is refused as too large if and only if it is valid and past the limit, whether or not the mask has arrived |
| Frame.TooLargeAtOnce | src/proto/frame.rs:77-125 | A length in seven bits likewise, from the first two octets |
| Frame.HeaderOctets | src/proto/frame.rs:60-152 | A header that was read, octet by octet: opcode, final bit, mask, length by its digits, and how many octets it took |
| FrameExamples.TextHello | src/proto/frame.rs:60-201 | The unmasked text frame of section 5.7 is written as its octets, and taken from them in front of any others |
| FrameExamples.MaskedTextHello | src/conn.rs:400-424 | The masked one likewise |
| FrameExamples.FragmentedHello | src/proto/frame.rs:60-201 | The two fragments likewise |
| FrameExamples.PingHello | src/conn.rs:305-317 | The ping likewise |
| FrameExamples.MaskedPongHello | src/conn.rs:427-429 | The masked pong likewise |
| FrameExamples.LongBinary | src/proto/frame.rs:91-121 | The binary frames of 256 octets and of 64 KiB likewise, whatever they contain |
| FrameExamples.GoingAway | src/conn.rs:436-441 | A close with code 1001 is the octets 88 02 03 E9, both ways |
| Frame.DecodeIsPrefixDecided | src/proto/frame.rs:60-152 | A header or error on some octets is the answer on every extension, and fourteen octets are always decided |
| Messages.Assembler.Accept | src/proto/message.rs:149-207 | One frame changes `partial` and `closed`, and is answered, exactly as the step function says |
| Messages.Assembler.AcceptControl | src/proto/message.rs:211-221 | Control frames leave the open message alone; a close closes even when its body is refused |
| Reassembly.FragmentsReassemble | src/proto/message.rs:149-250 | Any cut of a message that fits, with any pings, pongs, stray data frames and oversized continuations between the pieces, answers each in place, then gives exactly the message (or `InvalidUtf8`, if and only if it is text and no UTF-8), and leaves nothing open |
| Reassembly.FragmentationVerdict | src/proto/message.rs:171-250 | The first verdict on a fragmented message, spelled out on the joined octets: `MessageTooLarge` if and only if they exceed the limit, `InvalidUtf8` if and only if they fit, are text and are not UTF-8, the message of that kind otherwise |
| Reassembly.StrayContinuations | src/proto/message.rs:171-175 | With nothing open every continuation is refused and opens nothing |
| Reassembly.RunIsSafe | src/proto/message.rs:149-275 | Over any run: the open message is data and fits, every text delivered is UTF-8, every message fits, close codes are sendable, and the machine is closed if and only if a close frame was among the frames |
| Reassembly.SilentAfterClose | src/proto/message.rs:155-162 | After a close frame, even a malformed one, nothing is answered |
| Reassembly.OpenIffHistory | src/proto/message.rs:149-207 | A message is open if and only if the frames alone leave one open: no close, a data frame where nothing was open, every continuation since but for those too large; and it has exactly their octets |
| Reassembly.DeliveredIffHistory | src/proto/message.rs:149-250 | A data message is delivered if and only if the frames alone spell it, by one final frame where nothing was open or by a final continuation of what was, fitting and well formed |
| Reassembly.RefusedIffHistory | src/proto/message.rs:149-275 | A frame is refused with each of the six errors if and only if nothing has closed the connection and the frames before it, with its own octets, are what that error names |
| Reassembly.OpenComesFrom | src/proto/message.rs:171-207 | An open message is spelled by the frame that opened it and the continuations since, in order; every frame between got an answer of its own |
| Reassembly.DeliveredComesFrom | src/proto/message.rs:149-250 | A delivered data message is spelled by an opening frame of its kind and the continuations up to the final frame: nothing is invented, reordered or lost |
| Reassembly.RunAppend | src/proto/message.rs:149-207 | A run over two lists of frames is the run over the first, then the second |
| Receiving.ParseFrameIsPrefixDecided | src/conn.rs:262-299 | Once the parser takes or refuses what is at the front, no later byte changes that |
| Receiving.MaskingIff | src/conn.rs:270-284 | A masking violation if and only if a whole frame is there whose mask bit is clear for a server, or set for a client |
| Receiving.TookOctets | src/conn.rs:262-289 | A frame that is taken, octet by octet: opcode, final and mask bit, and every payload octet xor the key in front of it, if masked |
| Receiving.ParseAdvances | src/conn.rs:261-302 | One `parse_buffered` takes the next answer off the front of all there is to tell, in front of any bytes still to come; frame and masking errors stay, protocol errors are consumed |
| Receiving.CutAppend | src/conn.rs:261-302 | Cutting bytes into frames is compositional at a frame boundary |
| Receiving.PendingIsBounded | src/conn.rs:264-276 | When more is needed, fewer than 14 + `max_frame` bytes are pending |
| Receiving.IdleNeedsMore | src/conn.rs:261-302 | `parse_buffered` comes back empty-handed only when no whole frame is buffered |
| Conn.Connection.constructor | src/conn.rs:200-221 | A connection starts with exactly the bytes read past the handshake, nothing open, no close sent |
| Conn.Connection.TakeFrame | src/conn.rs:263-289 | One turn of the loop splits a whole frame off the buffer and unmasks it in place, or leaves the buffer alone |
| Conn.Connection.ParseBuffered | src/conn.rs:261-302 | The loop computes the parse function; after it every received byte is in a consumed whole frame or buffered, and the assembler is where those frames put it |
| Conn.Connection.FillBuffer | src/conn.rs:242-256 | The socket is read only when no whole frame is buffered, with fewer than 14 + `max_frame` bytes pending; the chunk is appended |
| Conn.Connection.Read | src/conn.rs:232-258 | `read` terminates, computes the read function on buffer and chunks, keeps conservation, and loses no byte |
| Conn.Connection.NextMask | src/conn.rs:509-516 | The generator advances its state and draws the key as the wrapping arithmetic says |
| Generator.DrawsAdvance | src/conn.rs:509-510 | k draws advance the state by k times the increment, modulo 2^64 |
| Generator.KeyOctets | src/conn.rs:511-515 | The key spells the low half of the mixed state, in the order of the machine |
| Generator.MixUndone | src/conn.rs:511-514 | The mixing has an inverse, step by step: different states are mixed differently |
| Generator.OneDrawEach | src/conn.rs:379-424 | A client draws once for each message of a batch, a server never |
| Generator.DrawnKeyIsSent | src/conn.rs:400-424 | The key drawn is the one on the wire, at its place behind the length, with the mask bit set |
| Conn.Connection.EncodeFrame | src/conn.rs:400-424 | Exactly one whole frame is appended to the batch; masking in place at an offset touches nothing before it |
| Conn.Connection.EncodeAll | src/conn.rs:379-397 | The batch grows by exactly the wire form of the messages, and `close_sent` is set if and only if it was or a close is among them |
| Conn.Connection.WriteAll | src/conn.rs:344-373 | One write puts exactly the wire form of the batch on the stream, and nothing is kept back |
| Conn.Connection.WriteFrame | src/conn.rs:444-500 | Header and payload go out as one frame, masked in the scratch buffer for a client and as they are for a server |
| Conn.Connection.Write | src/conn.rs:305-317 | A single write puts exactly the wire form of the one message on the stream |
| Conn.Connection.Pong | src/conn.rs:427-429 | A pong echoes the payload exactly |
| Conn.Connection.Close | src/conn.rs:436-441 | The first close is written, every later one writes nothing and draws no key |
| Delivery.ReadTellsNext | src/conn.rs:232-302 | One `read` returns the first thing the pending bytes have to tell and leaves the rest to be told |
| Delivery.ReadManyTells | src/conn.rs:232-302 | The k-th reading is a function of the pending bytes alone |
| Delivery.ChunkingIndependence | src/conn.rs:232-302 | Two receivers in the same state with the same bytes to come read the same messages, errors and end for ever, however the bytes are cut |
| Delivery.FrameErrorsRepeat | src/conn.rs:261-284 | A frame or masking error is returned again by every later read, whatever arrives, with the buffer unconsumed |
| Delivery.MaskingJudgedLast | src/conn.rs:270-284 | A frame that breaks the masking rule is refused with its last byte and not before |
| Delivery.ReadRefusesMaskingIff | src/conn.rs:232-284 | `read` reports a masking violation if and only if it has nothing to tell before a whole frame whose mask bit is wrong for its role |
| Delivery.ParseConserves | src/conn.rs:261-302 | What a parse takes off the buffer is whole frames, and they account for the assembler's new state |
| Delivery.ReadConserves | src/conn.rs:232-302 | What a read takes off the pending bytes is whole frames, errors included |
| Delivery.ReadsConserve | src/conn.rs:232-302 | After any number of reads every byte is in a consumed whole frame or pending: none is lost or read twice |
| Delivery.CleanEndMeansClosed | src/conn.rs:249-256 | A clean end is reported if and only if nothing was broken and a close frame, well formed or not, was received |
| Delivery.ReadingsAreSound | src/conn.rs:232-302 | Every message any run of reads returns is sound: UTF-8 text, within the limit, sendable close codes |
| Delivery.FrameBijection | src/conn.rs:262-289 | The parser takes a frame if and only if the buffer starts with the wire form of one this receiver may be sent |
| Delivery.WholeFrames | src/conn.rs:261-302 | Bytes are cut without remainder if and only if they are acceptable frames end to end |
| Delivery.FragmentedArrives | src/conn.rs:232-302 | A fragmented message on the wire, under any masks, interruptions and cuts, is read as its interruptions and then the verdict on the whole |
| Delivery.CloseBodyRoundTrip | src/conn.rs:545-561 | A close body sent is read as itself, except that a code that may not be sent arrives as 1011 |
| Delivery.CloseBodyBijection | src/proto/message.rs:256-275 | A close body is read as a frame if and only if it is the encoding of one that may be sent |
| Delivery.CloseBodyRefusals | src/proto/message.rs:256-275 | A lone octet is malformed and nothing else is; an unsendable code is reported before an invalid reason |
| Delivery.CloseCodes | src/proto/opcode.rs:98-107 | By number, on the octets: 1000 to 1003, 1007 to 1011 and 3000 to 4999 arrive and go out as themselves; all others are refused, and go out as 03 F3 |
| Delivery.EndToEnd | src/conn.rs:232-424 | For every good batch, mask state, byte order, role pairing and cut of the wire, the peer reads exactly the messages, in order, is left with an empty buffer, and from then on reads the end: clean after a close, `UnexpectedEof` otherwise |
| Delivery.FirstIffDeliverable | src/conn.rs:305-317 | A message at the front of the wire is read as itself if and only if it is within the rules and the peer's limits |
| Delivery.ClosedReadsNothing | src/conn.rs:232-258 | A connection that has seen a close reads no message, whatever is still to come |
| Delivery.DeliveredIffGoodBatch | src/conn.rs:305-424 | A batch is read as itself if and only if every message is deliverable and none but the last is a close |
| Delivery.LongPingIsLost | src/conn.rs:305-317 | A ping of 126 octets goes out and is read as `InvalidControlFrame`, for every role, key and limit |
| Delivery.WireAppend | src/conn.rs:379-397 | Two batches in turn put the same bytes on the wire as one, from the generator state between them |
| Delivery.EncodersAgree | src/conn.rs:305-516 | Single writes and one batch, from the same generator state, put identical bytes on the wire and end with the same generator state and `close_sent`, nothing kept back |
| Delivery.ReadTimes | src/conn.rs:232-258 | Reading a live connection n times gives the readings, and leaves it in the state, of the n-fold read function |
| Delivery.ReadBatch | src/conn.rs:200-258 | A live connection with a good batch to come, in any chunks, reads the batch and then the right end |
| Delivery.Exchange | src/conn.rs:200-424 | Two live connections: one writes a good batch, the other gets the bytes in any chunks and reads exactly the batch and then the right end |
| Closing.Perform | src/conn.rs:305-441 | One call of `write`, `write_all`, `pong` or `close` puts exactly the messages it sends on the stream, none for a `close` once a close was sent |
| Closing.PerformAll | src/conn.rs:305-441 | Any sequence of such calls likewise, with generator state and flag as they end |
| Closing.CloseCount | src/conn.rs:305-441 | The closes sent are those passed to `write` and `write_all`, and one more if no close had been sent and some `close` comes before all of them |
| Closing.OnlyCloseCloses | src/conn.rs:436-441 | A caller that closes with `close` only sends at most one close, and exactly one if it does at all with none sent before |
| Closing.TwoClosesAreSent | src/conn.rs:305-317 | A close written behind a `close` goes out; a `close` behind a written one does not |
| Sha1.RoundForm | src/proto/handshake.rs:143-161 | One round as written, with inclusive or and register moves, is one round of section 6.1.2 of FIPS 180-4 |
| Sha1.Schedule | src/proto/handshake.rs:128-139 | The eighty words filled in place are the message schedule of the standard |
| Sha1.ZeroCount | src/proto/handshake.rs:108-110 | The padding is the fewest zeros that leave room for the length, section 5.1.1 |
| Sha1.Hasher.constructor | src/proto/handshake.rs:85-91 | A new hasher has absorbed nothing |
| Sha1.Hasher.Update | src/proto/handshake.rs:93-102 | Feeding data extends the message absorbed; less than one block stays buffered |
| Sha1.Hasher.Pad | src/proto/handshake.rs:107-110 | The padding loop ends, with the one bit and exactly the standard's zeros |
| Sha1.Hasher.CompressAll | src/proto/handshake.rs:113-118 | Whole blocks in turn give the hash value over all of them |
| Sha1.Hasher.Finish | src/proto/handshake.rs:104-125 | The digest is the standard's hash of everything fed in |
| Sha1.Hasher.Compress | src/proto/handshake.rs:127-168 | One block's rounds and the final additions are the standard's compression |
| Sha1.HashPieces | src/proto/handshake.rs:84-169 | However a message is cut into updates, the digest is the one-shot hash of the padded whole |
| Base64.Base64Encode | src/proto/handshake.rs:51-73 | The loop over groups of three computes the encoding |
| Base64.EncodedLength | src/proto/handshake.rs:51-73 | The text has four characters for every three octets begun |
| Base64.Base64Bijection | src/proto/handshake.rs:48-73 | The decoder of section 4 of RFC 4648 gives some octets if and only if the text is their encoding |
| Base64.EncodeInjective | src/proto/handshake.rs:51-73 | Different octets have different encodings |
| Base64.EncodedCharacters | src/proto/handshake.rs:51-73 | With one octet over, as in a key, the text ends in two pads and has only characters of the alphabet before them |
| Handshake.ComputeAccept | src/proto/handshake.rs:26-31 | The accept value is the base64 of the standard's SHA-1 of key and GUID |
| AcceptExample.WorkedExample | src/proto/handshake.rs:20-31 | The example of section 1.3 of RFC 6455, calculated through two blocks of SHA-1: the key "dGhlIHNhbXBsZSBub25jZQ==" is answered with "s3pPLMBiTxaQ9kYGzzhZRbK+xOo=" |
| Handshake.ValidKeyIff | src/proto/handshake.rs:38-44 | A key is valid if and only if it is 24 characters: 22 of the base64 table, then two pads |
| Handshake.NewKeyIsValid | src/proto/handshake.rs:38-44 | Every key made from sixteen octets passes `is_valid_key` and decodes to those octets |
| Handshake.ExactKeyIff | src/proto/handshake.rs:38-44 | A key is the encoding of sixteen octets if and only if it is valid and the four spare bits of its last character are zero |
| Handshake.LooseKeyIsValid | src/proto/handshake.rs:38-44 | A key with a spare bit set is valid, is refused by the decoder of RFC 4648, and is made from no entropy |
| Handshake.NewKeyIsInjective | src/proto/handshake.rs:1025-1027 | Different entropy makes different keys |
| Handshake.HeadEndIff | src/proto/handshake.rs:741-754 | The end of a head is behind the first CRLFCRLF, or if there is none anywhere behind the first LFLF |
| Handshake.ParseRequest | src/proto/handshake.rs:769-866 | The one-pass parse, with its flags, computes the verdict that is defined on the headers it retains |
| Handshake.CollectKeepsAll | src/proto/handshake.rs:802-838 | The headers kept are every non-empty line after the first, in order, at most 128; a line without a colon among the first 129 is malformed, any other excess too large |
| Handshake.LastMeans | src/proto/handshake.rs:810-829 | Of several headers of a name the last one's value counts, and only that |
| Handshake.HeaderIs | src/proto/handshake.rs:806-807 | A header line is a name without colon, a colon, and a value that is trimmed; a line without colon is none |
| Handshake.MethodIs | src/proto/handshake.rs:785-793 | `Get`, `Options` and `Head` are their names in any case, everything else is kept as it is |
| Handshake.UpgradeListed | src/proto/handshake.rs:812-817 | A connection header lists upgrade if and only if some item of it, between commas or an end, is that word in any case with any white space around it |
| Handshake.AsksIff | src/proto/handshake.rs:810-819 | An upgrade is asked for if and only if the last upgrade header says websocket and the last connection header lists upgrade |
| Handshake.ProtocolsAppend | src/proto/handshake.rs:822-829 | The protocols asked for are the tokens of every header of that name, in order, and of no other |
| Handshake.RefusedIff | src/proto/handshake.rs:769-866 | Each refusal of a request if and only if the text and its headers are what it names; `NotGet` and `NotAnUpgrade` never |
| Handshake.VerdictFromHeaders | src/proto/handshake.rs:795-865 | An accepted head keeps every header line, at most 128, with the verb and path of its request line; it is an upgrade if and only if it is a GET whose last upgrade and connection headers ask for one, and then its last version is 13 and its last key valid |
| Heads.PushHeaders | src/proto/handshake.rs:898-903 | The loop appends exactly one printed line per header, in order |
| Heads.BuildRequest | src/proto/handshake.rs:949-977 | The request is the request line, the five required headers, the protocols if any, the extras, the blank line |
| Heads.BuildResponse | src/proto/handshake.rs:884-906 | The response is the status line, the required headers with the accept value, the protocol if any, the extras, the blank line |
| Heads.RequestIs | src/proto/handshake.rs:949-977 | The request, written out line by line |
| Heads.ResponseIs | src/proto/handshake.rs:884-906 | The answer, written out line by line |
| RoundTrip.HeadLines | src/proto/handshake.rs:775-778 | A printed head is split back into its start line, one line per header and two empty ones |
| RoundTrip.RequestRoundTrip | src/proto/handshake.rs:769-977 | A printed request within the limits parses as an upgrade with the same path, key and protocols in order, and a header list that is the lines printed |
| RoundTrip.HeadEndOfPrinted | src/proto/handshake.rs:741-754 | `head_end` finds the exact end of a printed head, whatever bytes follow it |
| Response.CheckResponse | src/proto/handshake.rs:984-1016 | The loop computes the verdict defined on the headers of the answer |
| Response.AcceptedAnswer | src/proto/handshake.rs:984-1016 | An answer is accepted if and only if it says 101 and its last accept header is the accept value of the key that was sent |
| Response.AnswerIff | src/proto/handshake.rs:984-1016 | Each verdict on an answer if and only if: no UTF-8, no "101" in the first line, the last accept header wrong or missing, or the last protocol named |
| Response.SkimAppend | src/proto/handshake.rs:997-1010 | The headers of an answer are those of its lines in order; a line without colon is passed over |
| Response.ResponseRoundTrip | src/proto/handshake.rs:884-1016 | The answer built for a key is accepted for that key, and gives the protocol selected |
| Upgrade.SettledHeadIsRead | src/upgrade.rs:31-55 | For settled bytes, however cut, `read_head` gives exactly the head, and head, remainder and unread chunks are all the bytes; or the error the bytes deserve |
| Upgrade.ReturnsIff | src/upgrade.rs:36-54 | Some cut into reads of at most `largest` octets gives a head of n octets if and only if n is one of the at most two ends there are and one read reaches it from a buffer within the limit and with no end in it |
| Upgrade.GivesUpIff | src/upgrade.rs:41-43 | Some such cut gives `HeadTooLarge` if and only if the first end is more than one octet past the limit, or there is none and the bytes are past it |
| Upgrade.IndependentIffSettled | src/upgrade.rs:31-55 | What `read_head` gives is independent of the cut into such reads if and only if there is no end, or the first is at most `max_head` + 1 with no other end in reach, or none is in reach |
| Upgrade.SettledForEvery | src/upgrade.rs:31-55 | For cuts of every kind that means no LFLF before the CRLFCRLF and an end at most `max_head` + 1 |
| Upgrade.CutMatters | src/proto/handshake.rs:741-754 | Seven octets with an LFLF before the CRLFCRLF are one head read at once and a shorter one read in two |
| Upgrade.LimitHoldsIff | src/upgrade.rs:36-54 | No cut into reads of at most `largest` octets makes `read_head` return more than `max_head` octets if and only if each end is within the limit or out of reach; for a single end, at most `max_head` or past `max_head` + `largest` |
| Upgrade.ExcessIsOneRead | src/upgrade.rs:41-53 | A head returned exceeds the limit by no more than the largest read |
| Upgrade.OneOverIsReturned | src/upgrade.rs:36-43 | A head of one octet past the limit is returned under every cut |
| Upgrade.LongHeadIsRefused | src/proto/handshake.rs:769-772 | An unambiguous head past the limit is refused as too large under every cut, by `read_head` or by the parse |
| Opening.PrintedIsSettled | src/upgrade.rs:31-55 | A printed head within the limit is settled, whatever bytes follow it |
| Opening.ReadHeadFrom | src/upgrade.rs:31-55 | The loop terminates and computes the read function on the chunks |
| Opening.CarryOver | src/upgrade.rs:153-156 | The connection reads the same things as if head and frames had never shared a read |
| Opening.HeadThenMessages | src/upgrade.rs:31-55 | A printed head and a good batch behind it, cut anywhere: the head is read exactly and the connection delivers exactly the messages |
| Refusal.BuildRejection | src/proto/handshake.rs:922-943 | The refusal is a head: the status line of the error, the version that would do if that was the error, the fixed headers, the extras, the blank line |
| Refusal.RefusalIs | src/proto/handshake.rs:922-943 | The refusal of each error, written out |
| Refusal.RefusalIsNoUpgrade | src/proto/handshake.rs:922-991 | No refusal, whatever the error and the extras, passes the client's check |
| Opening.RefusalIsRead | src/upgrade.rs:131-138 | A refusal within the limit, whatever follows and however cut, is read as exactly the bytes written, and the client learns `NotAnUpgrade` |
| Opening.AnswerAcceptedIff | src/upgrade.rs:178-184 | Some cut into reads of at most `largest` octets makes the client accept the server's answer if and only if it has at most `max_head` + `largest` octets; every such cut does if and only if it has at most `max_head` + 1 |
| Opening.LongAnswerIsAccepted | src/upgrade.rs:178-184 | An answer padded to `max_head` + 1 octets is read and accepted however it is cut |
| Opening.Accept | src/upgrade.rs:110-157 | What the server writes, returns and leaves unread, for every stream; the connection starts from the bytes behind the head |
| Opening.Connect | src/upgrade.rs:165-185 | What the client writes, returns and leaves unread, for every stream |
| Opening.RequestIsRead | src/upgrade.rs:120-139 | A client's request, whatever follows in the same reads, is read as the upgrade it is, with exactly what follows left over |
| Opening.AnswerIsRead | src/upgrade.rs:174-184 | The server's answer to that key, whatever follows in the same reads, is accepted, with exactly what follows left over |
| Opening.SessionDelivers | src/upgrade.rs:110-185 | A whole session: both heads and both sides' messages, cut anywhere; the handshake completes and each side reads exactly what the other sent |
| Opening.ClientSide | src/upgrade.rs:165-185 | A live client opens, writes its batch and reads the server's, from any cut: what it puts on the stream and what it reads are exact |
| Opening.ServerSide | src/upgrade.rs:110-157 | A live server likewise |
| Opening.Session | src/upgrade.rs:110-185 | Both ends live: what either writes is what arrives at the other, and each reads exactly the other's batch and then the right end |

## Left out

- The reactor, async scheduling, I/O failures and `StreamExt`: the stream is a list of chunks and a sink that takes every byte; a write is never cut short, and the end of the stream stays the end.
- TLS, name resolution and URL parsing (`src/tls.rs`, `src/client.rs`): foreign libraries, and branches that would only add easy members.
- Buffer capacities, `reserve`, `shrink_to` and the zero-copy paths: invisible in the bytes, except that spare capacity bounds one read; here a chunk may have any length, or at most `largest` where that matters. The read buffer is a `seq` field that is split and extended; only the payload is an array, since it is unmasked in place. `outgoing` and `scratch` are arrays that are replaced by longer ones when they grow.
- Seeding of the mask generator and its unpredictability: the seed is any 64-bit value.
- `Header::decode` and `parse_close_body` are functions: the code's cursor is local and becomes a sum of widths.
- The choice between `simdutf8` and the standard library: one predicate answers for both.
- 32-bit targets: there `payload_len as usize` could truncate. `saturating_add` on lengths is plain addition, which no two Rust allocations can make overflow.
- `Sha1.Hasher.Update`: does not model the overflow of the length counter for messages of 2^61 octets and more, because section 5.1.1 of FIPS 180-4 does not define those; the five state words are one value, not an array.
- `Heads.BuildRequest`: pushes one of the string literals in three pieces, because the specification is by header; the characters are the same.
- `Error::close_code`, `Display` and the default limits: single-branch tables.
- Callers: `EncodersAgree`, `ReadTimes`, `ReadBatch`, `Exchange`, `HashPieces`, `Perform`, `PerformAll`, `ClientSide`, `ServerSide` and `Session` are not methods of the code but callers of modelled ones, which join the contracts of several calls into one statement.
- Cryptographic strength of SHA-1 and of the masking keys.
