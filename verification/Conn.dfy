/** A connection as an object: the functions of `Receiving` and `Sending`, carried out on a stream
    by methods that keep their buffers, counters and flags in fields. */
module Conn {
  import opened Bytes
  import opened Bits
  import opened Opcode
  import opened Mask
  import opened Frame
  import opened Messages
  import opened Reassembly
  import opened Receiving
  import opened Sending

  /** The transport: chunks the peer's bytes will arrive in, and all that was written. */
  class Stream {
    var incoming: seq<seq<byte>>
    var sent: seq<byte>

    ghost predicate Valid()
      reads this
    {
      forall i :: 0 <= i < |incoming| ==> incoming[i] != []
    }

    constructor (incoming: seq<seq<byte>>)
      requires forall i :: 0 <= i < |incoming| ==> incoming[i] != []
      ensures Valid() && this.incoming == incoming && sent == []
    {
      this.incoming := incoming;
      sent := [];
    }

    /** One read: the next chunk, or nothing at the end of the stream. */
    method ReadBuf() returns (chunk: seq<byte>)
      requires Valid()
      modifies this`incoming
      ensures Valid()
      ensures old(incoming) == [] ==> chunk == [] && incoming == []
      ensures old(incoming) != [] ==> chunk == old(incoming)[0] != [] && incoming == old(incoming)[1..]
    {
      if incoming == [] {
        return [];
      }
      chunk := incoming[0];
      incoming := incoming[1..];
    }

    method WriteAll(bytes: seq<byte>)
      modifies this`sent
      ensures sent == old(sent) + bytes
    {
      sent := sent + bytes;
    }

    method WriteAllVectored(header: seq<byte>, payload: seq<byte>)
      modifies this`sent
      ensures sent == old(sent) + (header + payload)
    {
      sent := sent + (header + payload);
    }
  }

  /** A growable buffer after `extend_from_slice`. */
  method Extended(buffer: array<byte>, s: seq<byte>) returns (longer: array<byte>)
    ensures fresh(longer) && longer[..] == buffer[..] + s
  {
    longer := new byte[buffer.Length + |s|](_ => 0);
    CopyInto(longer, 0, buffer[..]);
    ghost var head := longer[..buffer.Length];
    CopyInto(longer, buffer.Length, s);
    assert longer[..] == longer[..buffer.Length] + longer[buffer.Length..buffer.Length + |s|];
  }

  class Connection {
    const endian: Endian
    const role: Role
    const limits: Limits
    const stream: Stream
    const assembler: Assembler
    /** Received, and not yet cut into frames. */
    var readBuffer: seq<byte>
    /** Holds one frame's payload while it is masked. */
    var scratch: array<byte>
    /** Frames of one batch; empty except inside `WriteAll`. */
    var outgoing: array<byte>
    var maskState: u64
    var closeSent: bool

    /** Every byte taken from the stream, and the frames consumed from them. */
    ghost var received: seq<byte>
    ghost var consumed: seq<byte>
    ghost var frames: seq<Fragment>

    ghost function Cfg(): Config {
      Config(role, limits)
    }

    ghost function Side(): Receiver
      reads this, stream, assembler
    {
      Receiver(assembler.Now(), readBuffer, stream.incoming)
    }

    /** Conservation: every byte received is in a consumed whole frame or still buffered, and
        the reassembler is where those frames put it. */
    ghost predicate Valid()
      reads this, stream, assembler
    {
      stream.Valid() && assembler.limits == limits && assembler.Valid() &&
      outgoing.Length == 0 &&
      received == consumed + readBuffer &&
      Cut(Cfg(), consumed) == (frames, [], NeedMore) &&
      assembler.Now() == Run(limits.maxMessage, FRESH, frames).0
    }

    /** `with_buffered`: nothing consumed and nothing open; `buffered` is the first thing to parse. */
    constructor (stream: Stream, role: Role, limits: Limits, buffered: seq<byte>, seed: u64, endian: Endian)
      requires stream.Valid()
      ensures Valid() && fresh(assembler)
      ensures this.stream == stream && this.role == role && this.limits == limits && this.endian == endian
      ensures Side() == Receiver(FRESH, buffered, stream.incoming)
      ensures received == buffered && maskState == seed && !closeSent
    {
      this.endian := endian;
      this.role := role;
      this.limits := limits;
      this.stream := stream;
      assembler := new Assembler(limits);
      readBuffer := buffered;
      scratch := new byte[0];
      outgoing := new byte[0];
      maskState := seed;
      closeSent := false;
      received := buffered;
      consumed := [];
      frames := [];
    }

    /** `next_mask` */
    method NextMask() returns (key: Key)
      modifies this`maskState
      ensures (maskState, key) == Sending.NextMask(endian, old(maskState))
    {
      maskState := (maskState + 0x9E37_79B9_7F4A_7C15) % TWO_64;
      var z: nat := maskState;
      z := Xor(z, z / 0x4000_0000) * 0xBF58_476D_1CE4_E5B9 % TWO_64;
      z := Xor(z, z / 0x800_0000) * 0x94D0_49BB_1331_11EB % TWO_64;
      z := Xor(z, z / 0x8000_0000);
      return ToNE(endian, z % TWO_32, 4);
    }

    method Draw() returns (mask: Option<Key>)
      modifies this`maskState
      ensures (maskState, mask) == DrawMask(endian, role, old(maskState))
    {
      if role == Client {
        var key := NextMask();
        return Some(key);
      }
      return None;
    }

    /** One turn of the parse loop, up to the assembler: split a whole frame off the buffer and
        unmask its payload in place. */
    method TakeFrame() returns (t: Turn)
      modifies this`readBuffer
      ensures t == ParseFrame(Cfg(), old(readBuffer))
      ensures readBuffer == if t.Took? then old(readBuffer)[t.size..] else old(readBuffer)
    {
      var decoded := Decode(readBuffer, limits.maxFrame);
      if decoded.Failed? {
        return Broken(FrameFailure(decoded.error));
      }
      if decoded.Incomplete? {
        return NeedMore;
      }
      var header, headerLen := decoded.header, decoded.used;
      DecodedIsEncoding(readBuffer, limits.maxFrame);
      var total := headerLen + header.payloadLen;
      if |readBuffer| < total {
        return NeedMore;
      }
      if (role == Server && header.mask.None?) || (role == Client && header.mask.Some?) {
        return Broken(MaskingViolation);
      }
      var body := readBuffer[headerLen..total];
      readBuffer := readBuffer[total..];
      var payload := new byte[|body|](i requires 0 <= i < |body| => body[i]);
      assert payload[..] == payload[0..] == body;
      if header.mask.Some? {
        var _ := Apply(payload, 0, header.mask.value, 0, endian);
      }
      assert payload[..] == payload[0..];
      return Took(total, Fragment(header.opcode, header.fin, payload[..]));
    }

    /** `parse_buffered`: consume whole frames until one is answered or none is left. */
    method ParseBuffered() returns (r: Parsed)
      requires Valid()
      modifies this`readBuffer, this`consumed, this`frames, assembler
      ensures Valid()
      ensures (assembler.Now(), readBuffer, r)
           == Receiving.ParseBuffered(Cfg(), old(assembler.Now()), old(readBuffer))
    {
      hide ParseFrame;
      while true
        invariant Valid()
        invariant Receiving.ParseBuffered(Cfg(), assembler.Now(), readBuffer)
               == Receiving.ParseBuffered(Cfg(), old(assembler.Now()), old(readBuffer))
        decreases |readBuffer|
      {
        ghost var buf := readBuffer;
        var turn := TakeFrame();
        match turn {
          case Broken(error) => return Erred(error);
          case NeedMore => return Idle;
          case Took(size, f) =>
            CutSnoc(Cfg(), consumed, frames, buf);
            RunSnoc(limits.maxMessage, frames, f);
            assert received == (consumed + buf[..size]) + buf[size..];
            consumed, frames := consumed + buf[..size], frames + [f];
            var out := assembler.Accept(f.opcode, f.fin, f.payload);
            match out {
              case Delivered(message) => return Got(message);
              case Nothing =>
              case Refused(error) => return Erred(ProtocolFailure(error));
            }
        }
      }
      return Idle;
    }

    /** One more chunk from the socket. It is asked for only when no whole frame is buffered, so
        less than one largest frame is pending. */
    method FillBuffer() returns (read: nat)
      requires Valid() && ParseFrame(Cfg(), readBuffer).NeedMore?
      modifies this`readBuffer, this`received, stream`incoming
      ensures Valid()
      ensures old(|readBuffer|) < MAX_ENCODED_LEN + limits.maxFrame
      ensures old(stream.incoming) == [] ==>
                read == 0 && readBuffer == old(readBuffer) && stream.incoming == [] && received == old(received)
      ensures old(stream.incoming) != [] ==>
                read > 0 && readBuffer == old(readBuffer) + old(stream.incoming)[0] &&
                stream.incoming == old(stream.incoming)[1..] &&
                received == old(received) + old(stream.incoming)[0]
    {
      PendingIsBounded(Cfg(), readBuffer);
      var chunk := stream.ReadBuf();
      read := |chunk|;
      readBuffer := readBuffer + chunk;
      received := received + chunk;
    }

    /** `read`: the next message, or the error, or the clean end of the connection. */
    method Read() returns (r: Reading)
      requires Valid()
      modifies this`readBuffer, this`received, this`consumed, this`frames, assembler, stream`incoming
      ensures Valid()
      ensures (r, Side()) == Receiving.Read(Cfg(), old(Side()))
      ensures received + Concat(stream.incoming) == old(received + Concat(stream.incoming))
    {
      hide ParseFrame, Cut, Run, Receiving.ParseBuffered;
      while true
        invariant Valid()
        invariant Receiving.Read(Cfg(), Side()) == Receiving.Read(Cfg(), old(Side()))
        invariant received + Concat(stream.incoming) == old(received + Concat(stream.incoming))
        decreases |stream.incoming|
      {
        ghost var buf, st := readBuffer, assembler.Now();
        var parsed := ParseBuffered();
        if parsed.Got? {
          return Message(parsed.message);
        }
        if parsed.Erred? {
          return Failure(parsed.error);
        }
        IdleNeedsMore(Cfg(), st, buf);
        ghost var incoming := stream.incoming;
        var read := FillBuffer();
        if read == 0 {
          if assembler.closed {
            return CleanEnd;
          }
          return Failure(UnexpectedEof);
        }
        assert incoming == [incoming[0]] + incoming[1..];
      }
      return CleanEnd;
    }

    // ---- Writing ------------------------------------------------------------------------

    method HeaderBytes(f: Fragment, mask: Option<Key>) returns (bytes: seq<byte>)
      requires Sized(f)
      ensures bytes == Encoded(HeaderOf(f, mask))
    {
      var header := new byte[MAX_ENCODED_LEN](_ => 0);
      var written := Encode(HeaderOf(f, mask), header);
      return header[..written.value];
    }

    /** `encode_frame`: append one whole frame to the batch, masking it in place there. */
    method EncodeFrame(batch: array<byte>, f: Fragment) returns (longer: array<byte>)
      requires Sized(f)
      modifies this`maskState
      ensures fresh(longer)
      ensures var (next, mask) := DrawMask(endian, role, old(maskState));
              maskState == next && longer[..] == batch[..] + WireFrame(mask, f)
    {
      hide Encoded, Masked, DrawMask;
      var mask := Draw();
      var header := HeaderBytes(f, mask);
      longer := Extended(batch, header);
      var from := longer.Length;
      ghost var before := longer[..];
      longer := Extended(longer, f.payload);
      assert longer[..from] == before && longer[from..] == f.payload;
      if mask.Some? {
        var _ := Apply(longer, from, mask.value, 0, endian);
      }
      assert longer[..] == longer[..from] + longer[from..];
    }

    /** `encode_all`: every message into the batch, back to back. */
    method EncodeAll(batch: array<byte>, messages: seq<Message>) returns (longer: array<byte>)
      requires AllSized(messages)
      modifies this`maskState, this`closeSent
      ensures longer == batch || fresh(longer)
      ensures var (bytes, last) := Wire(endian, role, old(maskState), messages);
              maskState == last && longer[..] == batch[..] + bytes
      ensures closeSent == (old(closeSent) || SendsClose(messages))
    {
      hide WireFrame, DrawMask, FragmentOf, Wire, EncodeCloseBody;
      longer := batch;
      ghost var (bytes, last) := Wire(endian, role, maskState, messages);
      for i := 0 to |messages|
        invariant longer == batch || fresh(longer)
        invariant Wire(endian, role, maskState, messages[i..]).1 == last
        invariant longer[..] + Wire(endian, role, maskState, messages[i..]).0 == batch[..] + bytes
        invariant closeSent == (old(closeSent) || SendsClose(messages[..i]))
      {
        ghost var before := longer[..];
        ghost var (next, mask) := DrawMask(endian, role, maskState);
        ghost var frame := WireFrame(mask, FragmentOf(messages[i]));
        ghost var rest := Wire(endian, role, next, messages[i + 1..]).0;
        assert messages[i..][0] == messages[i] && messages[i..][1..] == messages[i + 1..];
        WireStep(endian, role, maskState, messages[i..]);
        if messages[i].CloseMessage? {
          closeSent := true;
        }
        longer := EncodeFrame(longer, FragmentOf(messages[i]));
        assert before + (frame + rest) == (before + frame) + rest;
        assert messages[..i + 1] == messages[..i] + [messages[i]];
      }
      assert messages[..|messages|] == messages;
      WireNone(endian, role, maskState);
    }

    /** `write_all`: the whole batch in one write, and nothing kept back. */
    method WriteAll(messages: seq<Message>)
      requires Valid()
      requires AllSized(messages)
      modifies this`maskState, this`closeSent, this`outgoing, stream`sent
      ensures Valid()
      ensures var (bytes, last) := Wire(endian, role, old(maskState), messages);
              stream.sent == old(stream.sent) + bytes && maskState == last
      ensures closeSent == (old(closeSent) || SendsClose(messages))
      ensures outgoing.Length == 0
    {
      hide Wire, Cut, Run;
      var batch := outgoing;
      outgoing := new byte[0];
      batch := EncodeAll(batch, messages);
      if batch.Length > 0 {
        stream.WriteAll(batch[..]);
      }
    }

    /** `write_frame`: header and payload in one write, masked in the scratch buffer if at all. */
    method WriteFrame(f: Fragment)
      requires Valid() && Sized(f)
      modifies this`maskState, this`scratch, stream`sent
      ensures Valid()
      ensures var (next, mask) := DrawMask(endian, role, old(maskState));
              stream.sent == old(stream.sent) + WireFrame(mask, f) && maskState == next
    {
      hide Encoded, Masked, DrawMask, Cut, Run;
      var mask := Draw();
      var header := HeaderBytes(f, mask);
      if mask.None? {
        stream.WriteAllVectored(header, f.payload);
      } else {
        var empty := new byte[0];
        var buffer := Extended(empty, f.payload);
        assert buffer[..] == buffer[0..] == f.payload;
        var _ := Apply(buffer, 0, mask.value, 0, endian);
        assert buffer[..] == buffer[0..];
        stream.WriteAllVectored(header, buffer[..]);
        scratch := buffer;
      }
    }

    /** `write` */
    method Write(message: Message)
      requires Valid() && Sized(FragmentOf(message))
      modifies this`maskState, this`scratch, this`closeSent, stream`sent
      ensures Valid()
      ensures var (bytes, last) := Wire(endian, role, old(maskState), [message]);
              stream.sent == old(stream.sent) + bytes && maskState == last
      ensures closeSent == (old(closeSent) || message.CloseMessage?)
    {
      hide WireFrame, DrawMask, Cut, Run;
      if message.CloseMessage? {
        closeSent := true;
      }
      WriteFrame(FragmentOf(message));
      assert [message][1..] == [];
      assert Wire(endian, role, maskState, []) == ([], maskState);
    }

    /** `pong`: answer a ping with its own payload. */
    method Pong(payload: seq<byte>)
      requires Valid() && |payload| < TWO_64
      modifies this`maskState, this`scratch, stream`sent
      ensures Valid()
      ensures var (bytes, last) := Wire(endian, role, old(maskState), [PongMessage(payload)]);
              stream.sent == old(stream.sent) + bytes && maskState == last
    {
      hide WireFrame, DrawMask, Cut, Run;
      WriteFrame(Fragment(OpCode.Pong, true, payload));
      assert [PongMessage(payload)][1..] == [];
      assert Wire(endian, role, maskState, []) == ([], maskState);
    }

    /** `close`: a second close is a no-op. */
    method Close(frame: Option<CloseFrame>)
      requires Valid() && Sized(FragmentOf(CloseMessage(frame)))
      modifies this`maskState, this`scratch, this`closeSent, stream`sent
      ensures Valid() && closeSent
      ensures old(closeSent) ==> stream.sent == old(stream.sent) && maskState == old(maskState)
      ensures !old(closeSent) ==>
                var (bytes, last) := Wire(endian, role, old(maskState), [CloseMessage(frame)]);
                stream.sent == old(stream.sent) + bytes && maskState == last
    {
      if closeSent {
        return;
      }
      Write(CloseMessage(frame));
    }
  }
}
