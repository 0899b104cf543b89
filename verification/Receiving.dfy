/** What a receiver makes of the bytes it gets: `parse_buffered` and `read` as functions. */
module Receiving {
  import opened Bytes
  import opened Bits
  import opened Opcode
  import opened Mask
  import opened Frame
  import opened Messages
  import opened Reassembly

  datatype Role = Client | Server

  datatype Config = Config(role: Role, limits: Limits)

  datatype Error =
    | FrameFailure(frame: FrameError)
    | ProtocolFailure(protocol: ProtocolError)
    | MaskingViolation
    | UnexpectedEof

  /** What the front of the buffer holds. */
  datatype Turn =
    | NeedMore
    | Broken(error: Error)
    | Took(size: nat, fragment: Fragment)

  /** Section 5.1 of RFC 6455: a server refuses unmasked frames, a client masked ones. */
  predicate MaskingAllowed(role: Role, mask: Option<Key>) {
    if role == Server then mask.Some? else mask.None?
  }

  function Unmask(mask: Option<Key>, payload: seq<byte>): seq<byte> {
    if mask.Some? then Masked(payload, mask.value, 0) else payload
  }

  /** One turn of the parse loop: nothing is judged before the whole frame is there. */
  function ParseFrame(cfg: Config, buf: seq<byte>): (t: Turn)
    ensures t.Took? ==> 2 <= t.size <= |buf|
    ensures t.Broken? ==> t.error.FrameFailure? || t.error.MaskingViolation?
  {
    match Decode(buf, cfg.limits.maxFrame)
    case Failed(e) => Broken(FrameFailure(e))
    case Incomplete => NeedMore
    case Complete(h, used) =>
      DecodedIsEncoding(buf, cfg.limits.maxFrame);
      if |buf| < used + h.payloadLen then NeedMore
      else if !MaskingAllowed(cfg.role, h.mask) then Broken(MaskingViolation)
      else
        Took(used + h.payloadLen,
             Fragment(h.opcode, h.fin, Unmask(h.mask, buf[used..used + h.payloadLen])))
  }

  datatype Parsed = Idle | Got(message: Message) | Erred(error: Error)

  /** `parse_buffered`: the assembler, the buffer left over, and the answer. */
  function ParseBuffered(cfg: Config, st: State, buf: seq<byte>): (r: (State, seq<byte>, Parsed))
    requires Inv(cfg.limits.maxMessage, st)
    ensures Inv(cfg.limits.maxMessage, r.0)
    decreases |buf|
  {
    match ParseFrame(cfg, buf)
    case NeedMore => (st, buf, Idle)
    case Broken(e) => (st, buf, Erred(e))
    case Took(n, f) =>
      var (next, out) := Step(cfg.limits.maxMessage, st, f);
      match out
      case Delivered(m) => (next, buf[n..], Got(m))
      case Refused(e) => (next, buf[n..], Erred(ProtocolFailure(e)))
      case Nothing => ParseBuffered(cfg, next, buf[n..])
  }

  /** What `read` returns: `Ok(Some(message))`, `Err(error)` or `Ok(None)`. */
  datatype Reading = Message(message: Message) | Failure(error: Error) | CleanEnd

  /** A connection between reads: the chunks are what the socket has yet to hand over. */
  datatype Receiver = Receiver(st: State, buf: seq<byte>, chunks: seq<seq<byte>>)

  predicate Ready(cfg: Config, r: Receiver) {
    Inv(cfg.limits.maxMessage, r.st) &&
    forall i :: 0 <= i < |r.chunks| ==> r.chunks[i] != []
  }

  function AtEof(st: State): Reading {
    if st.closed then CleanEnd else Failure(UnexpectedEof)
  }

  /** `read`: parse what is there, fetch one more chunk, parse again. */
  function Read(cfg: Config, r: Receiver): (a: (Reading, Receiver))
    requires Ready(cfg, r)
    ensures Ready(cfg, a.1)
    decreases |r.chunks|
  {
    var (st, rest, parsed) := ParseBuffered(cfg, r.st, r.buf);
    match parsed
    case Got(m) => (Message(m), Receiver(st, rest, r.chunks))
    case Erred(e) => (Failure(e), Receiver(st, rest, r.chunks))
    case Idle =>
      if r.chunks == [] then (AtEof(st), Receiver(st, rest, []))
      else Read(cfg, Receiver(st, rest + r.chunks[0], r.chunks[1..]))
  }

  /** The first `n` readings and the connection after them. */
  function ReadMany(cfg: Config, r: Receiver, n: nat): (a: (seq<Reading>, Receiver))
    requires Ready(cfg, r)
    ensures Ready(cfg, a.1) && |a.0| == n
    decreases n
  {
    if n == 0 then ([], r) else
    var (reading, next) := Read(cfg, r);
    var (readings, last) := ReadMany(cfg, next, n - 1);
    ([reading] + readings, last)
  }

  // ---- The same thing said of the whole input at once ---------------------------------

  /** Cut `bytes` into whole frames; also what is left and why the cutting stopped. */
  function Cut(cfg: Config, bytes: seq<byte>): (r: (seq<Fragment>, seq<byte>, Turn))
    ensures !r.2.Took?
    decreases |bytes|
  {
    match ParseFrame(cfg, bytes)
    case Took(n, f) =>
      var (frames, rest, stop) := Cut(cfg, bytes[n..]);
      ([f] + frames, rest, stop)
    case stop => ([], bytes, stop)
  }

  /** The answers that reach the reader, in order. */
  function Audible(outs: seq<Outcome>): seq<Reading> {
    if outs == [] then []
    else match outs[0]
      case Nothing => Audible(outs[1..])
      case Delivered(m) => [Message(m)] + Audible(outs[1..])
      case Refused(e) => [Failure(ProtocolFailure(e))] + Audible(outs[1..])
  }

  /** Everything a reader is told before the end, from the whole of the input. */
  function Told(cfg: Config, st: State, bytes: seq<byte>): seq<Reading>
    requires Inv(cfg.limits.maxMessage, st)
  {
    Audible(Run(cfg.limits.maxMessage, st, Cut(cfg, bytes).0).1)
  }

  /** What it is told for ever after. */
  function Ending(cfg: Config, st: State, bytes: seq<byte>): Reading
    requires Inv(cfg.limits.maxMessage, st)
  {
    var (frames, rest, stop) := Cut(cfg, bytes);
    if stop.Broken? then Failure(stop.error)
    else AtEof(Run(cfg.limits.maxMessage, st, frames).0)
  }

  /** The `k`-th reading. */
  function Nth(cfg: Config, st: State, bytes: seq<byte>, k: nat): Reading
    requires Inv(cfg.limits.maxMessage, st)
  {
    if k < |Told(cfg, st, bytes)| then Told(cfg, st, bytes)[k] else Ending(cfg, st, bytes)
  }

  // ---- One frame of the whole input ----------------------------------------------------

  lemma ParseFrameIsPrefixDecided(cfg: Config, buf: seq<byte>, more: seq<byte>)
    ensures !ParseFrame(cfg, buf).NeedMore? ==> ParseFrame(cfg, buf + more) == ParseFrame(cfg, buf)
  {
    DecodeIsPrefixDecided(buf, more, cfg.limits.maxFrame);
    var d := Decode(buf, cfg.limits.maxFrame);
    if d.Complete? && d.used + d.header.payloadLen <= |buf| {
      var total := d.used + d.header.payloadLen;
      assert (buf + more)[d.used..total] == buf[d.used..total];
    }
  }

  /** On the octets: a whole frame is there, and its mask bit is clear for a server or set for a client. */
  predicate WrongMaskBit(cfg: Config, buf: seq<byte>) {
    var d := Decode(buf, cfg.limits.maxFrame);
    d.Complete? && d.used + d.header.payloadLen <= |buf| && |buf| >= 2 &&
    match cfg.role
    case Server => buf[1] < 0x80
    case Client => buf[1] >= 0x80
  }

  /** That, and nothing else, is a masking violation. */
  lemma MaskingIff(cfg: Config, buf: seq<byte>)
    ensures ParseFrame(cfg, buf) == Broken(MaskingViolation) <==> WrongMaskBit(cfg, buf)
  {
  }

  /** What a frame that is taken says, octet by octet: its opcode and final bit, and its payload, under the
      key that precedes it if its mask bit is set. */
  lemma TookOctets(cfg: Config, buf: seq<byte>)
    requires ParseFrame(cfg, buf).Took?
    ensures var Took(n, f) := ParseFrame(cfg, buf);
            var at := n - |f.payload|;
            |f.payload| + 2 <= n <= |buf| && f.opcode.ToBits() == buf[0] % 0x10 && (f.fin <==> buf[0] >= 0x80) &&
            (cfg.role == Server <==> buf[1] >= 0x80) &&
            (cfg.role == Client ==> f.payload == buf[at..n]) &&
            (cfg.role == Server ==>
               at >= 6 && forall i :: 0 <= i < |f.payload| ==>
                 f.payload[i] == XorByte(buf[at + i], buf[at - 4 + i % 4]))
  {
    hide Decode, XorByte, Number2, Number4, Masked;
    var Complete(h, used) := Decode(buf, cfg.limits.maxFrame);
    HeaderOctets(buf, cfg.limits.maxFrame);
    if h.mask.Some? {
      UnmaskedInPlace(buf, used, used + h.payloadLen);
    }
  }

  lemma UnmaskedInPlace(buf: seq<byte>, at: nat, n: nat)
    requires 4 <= at <= n <= |buf|
    ensures forall i :: 0 <= i < n - at ==>
              Masked(buf[at..n], buf[at - 4..at], 0)[i] == XorByte(buf[at + i], buf[at - 4 + i % 4])
  {
    hide XorByte;
    var key := buf[at - 4..at];
    forall j | 0 <= j < 4 ensures key[j] == buf[at - 4 + j] {}
  }

  lemma TakeOne(cfg: Config, st: State, bytes: seq<byte>)
    requires Inv(cfg.limits.maxMessage, st) && ParseFrame(cfg, bytes).Took?
    ensures var Took(n, f) := ParseFrame(cfg, bytes);
            var (next, out) := Step(cfg.limits.maxMessage, st, f);
            Told(cfg, st, bytes) == Audible([out]) + Told(cfg, next, bytes[n..]) &&
            Ending(cfg, st, bytes) == Ending(cfg, next, bytes[n..])
  {
    hide ParseFrame;
    var Took(n, f) := ParseFrame(cfg, bytes);
    var (next, out) := Step(cfg.limits.maxMessage, st, f);
    var frames := Cut(cfg, bytes[n..]).0;
    assert ([f] + frames)[1..] == frames;
    var outs := Run(cfg.limits.maxMessage, next, frames).1;
    assert ([out] + outs)[1..] == outs;
    assert Audible([out][1..]) == [];
  }

  /** How a parse of the buffer advances the story told by the buffer and all that follows. */
  lemma {:induction false} ParseAdvances(cfg: Config, st: State, buf: seq<byte>, more: seq<byte>)
    requires Inv(cfg.limits.maxMessage, st)
    ensures var (next, rest, parsed) := ParseBuffered(cfg, st, buf);
            match parsed
            case Idle =>
              ParseFrame(cfg, rest).NeedMore? &&
              Told(cfg, st, buf + more) == Told(cfg, next, rest + more) &&
              Ending(cfg, st, buf + more) == Ending(cfg, next, rest + more)
            case Got(m) =>
              Told(cfg, st, buf + more) == [Message(m)] + Told(cfg, next, rest + more) &&
              Ending(cfg, st, buf + more) == Ending(cfg, next, rest + more)
            case Erred(ProtocolFailure(e)) =>
              Told(cfg, st, buf + more) == [Failure(ProtocolFailure(e))] + Told(cfg, next, rest + more) &&
              Ending(cfg, st, buf + more) == Ending(cfg, next, rest + more)
            case Erred(e) =>
              ParseFrame(cfg, rest) == Broken(e) &&
              Told(cfg, st, buf + more) == Told(cfg, next, rest + more) == [] &&
              Ending(cfg, st, buf + more) == Ending(cfg, next, rest + more) == Failure(e)
    decreases |buf|
  {
    hide ParseFrame;
    var turn := ParseFrame(cfg, buf);
    ParseFrameIsPrefixDecided(cfg, buf, more);
    if !turn.Took? {
    } else {
      var (next, out) := Step(cfg.limits.maxMessage, st, turn.fragment);
      TakeOne(cfg, st, buf + more);
      assert (buf + more)[turn.size..] == buf[turn.size..] + more;
      assert Audible([out][1..]) == [];
      if out == Nothing {
        ParseAdvances(cfg, next, buf[turn.size..], more);
      }
    }
  }

  // ---- Conservation --------------------------------------------------------------------

  /** A frame needs no byte beyond its own. */
  lemma ParseFrameExact(cfg: Config, buf: seq<byte>)
    requires ParseFrame(cfg, buf).Took?
    ensures ParseFrame(cfg, buf[..ParseFrame(cfg, buf).size]) == ParseFrame(cfg, buf)
  {
    hide Decode, Encoded, WellFormed;
    var max := cfg.limits.maxFrame;
    var Complete(h, used) := Decode(buf, max);
    var total := used + h.payloadLen;
    DecodedIsEncoding(buf, max);
    assert Encoded(h) <= buf[..total] by { assert buf[..total][..used] == buf[..used]; }
    HeaderBijection(buf[..total], max, h, used);
    assert buf[..total][used..total] == buf[used..total];
  }

  /** Cutting is compositional at a frame boundary. */
  lemma {:induction false} CutAppend(cfg: Config, a: seq<byte>, b: seq<byte>)
    requires Cut(cfg, a).1 == [] && Cut(cfg, a).2 == NeedMore
    ensures Cut(cfg, a + b) == (Cut(cfg, a).0 + Cut(cfg, b).0, Cut(cfg, b).1, Cut(cfg, b).2)
    decreases |a|
  {
    hide ParseFrame;
    var turn := ParseFrame(cfg, a);
    if turn.Took? {
      ParseFrameIsPrefixDecided(cfg, a, b);
      var rest := a[turn.size..];
      CutAppend(cfg, rest, b);
      assert (a + b)[turn.size..] == rest + b;
      assert [turn.fragment] + (Cut(cfg, rest).0 + Cut(cfg, b).0) == Cut(cfg, a).0 + Cut(cfg, b).0;
    } else {
      assert a == [] && a + b == b;
      assert [] + Cut(cfg, b).0 == Cut(cfg, b).0;
    }
  }

  lemma CutSnoc(cfg: Config, consumed: seq<byte>, frames: seq<Fragment>, buf: seq<byte>)
    requires Cut(cfg, consumed) == (frames, [], NeedMore) && ParseFrame(cfg, buf).Took?
    ensures var Took(n, f) := ParseFrame(cfg, buf);
            Cut(cfg, consumed + buf[..n]) == (frames + [f], [], NeedMore)
  {
    assert ParseFrame(cfg, []) == NeedMore;
    hide ParseFrame;
    var Took(n, f) := ParseFrame(cfg, buf);
    ParseFrameExact(cfg, buf);
    CutAppend(cfg, consumed, buf[..n]);
    assert buf[..n][n..] == [];
    assert Cut(cfg, buf[..n]).0 == [f];
  }

  /** When more is needed, less than one largest frame is pending. */
  lemma PendingIsBounded(cfg: Config, buf: seq<byte>)
    requires ParseFrame(cfg, buf).NeedMore?
    ensures |buf| < MAX_ENCODED_LEN + cfg.limits.maxFrame
  {
    DecodeIsPrefixDecided(buf, [], cfg.limits.maxFrame);
    if Decode(buf, cfg.limits.maxFrame).Complete? {
      DecodedIsEncoding(buf, cfg.limits.maxFrame);
    }
  }

  /** `parse_buffered` gives up only for want of bytes. */
  lemma {:induction false} IdleNeedsMore(cfg: Config, st: State, buf: seq<byte>)
    requires Inv(cfg.limits.maxMessage, st)
    ensures var (next, rest, parsed) := ParseBuffered(cfg, st, buf);
            parsed.Idle? ==> ParseFrame(cfg, rest).NeedMore?
    decreases |buf|
  {
    hide ParseFrame;
    var turn := ParseFrame(cfg, buf);
    if !turn.Took? {
    } else {
      IdleNeedsMore(cfg, Step(cfg.limits.maxMessage, st, turn.fragment).0, buf[turn.size..]);
    }
  }
}
