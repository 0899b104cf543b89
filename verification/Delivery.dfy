/** Theorems about whole connections: what is sent is what is read, however the wire is cut. */
module Delivery {
  import opened Bytes
  import opened Bits
  import opened Opcode
  import opened Utf8
  import opened Mask
  import opened Frame
  import opened Messages
  import opened Reassembly
  import opened Receiving
  import opened Sending
  import opened Conn

  // ---- Reading does not depend on how the bytes were cut --------------------------------

  /** All the bytes a receiver has or will get. */
  function Pending(r: Receiver): seq<byte> {
    r.buf + Concat(r.chunks)
  }

  function Rest<T>(s: seq<T>): seq<T> {
    if s == [] then [] else s[1..]
  }

  /** One `read` returns the first thing the pending bytes have to tell, and leaves the rest. */
  lemma {:induction false} ReadTellsNext(cfg: Config, r: Receiver)
    requires Ready(cfg, r)
    ensures var (reading, next) := Read(cfg, r);
            reading == Nth(cfg, r.st, Pending(r), 0) &&
            Told(cfg, next.st, Pending(next)) == Rest(Told(cfg, r.st, Pending(r))) &&
            Ending(cfg, next.st, Pending(next)) == Ending(cfg, r.st, Pending(r))
    decreases |r.chunks|
  {
    hide ParseFrame, Told, Ending;
    var more := Concat(r.chunks);
    var (st, rest, parsed) := ParseBuffered(cfg, r.st, r.buf);
    ParseAdvances(cfg, r.st, r.buf, more);
    if parsed.Idle? {
      if r.chunks == [] {
        NothingLeft(cfg, st, rest);
        assert rest + more == rest;
      } else {
        var next := Receiver(st, rest + r.chunks[0], r.chunks[1..]);
        assert Pending(next) == rest + more;
        ReadTellsNext(cfg, next);
      }
    }
  }

  lemma NothingLeft(cfg: Config, st: State, buf: seq<byte>)
    requires Inv(cfg.limits.maxMessage, st) && ParseFrame(cfg, buf).NeedMore?
    ensures Told(cfg, st, buf) == [] && Ending(cfg, st, buf) == AtEof(st)
  {
    hide ParseFrame;
  }

  lemma ReadManyNone(cfg: Config, r: Receiver)
    requires Ready(cfg, r)
    ensures ReadMany(cfg, r, 0) == ([], r)
  {
  }

  lemma ReadManyCons(cfg: Config, r: Receiver, n: nat)
    requires Ready(cfg, r) && n > 0
    ensures var (reading, next) := Read(cfg, r);
            var (readings, last) := ReadMany(cfg, next, n - 1);
            ReadMany(cfg, r, n) == ([reading] + readings, last)
  {
    hide Read;
  }

  /** The `k`-th reading is a function of the pending bytes alone. */
  lemma {:induction false} ReadManyTells(cfg: Config, r: Receiver, n: nat)
    requires Ready(cfg, r)
    ensures var (readings, next) := ReadMany(cfg, r, n);
            var told := Told(cfg, r.st, Pending(r));
            (forall k :: 0 <= k < n ==> readings[k] == Nth(cfg, r.st, Pending(r), k)) &&
            Told(cfg, next.st, Pending(next)) == told[Min(n, |told|)..] &&
            Ending(cfg, next.st, Pending(next)) == Ending(cfg, r.st, Pending(r))
    decreases n
  {
    hide Read, Told, Ending;
    if n == 0 {
    } else {
      var (reading, next) := Read(cfg, r);
      ReadTellsNext(cfg, r);
      ReadManyTells(cfg, next, n - 1);
    }
  }

  /** Two receivers in the same state with the same bytes to come read the same things for ever,
      whatever reads the bytes are spread over: messages, errors, and the end. */
  lemma ChunkingIndependence(cfg: Config, a: Receiver, b: Receiver, n: nat)
    requires Ready(cfg, a) && Ready(cfg, b)
    requires a.st == b.st && Pending(a) == Pending(b)
    ensures ReadMany(cfg, a, n).0 == ReadMany(cfg, b, n).0
  {
    hide ReadMany, Nth;
    ReadManyTells(cfg, a, n);
    ReadManyTells(cfg, b, n);
  }

  /** A frame or masking error, once returned, is returned by every later read, with the buffer
      left as it is, whatever arrives meanwhile. */
  lemma FrameErrorsRepeat(cfg: Config, r: Receiver, more: seq<byte>, chunks: seq<seq<byte>>)
    requires Ready(cfg, r)
    requires forall i :: 0 <= i < |chunks| ==> chunks[i] != []
    requires var reading := Read(cfg, r).0;
             reading.Failure? && (reading.error.FrameFailure? || reading.error.MaskingViolation?)
    ensures var (reading, next) := Read(cfg, r);
            var later := Receiver(next.st, next.buf + more, chunks);
            Read(cfg, later) == (reading, later)
    decreases |r.chunks|
  {
    hide ParseFrame;
    var (st, rest, parsed) := ParseBuffered(cfg, r.st, r.buf);
    ParseAdvances(cfg, r.st, r.buf, []);
    if parsed.Idle? {
      FrameErrorsRepeat(cfg, Receiver(st, rest + r.chunks[0], r.chunks[1..]), more, chunks);
    } else {
      ParseFrameIsPrefixDecided(cfg, rest, more);
    }
  }

  lemma {:induction false} AudibleIsNoViolation(outs: seq<Outcome>)
    ensures forall k :: 0 <= k < |Audible(outs)| ==> Audible(outs)[k] != Failure(MaskingViolation)
  {
    if outs == [] {
    } else {
      AudibleIsNoViolation(outs[1..]);
    }
  }

  /** `read` reports a masking violation exactly when it has nothing to tell before a whole frame whose
      mask bit is wrong for this role. */
  lemma ReadRefusesMaskingIff(cfg: Config, r: Receiver)
    requires Ready(cfg, r)
    ensures Read(cfg, r).0 == Failure(MaskingViolation)
       <==> Told(cfg, r.st, Pending(r)) == [] && WrongMaskBit(cfg, Cut(cfg, Pending(r)).1)
  {
    hide Read, Run, ParseFrame, WrongMaskBit;
    ReadTellsNext(cfg, r);
    var (frames, rest, stop) := Cut(cfg, Pending(r));
    CutStops(cfg, Pending(r));
    MaskingIff(cfg, rest);
    AudibleIsNoViolation(Run(cfg.limits.maxMessage, r.st, frames).1);
  }

  lemma {:induction false} CutStops(cfg: Config, bytes: seq<byte>)
    ensures ParseFrame(cfg, Cut(cfg, bytes).1) == Cut(cfg, bytes).2
    decreases |bytes|
  {
    hide ParseFrame;
    if ParseFrame(cfg, bytes).Took? {
      CutStops(cfg, bytes[ParseFrame(cfg, bytes).size..]);
    }
  }

  // ---- Conservation over whole runs --------------------------------------------------------

  /** `frames` are the whole frames that `consumed` is made of, and took the reassembler from
      `st` to `last`. */
  predicate Consumes(cfg: Config, st: State, consumed: seq<byte>, frames: seq<Fragment>, last: State)
    requires Inv(cfg.limits.maxMessage, st)
  {
    Cut(cfg, consumed) == (frames, [], NeedMore) && Run(cfg.limits.maxMessage, st, frames).0 == last
  }

  lemma ConsumesNothing(cfg: Config, st: State)
    requires Inv(cfg.limits.maxMessage, st)
    ensures Consumes(cfg, st, [], [], st)
  {
    assert ParseFrame(cfg, []) == NeedMore;
    hide ParseFrame;
    assert Cut(cfg, []) == ([], [], NeedMore);
  }

  lemma ConsumesMore(cfg: Config, st: State, a: seq<byte>, f: seq<Fragment>, mid: State,
                     b: seq<byte>, g: seq<Fragment>, last: State)
    requires Inv(cfg.limits.maxMessage, st) && Inv(cfg.limits.maxMessage, mid)
    requires Consumes(cfg, st, a, f, mid) && Consumes(cfg, mid, b, g, last)
    ensures Consumes(cfg, st, a + b, f + g, last)
  {
    hide Cut, Run;
    CutAppend(cfg, a, b);
    RunAppend(cfg.limits.maxMessage, st, f, g);
  }

  lemma ConsumesOne(cfg: Config, st: State, buf: seq<byte>)
    requires Inv(cfg.limits.maxMessage, st) && ParseFrame(cfg, buf).Took?
    ensures var Took(n, f) := ParseFrame(cfg, buf);
            Consumes(cfg, st, buf[..n], [f], Step(cfg.limits.maxMessage, st, f).0)
  {
    assert ParseFrame(cfg, []) == NeedMore;
    hide ParseFrame, Step;
    CutSnoc(cfg, [], [], buf);
    var Took(n, f) := ParseFrame(cfg, buf);
    assert [] + buf[..n] == buf[..n] && [] + [f] == [f];
    var next := Step(cfg.limits.maxMessage, st, f).0;
    assert [f][0] == f && [f][1..] == [];
    assert Run(cfg.limits.maxMessage, next, []) == (next, []);
  }

  lemma {:induction false} ParseConserves(cfg: Config, st: State, buf: seq<byte>)
    returns (consumed: seq<byte>, frames: seq<Fragment>)
    requires Inv(cfg.limits.maxMessage, st)
    ensures var (next, rest, _) := ParseBuffered(cfg, st, buf);
            buf == consumed + rest && Consumes(cfg, st, consumed, frames, next)
    decreases |buf|
  {
    hide ParseFrame, Step, Consumes;
    var turn := ParseFrame(cfg, buf);
    ConsumesNothing(cfg, st);
    consumed, frames := [], [];
    if !turn.Took? {
    } else {
      var Took(n, f) := turn;
      var (next, out) := Step(cfg.limits.maxMessage, st, f);
      ConsumesOne(cfg, st, buf);
      consumed, frames := buf[..n], [f];
      assert buf == buf[..n] + buf[n..];
      if out == Nothing {
        var more, tail := ParseConserves(cfg, next, buf[n..]);
        ConsumesMore(cfg, st, consumed, frames, next, more, tail, ParseBuffered(cfg, next, buf[n..]).0);
        consumed, frames := consumed + more, frames + tail;
      }
    }
  }

  lemma {:induction false} ReadConserves(cfg: Config, r: Receiver)
    returns (consumed: seq<byte>, frames: seq<Fragment>)
    requires Ready(cfg, r)
    ensures var next := Read(cfg, r).1;
            Pending(r) == consumed + Pending(next) && Consumes(cfg, r.st, consumed, frames, next.st)
    decreases |r.chunks|
  {
    hide ParseBuffered, Consumes;
    consumed, frames := ParseConserves(cfg, r.st, r.buf);
    var (st, rest, parsed) := ParseBuffered(cfg, r.st, r.buf);
    assert Pending(r) == consumed + (rest + Concat(r.chunks));
    if parsed.Idle? && r.chunks != [] {
      var next := Receiver(st, rest + r.chunks[0], r.chunks[1..]);
      assert Pending(next) == rest + Concat(r.chunks);
      var more, tail := ReadConserves(cfg, next);
      ConsumesMore(cfg, r.st, consumed, frames, st, more, tail, Read(cfg, next).1.st);
      consumed, frames := consumed + more, frames + tail;
    }
  }

  /** After any number of reads, every byte is in a consumed whole frame or still pending, and the
      reassembler is where the consumed frames put it: errors included, none is lost or read twice. */
  lemma {:induction false} ReadsConserve(cfg: Config, r: Receiver, n: nat)
    returns (consumed: seq<byte>, frames: seq<Fragment>)
    requires Ready(cfg, r)
    ensures var last := ReadMany(cfg, r, n).1;
            Pending(r) == consumed + Pending(last) && Consumes(cfg, r.st, consumed, frames, last.st)
    decreases n
  {
    hide Read, Consumes, Pending;
    ConsumesNothing(cfg, r.st);
    consumed, frames := [], [];
    assert [] + Pending(r) == Pending(r);
    if n == 0 {
    } else {
      var next := Read(cfg, r).1;
      consumed, frames := ReadConserves(cfg, r);
      var more, tail := ReadsConserve(cfg, next, n - 1);
      var last := ReadMany(cfg, next, n - 1).1;
      ConsumesMore(cfg, r.st, consumed, frames, next.st, more, tail, last.st);
      assert consumed + (more + Pending(last)) == (consumed + more) + Pending(last);
      consumed, frames := consumed + more, frames + tail;
    }
  }

  // ---- What the end of the connection means ---------------------------------------------

  /** A clean end is reported exactly when the input stops between or inside frames, none of
      them broken, and a close frame, well formed or not, was among them. */
  lemma CleanEndMeansClosed(cfg: Config, bytes: seq<byte>)
    ensures var (frames, rest, stop) := Cut(cfg, bytes);
            Ending(cfg, FRESH, bytes) == CleanEnd <==> stop == NeedMore && HasClose(frames)
  {
    RunIsSafe(cfg.limits.maxMessage, FRESH, Cut(cfg, bytes).0);
  }

  lemma {:induction false} AudibleIsSound(max: nat, outs: seq<Outcome>)
    requires forall i :: 0 <= i < |outs| ==> Sound(max, outs[i])
    ensures forall k :: 0 <= k < |Audible(outs)| ==>
              Audible(outs)[k].Message? ==> Sound(max, Delivered(Audible(outs)[k].message))
  {
    if outs == [] {
    } else {
      AudibleIsSound(max, outs[1..]);
    }
  }

  /** Every message any run of reads ever returns is sound, errors or not. */
  lemma ReadingsAreSound(cfg: Config, r: Receiver, n: nat)
    requires Ready(cfg, r)
    ensures forall k :: 0 <= k < n && ReadMany(cfg, r, n).0[k].Message? ==>
              Sound(cfg.limits.maxMessage, Delivered(ReadMany(cfg, r, n).0[k].message))
  {
    hide ReadMany, Sound;
    var frames := Cut(cfg, Pending(r)).0;
    RunIsSafe(cfg.limits.maxMessage, r.st, frames);
    AudibleIsSound(cfg.limits.maxMessage, Run(cfg.limits.maxMessage, r.st, frames).1);
    ReadManyTells(cfg, r, n);
  }

  // ---- Frames on the wire ---------------------------------------------------------------

  function Opposite(role: Role): Role {
    if role == Client then Server else Client
  }

  predicate Acceptable(cfg: Config, mask: Option<Key>, f: Fragment) {
    Sized(f) && WellFormed(HeaderOf(f, mask), cfg.limits.maxFrame) && MaskingAllowed(cfg.role, mask)
  }

  lemma UnmaskTwice(mask: Option<Key>, payload: seq<byte>)
    ensures Unmask(mask, Unmask(mask, payload)) == payload
  {
    if mask.Some? {
      MaskedTwice(payload, mask.value, 0);
    }
  }

  /** A frame this receiver may be sent is taken whole in front of any bytes. */
  lemma WireFrameParses(cfg: Config, mask: Option<Key>, f: Fragment, more: seq<byte>)
    requires Acceptable(cfg, mask, f)
    ensures ParseFrame(cfg, WireFrame(mask, f) + more) == Took(|WireFrame(mask, f)|, f)
  {
    hide Encoded, Frame.Decode, Masked;
    var h, body := HeaderOf(f, mask), Unmask(mask, f.payload);
    var buf := WireFrame(mask, f) + more;
    assert buf == Encoded(h) + (body + more);
    EncodedDecodes(h, cfg.limits.maxFrame, body + more);
    UnmaskTwice(mask, f.payload);
    assert buf[|Encoded(h)|..|Encoded(h)| + |f.payload|] == body;
  }

  /** The masking rule is judged late: a frame that breaks it is not refused before its last byte. */
  lemma MaskingJudgedLast(cfg: Config, mask: Option<Key>, f: Fragment, more: seq<byte>, n: nat)
    requires Sized(f) && WellFormed(HeaderOf(f, mask), cfg.limits.maxFrame)
    requires !MaskingAllowed(cfg.role, mask) && n < |WireFrame(mask, f)|
    ensures ParseFrame(cfg, WireFrame(mask, f) + more) == Broken(MaskingViolation)
    ensures ParseFrame(cfg, WireFrame(mask, f)[..n]) == NeedMore
  {
    hide Encoded, Frame.Decode, Masked;
    var h, body, whole := HeaderOf(f, mask), Unmask(mask, f.payload), WireFrame(mask, f);
    assert whole + more == Encoded(h) + (body + more);
    EncodedDecodes(h, cfg.limits.maxFrame, body + more);
    EncodedDecodes(h, cfg.limits.maxFrame, body);
    DecodeIsPrefixDecided(whole[..n], whole[n..], cfg.limits.maxFrame);
    assert whole[..n] + whole[n..] == whole;
  }

  lemma TookIsWireFrame(cfg: Config, buf: seq<byte>) returns (mask: Option<Key>)
    requires ParseFrame(cfg, buf).Took?
    ensures var Took(n, f) := ParseFrame(cfg, buf);
            Acceptable(cfg, mask, f) && n == |WireFrame(mask, f)| && WireFrame(mask, f) == buf[..n]
  {
    hide Encoded, Frame.Decode, Masked;
    var Took(n, f) := ParseFrame(cfg, buf);
    var Complete(h, used) := Frame.Decode(buf, cfg.limits.maxFrame);
    DecodedIsEncoding(buf, cfg.limits.maxFrame);
    mask := h.mask;
    var body := buf[used..n];
    UnmaskTwice(mask, body);
    assert HeaderOf(f, mask) == h;
    assert buf[..n] == buf[..used] + body;
  }

  /** The parser takes a frame exactly when the buffer starts with an acceptable one. */
  lemma FrameBijection(cfg: Config, buf: seq<byte>, n: nat, f: Fragment)
    ensures ParseFrame(cfg, buf) == Took(n, f)
       <==> exists mask :: Acceptable(cfg, mask, f) && n == |WireFrame(mask, f)| && WireFrame(mask, f) <= buf
  {
    hide ParseFrame, Encoded, Masked;
    if ParseFrame(cfg, buf) == Took(n, f) {
      var mask := TookIsWireFrame(cfg, buf);
    }
    forall mask | Acceptable(cfg, mask, f) && n == |WireFrame(mask, f)| && WireFrame(mask, f) <= buf
      ensures ParseFrame(cfg, buf) == Took(n, f)
    {
      WireFrameParses(cfg, mask, f, buf[n..]);
      assert buf == WireFrame(mask, f) + buf[n..];
    }
  }

  /** The octets of `frames`, each under its own mask. */
  function WireFrames(masks: seq<Option<Key>>, frames: seq<Fragment>): seq<byte>
    requires |masks| == |frames|
    requires forall i :: 0 <= i < |frames| ==> Sized(frames[i])
  {
    if frames == [] then [] else WireFrame(masks[0], frames[0]) + WireFrames(masks[1..], frames[1..])
  }

  predicate AllAcceptable(cfg: Config, masks: seq<Option<Key>>, frames: seq<Fragment>) {
    |masks| == |frames| && forall i :: 0 <= i < |frames| ==> Acceptable(cfg, masks[i], frames[i])
  }

  lemma {:induction false} WireFramesCut(cfg: Config, masks: seq<Option<Key>>, frames: seq<Fragment>)
    requires AllAcceptable(cfg, masks, frames)
    ensures Cut(cfg, WireFrames(masks, frames)) == (frames, [], NeedMore)
    decreases frames
  {
    assert ParseFrame(cfg, []) == NeedMore;
    if frames == [] {
    } else {
      assert Sized(frames[0]);
      hide ParseFrame, WireFrame, Acceptable;
      var frame, rest := WireFrame(masks[0], frames[0]), WireFrames(masks[1..], frames[1..]);
      WireFrameParses(cfg, masks[0], frames[0], rest);
      WireFramesCut(cfg, masks[1..], frames[1..]);
      assert (frame + rest)[|frame|..] == rest;
      assert frames == [frames[0]] + frames[1..];
    }
  }

  lemma {:induction false} CutIsWireFrames(cfg: Config, bytes: seq<byte>) returns (masks: seq<Option<Key>>)
    requires Cut(cfg, bytes).1 == []
    ensures AllAcceptable(cfg, masks, Cut(cfg, bytes).0)
    ensures bytes == WireFrames(masks, Cut(cfg, bytes).0)
    decreases |bytes|
  {
    hide ParseFrame, WireFrame, WellFormed, MaskingAllowed;
    var turn := ParseFrame(cfg, bytes);
    masks := [];
    if !turn.Took? {
    } else {
      var Took(n, f) := turn;
      var mask := TookIsWireFrame(cfg, bytes);
      var more := CutIsWireFrames(cfg, bytes[n..]);
      masks := [mask] + more;
      assert masks[1..] == more && Cut(cfg, bytes).0[1..] == Cut(cfg, bytes[n..]).0;
      assert bytes == bytes[..n] + bytes[n..];
    }
  }

  /** Bytes are cut without remainder exactly when they are acceptable frames end to end. */
  lemma WholeFrames(cfg: Config, bytes: seq<byte>, frames: seq<Fragment>)
    ensures Cut(cfg, bytes) == (frames, [], NeedMore)
       <==> exists masks :: AllAcceptable(cfg, masks, frames) && bytes == WireFrames(masks, frames)
  {
    if Cut(cfg, bytes) == (frames, [], NeedMore) {
      var masks := CutIsWireFrames(cfg, bytes);
    }
    forall masks | AllAcceptable(cfg, masks, frames) && bytes == WireFrames(masks, frames)
      ensures Cut(cfg, bytes) == (frames, [], NeedMore)
    {
      WireFramesCut(cfg, masks, frames);
    }
  }

  /** A fragmented message on the wire, under any masks, with any interruptions between its pieces
      and cut into any reads: each is answered in its place, then comes the verdict on the whole. */
  lemma FragmentedArrives(cfg: Config, kind: OpCode, parts: seq<seq<byte>>, gaps: seq<seq<Fragment>>,
                          masks: seq<Option<Key>>, r: Receiver, n: nat)
    requires IsData(kind) && |parts| == |gaps| + 1
    requires forall i :: 0 <= i < |gaps| ==> AllInterruptions(cfg.limits.maxMessage, gaps[i])
    requires |Concat(parts)| <= cfg.limits.maxMessage
    requires AllAcceptable(cfg, masks, Fragmented(kind, parts, gaps))
    requires Ready(cfg, r) && r.st == FRESH && Pending(r) == WireFrames(masks, Fragmented(kind, parts, gaps))
    requires n == |Audible(Answers(gaps, Verdict(cfg.limits.maxMessage, kind, Concat(parts))))|
    ensures ReadMany(cfg, r, n).0
         == Audible(Answers(gaps, Verdict(cfg.limits.maxMessage, kind, Concat(parts))))
  {
    WireFramesCut(cfg, masks, Fragmented(kind, parts, gaps));
    FragmentsReassemble(cfg.limits.maxMessage, kind, parts, gaps);
    ReadManyTells(cfg, r, n);
    hide ReadMany, Cut, Run, Fragmented;
  }

  // ---- End to end -----------------------------------------------------------------------

  /** The one change a message may suffer on the way. */
  function Arrives(m: Message): Message {
    match m
    case CloseMessage(Some(f)) =>
      CloseMessage(Some(f.(code := if IsSendable(f.code) then f.code else INTERNAL_ERROR)))
    case _ => m
  }

  /** A message the peer is bound to accept: RFC 6455's own rules and the peer's limits. */
  predicate Deliverable(limits: Limits, m: Message) {
    var size := |FragmentOf(m).payload|;
    size < 0x8000_0000_0000_0000 && size <= limits.maxFrame &&
    match m
    case TextMessage(p) => IsUtf8(p) && size <= limits.maxMessage
    case BinaryMessage(p) => size <= limits.maxMessage
    case PingMessage(_) => size <= 125
    case PongMessage(_) => size <= 125
    case CloseMessage(None) => true
    case CloseMessage(Some(f)) => IsUtf8(f.reason) && size <= 125
  }

  /** Every message is deliverable and nothing follows a close. */
  predicate GoodBatch(limits: Limits, messages: seq<Message>) {
    (forall i :: 0 <= i < |messages| ==> Deliverable(limits, messages[i])) &&
    (forall i :: 0 <= i < |messages| - 1 ==> !messages[i].CloseMessage?)
  }

  function Arrivals(messages: seq<Message>): seq<Reading> {
    seq(|messages|, i requires 0 <= i < |messages| => Message(Arrives(messages[i])))
  }

  lemma CloseBodyRoundTrip(frame: Option<CloseFrame>)
    requires frame.Some? ==> IsUtf8(frame.value.reason)
    ensures ParseCloseBody(EncodeCloseBody(frame)) == Delivered(Arrives(CloseMessage(frame)))
  {
    if frame.Some? {
      var code := if IsSendable(frame.value.code) then frame.value.code else INTERNAL_ERROR;
      Frame.Pow256Values();
      FromToBE(code, 2);
      assert EncodeCloseBody(frame)[..2] == ToBE(code, 2);
      assert EncodeCloseBody(frame)[2..] == frame.value.reason;
    }
  }

  /** What is wrong with a close body, first things first. */
  lemma CloseBodyRefusals(body: seq<byte>, code: CloseCode, reason: seq<byte>)
    ensures ParseCloseBody(body) == Refused(MalformedCloseFrame) <==> |body| == 1
    ensures ParseCloseBody(ToBE(code, 2) + reason) == Refused(InvalidCloseCode) <==> !IsSendable(code)
    ensures ParseCloseBody(ToBE(code, 2) + reason) == Refused(InvalidUtf8) <==> IsSendable(code) && !IsUtf8(reason)
  {
    Frame.Pow256Values();
    FromToBE(code, 2);
    var made := ToBE(code, 2) + reason;
    assert made[..2] == ToBE(code, 2) && made[2..] == reason;
  }

  /** The close codes, by number: what arrives as itself and goes out as itself. The others are refused
      on the way in, and go out as 1011. */
  lemma CloseCodes(code: CloseCode, reason: seq<byte>)
    requires IsUtf8(reason)
    ensures code in {1000, 1001, 1002, 1003, 1007, 1008, 1009, 1010, 1011} || 3000 <= code <= 4999 ==>
              ParseCloseBody([code / 0x100, code % 0x100] + reason)
              == Delivered(CloseMessage(Some(CloseFrame(code, reason)))) &&
              EncodeCloseBody(Some(CloseFrame(code, reason))) == [code / 0x100, code % 0x100] + reason
    ensures code < 1000 || 1004 <= code <= 1006 || 1012 <= code <= 2999 || 5000 <= code ==>
              ParseCloseBody([code / 0x100, code % 0x100] + reason) == Refused(InvalidCloseCode) &&
              EncodeCloseBody(Some(CloseFrame(code, reason))) == [0x03, 0xF3] + reason
    ensures ParseCloseBody([]) == Delivered(CloseMessage(None)) && EncodeCloseBody(None) == []
  {
    TwoOctetsOf(code);
    TwoOctetsOf(1011);
    hide ToBE, FromBE;
    var body: seq<byte> := [code / 0x100, code % 0x100];
    assert (body + reason)[..2] == body && (body + reason)[2..] == reason;
  }

  lemma TwoOctetsOf(n: nat)
    requires n < 0x1_0000
    ensures ToBE(n, 2) == [n / 0x100, n % 0x100] && FromBE([n / 0x100, n % 0x100]) == n
  {
    assert ToBE(n / 256, 1) == ToBE(n / 256 / 256, 0) + [n / 256 % 256];
    Frame.Pow256Values();
    FromToBE(n, 2);
  }

  /** A close body is read as a frame exactly when it is the encoding of one that may be sent. */
  lemma CloseBodyBijection(body: seq<byte>, frame: Option<CloseFrame>)
    ensures ParseCloseBody(body) == Delivered(CloseMessage(frame))
       <==> body == EncodeCloseBody(frame) &&
            (frame.Some? ==> IsSendable(frame.value.code) && IsUtf8(frame.value.reason))
  {
    if frame.Some? ==> IsUtf8(frame.value.reason) {
      CloseBodyRoundTrip(frame);
    }
    if |body| >= 2 {
      ToFromBE(body[..2]);
      assert body == body[..2] + body[2..];
    }
  }

  /** A deliverable message's frame is answered with the message at once. */
  lemma MessageSteps(limits: Limits, m: Message)
    requires Deliverable(limits, m)
    ensures Step(limits.maxMessage, FRESH, FragmentOf(m))
         == (State(None, m.CloseMessage?), Delivered(Arrives(m)))
  {
    if m.CloseMessage? {
      CloseBodyRoundTrip(m.frame);
    }
  }

  lemma DrawnMaskIsAllowed(e: Endian, role: Role, state: u64, limits: Limits, m: Message)
    requires Deliverable(limits, m)
    ensures Acceptable(Config(Opposite(role), limits), DrawMask(e, role, state).1, FragmentOf(m))
  {
    hide NextMask;
    if m.CloseMessage? {
      assert |EncodeCloseBody(m.frame)| <= 125;
    }
  }

  /** If the pending bytes start with a frame that is answered, one `read` gives that answer and
      takes exactly that frame. */
  lemma {:induction false} ReadTakesFrame(cfg: Config, r: Receiver)
    requires Ready(cfg, r) && ParseFrame(cfg, Pending(r)).Took?
    requires Step(cfg.limits.maxMessage, r.st, ParseFrame(cfg, Pending(r)).fragment).1 != Nothing
    ensures var Took(n, f) := ParseFrame(cfg, Pending(r));
            var (st, out) := Step(cfg.limits.maxMessage, r.st, f);
            var (reading, next) := Read(cfg, r);
            Audible([out]) == [reading] && next.st == st && Pending(next) == Pending(r)[n..]
    decreases |r.chunks|
  {
    hide ParseFrame, Step;
    var more := Concat(r.chunks);
    var turn := ParseFrame(cfg, r.buf);
    ParseFrameIsPrefixDecided(cfg, r.buf, more);
    assert r.chunks == [] ==> Pending(r) == r.buf;
    if turn.Took? {
      assert Pending(r)[turn.size..] == r.buf[turn.size..] + more;
      assert Audible([Step(cfg.limits.maxMessage, r.st, turn.fragment).1][1..]) == [];
    } else if r.chunks != [] {
      var next := Receiver(r.st, r.buf + r.chunks[0], r.chunks[1..]);
      assert Pending(next) == Pending(r);
      ReadTakesFrame(cfg, next);
    }
  }

  /** The first message of a batch still wholly pending is the next one read. */
  lemma FirstArrives(e: Endian, role: Role, state: u64, limits: Limits, messages: seq<Message>, r: Receiver)
    requires AllSized(messages) && messages != [] && Deliverable(limits, messages[0])
    requires Ready(Config(Opposite(role), limits), r) && r.st == FRESH
    requires Pending(r) == Wire(e, role, state, messages).0
    ensures var (reading, next) := Read(Config(Opposite(role), limits), r);
            reading == Message(Arrives(messages[0])) &&
            next.st == State(None, messages[0].CloseMessage?) &&
            Pending(next) == Wire(e, role, DrawMask(e, role, state).0, messages[1..]).0
  {
    assert Sized(FragmentOf(messages[0]));
    hide ParseFrame, DrawMask, WireFrame, Deliverable, Acceptable, FragmentOf, Step, Arrives, Read;
    var cfg, m := Config(Opposite(role), limits), messages[0];
    var (next, mask) := DrawMask(e, role, state);
    var frame, rest := WireFrame(mask, FragmentOf(m)), Wire(e, role, next, messages[1..]).0;
    DrawnMaskIsAllowed(e, role, state, limits, m);
    WireFrameParses(cfg, mask, FragmentOf(m), rest);
    MessageSteps(limits, m);
    assert Pending(r) == frame + rest;
    ReadTakesFrame(cfg, r);
    assert Audible([Delivered(Arrives(m))]) == [Message(Arrives(m))] by {
      assert [Delivered(Arrives(m))][1..] == [];
    }
    assert (frame + rest)[|frame|..] == rest;
  }

  lemma NothingPending(cfg: Config, r: Receiver)
    requires Ready(cfg, r) && Pending(r) == []
    ensures r.buf == [] && r.chunks == []
  {
    assert |Concat(r.chunks)| == 0;
  }

  /** What is read behind a batch: a clean end after a close, an error otherwise. */
  function EndReading(messages: seq<Message>): Reading {
    if SendsClose(messages) then CleanEnd else Failure(UnexpectedEof)
  }

  lemma NothingMoreToRead(cfg: Config, st: State)
    requires Inv(cfg.limits.maxMessage, st)
    ensures Read(cfg, Receiver(st, [], [])) == (AtEof(st), Receiver(st, [], []))
  {
  }

  lemma EndIsRead(cfg: Config, messages: seq<Message>)
    ensures var last := Receiver(State(None, SendsClose(messages)), [], []);
            Read(cfg, last) == (EndReading(messages), last)
  {
    hide Read;
    NothingMoreToRead(cfg, State(None, SendsClose(messages)));
  }

  lemma GoodIsSized(limits: Limits, messages: seq<Message>)
    requires GoodBatch(limits, messages)
    ensures AllSized(messages)
  {
  }

  /** Whatever the keys, the role and the cutting of the wire into reads: the peer reads exactly
      the messages sent, in order, with nothing left over, and from then on the end. */
  lemma {:induction false} EndToEnd(e: Endian, role: Role, state: u64, limits: Limits,
                                    messages: seq<Message>, r: Receiver)
    requires GoodBatch(limits, messages)
    requires Ready(Config(Opposite(role), limits), r) && r.st == FRESH
    requires Pending(r) == Wire(e, role, state, messages).0
    ensures var last := Receiver(State(None, SendsClose(messages)), [], []);
            ReadMany(Config(Opposite(role), limits), r, |messages|) == (Arrivals(messages), last) &&
            Read(Config(Opposite(role), limits), last) == (EndReading(messages), last)
    decreases messages
  {
    hide ParseFrame, DrawMask, WireFrame, Deliverable, FragmentOf, Arrives, Read, EndReading;
    var cfg := Config(Opposite(role), limits);
    EndIsRead(cfg, messages);
    if messages == [] {
      NothingPending(cfg, r);
    } else {
      var rest, after := messages[1..], Read(cfg, r).1;
      GoodIsSized(limits, messages);
      FirstArrives(e, role, state, limits, messages, r);
      assert Arrivals(messages) == [Message(Arrives(messages[0]))] + Arrivals(rest);
      if messages[0].CloseMessage? {
        assert rest == [];
        NothingPending(cfg, after);
      } else {
        EndToEnd(e, role, DrawMask(e, role, state).0, limits, rest, after);
        assert messages == [messages[0]] + rest;
      }
    }
  }

  /** A frame that breaks a rule of its own is a frame error, whatever is behind it. */
  lemma IllFormedFrameFails(cfg: Config, mask: Option<Key>, f: Fragment, more: seq<byte>)
    requires Sized(f) && !WellFormed(HeaderOf(f, mask), cfg.limits.maxFrame)
    ensures ParseFrame(cfg, WireFrame(mask, f) + more) == Broken(FrameFailure(HeaderFault(HeaderOf(f, mask))))
  {
    var h, body := HeaderOf(f, mask), Unmask(mask, f.payload);
    assert WireFrame(mask, f) + more == Encoded(h) + (body + more);
    IllFormedFails(h, cfg.limits.maxFrame, body + more);
  }

  /** What breaks at the front of the pending bytes is what the next read returns. */
  lemma {:induction false} ReadFailsAt(cfg: Config, r: Receiver)
    requires Ready(cfg, r) && ParseFrame(cfg, Pending(r)).Broken?
    ensures Read(cfg, r).0 == Failure(ParseFrame(cfg, Pending(r)).error)
    decreases |r.chunks|
  {
    hide ParseFrame, Step;
    ParseFrameIsPrefixDecided(cfg, r.buf, Concat(r.chunks));
    assert r.chunks == [] ==> Pending(r) == r.buf;
    if ParseFrame(cfg, r.buf).NeedMore? && r.chunks != [] {
      var next := Receiver(r.st, r.buf + r.chunks[0], r.chunks[1..]);
      assert Pending(next) == Pending(r);
      ReadFailsAt(cfg, next);
    }
  }

  /** The message-level half: a well-formed frame is answered with the message only if the
      message is deliverable. */
  lemma DeliverableIfAnswered(limits: Limits, m: Message)
    requires Sized(FragmentOf(m)) && WellFormed(HeaderOf(FragmentOf(m), None), limits.maxFrame)
    requires Step(limits.maxMessage, FRESH, FragmentOf(m)).1 == Delivered(Arrives(m))
    ensures Deliverable(limits, m)
  {
    match m {
      case TextMessage(p) =>
      case BinaryMessage(p) =>
      case PingMessage(p) =>
      case PongMessage(p) =>
      case CloseMessage(frame) =>
        if frame.Some? {
          assert EncodeCloseBody(frame)[2..] == frame.value.reason;
        }
    }
  }

  /** The first message of a batch is read as itself only if it is deliverable. */
  lemma FirstIffDeliverable(e: Endian, role: Role, state: u64, limits: Limits, messages: seq<Message>, r: Receiver)
    requires AllSized(messages) && messages != []
    requires Ready(Config(Opposite(role), limits), r) && r.st == FRESH
    requires Pending(r) == Wire(e, role, state, messages).0
    ensures Read(Config(Opposite(role), limits), r).0 == Message(Arrives(messages[0]))
       <==> Deliverable(limits, messages[0])
  {
    hide ParseFrame, WireFrame, NextMask, FragmentOf, Step, Arrives, Read, Deliverable, Encoded;
    var m := messages[0];
    var cfg, f := Config(Opposite(role), limits), FragmentOf(m);
    var (next, mask) := DrawMask(e, role, state);
    var frame, rest := WireFrame(mask, f), Wire(e, role, next, messages[1..]).0;
    assert Pending(r) == frame + rest;
    if WellFormed(HeaderOf(f, mask), limits.maxFrame) {
      assert Acceptable(cfg, mask, f);
      WireFrameParses(cfg, mask, f, rest);
      var out := Step(limits.maxMessage, FRESH, f).1;
      if Deliverable(limits, m) {
        MessageSteps(limits, m);
      }
      if out == Delivered(Arrives(m)) {
        DeliverableIfAnswered(limits, m);
      }
      AnswersAtOnce(limits, m);
      ReadTakesFrame(cfg, r);
      assert ParseFrame(cfg, Pending(r)).fragment == f;
      AudibleOne(out);
      assert [Read(cfg, r).0][0] == Audible([out])[0];
    } else {
      IllFormedFrameFails(cfg, mask, f, rest);
      ReadFailsAt(cfg, r);
      IllFormedIsNotDeliverable(limits, m, mask);
    }
  }

  lemma {:induction false} AudibleOfSilence(outs: seq<Outcome>)
    requires forall i :: 0 <= i < |outs| ==> outs[i] == Nothing
    ensures Audible(outs) == []
  {
    if outs == [] {
    } else {
      AudibleOfSilence(outs[1..]);
    }
  }

  /** A closed connection reads no message, whatever is still to come. */
  lemma ClosedReadsNothing(cfg: Config, r: Receiver)
    requires Ready(cfg, r) && r.st.closed
    ensures !Read(cfg, r).0.Message?
  {
    hide Read, Run, Cut;
    var frames := Cut(cfg, Pending(r)).0;
    var outs := Run(cfg.limits.maxMessage, r.st, frames).1;
    forall j | 0 <= j < |outs| ensures outs[j] == Nothing {
      SilentAfterClose(cfg.limits.maxMessage, r.st, frames, 0, j);
    }
    AudibleOfSilence(outs);
    ReadTellsNext(cfg, r);
  }

  /** The sender checks nothing, so delivery has a condition; this is exactly it: every message is
      deliverable and none but the last is a close. */
  lemma {:induction false} DeliveredIffGoodBatch(e: Endian, role: Role, state: u64, limits: Limits,
                                                 messages: seq<Message>, r: Receiver)
    requires AllSized(messages)
    requires Ready(Config(Opposite(role), limits), r) && r.st == FRESH
    requires Pending(r) == Wire(e, role, state, messages).0
    ensures ReadMany(Config(Opposite(role), limits), r, |messages|).0 == Arrivals(messages)
       <==> GoodBatch(limits, messages)
    decreases messages
  {
    hide ParseFrame, DrawMask, WireFrame, Deliverable, FragmentOf, Arrives, Read;
    if messages == [] {
    } else {
      var cfg, rest := Config(Opposite(role), limits), messages[1..];
      var after := Read(cfg, r).1;
      FirstIffDeliverable(e, role, state, limits, messages, r);
      assert Arrivals(messages) == [Message(Arrives(messages[0]))] + Arrivals(rest);
      assert messages == [messages[0]] + rest;
      GoodBatchCons(limits, messages[0], rest);
      var readings := ReadMany(cfg, after, |rest|).0;
      assert ReadMany(cfg, r, |messages|).0 == [Read(cfg, r).0] + readings;
      assert ReadMany(cfg, r, |messages|).0[0] == Read(cfg, r).0;
      assert ReadMany(cfg, r, |messages|).0[1..] == readings;
      assert Arrivals(messages)[1..] == Arrivals(rest);
      if Deliverable(limits, messages[0]) {
        FirstArrives(e, role, state, limits, messages, r);
        if messages[0].CloseMessage? {
          ClosedReadsNothing(cfg, after);
          assert rest != [] ==> !readings[0].Message? && Arrivals(rest)[0].Message?;
        } else {
          DeliveredIffGoodBatch(e, role, DrawMask(e, role, state).0, limits, rest, after);
        }
      }
    }
  }

  lemma GoodBatchCons(limits: Limits, m: Message, rest: seq<Message>)
    ensures GoodBatch(limits, [m] + rest)
       <==> Deliverable(limits, m) && GoodBatch(limits, rest) && (rest == [] || !m.CloseMessage?)
  {
    hide Deliverable;
    var all := [m] + rest;
    assert all[0] == m;
    assert forall i :: 0 <= i < |rest| ==> all[i + 1] == rest[i];
  }

  /** Such a batch: a ping of 126 octets, which `write` sends and no peer accepts. */
  lemma LongPingIsLost(e: Endian, role: Role, state: u64, limits: Limits, body: seq<byte>, r: Receiver)
    requires |body| == 126
    requires Ready(Config(Opposite(role), limits), r) && r.st == FRESH
    requires Pending(r) == Wire(e, role, state, [PingMessage(body)]).0
    ensures !GoodBatch(limits, [PingMessage(body)])
    ensures Read(Config(Opposite(role), limits), r).0 == Failure(FrameFailure(InvalidControlFrame))
  {
    hide ParseFrame, WireFrame, NextMask, Read;
    var cfg, f := Config(Opposite(role), limits), FragmentOf(PingMessage(body));
    var (next, mask) := DrawMask(e, role, state);
    assert [PingMessage(body)][1..] == [] && Wire(e, role, next, []).0 == [];
    IllFormedFrameFails(cfg, mask, f, []);
    ReadFailsAt(cfg, r);
    assert !Deliverable(limits, [PingMessage(body)][0]);
  }

  lemma AudibleOne(out: Outcome)
    ensures Audible([out]) ==
            match out
            case Nothing => []
            case Delivered(m) => [Message(m)]
            case Refused(e) => [Failure(ProtocolFailure(e))]
  {
    assert Audible([out][1..]) == [];
  }

  lemma AnswersAtOnce(limits: Limits, m: Message)
    ensures Step(limits.maxMessage, FRESH, FragmentOf(m)).1 != Nothing
  {
    hide IsUtf8, EncodeCloseBody;
  }

  lemma IllFormedIsNotDeliverable(limits: Limits, m: Message, mask: Option<Key>)
    requires Sized(FragmentOf(m)) && !WellFormed(HeaderOf(FragmentOf(m), mask), limits.maxFrame)
    ensures !Deliverable(limits, m)
  {
    assert |EncodeCloseBody(None)| == 0;
  }

  // ---- The two encoders -----------------------------------------------------------------

  lemma {:induction false} WireAppend(e: Endian, role: Role, state: u64, a: seq<Message>, b: seq<Message>)
    requires AllSized(a) && AllSized(b)
    ensures var (bytes, mid) := Wire(e, role, state, a);
            var (more, last) := Wire(e, role, mid, b);
            Wire(e, role, state, a + b) == (bytes + more, last)
    decreases a
  {
    hide DrawMask, WireFrame, FragmentOf;
    if a == [] {
      assert a + b == b;
      assert [] + Wire(e, role, state, b).0 == Wire(e, role, state, b).0;
    } else {
      var (next, mask) := DrawMask(e, role, state);
      WireAppend(e, role, next, a[1..], b);
      assert (a + b)[0] == a[0] && (a + b)[1..] == a[1..] + b;
      var frame := WireFrame(mask, FragmentOf(a[0]));
      var (bytes, mid) := Wire(e, role, next, a[1..]);
      assert frame + (bytes + Wire(e, role, mid, b).0) == (frame + bytes) + Wire(e, role, mid, b).0;
    }
  }

  /** Single writes on one connection and one batch on another, from the same generator state,
      put the same bytes on the wire and end in the same state, with nothing kept back. */
  method EncodersAgree(single: Connection, batch: Connection, messages: seq<Message>)
    requires single.Valid() && batch.Valid()
    requires single != batch && single.stream != batch.stream && single.assembler != batch.assembler
    requires single.role == batch.role && single.endian == batch.endian
    requires single.maskState == batch.maskState && single.closeSent == batch.closeSent
    requires AllSized(messages)
    modifies single, single.stream, batch, batch.stream
    ensures var bytes := Wire(single.endian, single.role, old(single.maskState), messages).0;
            single.stream.sent == old(single.stream.sent) + bytes &&
            batch.stream.sent == old(batch.stream.sent) + bytes
    ensures single.maskState == batch.maskState && single.closeSent == batch.closeSent
    ensures single.outgoing.Length == batch.outgoing.Length == 0
  {
    hide Wire, FragmentOf, Cut, Run;
    ghost var e, role, state := single.endian, single.role, single.maskState;
    ghost var bytes: seq<byte> := [];
    assert messages[..0] == [];
    WireOfNone(e, role, state);
    for i := 0 to |messages|
      invariant single.Valid() && batch.Valid()
      invariant single.stream.sent == old(single.stream.sent) + bytes
      invariant Wire(e, role, state, messages[..i]) == (bytes, single.maskState)
      invariant single.closeSent == (old(single.closeSent) || SendsClose(messages[..i]))
      invariant batch.maskState == state && batch.closeSent == old(batch.closeSent)
      invariant batch.stream.sent == old(batch.stream.sent)
    {
      ghost var frame := Wire(e, role, single.maskState, [messages[i]]).0;
      WireAppend(e, role, state, messages[..i], [messages[i]]);
      single.Write(messages[i]);
      assert messages[..i + 1] == messages[..i] + [messages[i]];
      assert old(single.stream.sent) + bytes + frame == old(single.stream.sent) + (bytes + frame);
      bytes := bytes + frame;
    }
    assert messages[..|messages|] == messages;
    batch.WriteAll(messages);
  }

  /** The first `n` readings of a live connection. */
  method ReadTimes(receiver: Connection, n: nat) returns (readings: seq<Reading>)
    requires receiver.Valid()
    modifies receiver`readBuffer, receiver`received, receiver`consumed, receiver`frames,
             receiver.assembler, receiver.stream`incoming
    ensures receiver.Valid()
    ensures (readings, receiver.Side()) == ReadMany(receiver.Cfg(), old(receiver.Side()), n)
  {
    hide Cut, Run, Receiving.Read, ReadMany;
    readings := [];
    ghost var (all, last) := ReadMany(receiver.Cfg(), receiver.Side(), n);
    for i := 0 to n
      invariant receiver.Valid()
      invariant all == readings + ReadMany(receiver.Cfg(), receiver.Side(), n - i).0
      invariant last == ReadMany(receiver.Cfg(), receiver.Side(), n - i).1
    {
      ghost var side := receiver.Side();
      var reading := receiver.Read();
      ReadManyCons(receiver.Cfg(), side, n - i);
      readings := readings + [reading];
    }
    ReadManyNone(receiver.Cfg(), receiver.Side());
    assert all == readings + [] == readings;
  }

  /** A fresh connection with a good batch to come, in any chunks, reads the batch and then the end. */
  method ReadBatch(receiver: Connection, ghost e: Endian, ghost state: u64, messages: seq<Message>)
    returns (readings: seq<Reading>)
    requires receiver.Valid() && receiver.Side().st == FRESH && GoodBatch(receiver.limits, messages)
    requires Pending(receiver.Side()) == Wire(e, Opposite(receiver.role), state, messages).0
    modifies receiver`readBuffer, receiver`received, receiver`consumed, receiver`frames,
             receiver.assembler, receiver.stream`incoming
    ensures receiver.Valid()
    ensures readings == Arrivals(messages) + [EndReading(messages)]
  {
    hide Wire, Arrivals, GoodBatch, SendsClose, Cut, Run, Receiving.Read, ReadMany;
    EndToEnd(e, Opposite(receiver.role), state, receiver.limits, messages, receiver.Side());
    readings := ReadTimes(receiver, |messages|);
    assert readings == Arrivals(messages);
    assert receiver.Side() == Receiver(State(None, SendsClose(messages)), [], []);
    var end := receiver.Read();
    readings := readings + [end];
  }

  /** The connections themselves: one side writes a batch, and the other, given the bytes in any
      chunks, reads the batch and then the end. */
  method Exchange(sender: Connection, messages: seq<Message>, chunks: seq<seq<byte>>, limits: Limits, seed: u64)
    returns (readings: seq<Reading>)
    requires sender.Valid() && GoodBatch(limits, messages)
    requires forall i :: 0 <= i < |chunks| ==> chunks[i] != []
    requires Concat(chunks) == Wire(sender.endian, sender.role, sender.maskState, messages).0
    modifies sender, sender.stream
    ensures sender.stream.sent == old(sender.stream.sent) + Concat(chunks)
    ensures readings == Arrivals(messages) + [EndReading(messages)]
  {
    hide Wire, Arrivals, GoodBatch, AllSized, SendsClose, Cut, Run;
    ghost var state := sender.maskState;
    GoodIsSized(limits, messages);
    sender.WriteAll(messages);
    var stream := new Stream(chunks);
    var receiver := new Connection(stream, Opposite(sender.role), limits, [], seed, sender.endian);
    assert Pending(receiver.Side()) == Concat(chunks);
    readings := ReadBatch(receiver, sender.endian, state, messages);
  }

  lemma WireOfNone(e: Endian, role: Role, state: u64)
    ensures Wire(e, role, state, []) == ([], state)
  {
  }
}
