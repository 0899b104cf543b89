/** The message assembler of sections 5.4 to 5.6 of RFC 6455: a step function from state and frame
    to state and answer, and the class that performs it. */
module Messages {
  import opened Bytes
  import opened Opcode
  import opened Utf8

  datatype CloseFrame = CloseFrame(code: CloseCode, reason: seq<byte>)

  datatype Message =
    | TextMessage(payload: seq<byte>)
    | BinaryMessage(payload: seq<byte>)
    | PingMessage(payload: seq<byte>)
    | PongMessage(payload: seq<byte>)
    | CloseMessage(frame: Option<CloseFrame>)

  datatype ProtocolError =
    | UnexpectedContinuation
    | InterleavedDataFrame
    | InvalidUtf8
    | MalformedCloseFrame
    | InvalidCloseCode
    | MessageTooLarge

  datatype Limits = Limits(maxFrame: nat, maxMessage: nat)

  /** One decoded frame with its payload unmasked. */
  datatype Fragment = Fragment(opcode: OpCode, fin: bool, payload: seq<byte>)

  /** What `accept` answers: `Ok(None)`, `Ok(Some(message))` or `Err(error)`. */
  datatype Outcome =
    | Nothing
    | Delivered(message: Message)
    | Refused(error: ProtocolError)

  datatype Partial = Partial(kind: OpCode, bytes: seq<byte>)

  datatype State = State(partial: Option<Partial>, closed: bool)

  const FRESH := State(None, false)

  predicate IsData(op: OpCode) {
    op.Text? || op.Binary?
  }

  /** Between frames: only a data message is ever open, and it fits the limit. */
  predicate Inv(max: nat, st: State) {
    st.partial.Some? ==> IsData(st.partial.value.kind) && |st.partial.value.bytes| <= max
  }

  function ParseCloseBody(payload: seq<byte>): Outcome {
    if payload == [] then Delivered(CloseMessage(None))
    else if |payload| == 1 then Refused(MalformedCloseFrame)
    else
      BEBound(payload[..2]);
      var code: CloseCode := FromBE(payload[..2]);
      if !IsSendable(code) then Refused(InvalidCloseCode)
      else if !IsUtf8(payload[2..]) then Refused(InvalidUtf8)
      else Delivered(CloseMessage(Some(CloseFrame(code, payload[2..]))))
  }

  function FinishUnfragmented(kind: OpCode, payload: seq<byte>): Outcome
    requires IsData(kind)
  {
    if kind.Binary? then Delivered(BinaryMessage(payload))
    else if IsUtf8(payload) then Delivered(TextMessage(payload))
    else Refused(InvalidUtf8)
  }

  /** One frame through the machine: the next state and the answer. */
  function Step(max: nat, st: State, f: Fragment): (r: (State, Outcome))
    requires Inv(max, st)
    ensures Inv(max, r.0)
  {
    if st.closed then (st, Nothing) else
    match f.opcode
    case Ping => (st, Delivered(PingMessage(f.payload)))
    case Pong => (st, Delivered(PongMessage(f.payload)))
    case Close => (st.(closed := true), ParseCloseBody(f.payload))
    case Continuation =>
      if st.partial.None? then (st, Refused(UnexpectedContinuation)) else
      var bytes := st.partial.value.bytes + f.payload;
      if |bytes| > max then (st, Refused(MessageTooLarge))
      else if !f.fin then (st.(partial := Some(Partial(st.partial.value.kind, bytes))), Nothing)
      else (st.(partial := None), FinishUnfragmented(st.partial.value.kind, bytes))
    case _ =>
      if st.partial.Some? then (st, Refused(InterleavedDataFrame))
      else if |f.payload| > max then (st, Refused(MessageTooLarge))
      else if f.fin then (st, FinishUnfragmented(f.opcode, f.payload))
      else (st.(partial := Some(Partial(f.opcode, f.payload))), Nothing)
  }

  /** The reassembler as the code keeps it: two fields updated frame by frame. */
  class Assembler {
    const limits: Limits
    var partial: Option<Partial>
    var closed: bool

    ghost function Now(): State
      reads this
    {
      State(partial, closed)
    }

    ghost predicate Valid()
      reads this
    {
      Inv(limits.maxMessage, Now())
    }

    constructor (limits: Limits)
      ensures this.limits == limits && Now() == FRESH && Valid()
    {
      this.limits := limits;
      partial := None;
      closed := false;
    }

    method Accept(opcode: OpCode, fin: bool, payload: seq<byte>) returns (r: Outcome)
      requires Valid()
      modifies this
      ensures Valid()
      ensures (Now(), r) == Step(limits.maxMessage, old(Now()), Fragment(opcode, fin, payload))
    {
      if closed {
        return Nothing;
      }
      if opcode.IsControl() {
        r := AcceptControl(opcode, payload);
        return;
      }
      if opcode.Continuation? {
        if partial.None? {
          return Refused(UnexpectedContinuation);
        }
        var kind, buffer := partial.value.kind, partial.value.bytes;
        if |buffer| + |payload| > limits.maxMessage {
          return Refused(MessageTooLarge);
        }
        buffer := buffer + payload;
        partial := Some(Partial(kind, buffer));
        if !fin {
          return Nothing;
        }
        partial := None;
        return FinishUnfragmented(kind, buffer);
      }
      if partial.Some? {
        return Refused(InterleavedDataFrame);
      }
      if |payload| > limits.maxMessage {
        return Refused(MessageTooLarge);
      }
      if fin {
        return FinishUnfragmented(opcode, payload);
      }
      partial := Some(Partial(opcode, payload));
      return Nothing;
    }

    method AcceptControl(opcode: OpCode, payload: seq<byte>) returns (r: Outcome)
      requires Valid() && opcode.IsControl() && !closed
      modifies this`closed
      ensures (Now(), r) == Step(limits.maxMessage, old(Now()), Fragment(opcode, true, payload))
      ensures Valid()
    {
      if opcode.Ping? {
        return Delivered(PingMessage(payload));
      }
      if opcode.Pong? {
        return Delivered(PongMessage(payload));
      }
      closed := true;
      return ParseCloseBody(payload);
    }
  }
}
