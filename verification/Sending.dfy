/** What a sender puts on the wire, as functions. */
module Sending {
  import opened Bytes
  import opened Bits
  import opened Opcode
  import opened Mask
  import opened Frame
  import opened Messages
  import opened Receiving

  const INCREMENT: u64 := 0x9E37_79B9_7F4A_7C15

  /** The state scrambled: two rounds of shift, exclusive or and multiplication, and one shift more. */
  function Mix(state: u64): nat {
    var y := Xor(state, state / 0x4000_0000) * 0xBF58_476D_1CE4_E5B9 % TWO_64;
    var z := Xor(y, y / 0x800_0000) * 0x94D0_49BB_1331_11EB % TWO_64;
    Xor(z, z / 0x8000_0000)
  }

  /** The masking key generator: the next state and the key drawn from it. */
  function NextMask(e: Endian, state: u64): (r: (u64, Key)) {
    var next := (state + INCREMENT) % TWO_64;
    (next, ToNE(e, Mix(next) % TWO_32, 4))
  }

  /** The key for the next frame: a client draws one, a server uses none. */
  function DrawMask(e: Endian, role: Role, state: u64): (u64, Option<Key>) {
    if role == Client then (NextMask(e, state).0, Some(NextMask(e, state).1)) else (state, None)
  }

  function EncodeCloseBody(frame: Option<CloseFrame>): seq<byte> {
    match frame
    case None => []
    case Some(f) => ToBE(if IsSendable(f.code) then f.code else INTERNAL_ERROR, 2) + f.reason
  }

  /** The single frame that carries a message. */
  function FragmentOf(m: Message): Fragment {
    match m
    case TextMessage(p) => Fragment(OpCode.Text, true, p)
    case BinaryMessage(p) => Fragment(OpCode.Binary, true, p)
    case PingMessage(p) => Fragment(OpCode.Ping, true, p)
    case PongMessage(p) => Fragment(OpCode.Pong, true, p)
    case CloseMessage(f) => Fragment(OpCode.Close, true, EncodeCloseBody(f))
  }

  /** A payload has a 64-bit length, as every slice does. */
  predicate Sized(f: Fragment) {
    |f.payload| < TWO_64
  }

  function HeaderOf(f: Fragment, mask: Option<Key>): Header
    requires Sized(f)
  {
    Header(f.fin, f.opcode, mask, |f.payload|)
  }

  /** One whole frame as octets. Masking is its own inverse, so `Unmask` also masks. */
  function WireFrame(mask: Option<Key>, f: Fragment): seq<byte>
    requires Sized(f)
  {
    Encoded(HeaderOf(f, mask)) + Unmask(mask, f.payload)
  }

  predicate AllSized(messages: seq<Message>) {
    forall i :: 0 <= i < |messages| ==> Sized(FragmentOf(messages[i]))
  }

  /** Everything `messages` put on the wire from generator state `state`, and the state after. */
  function Wire(e: Endian, role: Role, state: u64, messages: seq<Message>): (r: (seq<byte>, u64))
    requires AllSized(messages)
    decreases messages
  {
    if messages == [] then ([], state) else
    var (next, mask) := DrawMask(e, role, state);
    var (rest, last) := Wire(e, role, next, messages[1..]);
    (WireFrame(mask, FragmentOf(messages[0])) + rest, last)
  }

  lemma WireNone(e: Endian, role: Role, state: u64)
    ensures Wire(e, role, state, []) == ([], state)
  {
  }

  lemma WireStep(e: Endian, role: Role, state: u64, messages: seq<Message>)
    requires AllSized(messages) && messages != []
    ensures var (next, mask) := DrawMask(e, role, state);
            Wire(e, role, state, messages) ==
            (WireFrame(mask, FragmentOf(messages[0])) + Wire(e, role, next, messages[1..]).0,
             Wire(e, role, next, messages[1..]).1)
  {
  }

  predicate SendsClose(messages: seq<Message>) {
    exists i :: 0 <= i < |messages| && messages[i].CloseMessage?
  }
}
