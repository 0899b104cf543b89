/** Frames with their octets written out: the examples of section 5.7 of RFC 6455, and a close. */
module FrameExamples {
  import opened Bytes
  import opened Bits
  import opened Opcode
  import opened Mask
  import opened Frame
  import opened Messages
  import opened Receiving
  import opened Sending
  import opened Delivery

  const HELLO: seq<byte> := [0x48, 0x65, 0x6C, 0x6C, 0x6F]
  const EXAMPLE_KEY: Key := [0x37, 0xFA, 0x21, 0x3D]
  const MASKED_HELLO: seq<byte> := [0x7F, 0x9F, 0x4D, 0x51, 0x58]

  // ---- Masking, calculated --------------------------------------------------------------------------

  /** One binary digit of an exclusive or. */
  lemma XorDigit(a: nat, b: nat, c: nat)
    requires Xor(a / 2, b / 2) == c / 2 && (c % 2 == 1 <==> a % 2 != b % 2)
    ensures Xor(a, b) == c
  {
    XorDigits(a, b);
    hide Xor;
  }

  lemma Octet0()
    ensures Xor(0x48, 0x37) == 0x7F
  {
    assert Xor(0, 0) == 0;
    hide Xor;
    XorDigit(0x01, 0x00, 0x01);
    XorDigit(0x02, 0x01, 0x03);
    XorDigit(0x04, 0x03, 0x07);
    XorDigit(0x09, 0x06, 0x0F);
    XorDigit(0x12, 0x0D, 0x1F);
    XorDigit(0x24, 0x1B, 0x3F);
    XorDigit(0x48, 0x37, 0x7F);
  }

  lemma Octet1()
    ensures Xor(0x65, 0xFA) == 0x9F
  {
    assert Xor(0, 0) == 0;
    hide Xor;
    XorDigit(0x00, 0x01, 0x01);
    XorDigit(0x01, 0x03, 0x02);
    XorDigit(0x03, 0x07, 0x04);
    XorDigit(0x06, 0x0F, 0x09);
    XorDigit(0x0C, 0x1F, 0x13);
    XorDigit(0x19, 0x3E, 0x27);
    XorDigit(0x32, 0x7D, 0x4F);
    XorDigit(0x65, 0xFA, 0x9F);
  }

  lemma Octet2()
    ensures Xor(0x6C, 0x21) == 0x4D
  {
    assert Xor(0, 0) == 0;
    hide Xor;
    XorDigit(0x01, 0x00, 0x01);
    XorDigit(0x03, 0x01, 0x02);
    XorDigit(0x06, 0x02, 0x04);
    XorDigit(0x0D, 0x04, 0x09);
    XorDigit(0x1B, 0x08, 0x13);
    XorDigit(0x36, 0x10, 0x26);
    XorDigit(0x6C, 0x21, 0x4D);
  }

  lemma Octet3()
    ensures Xor(0x6C, 0x3D) == 0x51
  {
    assert Xor(0, 0) == 0;
    hide Xor;
    XorDigit(0x01, 0x00, 0x01);
    XorDigit(0x03, 0x01, 0x02);
    XorDigit(0x06, 0x03, 0x05);
    XorDigit(0x0D, 0x07, 0x0A);
    XorDigit(0x1B, 0x0F, 0x14);
    XorDigit(0x36, 0x1E, 0x28);
    XorDigit(0x6C, 0x3D, 0x51);
  }

  lemma Octet4()
    ensures Xor(0x6F, 0x37) == 0x58
  {
    assert Xor(0, 0) == 0;
    hide Xor;
    XorDigit(0x01, 0x00, 0x01);
    XorDigit(0x03, 0x01, 0x02);
    XorDigit(0x06, 0x03, 0x05);
    XorDigit(0x0D, 0x06, 0x0B);
    XorDigit(0x1B, 0x0D, 0x16);
    XorDigit(0x37, 0x1B, 0x2C);
    XorDigit(0x6F, 0x37, 0x58);
  }

  lemma HelloMasked()
    ensures Masked(HELLO, EXAMPLE_KEY, 0) == MASKED_HELLO
  {
    hide Xor;
    Octet0();
    Octet1();
    Octet2();
    Octet3();
    Octet4();
  }

  // ---- The frames -----------------------------------------------------------------------------------

  /** These octets are the frame, on the way out and on the way in, in front of any others. */
  ghost predicate Spelled(role: Role, mask: Option<Key>, f: Fragment, octets: seq<byte>) {
    Sized(f) && WireFrame(mask, f) == octets &&
    forall limits: Limits, more: seq<byte> :: |f.payload| <= limits.maxFrame ==>
      ParseFrame(Config(role, limits), octets + more) == Took(|octets|, f)
  }

  lemma FrameIsSpelled(role: Role, mask: Option<Key>, f: Fragment, octets: seq<byte>)
    requires |f.payload| < 0x1_0001 && (f.opcode.IsControl() ==> f.fin && |f.payload| <= 125)
    requires MaskingAllowed(role, mask)
    requires WireFrame(mask, f) == octets
    ensures Spelled(role, mask, f, octets)
  {
    hide ParseFrame, WireFrame;
    forall limits: Limits, more: seq<byte> | |f.payload| <= limits.maxFrame
      ensures ParseFrame(Config(role, limits), octets + more) == Took(|octets|, f)
    {
      WireFrameParses(Config(role, limits), mask, f, more);
    }
  }

  /** Hello in one text frame, to a client. */
  lemma TextHello()
    ensures Spelled(Client, None, FragmentOf(TextMessage(HELLO)), [0x81, 0x05] + HELLO)
  {
    FrameIsSpelled(Client, None, FragmentOf(TextMessage(HELLO)), [0x81, 0x05] + HELLO);
  }

  /** The same, masked, to a server. */
  lemma MaskedTextHello()
    ensures Spelled(Server, Some(EXAMPLE_KEY), FragmentOf(TextMessage(HELLO)),
                    [0x81, 0x85, 0x37, 0xFA, 0x21, 0x3D, 0x7F, 0x9F, 0x4D, 0x51, 0x58])
  {
    hide Masked;
    HelloMasked();
    FrameIsSpelled(Server, Some(EXAMPLE_KEY), FragmentOf(TextMessage(HELLO)),
                   [0x81, 0x85, 0x37, 0xFA, 0x21, 0x3D, 0x7F, 0x9F, 0x4D, 0x51, 0x58]);
  }

  /** The same in two fragments. */
  lemma FragmentedHello()
    ensures Spelled(Client, None, Fragment(OpCode.Text, false, HELLO[..3]), [0x01, 0x03, 0x48, 0x65, 0x6C])
    ensures Spelled(Client, None, Fragment(Continuation, true, HELLO[3..]), [0x80, 0x02, 0x6C, 0x6F])
  {
    assert HELLO[..3] == [0x48, 0x65, 0x6C] && HELLO[3..] == [0x6C, 0x6F];
    FrameIsSpelled(Client, None, Fragment(OpCode.Text, false, HELLO[..3]), [0x01, 0x03, 0x48, 0x65, 0x6C]);
    FrameIsSpelled(Client, None, Fragment(Continuation, true, HELLO[3..]), [0x80, 0x02, 0x6C, 0x6F]);
  }

  /** A ping with a body ... */
  lemma PingHello()
    ensures Spelled(Client, None, FragmentOf(PingMessage(HELLO)), [0x89, 0x05] + HELLO)
  {
    FrameIsSpelled(Client, None, FragmentOf(PingMessage(HELLO)), [0x89, 0x05] + HELLO);
  }

  /** ... and the masked pong that answers it. */
  lemma MaskedPongHello()
    ensures Spelled(Server, Some(EXAMPLE_KEY), FragmentOf(PongMessage(HELLO)),
                    [0x8A, 0x85, 0x37, 0xFA, 0x21, 0x3D, 0x7F, 0x9F, 0x4D, 0x51, 0x58])
  {
    hide Masked;
    HelloMasked();
    FrameIsSpelled(Server, Some(EXAMPLE_KEY), FragmentOf(PongMessage(HELLO)),
                   [0x8A, 0x85, 0x37, 0xFA, 0x21, 0x3D, 0x7F, 0x9F, 0x4D, 0x51, 0x58]);
  }

  /** 256 octets of binary, and 64 KiB of it. */
  lemma LongBinary(small: seq<byte>, large: seq<byte>)
    requires |small| == 256 && |large| == 65536
    ensures Spelled(Client, None, FragmentOf(BinaryMessage(small)), [0x82, 0x7E, 0x01, 0x00] + small)
    ensures Spelled(Client, None, FragmentOf(BinaryMessage(large)),
                    [0x82, 0x7F, 0x00, 0x00, 0x00, 0x00, 0x00, 0x01, 0x00, 0x00] + large)
  {
    SmallLength();
    LargeLength();
    hide ToBE;
    FrameIsSpelled(Client, None, FragmentOf(BinaryMessage(small)), [0x82, 0x7E, 0x01, 0x00] + small);
    FrameIsSpelled(Client, None, FragmentOf(BinaryMessage(large)),
                   [0x82, 0x7F, 0x00, 0x00, 0x00, 0x00, 0x00, 0x01, 0x00, 0x00] + large);
  }

  lemma SmallLength()
    ensures ToBE(256, 2) == [0x01, 0x00]
  {
    assert ToBE(1, 1) == ToBE(0, 0) + [1];
  }

  lemma LargeLength()
    ensures ToBE(65536, 8) == [0, 0, 0, 0, 0, 1, 0, 0]
  {
    assert ToBE(0, 2) == ToBE(0, 1) + [0] == [0, 0];
    assert ToBE(0, 4) == ToBE(0, 3) + [0] == ToBE(0, 2) + [0] + [0];
    assert ToBE(1, 6) == ToBE(0, 5) + [1] == ToBE(0, 4) + [0] + [1];
    assert ToBE(65536, 8) == ToBE(256, 7) + [0] == ToBE(1, 6) + [0] + [0];
  }

  /** The close of an endpoint that goes away, code 1001. */
  lemma GoingAway()
    ensures Spelled(Client, None, FragmentOf(CloseMessage(Some(CloseFrame(1001, [])))), [0x88, 0x02, 0x03, 0xE9])
  {
    assert ToBE(1001, 2) == ToBE(3, 1) + [0xE9] == [0x03, 0xE9];
    FrameIsSpelled(Client, None, FragmentOf(CloseMessage(Some(CloseFrame(1001, [])))), [0x88, 0x02, 0x03, 0xE9]);
  }
}
