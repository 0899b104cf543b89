/** The masking key generator, section 5.3 of RFC 6455: its state counts, and its mixing loses nothing. */
module Generator {
  import opened Bytes
  import opened Bits
  import opened Mask
  import opened Frame
  import opened Messages
  import opened Receiving
  import opened Sending

  // ---- The state --------------------------------------------------------------------------------------

  function StateAfter(e: Endian, state: u64, draws: nat): u64 {
    if draws == 0 then state else NextMask(e, StateAfter(e, state, draws - 1)).0
  }

  /** Every draw advances the state by the same odd number, modulo 2^64. */
  lemma {:induction false} DrawsAdvance(e: Endian, state: u64, draws: nat)
    ensures StateAfter(e, state, draws) == (state + draws * 0x9E37_79B9_7F4A_7C15) % TWO_64
  {
    hide Mix;
    if draws == 0 {
    } else {
      DrawsAdvance(e, state, draws - 1);
      AddAgain(state + (draws - 1) * INCREMENT, INCREMENT);
      assert state + (draws - 1) * INCREMENT + INCREMENT == state + draws * INCREMENT;
    }
  }

  lemma AddAgain(x: nat, y: nat)
    ensures (x % TWO_64 + y) % TWO_64 == (x + y) % TWO_64
  {
  }

  /** The key is the low half of the mixed state, in the machine's order. */
  lemma KeyOctets(e: Endian, state: u64)
    ensures var n := Mix((state + INCREMENT) % TWO_64) % TWO_32;
            var key := NextMask(e, state).1;
            if e == Little then
              n == Number4(key[3], key[2], key[1], key[0])
            else
              n == Number4(key[0], key[1], key[2], key[3])
  {
    hide Mix;
    var n := Mix((state + INCREMENT) % TWO_64) % TWO_32;
    FromBE4(ToBE(n, 4));
    BigNumber();
    FromToBE(n, 4);
  }

  lemma BigNumber()
    ensures Pow256(4) == TWO_32
  {
    assert Pow256(2) == 256 * Pow256(1);
    assert Pow256(4) == 256 * Pow256(3) == 256 * (256 * Pow256(2));
  }

  // ---- The keys on the wire ---------------------------------------------------------------------------

  /** A client draws once for every message, a server never. */
  lemma {:induction false} OneDrawEach(e: Endian, role: Role, state: u64, messages: seq<Message>)
    requires AllSized(messages)
    ensures Wire(e, role, state, messages).1
         == if role == Client then (state + |messages| * INCREMENT) % TWO_64 else state
    decreases messages
  {
    hide Mix, WireFrame, FragmentOf;
    if messages == [] {
    } else {
      WireStep(e, role, state, messages);
      var next := DrawMask(e, role, state).0;
      OneDrawEach(e, role, next, messages[1..]);
      if role == Client {
        AddAgain(state + INCREMENT, (|messages| - 1) * INCREMENT);
        assert state + INCREMENT + (|messages| - 1) * INCREMENT == state + |messages| * INCREMENT;
      }
    }
  }

  /** The key drawn is the one that goes out, behind the length. */
  lemma DrawnKeyIsSent(e: Endian, state: u64, messages: seq<Message>)
    requires AllSized(messages) && messages != []
    ensures var n := |FragmentOf(messages[0]).payload|;
            var at := if n < 126 then 2 else if n <= 0xFFFF then 4 else 10;
            var bytes := Wire(e, Client, state, messages).0;
            |bytes| >= at + 4 && bytes[1] >= 0x80 && bytes[at..at + 4] == NextMask(e, state).1
  {
    hide NextMask, FragmentOf, EncodedStart, Unmask;
    WireStep(e, Client, state, messages);
    var f := FragmentOf(messages[0]);
    MaskBit(HeaderOf(f, Some(NextMask(e, state).1)));
  }

  lemma MaskBit(h: Header)
    requires h.mask.Some?
    ensures EncodedStart(h)[1] >= 0x80
  {
  }

  // ---- The mixing -------------------------------------------------------------------------------------

  /** What undoes an exclusive or with a shift by a third of the width or more. */
  function Unshift(y: nat, k: nat): nat {
    Xor(y, Xor(Dropped(y, k), Dropped(Dropped(y, k), k)))
  }

  lemma ShiftUndone(z: nat, k: nat)
    requires Dropped(Dropped(Dropped(z, k), k), k) == 0
    ensures Unshift(Xor(z, Dropped(z, k)), k) == z
  {
    hide Xor, Dropped;
    var z1 := Dropped(z, k);
    var z2 := Dropped(z1, k);
    XorDropped(z, z1, k);
    XorDropped(z1, z2, k);
    XorTwice(z1, z2);
    XorTwice(z, z1);
    XorNone(z2);
  }

  lemma {:induction false} XorNone(a: nat)
    ensures Xor(a, 0) == a
  {
    if a == 0 {
    } else {
      XorNone(a / 2);
    }
  }

  /** The three shifts of the mixing: each is division, and three of them leave nothing of a word. */
  lemma Shifts(z: u64)
    ensures Dropped(z, 30) == z / 0x4000_0000 && Dropped(Dropped(Dropped(z, 30), 30), 30) == 0
    ensures Dropped(z, 27) == z / 0x800_0000 && Dropped(Dropped(Dropped(z, 27), 27), 27) == 0
    ensures Dropped(z, 31) == z / 0x8000_0000 && Dropped(Dropped(Dropped(z, 31), 31), 31) == 0
  {
    hide Dropped;
    ShiftValues();
    DroppedIs(z, 30);
    DroppedIs(z / 0x4000_0000, 30);
    DroppedIs(z / 0x4000_0000 / 0x4000_0000, 30);
    DroppedIs(z, 27);
    DroppedIs(z / 0x800_0000, 27);
    DroppedIs(z / 0x800_0000 / 0x800_0000, 27);
    DroppedIs(z, 31);
    DroppedIs(z / 0x8000_0000, 31);
    DroppedIs(z / 0x8000_0000 / 0x8000_0000, 31);
  }

  lemma ShiftValues()
    ensures Pow2(27) == 0x800_0000 && Pow2(30) == 0x4000_0000 && Pow2(31) == 0x8000_0000 && Pow2(64) == TWO_64
  {
    Pow2Values();
    Pow2Plus8(24);
    Pow2Plus8(32);
    Pow2Plus8(40);
    Pow2Plus8(48);
    Pow2Plus8(56);
    assert Pow2(32) == 2 * Pow2(31) && Pow2(31) == 2 * Pow2(30) && Pow2(30) == 2 * Pow2(29);
    assert Pow2(29) == 2 * Pow2(28) && Pow2(28) == 2 * Pow2(27);
  }

  /** Multiplication by an odd constant modulo 2^64, undone by its inverse. */
  lemma TimesUndone(z: u64, c: nat, d: nat, q: nat)
    requires c * d == 1 + q * TWO_64
    ensures z * c % TWO_64 * d % TWO_64 == z
  {
    var n := z * c / TWO_64;
    assert z * c == n * TWO_64 + z * c % TWO_64;
    assert (z * c) * d == z * (c * d);
    assert z * (c * d) == z + z * q * TWO_64;
    assert z * c % TWO_64 * d == z + (z * q - n * d) * TWO_64;
    WholeTimes(z, z * q - n * d);
  }

  lemma WholeTimes(z: u64, k: int)
    ensures (z + k * TWO_64) % TWO_64 == z
  {
  }

  const INVERSE_1: nat := 0x96DE_1B17_3F11_9089
  const INVERSE_2: nat := 0x3196_42B2_D24D_8EC3

  /** The way back, step by step. */
  function Unmix(mixed: nat): nat {
    var z := Unshift(mixed, 31);
    var y := Unshift(z * INVERSE_2 % TWO_64, 27);
    Unshift(y * INVERSE_1 % TWO_64, 30)
  }

  /** The mixing has an inverse: different states are mixed differently. */
  lemma MixUndone(state: u64)
    ensures Unmix(Mix(state)) == state
  {
    hide Xor, Unshift, Dropped;
    ShiftValues();
    var y0 := Xor(state, state / 0x4000_0000);
    var y := y0 * 0xBF58_476D_1CE4_E5B9 % TWO_64;
    var z0 := Xor(y, y / 0x800_0000);
    var z := z0 * 0x94D0_49BB_1331_11EB % TWO_64;
    XorBound(state, state / 0x4000_0000, 64);
    XorBound(y, y / 0x800_0000, 64);
    TimesUndone(y0, 0xBF58_476D_1CE4_E5B9, INVERSE_1, 0x70C3_BCA7_8F27_F46C);
    TimesUndone(z0, 0x94D0_49BB_1331_11EB, INVERSE_2, 0x1CD3_36ED_A85F_1453);
    Shifts(state);
    Shifts(y);
    Shifts(z);
    ShiftUndone(state, 30);
    ShiftUndone(y, 27);
    ShiftUndone(z, 31);
  }
}
