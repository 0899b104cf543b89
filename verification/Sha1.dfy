/** SHA-1: the standard (FIPS 180-4) as functions, and the streaming hasher proved against it. */
module Sha1 {
  import opened Bytes

  type Block = s: seq<byte> | |s| == 64 witness seq(64, _ => 0)

  /** Five 32-bit words: the hash value between blocks, the working variables within one. */
  datatype Words = Words(a: bv32, b: bv32, c: bv32, d: bv32, e: bv32)

  const INITIAL := Words(0x67452301, 0xEFCDAB89, 0x98BADCFE, 0x10325476, 0xC3D2E1F0)

  // ---- The standard ---------------------------------------------------------------------

  /** ROTL, section 3.2. */
  function Rotl(x: bv32, n: nat): bv32
    requires 0 < n < 32
  {
    (x << n) | (x >> (32 - n))
  }

  /** Ch, Parity and Maj, section 4.1.1. */
  function Ch(x: bv32, y: bv32, z: bv32): bv32 { (x & y) ^ (!x & z) }

  function Parity(x: bv32, y: bv32, z: bv32): bv32 { x ^ y ^ z }

  function Maj(x: bv32, y: bv32, z: bv32): bv32 { (x & y) ^ (x & z) ^ (y & z) }

  /** The functions f_t, section 4.1.1. */
  function F(t: nat, x: bv32, y: bv32, z: bv32): bv32 {
    if t <= 19 then Ch(x, y, z)
    else if t <= 39 then Parity(x, y, z)
    else if t <= 59 then Maj(x, y, z)
    else Parity(x, y, z)
  }

  /** Addition modulo 2^32 (`wrapping_add`). */
  function Add(x: bv32, y: bv32): bv32 { x + y }

  /** The constants K_t, section 4.2.1. */
  function K(t: nat): bv32 {
    if t <= 19 then 0x5A827999
    else if t <= 39 then 0x6ED9EBA1
    else if t <= 59 then 0x8F1BBCDC
    else 0xCA62C1D6
  }

  function Word(s: seq<byte>): bv32
    requires |s| == 4
  {
    WordBound(s);
    FromBE(s) as bv32
  }

  lemma WordBound(s: seq<byte>)
    requires |s| == 4
    ensures FromBE(s) < 0x1_0000_0000
  {
    ToFromBE(s);
    assert Pow256(2) == 256 * Pow256(1);
    assert Pow256(4) == 256 * Pow256(3) == 256 * (256 * Pow256(2));
  }

  /** The message schedule, section 6.1.2 step 1. */
  function W(block: Block, t: nat): bv32 {
    if t < 16 then Word(block[4 * t..4 * t + 4])
    else Rotl(W(block, t - 3) ^ W(block, t - 8) ^ W(block, t - 14) ^ W(block, t - 16), 1)
  }

  /** One round, section 6.1.2 step 3. */
  function Round(t: nat, w: bv32, v: Words): Words {
    Words(Add(Add(Add(Add(Rotl(v.a, 5), F(t, v.b, v.c, v.d)), v.e), K(t)), w), v.a, Rotl(v.b, 30), v.c, v.d)
  }

  function Rounds(block: Block, t: nat, v: Words): Words {
    if t == 0 then v else Round(t - 1, W(block, t - 1), Rounds(block, t - 1, v))
  }

  function Plus(h: Words, v: Words): Words {
    Words(Add(h.a, v.a), Add(h.b, v.b), Add(h.c, v.c), Add(h.d, v.d), Add(h.e, v.e))
  }

  /** The hash value after one more block. */
  function Compressed(h: Words, block: Block): Words {
    Plus(h, Rounds(block, 80, h))
  }

  /** The hash value after whole blocks. */
  function Hashed(h: Words, blocks: seq<byte>): Words
    requires |blocks| % 64 == 0
    decreases |blocks|
  {
    if blocks == [] then h else Hashed(Compressed(h, blocks[..64]), blocks[64..])
  }

  function Zeros(n: nat): seq<byte> {
    seq(n, _ => 0)
  }

  predicate LeavesRoom(length: nat, zeros: nat) {
    (length + 1 + zeros) % 64 == 56
  }

  /** How many zero octets follow the one bit: section 5.1.1 asks for the fewest that leave room
      for the length at the end of a block. */
  function ZeroCount(length: nat): (k: nat)
    ensures LeavesRoom(length, k)
    ensures forall j: nat :: j < k ==> !LeavesRoom(length, j)
  {
    (119 - length % 64) % 64
  }

  lemma BlocksLeft(a: nat, b: nat)
    requires a % 64 == 0 && (a + b) % 64 == 0
    ensures b % 64 == 0
  {
  }

  lemma LengthFills(length: nat, zeros: nat)
    requires LeavesRoom(length, zeros)
    ensures (length + 1 + zeros + 8) % 64 == 0
  {
  }

  /** The padded message, section 5.1.1. */
  function Padded(message: seq<byte>): (p: seq<byte>)
    ensures |p| % 64 == 0
  {
    var zeros := ZeroCount(|message|);
    LengthFills(|message|, zeros);
    var p := message + [0x80] + Zeros(zeros) + ToBE(8 * |message|, 8);
    assert |p| == |message| + 1 + zeros + 8;
    p
  }

  lemma PaddedParts(message: seq<byte>)
    ensures Padded(message) == message + [0x80] + Zeros(ZeroCount(|message|)) + ToBE(8 * |message|, 8)
  {
  }

  function Octets(h: Words): seq<byte> {
    ToBE(h.a as nat, 4) + ToBE(h.b as nat, 4) + ToBE(h.c as nat, 4) + ToBE(h.d as nat, 4) + ToBE(h.e as nat, 4)
  }

  /** The hash of a whole message. */
  function Digest(message: seq<byte>): seq<byte> {
    Octets(Hashed(INITIAL, Padded(message)))
  }

  // ---- The code's own forms of the round functions ----------------------------------------

  function Choose(b: bv32, c: bv32, d: bv32): bv32 { (b & c) | (!b & d) }

  function Majority(b: bv32, c: bv32, d: bv32): bv32 { (b & c) | (b & d) | (c & d) }

  lemma ChooseBits(b: bv32, c: bv32, d: bv32)
    ensures (b & c) | (!b & d) == (b & c) ^ (!b & d)
  {
  }

  lemma MajorityBits(b: bv32, c: bv32, d: bv32)
    ensures (b & c) | (b & d) | (c & d) == (b & c) ^ (b & d) ^ (c & d)
  {
  }

  lemma ChooseForm(b: bv32, c: bv32, d: bv32)
    ensures Choose(b, c, d) == Ch(b, c, d)
  {
    ChooseBits(b, c, d);
  }

  lemma MajorityForm(b: bv32, c: bv32, d: bv32)
    ensures Majority(b, c, d) == Maj(b, c, d)
  {
    MajorityBits(b, c, d);
  }

  /** The function of one round as the code writes it, with inclusive or. */
  function CodeF(t: nat, b: bv32, c: bv32, d: bv32): bv32 {
    if t <= 19 then Choose(b, c, d)
    else if t <= 39 then b ^ c ^ d
    else if t <= 59 then Majority(b, c, d)
    else b ^ c ^ d
  }

  lemma CodeFIsF(t: nat, b: bv32, c: bv32, d: bv32)
    ensures CodeF(t, b, c, d) == F(t, b, c, d)
  {
    hide Choose, Ch, Majority, Maj;
    ChooseForm(b, c, d);
    MajorityForm(b, c, d);
  }

  lemma RotateForms(x: bv32)
    ensures x.RotateLeft(1) == Rotl(x, 1)
    ensures x.RotateLeft(5) == Rotl(x, 5)
    ensures x.RotateLeft(30) == Rotl(x, 30)
  {
  }

  lemma {:induction false} HashedAppend(h: Words, a: seq<byte>, b: seq<byte>)
    requires |a| % 64 == 0 && |b| % 64 == 0
    ensures Hashed(h, a + b) == Hashed(Hashed(h, a), b)
    decreases |a|
  {
    hide Compressed;
    if a == [] {
      assert a + b == b;
    } else {
      HashedAppend(Compressed(h, a[..64]), a[64..], b);
      assert (a + b)[..64] == a[..64] && (a + b)[64..] == a[64..] + b;
    }
  }

  lemma HashedSnoc(h: Words, blocks: seq<byte>, block: Block)
    requires |blocks| % 64 == 0
    ensures Hashed(h, blocks + block) == Compressed(Hashed(h, blocks), block)
  {
    hide Compressed;
    HashedAppend(h, blocks, block);
    assert block[..64] == block && block[64..] == [];
    assert Hashed(Compressed(Hashed(h, blocks), block), []) == Compressed(Hashed(h, blocks), block);
  }

  /** One round as the code computes it. */
  lemma RoundForm(t: nat, w: bv32, v: Words, temp: bv32)
    requires temp == Add(Add(Add(Add(v.a.RotateLeft(5), CodeF(t, v.b, v.c, v.d)), v.e), K(t)), w)
    ensures Words(temp, v.a, v.b.RotateLeft(30), v.c, v.d) == Round(t, w, v)
  {
    hide Rotl, F, CodeF, K, Add;
    CodeFIsF(t, v.b, v.c, v.d);
    RotateForms(v.a);
    RotateForms(v.b);
  }

  lemma WStep(block: Block, t: nat)
    ensures t < 16 ==> W(block, t) == Word(block[4 * t..4 * t + 4])
    ensures t >= 16 ==>
              W(block, t) == (W(block, t - 3) ^ W(block, t - 8) ^ W(block, t - 14) ^ W(block, t - 16)).RotateLeft(1)
  {
    hide Word, Rotl;
    if t >= 16 {
      RotateForms(W(block, t - 3) ^ W(block, t - 8) ^ W(block, t - 14) ^ W(block, t - 16));
    }
  }

  /** The message schedule, in place in an eighty-word array. */
  method Schedule(block: Block) returns (w: array<bv32>)
    ensures fresh(w) && w.Length == 80
    ensures forall i :: 0 <= i < 80 ==> w[i] == W(block, i)
  {
    hide Word, W;
    w := new bv32[80](_ => 0);
    for i := 0 to 16
      invariant forall j :: 0 <= j < i ==> w[j] == W(block, j)
    {
      WStep(block, i);
      w[i] := Word(block[4 * i..4 * i + 4]);
    }
    for i := 16 to 80
      invariant forall j :: 0 <= j < i ==> w[j] == W(block, j)
    {
      WStep(block, i);
      w[i] := (w[i - 3] ^ w[i - 8] ^ w[i - 14] ^ w[i - 16]).RotateLeft(1);
    }
  }

  lemma SameRoom(length: nat, buffered: nat, zeros: nat)
    requires buffered <= length && (length - buffered) % 64 == 0
    ensures LeavesRoom(length, zeros) <==> LeavesRoom(buffered, zeros)
  {
    var blocks := (length - buffered) / 64;
    assert length + 1 + zeros == 64 * blocks + (buffered + 1 + zeros);
  }

  /** The streaming hasher. */
  class Hasher {
    var state: Words
    var buffer: seq<byte>
    var length: nat
    /** Everything fed in so far. */
    ghost var message: seq<byte>

    /** Whole blocks are in `state`, the rest is in `buffer`. */
    ghost predicate Absorbed()
      reads this
    {
      length == |message| < 0x2000_0000_0000_0000 &&
      |buffer| <= |message| && (|message| - |buffer|) % 64 == 0 &&
      message[|message| - |buffer|..] == buffer &&
      state == Hashed(INITIAL, message[..|message| - |buffer|])
    }

    /** Between calls less than a block is buffered. */
    ghost predicate Valid()
      reads this
    {
      Absorbed() && |buffer| < 64
    }

    constructor ()
      ensures Valid() && message == []
    {
      state := INITIAL;
      buffer := [];
      length := 0;
      message := [];
    }

    method Update(data: seq<byte>)
      requires Valid() && |message| + |data| < 0x2000_0000_0000_0000
      modifies this
      ensures Valid() && message == old(message) + data
    {
      hide Hashed, Compressed;
      length := length + |data|;
      message := message + data;
      ghost var split := |old(message)| - |buffer|;
      assert message[..split] == old(message)[..split];
      assert message[split..] == buffer + data;
      buffer := buffer + data;
      while |buffer| >= 64
        invariant Absorbed() && message == old(message) + data
      {
        AbsorbBlock();
      }
    }

    /** The front of the buffer, one block, into the state. */
    method AbsorbBlock()
      requires Absorbed() && |buffer| >= 64
      modifies this`state, this`buffer
      ensures Absorbed() && buffer == old(buffer)[64..]
    {
      hide Hashed, Compressed;
      ghost var at := |message| - |buffer|;
      assert buffer[..64] == message[at..at + 64];
      assert message[..at] + buffer[..64] == message[..at + 64];
      HashedSnoc(INITIAL, message[..at], buffer[..64]);
      Compress(buffer[..64]);
      buffer := buffer[64..];
    }

    method Finish() returns (digest: seq<byte>)
      requires Valid()
      modifies this
      ensures |digest| == 20 && digest == Digest(old(message))
    {
      hide Hashed, Compressed, ToBE, Padded, ZeroCount;
      var bitLength := length * 8;
      PaddedParts(message);
      Pad();
      buffer := buffer + ToBE(bitLength, 8);
      ghost var whole := message[..|message| - |old(buffer)|];
      assert Padded(message) == whole + buffer;
      BlocksLeft(|whole|, |buffer|);
      HashedAppend(INITIAL, whole, buffer);
      var buffered := buffer;
      buffer := [];
      CompressAll(buffered);
      digest := ToBE(state.a as nat, 4) + ToBE(state.b as nat, 4) + ToBE(state.c as nat, 4)
        + ToBE(state.d as nat, 4) + ToBE(state.e as nat, 4);
    }

    /** The one bit and the zeros. */
    method Pad()
      requires Valid()
      modifies this`buffer
      ensures buffer == old(buffer) + [0x80] + Zeros(ZeroCount(|message|))
    {
      hide Hashed, ZeroCount;
      buffer := buffer + [0x80];
      ghost var zeros := 0;
      while |buffer| % 64 != 56
        invariant 0 <= zeros <= ZeroCount(|message|)
        invariant buffer == old(buffer) + [0x80] + Zeros(zeros)
        decreases ZeroCount(|message|) - zeros
      {
        assert !LeavesRoom(|message|, zeros) by { SameRoom(|message|, |old(buffer)|, zeros); }
        buffer := buffer + [0];
        zeros := zeros + 1;
      }
      SameRoom(|message|, |old(buffer)|, zeros);
    }

    /** Whole blocks, one after the other. */
    method CompressAll(buffered: seq<byte>)
      requires |buffered| % 64 == 0
      modifies this`state
      ensures state == Hashed(old(state), buffered)
    {
      assert Hashed(state, []) == state;
      hide Hashed, Compressed;
      assert buffered[..64 * 0] == [];
      for i := 0 to |buffered| / 64
        invariant state == Hashed(old(state), buffered[..64 * i])
      {
        var block := buffered[64 * i..64 * i + 64];
        HashedSnoc(old(state), buffered[..64 * i], block);
        assert buffered[..64 * i] + block == buffered[..64 * (i + 1)];
        Compress(block);
      }
      assert buffered[..64 * (|buffered| / 64)] == buffered;
    }

    method Compress(block: Block)
      modifies this`state
      ensures state == Compressed(old(state), block)
    {
      hide W, Round, CodeF, K, Hashed, Add;
      var w := Schedule(block);
      var v := state;
      for i := 0 to 80
        invariant v == Rounds(block, i, state)
        invariant state == old(state)
        invariant forall j :: 0 <= j < 80 ==> w[j] == W(block, j)
      {
        ghost var was := v;
        var temp := Add(Add(Add(Add(v.a.RotateLeft(5), CodeF(i, v.b, v.c, v.d)), v.e), K(i)), w[i]);
        v := Words(temp, v.a, v.b.RotateLeft(30), v.c, v.d);
        RoundForm(i, w[i], was, temp);
      }
      state := Plus(state, v);
    }
  }

  /** However a message is cut into pieces, the hasher gives the standard's hash of the whole. */
  method HashPieces(pieces: seq<seq<byte>>) returns (digest: seq<byte>)
    requires |Concat(pieces)| < 0x2000_0000_0000_0000
    ensures digest == Digest(Concat(pieces))
  {
    hide Hashed, Digest;
    var hasher := new Hasher();
    for i := 0 to |pieces|
      invariant fresh(hasher) && hasher.Valid() && hasher.message == Concat(pieces[..i])
    {
      assert pieces[..i + 1] == pieces[..i] + [pieces[i]];
      ConcatAppend(pieces[..i], [pieces[i]]);
      ConcatAppend(pieces[..i + 1], pieces[i + 1..]);
      assert Concat([pieces[i]]) == pieces[i];
      assert pieces[..i + 1] + pieces[i + 1..] == pieces;
      hasher.Update(pieces[i]);
    }
    assert pieces[..|pieces|] == pieces;
    digest := hasher.Finish();
  }
}
