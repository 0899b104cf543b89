/** Headers as values, the octets they stand for, and the reading of octets back into headers, which
    section 5.2 of RFC 6455 makes a bijection. */
module Frame {
  import opened Bytes
  import opened Opcode
  import opened Bits
  import opened Mask

  const MAX_ENCODED_LEN: nat := 14

  datatype FrameError =
    | ReservedOpCode(bits: byte)
    | ReservedBitSet
    | InvalidControlFrame
    | InvalidLength
    | TooLarge

  datatype Header = Header(fin: bool, opcode: OpCode, mask: Option<Key>, payloadLen: u64)

  /** What a run of octets says about the header at its front. */
  datatype Decoded =
    | Incomplete
    | Failed(error: FrameError)
    | Complete(header: Header, used: nat)

  datatype Length = Missing | NotShortest | Length(value: u64, width: nat)

  /** The payload length announced by the seven-bit field `short` and what follows it. */
  function DecodeLength(input: seq<byte>, short: nat): Length
    requires |input| >= 2 && short < 128
  {
    if short == 126 then
      if |input| < 4 then Missing else
      var value := FromBE(input[2..4]);
      if value < 126 then NotShortest else BEBound(input[2..4]); Length(value, 2)
    else if short == 127 then
      if |input| < 10 then Missing else
      var value := FromBE(input[2..10]);
      if value >= 0x8000_0000_0000_0000 || value <= 0xFFFF then NotShortest else Length(value, 8)
    else
      Length(short, 0)
  }

  function Decode(input: seq<byte>, maxPayload: nat): Decoded {
    if |input| < 2 then Incomplete else
    var first, second := input[0], input[1];
    if first / 0x10 % 8 != 0 then Failed(ReservedBitSet) else
    var opcode := FromBits(first % 0x10);
    if opcode.None? then Failed(ReservedOpCode(first % 0x10)) else
    var fin := first >= 0x80;
    var short := second % 0x80;
    if opcode.value.IsControl() && (short > 125 || !fin) then Failed(InvalidControlFrame) else
    match DecodeLength(input, short)
    case Missing => Incomplete
    case NotShortest => Failed(InvalidLength)
    case Length(value, width) =>
      if value > maxPayload then Failed(TooLarge)
      else if second < 0x80 then Complete(Header(fin, opcode.value, None, value), 2 + width)
      else if |input| < 2 + width + 4 then Incomplete
      else
        Complete(Header(fin, opcode.value, Some(input[2 + width..2 + width + 4]), value), 2 + width + 4)
  }

  function LengthWidth(n: u64): nat {
    if n < 126 then 0 else if n <= 0xFFFF then 2 else 8
  }

  function EncodedLen(h: Header): nat {
    2 + LengthWidth(h.payloadLen) + if h.mask.Some? then 4 else 0
  }

  /** The two fixed octets and the extended length. */
  function EncodedStart(h: Header): (s: seq<byte>)
    ensures |s| == 2 + LengthWidth(h.payloadLen)
  {
    var n := h.payloadLen;
    var maskBit := if h.mask.Some? then 0x80 else 0;
    var short := if n < 126 then n else if n <= 0xFFFF then 126 else 127;
    [(if h.fin then 0x80 else 0) + h.opcode.ToBits(), maskBit + short] + ToBE(n, LengthWidth(n))
  }

  /** The octets of a header. */
  function Encoded(h: Header): (s: seq<byte>)
    ensures |s| == EncodedLen(h) <= MAX_ENCODED_LEN
  {
    EncodedStart(h) + if h.mask.Some? then h.mask.value else []
  }

  /** A header a peer may send: section 5.5 for control frames, section 5.2 for lengths. */
  predicate WellFormed(h: Header, maxPayload: nat) {
    (h.opcode.IsControl() ==> h.fin && h.payloadLen <= 125) &&
    h.payloadLen < 0x8000_0000_0000_0000 &&
    h.payloadLen <= maxPayload
  }

  method EncodeStart(h: Header, out: array<byte>) returns (cursor: nat)
    requires 2 + LengthWidth(h.payloadLen) <= out.Length
    modifies out
    ensures cursor == |EncodedStart(h)|
    ensures out[..cursor] == EncodedStart(h)
    ensures out[cursor..] == old(out[cursor..])
  {
    var n := h.payloadLen;
    out[0] := (if h.fin then 0x80 else 0) + h.opcode.ToBits();
    var maskBit := if h.mask.Some? then 0x80 else 0;
    cursor := 2;
    if n < 126 {
      out[1] := maskBit + n;
    } else if n <= 0xFFFF {
      out[1] := maskBit + 126;
      CopyInto(out, cursor, ToBE(n, 2));
      cursor := cursor + 2;
    } else {
      out[1] := maskBit + 127;
      CopyInto(out, cursor, ToBE(n, 8));
      cursor := cursor + 8;
    }
    assert out[..cursor] == out[..2] + out[2..cursor];
  }

  /** `Header::encode`: a short buffer is left alone and reported. */
  method Encode(h: Header, out: array<byte>) returns (written: Option<nat>)
    modifies out
    ensures out.Length < EncodedLen(h) ==> written == None && out[..] == old(out[..])
    ensures out.Length >= EncodedLen(h) ==>
              written == Some(EncodedLen(h)) &&
              out[..] == Encoded(h) + old(out[EncodedLen(h)..])
  {
    var needed := EncodedLen(h);
    if out.Length < needed {
      return None;
    }
    hide EncodedStart;
    var cursor := EncodeStart(h, out);
    if h.mask.Some? {
      ghost var start, was := cursor, out[..];
      CopyInto(out, cursor, h.mask.value);
      cursor := cursor + 4;
      assert out[..cursor] == out[..start] + out[start..cursor];
      assert out[..start] == was[..start] == EncodedStart(h);
      assert out[cursor..] == was[start..][4..] == old(out[..])[start..][4..];
    }
    assert out[..cursor] == Encoded(h) && cursor == EncodedLen(h);
    assert out[cursor..] == old(out[..])[cursor..] == old(out[EncodedLen(h)..]);
    assert out[..] == out[..cursor] + out[cursor..];
    return Some(cursor);
  }

  lemma LengthRoundTrip(h: Header, more: seq<byte>)
    requires h.payloadLen < 0x8000_0000_0000_0000
    ensures DecodeLength(Encoded(h) + more, Encoded(h)[1] % 0x80)
         == Length(h.payloadLen, LengthWidth(h.payloadLen))
  {
    var n, w := h.payloadLen, LengthWidth(h.payloadLen);
    assert (Encoded(h) + more)[2..2 + w] == ToBE(n, w);
    Pow256Values();
    if w > 0 {
      FromToBE(n, w);
    }
  }

  lemma Pow256Values()
    ensures Pow256(0) == 1 && Pow256(2) == 0x1_0000 && Pow256(8) == 0x1_0000_0000_0000_0000
  {
    assert Pow256(2) == 256 * Pow256(1);
    assert Pow256(4) == 256 * Pow256(3) == 256 * (256 * Pow256(2));
    assert Pow256(6) == 256 * Pow256(5) == 256 * (256 * Pow256(4));
    assert Pow256(8) == 256 * Pow256(7) == 256 * (256 * Pow256(6));
  }

  /** A well-formed header decodes to itself in front of any octets. */
  lemma EncodedDecodes(h: Header, maxPayload: nat, more: seq<byte>)
    requires WellFormed(h, maxPayload)
    ensures Decode(Encoded(h) + more, maxPayload) == Complete(h, EncodedLen(h))
  {
    var input := Encoded(h) + more;
    LengthRoundTrip(h, more);
    FromToBits(h.opcode);
    assert input[0] == Encoded(h)[0] && input[1] == Encoded(h)[1];
    if h.mask.Some? {
      var w := LengthWidth(h.payloadLen);
      assert input[2 + w..2 + w + 4] == h.mask.value;
    }
  }

  /** The rule an ill-formed header breaks: section 5.5, section 5.2, or the limit. */
  function HeaderFault(h: Header): FrameError {
    if h.opcode.IsControl() && !(h.fin && h.payloadLen <= 125) then InvalidControlFrame
    else if h.payloadLen >= 0x8000_0000_0000_0000 then InvalidLength
    else TooLarge
  }

  lemma FixedOctets(h: Header)
    ensures var first, second := Encoded(h)[0], Encoded(h)[1];
            first / 0x10 % 8 == 0 && first % 0x10 == h.opcode.ToBits() && (first >= 0x80 <==> h.fin) &&
            second % 0x80 == if h.payloadLen < 126 then h.payloadLen else if h.payloadLen <= 0xFFFF then 126 else 127
  {
    hide ToBE;
  }

  lemma HugeIsRefused(h: Header, more: seq<byte>)
    requires h.payloadLen >= 0x8000_0000_0000_0000
    ensures DecodeLength(Encoded(h) + more, Encoded(h)[1] % 0x80) == NotShortest
  {
    assert (Encoded(h) + more)[2..10] == ToBE(h.payloadLen, 8);
    Pow256Values();
    FromToBE(h.payloadLen, 8);
    FixedOctets(h);
    hide Encoded;
  }

  /** A header that breaks a rule is refused by that rule, not misread, in front of any octets. */
  lemma IllFormedFails(h: Header, maxPayload: nat, more: seq<byte>)
    requires !WellFormed(h, maxPayload)
    ensures Decode(Encoded(h) + more, maxPayload) == Failed(HeaderFault(h))
  {
    hide Encoded, DecodeLength;
    var input := Encoded(h) + more;
    FixedOctets(h);
    FromToBits(h.opcode);
    assert input[0] == Encoded(h)[0] && input[1] == Encoded(h)[1];
    if h.payloadLen < 0x8000_0000_0000_0000 {
      LengthRoundTrip(h, more);
    } else {
      HugeIsRefused(h, more);
    }
  }

  /** Octets that start no header at all: reserved bits, or an opcode nobody has. */
  lemma ReservedFails(input: seq<byte>, maxPayload: nat)
    requires |input| >= 2
    ensures Decode(input, maxPayload) == Failed(ReservedBitSet) <==> input[0] / 0x10 % 8 != 0
    ensures (exists bits :: Decode(input, maxPayload) == Failed(ReservedOpCode(bits)))
       <==> input[0] / 0x10 % 8 == 0 && forall op: OpCode :: op.ToBits() != input[0] % 0x10
    ensures forall bits :: Decode(input, maxPayload) == Failed(ReservedOpCode(bits)) ==> bits == input[0] % 0x10
  {
    var bits: byte := input[0] % 0x10;
    hide DecodeLength;
    if FromBits(bits).Some? {
      ToFromBits(bits);
    } else {
      forall op: OpCode ensures op.ToBits() != bits {
        FromToBits(op);
      }
    }
  }

  /** The extended length field, of two or eight octets, holds `n`. */
  predicate HoldsLength(input: seq<byte>, n: nat, width: nat) {
    |input| >= 2 + width && n < Pow256(width) && input[2..2 + width] == ToBE(n, width) &&
    ((width == 2 && input[1] % 0x80 == 126) || (width == 8 && input[1] % 0x80 == 127))
  }

  /** A length is refused as such exactly when it is not in its one shortest form, or past 2^63. */
  lemma LongFormFails(input: seq<byte>, maxPayload: nat, n: nat, width: nat)
    requires HoldsLength(input, n, width)
    ensures Decode(input, maxPayload) == Failed(InvalidLength)
       <==> input[0] / 0x10 % 8 == 0 && FromBits(input[0] % 0x10).Some? &&
            !FromBits(input[0] % 0x10).value.IsControl() &&
            (n >= 0x8000_0000_0000_0000 || (width == 2 && n < 126) || (width == 8 && n <= 0xFFFF))
  {
    Pow256Values();
    FromToBE(n, width);
  }

  /** An opcode that names a frame, under clear reserved bits. */
  predicate Named(input: seq<byte>)
    requires |input| >= 2
  {
    input[0] / 0x10 % 8 == 0 && FromBits(input[0] % 0x10).Some?
  }

  /** A control frame is refused exactly when its final bit is clear or its length field above 125. */
  lemma ControlFails(input: seq<byte>, maxPayload: nat)
    requires |input| >= 2
    ensures Decode(input, maxPayload) == Failed(InvalidControlFrame)
       <==> Named(input) && input[0] % 0x10 >= 8 && (input[0] < 0x80 || input[1] % 0x80 > 125)
  {
    hide DecodeLength;
  }

  /** A length past the limit is refused as such from the length field alone, whether or not the mask
      or any payload has arrived: an extended one ... */
  lemma TooLargeFails(input: seq<byte>, maxPayload: nat, n: nat, width: nat)
    requires HoldsLength(input, n, width)
    ensures Decode(input, maxPayload) == Failed(TooLarge)
       <==> Named(input) && input[0] % 0x10 < 8 &&
            n < 0x8000_0000_0000_0000 && (if width == 2 then n >= 126 else n > 0xFFFF) && n > maxPayload
  {
    Pow256Values();
    FromToBE(n, width);
  }

  /** ... and one in seven bits. */
  lemma TooLargeAtOnce(input: seq<byte>, maxPayload: nat)
    requires |input| >= 2 && input[1] % 0x80 < 126
    ensures Decode(input, maxPayload) == Failed(TooLarge)
       <==> Named(input) && (input[0] % 0x10 >= 8 ==> input[0] >= 0x80) && input[1] % 0x80 > maxPayload
  {
  }

  /** A header read, octet by octet. */
  lemma HeaderOctets(input: seq<byte>, maxPayload: nat)
    requires Decode(input, maxPayload).Complete?
    ensures var Complete(h, used) := Decode(input, maxPayload);
            var short := input[1] % 0x80;
            2 <= used <= |input| && h.opcode.ToBits() == input[0] % 0x10 && (h.fin <==> input[0] >= 0x80) &&
            (h.mask.Some? <==> input[1] >= 0x80) &&
            (h.mask.Some? ==> used >= 6 && h.mask.value == input[used - 4..used]) &&
            used == (if short == 126 then 4 else if short == 127 then 10 else 2) + (if h.mask.Some? then 4 else 0) &&
            h.payloadLen ==
            if short == 126 then Number2(input[2], input[3])
            else if short == 127 then
              0x1_0000_0000 * Number4(input[2], input[3], input[4], input[5]) +
              Number4(input[6], input[7], input[8], input[9])
            else short
  {
    ToFromBits(input[0] % 0x10);
    if input[1] % 0x80 == 126 {
      TwoOctets(input[2..4]);
    } else if input[1] % 0x80 == 127 {
      EightOctets(input[2..10]);
    }
  }

  lemma TwoOctets(s: seq<byte>)
    requires |s| == 2
    ensures FromBE(s) == Number2(s[0], s[1])
  {
    assert s[..1][..0] == [];
    assert FromBE(s[..1]) == s[0];
  }

  lemma EightOctets(s: seq<byte>)
    requires |s| == 8
    ensures FromBE(s)
         == 0x1_0000_0000 * Number4(s[0], s[1], s[2], s[3]) + Number4(s[4], s[5], s[6], s[7])
  {
    hide *;
    BEAppend(s[..4], s[4..]);
    assert s[..4] + s[4..] == s;
    FourOctets(s[..4]);
    FourOctets(s[4..]);
    Pow256Of4();
  }

  lemma FourOctets(s: seq<byte>)
    requires |s| == 4
    ensures FromBE(s) == Number4(s[0], s[1], s[2], s[3])
  {
    hide FromBE;
    FromBE4(s);
  }

  lemma Pow256Of4()
    ensures Pow256(4) == 0x1_0000_0000
  {
    Pow256Values();
    assert Pow256(4) == 256 * Pow256(3) == 256 * (256 * Pow256(2));
  }

  lemma DecodedLength(input: seq<byte>, short: nat)
    requires |input| >= 2 && short < 0x80 && DecodeLength(input, short).Length?
    ensures var l := DecodeLength(input, short);
            l.value < 0x8000_0000_0000_0000 && l.width == LengthWidth(l.value) &&
            2 + l.width <= |input| && ToBE(l.value, l.width) == input[2..2 + l.width] &&
            short == (if l.value < 126 then l.value else if l.value <= 0xFFFF then 126 else 127)
  {
    var w := DecodeLength(input, short).width;
    ToFromBE(input[2..2 + w]);
    Pow256Values();
  }

  /** A successful decode names a well-formed header whose encoding is what was read. */
  lemma DecodedIsEncoding(input: seq<byte>, maxPayload: nat)
    requires Decode(input, maxPayload).Complete?
    ensures var d := Decode(input, maxPayload);
            WellFormed(d.header, maxPayload) && d.used == EncodedLen(d.header) <= |input| &&
            input[..d.used] == Encoded(d.header)
  {
    hide DecodeLength, ToBE;
    var d := Decode(input, maxPayload);
    var w := LengthWidth(d.header.payloadLen);
    DecodedLength(input, input[1] % 0x80);
    ToFromBits(input[0] % 0x10);
    assert input[..2] == Encoded(d.header)[..2];
    assert input[..d.used] == input[..2] + input[2..2 + w] + input[2 + w..d.used];
  }

  /** The codec is a bijection between well-formed headers and the octet strings it reads. */
  lemma HeaderBijection(input: seq<byte>, maxPayload: nat, h: Header, n: nat)
    ensures Decode(input, maxPayload) == Complete(h, n)
       <==> WellFormed(h, maxPayload) && n == EncodedLen(h) && Encoded(h) <= input
  {
    hide Decode, WellFormed, Encoded;
    if Decode(input, maxPayload) == Complete(h, n) {
      DecodedIsEncoding(input, maxPayload);
    }
    if WellFormed(h, maxPayload) && n == EncodedLen(h) && Encoded(h) <= input {
      EncodedDecodes(h, maxPayload, input[n..]);
      assert input == Encoded(h) + input[n..];
    }
  }

  /** Once decided, a prefix decides every extension; fourteen octets always decide. */
  lemma DecodeIsPrefixDecided(input: seq<byte>, more: seq<byte>, maxPayload: nat)
    ensures !Decode(input, maxPayload).Incomplete? ==>
              Decode(input + more, maxPayload) == Decode(input, maxPayload)
    ensures |input| >= MAX_ENCODED_LEN ==> !Decode(input, maxPayload).Incomplete?
  {
    var whole := input + more;
    forall i, j | 0 <= i <= j <= |input| ensures whole[i..j] == input[i..j] {}
  }
}
