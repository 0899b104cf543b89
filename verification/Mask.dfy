/** The octet-by-octet definition in section 5.3 of RFC 6455, the word-at-a-time loop on an array that
    computes it for either byte order, and the arithmetic of words that makes the two agree. */
module Mask {
  import opened Bytes
  import opened Bits

  type Key = s: seq<byte> | |s| == 4 witness [0, 0, 0, 0]

  /** The byte order of the machine the code runs on. */
  datatype Endian = Little | Big

  function Reverse<T>(s: seq<T>): (r: seq<T>)
    ensures |r| == |s|
    ensures forall i :: 0 <= i < |s| ==> r[i] == s[|s| - 1 - i]
  {
    seq(|s|, i requires 0 <= i < |s| => s[|s| - 1 - i])
  }

  /** `from_ne_bytes`. */
  function FromNE(e: Endian, s: seq<byte>): nat {
    FromBE(if e == Big then s else Reverse(s))
  }

  /** `to_ne_bytes`. */
  function ToNE(e: Endian, n: nat, k: nat): (s: seq<byte>)
    ensures |s| == k
  {
    if e == Big then ToBE(n, k) else Reverse(ToBE(n, k))
  }

  lemma ToFromNE(e: Endian, s: seq<byte>)
    ensures ToNE(e, FromNE(e, s), |s|) == s
  {
    ToFromBE(s);
    ToFromBE(Reverse(s));
  }

  /** The definition: octet `i` is combined with key octet `(offset + i) mod 4`. */
  function Masked(payload: seq<byte>, key: Key, offset: nat): (r: seq<byte>)
    ensures |r| == |payload|
    ensures forall i :: 0 <= i < |r| ==> r[i] == XorByte(payload[i], key[(offset + i) % 4])
  {
    seq(|payload|, i requires 0 <= i < |payload| => XorByte(payload[i], key[(offset + i) % 4]))
  }

  function XorBytes(a: seq<byte>, b: seq<byte>): (r: seq<byte>)
    requires |a| == |b|
    ensures |r| == |a|
    ensures forall i :: 0 <= i < |r| ==> r[i] == XorByte(a[i], b[i])
  {
    seq(|a|, i requires 0 <= i < |a| => XorByte(a[i], b[i]))
  }

  /** Combining words is combining their octets. */
  lemma {:induction false} XorBE(a: seq<byte>, b: seq<byte>)
    requires |a| == |b|
    ensures Xor(FromBE(a), FromBE(b)) == FromBE(XorBytes(a, b))
  {
    if a == [] {
    } else {
      var n := |a| - 1;
      XorBE(a[..n], b[..n]);
      assert XorBytes(a, b)[..n] == XorBytes(a[..n], b[..n]);
      assert Pow2(8) == 256 by { Pow2Values(); }
      XorSplit(FromBE(a[..n]), a[n], FromBE(b[..n]), b[n], 8);
    }
  }

  lemma XorNE(e: Endian, a: seq<byte>, b: seq<byte>)
    requires |a| == |b|
    ensures ToNE(e, Xor(FromNE(e, a), FromNE(e, b)), |a|) == XorBytes(a, b)
  {
    if e == Big {
      XorBE(a, b);
    } else {
      XorBE(Reverse(a), Reverse(b));
      assert XorBytes(Reverse(a), Reverse(b)) == Reverse(XorBytes(a, b));
    }
    ToFromNE(e, XorBytes(a, b));
  }

  lemma Pow2Values()
    ensures Pow2(0) == 1 && Pow2(8) == 0x100 && Pow2(16) == 0x1_0000
    ensures Pow2(24) == 0x100_0000 && Pow2(32) == TWO_32
  {
    Pow2Plus8(0);
    Pow2Plus8(8);
    Pow2Plus8(16);
    Pow2Plus8(24);
  }

  lemma Pow2Plus8(k: nat)
    ensures Pow2(k + 8) == 256 * Pow2(k)
  {
    assert Pow2(k + 2) == 2 * Pow2(k + 1) == 4 * Pow2(k);
    assert Pow2(k + 4) == 2 * Pow2(k + 3) == 4 * Pow2(k + 2);
    assert Pow2(k + 6) == 2 * Pow2(k + 5) == 4 * Pow2(k + 4);
    assert Pow2(k + 8) == 2 * Pow2(k + 7) == 4 * Pow2(k + 6);
  }

  /** Turn the top part of a 32-bit word, above weight `q`, round to the bottom, weight `p`. */
  function Turn(v: nat, p: nat, q: nat): nat
    requires q > 0
  {
    (v % q) * p + v / q
  }

  /** `rotate_left`: the top `shift` bits come round to the bottom. */
  function RotateLeft(v: u32, shift: nat): nat
    requires shift <= 32
  {
    Turn(v, Pow2(shift), Pow2(32 - shift))
  }

  /** `rotate_right`: the bottom `shift` bits come round to the top. */
  function RotateRight(v: u32, shift: nat): nat
    requires shift <= 32
  {
    Turn(v, Pow2(32 - shift), Pow2(shift))
  }

  lemma FromBE4(s: seq<byte>)
    requires |s| == 4
    ensures FromBE(s) == 0x100_0000 * s[0] + 0x1_0000 * s[1] + 0x100 * s[2] + s[3] < TWO_32
  {
    assert FromBE(s[..3]) == FromBE(s[..2]) * 256 + s[2] by { assert s[..3][..2] == s[..2]; }
    assert FromBE(s[..2]) == FromBE(s[..1]) * 256 + s[1] by { assert s[..2][..1] == s[..1]; }
    assert FromBE(s[..1]) == s[0] by { assert s[..1][..0] == []; }
  }

  lemma {:induction false} BEAppend(x: seq<byte>, y: seq<byte>)
    ensures FromBE(x + y) == FromBE(x) * Pow256(|y|) + FromBE(y)
  {
    if y == [] {
      assert x + y == x;
    } else {
      var n := |y| - 1;
      BEAppend(x, y[..n]);
      assert (x + y)[..|x| + n] == x + y[..n];
      assert FromBE(x) * (256 * Pow256(n)) == FromBE(x) * Pow256(n) * 256;
    }
  }

  /** Turning a word built from `x + y` at the seam gives the word of `y + x`. */
  lemma TurnSwaps(x: seq<byte>, y: seq<byte>)
    requires |y| <= 4
    ensures Pow256(|y|) > 0
    ensures Turn(FromBE(x + y), Pow256(|x|), Pow256(|y|)) == FromBE(y + x)
  {
    hide FromBE, Pow256;
    BEAppend(x, y);
    BEAppend(y, x);
    ToFromBE(y);
    DivModOf(FromBE(x), FromBE(y), |y|);
  }

  lemma DivModOf(a: nat, b: nat, k: nat)
    requires k <= 4 && b < Pow256(k)
    ensures var q := Pow256(k);
            q > 0 && (a * q + b) / q == a && (a * q + b) % q == b
  {
    assert Pow256(4) == 256 * Pow256(3) && Pow256(3) == 256 * Pow256(2) && Pow256(2) == 256 * Pow256(1);
    var q := Pow256(k);
    if k == 0 {
      assert q == 1;
    } else if k == 1 {
      assert q == 0x100;
    } else if k == 2 {
      assert q == 0x1_0000;
    } else if k == 3 {
      assert q == 0x100_0000;
    } else {
      assert q == TWO_32;
    }
  }

  lemma ByteShift(r: nat)
    requires r <= 4
    ensures Pow2(r * 8) == Pow256(r)
  {
    Pow2Values();
    assert Pow256(3) == 256 * Pow256(2) && Pow256(2) == 256 * Pow256(1) && Pow256(4) == 256 * Pow256(3);
  }

  /** The word of the key, for either byte order and its rotation direction. */
  function RotatedWord(e: Endian, key: Key, offset: nat): nat {
    FromBE4(key);
    FromBE4(Reverse(key));
    var shift := offset % 4 * 8;
    var native := FromNE(e, key);
    if e == Little then RotateRight(native, shift) else RotateLeft(native, shift)
  }

  /** The octets of the turned key, in the order the payload meets them. */
  function RotatedKey(key: Key, offset: nat): Key {
    key[offset % 4..] + key[..offset % 4]
  }

  lemma LeftTurns(s: seq<byte>, r: nat)
    requires |s| == 4 && r < 4
    ensures FromBE(s) < TWO_32 && RotateLeft(FromBE(s), r * 8) == FromBE(s[r..] + s[..r])
  {
    FromBE4(s);
    ByteShift(r);
    ByteShift(4 - r);
    TurnSwaps(s[..r], s[r..]);
    assert s == s[..r] + s[r..];
  }

  lemma RightTurns(s: seq<byte>, r: nat)
    requires |s| == 4 && r < 4
    ensures FromBE(s) < TWO_32 && RotateRight(FromBE(s), r * 8) == FromBE(s[4 - r..] + s[..4 - r])
  {
    FromBE4(s);
    ByteShift(r);
    ByteShift(4 - r);
    TurnSwaps(s[..4 - r], s[4 - r..]);
    assert s == s[..4 - r] + s[4 - r..];
  }

  /** Rotating the word turns the key so that its first octet is the one `offset` calls for. */
  lemma RotationAligns(e: Endian, key: Key, offset: nat)
    ensures RotatedWord(e, key, offset) == FromNE(e, RotatedKey(key, offset))
  {
    hide FromBE, RotateLeft, RotateRight;
    var r := offset % 4;
    if e == Big {
      LeftTurns(key, r);
    } else {
      RightTurns(Reverse(key), r);
      ReverseTurned(key, r);
    }
  }

  lemma ReverseTurned(s: seq<byte>, r: nat)
    requires r <= |s|
    ensures Reverse(s[r..] + s[..r]) == Reverse(s)[|s| - r..] + Reverse(s)[..|s| - r]
  {
  }

  /** The four-octet key word in both halves of an eight-octet word. */
  function Widened(word: nat): nat {
    word + word * TWO_32
  }

  lemma RotatedKeyAt(key: Key, offset: nat, i: nat)
    ensures RotatedKey(key, offset)[i % 4] == key[(offset + i) % 4]
  {
    SumModFour(offset, i);
  }

  lemma SumModFour(a: nat, b: nat)
    ensures (a + b) % 4 == (if a % 4 + b % 4 < 4 then a % 4 + b % 4 else a % 4 + b % 4 - 4)
  {
  }

  lemma TwoPeriodsMask(chunk: seq<byte>, key: Key, offset: nat)
    requires |chunk| == 8
    ensures var k: seq<byte> := RotatedKey(key, offset);
            XorBytes(chunk, k + k) == Masked(chunk, key, offset)
  {
    hide RotatedKey, XorByte;
    var k: seq<byte> := RotatedKey(key, offset);
    forall i | 0 <= i < 8 ensures (k + k)[i] == key[(offset + i) % 4] {
      RotatedKeyAt(key, offset, i);
    }
  }

  lemma WidenedIsTwice(e: Endian, k: seq<byte>)
    requires |k| == 4
    ensures FromNE(e, k + k) == Widened(FromNE(e, k))
  {
    BEAppend(k, k);
    BEAppend(Reverse(k), Reverse(k));
    assert Reverse(k + k) == Reverse(k) + Reverse(k);
    assert Pow256(4) == TWO_32 by { ByteShift(4); Pow2Values(); }
  }

  /** One word of payload against the widened key is the definition on eight octets. */
  lemma WordMasks(e: Endian, chunk: seq<byte>, key: Key, offset: nat, word: nat)
    requires |chunk| == 8 && word == Widened(FromNE(e, RotatedKey(key, offset)))
    ensures ToNE(e, Xor(FromNE(e, chunk), word), 8) == Masked(chunk, key, offset)
  {
    var k: seq<byte> := RotatedKey(key, offset);
    WidenedIsTwice(e, k);
    XorNE(e, chunk, k + k);
    TwoPeriodsMask(chunk, key, offset);
  }

  /** The rotation that lines the key up with `offset`, as a word. */
  method RotateKey(key: Key, offset: u64, e: Endian) returns (word: nat)
    ensures word == FromNE(e, RotatedKey(key, offset))
  {
    RotationAligns(e, key, offset);
    word := RotatedWord(e, key, offset);
  }

  /** `now` is `was` with exactly the octets of `[from, upto)` masked, the keystream
      starting at `from`. */
  ghost predicate MasksRange(was: seq<byte>, now: seq<byte>, from: nat, upto: nat, key: Key, offset: nat) {
    from <= upto <= |was| == |now| &&
    (forall j :: 0 <= j < from || upto <= j < |was| ==> now[j] == was[j]) &&
    (forall j :: from <= j < upto ==> now[j] == XorByte(was[j], key[(offset + (j - from)) % 4]))
  }

  lemma MasksNothing(was: seq<byte>, from: nat, key: Key, offset: nat)
    requires from <= |was|
    ensures MasksRange(was, was, from, from, key, offset)
  {
  }

  lemma EightsFit(n: nat)
    ensures 8 * (n / 8) <= n
  {
  }

  lemma EightsAreFours(w: nat)
    ensures 8 * w % 4 == 0
  {
  }

  lemma MasksRangeJoin(was: seq<byte>, mid: seq<byte>, now: seq<byte>,
                       from: nat, at: nat, upto: nat, key: Key, offset: nat)
    requires MasksRange(was, mid, from, at, key, offset)
    requires MasksRange(mid, now, at, upto, key, offset)
    requires (at - from) % 4 == 0
    ensures MasksRange(was, now, from, upto, key, offset)
  {
    forall j | from <= j < upto
      ensures now[j] == XorByte(was[j], key[(offset + (j - from)) % 4])
    {
      if j >= at {
        SamePhase(offset + (j - at), (at - from) / 4);
        assert mid[j] == was[j];
      } else {
        assert now[j] == mid[j];
      }
    }
  }

  lemma SamePhase(n: nat, periods: nat)
    ensures (n + 4 * periods) % 4 == n % 4
  {
  }

  lemma MasksRangeToEnd(was: seq<byte>, now: seq<byte>, from: nat, key: Key, offset: nat)
    requires MasksRange(was, now, from, |was|, key, offset)
    ensures now[..from] == was[..from] && now[from..] == Masked(was[from..], key, offset)
  {
  }

  lemma MaskedIsRange(was: seq<byte>, now: seq<byte>, from: nat, upto: nat, key: Key, offset: nat)
    requires from <= upto <= |was| == |now|
    requires now[..from] == was[..from] && now[upto..] == was[upto..]
    requires now[from..upto] == Masked(was[from..upto], key, offset)
    ensures MasksRange(was, now, from, upto, key, offset)
  {
    forall j | 0 <= j < |was|
      ensures j < from ==> now[j] == was[j]
      ensures j >= upto ==> now[j] == was[j]
      ensures from <= j < upto ==> now[j] == XorByte(was[j], key[(offset + (j - from)) % 4])
    {
      if j < from {
        assert now[j] == now[..from][j] && was[j] == was[..from][j];
      } else if j < upto {
        assert now[j] == now[from..upto][j - from] && was[j] == was[from..upto][j - from];
      } else {
        assert now[j] == now[upto..][j - upto] && was[j] == was[upto..][j - upto];
      }
    }
  }

  /** One word of the word loop. */
  method MaskWord(payload: array<byte>, at: nat, rotatedWord: nat,
                  ghost key: Key, ghost offset: u64, e: Endian)
    requires rotatedWord == FromNE(e, RotatedKey(key, offset))
    requires at + 8 <= payload.Length
    modifies payload
    ensures MasksRange(old(payload[..]), payload[..], at, at + 8, key, offset)
  {
    var value := FromNE(e, payload[at..at + 8]);
    var word := Widened(rotatedWord);
    ghost var chunk := payload[at..at + 8];
    WordMasks(e, chunk, key, offset, word);
    CopyInto(payload, at, ToNE(e, Xor(value, word), 8));
    MaskedIsRange(old(payload[..]), payload[..], at, at + 8, key, offset);
  }

  /** The word loop over `words` groups of eight octets from `from` on. */
  method ApplyWords(payload: array<byte>, from: nat, words: nat, rotatedWord: nat,
                    ghost key: Key, ghost offset: u64, e: Endian)
    requires rotatedWord == FromNE(e, RotatedKey(key, offset))
    requires from + 8 * words <= payload.Length
    modifies payload
    ensures MasksRange(old(payload[..]), payload[..], from, from + 8 * words, key, offset)
  {
    hide MasksRange, FromNE, RotatedKey;
    MasksNothing(payload[..], from, key, offset);
    for w := 0 to words
      invariant MasksRange(old(payload[..]), payload[..], from, from + 8 * w, key, offset)
    {
      ghost var mid := payload[..];
      MaskWord(payload, from + 8 * w, rotatedWord, key, offset, e);
      EightsAreFours(w);
      MasksRangeJoin(old(payload[..]), mid, payload[..], from, from + 8 * w, from + 8 * w + 8, key, offset);
    }
  }

  /** The tail loop: octet by octet from `from` on. */
  method ApplyTail(payload: array<byte>, from: nat, rotated: Key, ghost key: Key, ghost offset: u64)
    requires from <= payload.Length && rotated == RotatedKey(key, offset)
    modifies payload
    ensures MasksRange(old(payload[..]), payload[..], from, payload.Length, key, offset)
  {
    for i := from to payload.Length
      invariant MasksRange(old(payload[..]), payload[..], from, i, key, offset)
    {
      RotatedKeyAt(key, offset, i - from);
      payload[i] := XorByte(payload[i], rotated[(i - from) % 4]);
    }
  }

  /** `mask::apply` on `payload[from..]`: words first, then the tail. */
  method Apply(payload: array<byte>, from: nat, key: Key, offset: u64, e: Endian) returns (next: u64)
    requires from <= payload.Length
    modifies payload
    ensures payload[..from] == old(payload[..from])
    ensures payload[from..] == Masked(old(payload[from..]), key, offset)
    ensures next == (offset + (payload.Length - from)) % TWO_64
  {
    hide FromNE, ToNE, RotatedKey, MasksRange, Masked;
    if payload.Length == from {
      return offset;
    }
    var length := payload.Length - from;
    var rotatedWord := RotateKey(key, offset, e);
    var rotated := ToNE(e, rotatedWord, 4);
    ToFromNE(e, RotatedKey(key, offset));
    var words := length / 8;
    EightsFit(length);
    EightsAreFours(words);
    var tail := from + 8 * words;
    ApplyWords(payload, from, words, rotatedWord, key, offset, e);
    ghost var mid := payload[..];
    ApplyTail(payload, tail, rotated, key, offset);
    MasksRangeJoin(old(payload[..]), mid, payload[..], from, tail, payload.Length, key, offset);
    MasksRangeToEnd(old(payload[..]), payload[..], from, key, offset);
    assert payload[from..] == payload[..][from..] && payload[..from] == payload[..][..from];
    return (offset + length) % TWO_64;
  }

  lemma MaskedTwice(payload: seq<byte>, key: Key, offset: nat)
    ensures Masked(Masked(payload, key, offset), key, offset) == payload
  {
    forall i | 0 <= i < |payload|
      ensures Masked(Masked(payload, key, offset), key, offset)[i] == payload[i]
    {
      XorTwice(payload[i], key[(offset + i) % 4]);
    }
  }

  /** Two pieces, the second from the offset `Apply` returned for the first, make one pass. */
  lemma MaskedInPieces(a: seq<byte>, b: seq<byte>, key: Key, offset: u64)
    ensures Masked(a + b, key, offset)
         == Masked(a, key, offset) + Masked(b, key, (offset + |a|) % TWO_64)
  {
  }
}
