/** UTF-8, RFC 3629: which octet strings are well formed, and what text they spell. */
module Utf8 {
  import opened Bytes

  predicate In(b: byte, lo: nat, hi: nat) {
    lo <= b <= hi
  }

  predicate IsTail(b: byte) {
    In(b, 0x80, 0xBF)
  }

  predicate IsPair(b: seq<byte>) {
    |b| >= 2 && In(b[0], 0xC2, 0xDF) && IsTail(b[1])
  }

  predicate IsTriple(b: seq<byte>) {
    |b| >= 3 && IsTail(b[2]) &&
    ((In(b[0], 0xE0, 0xE0) && In(b[1], 0xA0, 0xBF)) ||
     (In(b[0], 0xE1, 0xEC) && IsTail(b[1])) ||
     (In(b[0], 0xED, 0xED) && In(b[1], 0x80, 0x9F)) ||
     (In(b[0], 0xEE, 0xEF) && IsTail(b[1])))
  }

  predicate IsQuad(b: seq<byte>) {
    |b| >= 4 && IsTail(b[2]) && IsTail(b[3]) &&
    ((In(b[0], 0xF0, 0xF0) && In(b[1], 0x90, 0xBF)) ||
     (In(b[0], 0xF1, 0xF3) && IsTail(b[1])) ||
     (In(b[0], 0xF4, 0xF4) && In(b[1], 0x80, 0x8F)))
  }

  /** How many octets the UTF8-char at the front of `b` takes by the grammar of
      section 4 of RFC 3629; zero when there is none. */
  function FirstLength(b: seq<byte>): (n: nat)
    ensures n <= |b| && n <= 4
  {
    if |b| >= 1 && In(b[0], 0, 0x7F) then 1
    else if IsPair(b) then 2
    else if IsTriple(b) then 3
    else if IsQuad(b) then 4
    else 0
  }

  /** `is_utf8`: the octets are a run of UTF8-chars and nothing else. */
  predicate IsUtf8(b: seq<byte>)
    decreases |b|
  {
    b == [] || (FirstLength(b) > 0 && IsUtf8(b[FirstLength(b)..]))
  }

  predicate IsScalar(v: int) {
    0 <= v < 0xD800 || 0xE000 <= v < 0x11_0000
  }

  /** The octets of one scalar value, section 3 of RFC 3629. */
  function EncodeScalar(v: int): (b: seq<byte>)
    requires IsScalar(v)
    ensures 1 <= |b| <= 4
  {
    var q := v / 64;
    var r := q / 64;
    if v < 0x80 then [v]
    else if v < 0x800 then [0xC0 + q, 0x80 + v % 64]
    else if v < 0x1_0000 then [0xE0 + r, 0x80 + q % 64, 0x80 + v % 64]
    else [0xF0 + r / 64, 0x80 + r % 64, 0x80 + q % 64, 0x80 + v % 64]
  }

  /** `hi` followed by the six payload bits of a tail octet. */
  function Shift6(hi: int, tail: int): int {
    hi * 64 + (tail - 0x80)
  }

  /** The scalar value spelled by one UTF8-char. */
  function DecodeScalar(b: seq<byte>): (v: int)
    requires FirstLength(b) == |b| > 0
    ensures IsScalar(v)
    ensures |b| == (if v < 0x80 then 1 else if v < 0x800 then 2 else if v < 0x1_0000 then 3 else 4)
  {
    var b0: int := b[0];
    if |b| == 1 then b0
    else if |b| == 2 then Shift6(b0 - 0xC0, b[1])
    else if |b| == 3 then Shift6(Shift6(b0 - 0xE0, b[1]), b[2])
    else Shift6(Shift6(Shift6(b0 - 0xF0, b[1]), b[2]), b[3])
  }

  lemma Shift6Digits(hi: int, tail: int)
    requires 0x80 <= tail <= 0xBF
    ensures Shift6(hi, tail) / 64 == hi && 0x80 + Shift6(hi, tail) % 64 == tail
  {
  }

  lemma TailsInRange(b: seq<byte>)
    requires FirstLength(b) == |b|
    ensures forall i :: 0 < i < |b| ==> IsTail(b[i])
  {
  }

  lemma DecodeThenEncode(b: seq<byte>)
    requires FirstLength(b) == |b| > 0
    ensures EncodeScalar(DecodeScalar(b)) == b
  {
    TailsInRange(b);
    hide FirstLength;
    if |b| == 2 {
      Shift6Digits(b[0] - 0xC0, b[1]);
    } else if |b| == 3 {
      var hi := Shift6(b[0] - 0xE0, b[1]);
      Shift6Digits(b[0] - 0xE0, b[1]);
      Shift6Digits(hi, b[2]);
    } else if |b| == 4 {
      var hi := Shift6(b[0] - 0xF0, b[1]);
      var mid := Shift6(hi, b[2]);
      Shift6Digits(b[0] - 0xF0, b[1]);
      Shift6Digits(hi, b[2]);
      Shift6Digits(mid, b[3]);
    }
  }

  lemma EncodeThenDecode(v: int)
    requires IsScalar(v)
    ensures FirstLength(EncodeScalar(v)) == |EncodeScalar(v)|
    ensures DecodeScalar(EncodeScalar(v)) == v
  {
    var b := EncodeScalar(v);
    assert Shift6(v / 64, 0x80 + v % 64) == v;
    assert Shift6(v / 64 / 64, 0x80 + v / 64 % 64) == v / 64;
    assert Shift6(v / 64 / 64 / 64, 0x80 + v / 64 / 64 % 64) == v / 64 / 64;
    if v < 0x80 {
    } else if v < 0x800 {
      assert IsPair(b);
    } else if v < 0x1_0000 {
      assert IsTriple(b);
    } else {
      assert IsQuad(b);
    }
  }

  lemma FirstLengthOfPrefix(b: seq<byte>, rest: seq<byte>)
    requires FirstLength(b) == |b| > 0
    ensures FirstLength(b + rest) == |b|
  {
  }

  function Encode(text: string): seq<byte> {
    if text == "" then [] else EncodeScalar(text[0] as int) + Encode(text[1..])
  }

  function Decode(b: seq<byte>): string
    requires IsUtf8(b)
    decreases |b|
  {
    if b == [] then "" else
    var n := FirstLength(b);
    FirstLengthOfTake(b);
    [DecodeScalar(b[..n]) as char] + Decode(b[n..])
  }

  lemma FirstLengthOfTake(b: seq<byte>)
    requires FirstLength(b) > 0
    ensures FirstLength(b[..FirstLength(b)]) == FirstLength(b)
  {
  }

  lemma DecodeCons(head: seq<byte>, rest: seq<byte>)
    requires FirstLength(head) == |head| > 0 && IsUtf8(rest)
    ensures IsUtf8(head + rest)
    ensures Decode(head + rest) == [DecodeScalar(head) as char] + Decode(rest)
  {
    FirstLengthOfPrefix(head, rest);
    assert (head + rest)[..|head|] == head && (head + rest)[|head|..] == rest;
  }

  lemma EncodeCons(v: int, text: string)
    requires IsScalar(v)
    ensures Encode([v as char] + text) == EncodeScalar(v) + Encode(text)
  {
    var c := v as char;
    assert c as int == v;
    assert ([c] + text)[1..] == text;
  }

  lemma {:induction false} DecodeEncode(text: string)
    ensures IsUtf8(Encode(text)) && Decode(Encode(text)) == text
  {
    if text == "" {
    } else {
      EncodeThenDecode(text[0] as int);
      DecodeEncode(text[1..]);
      DecodeCons(EncodeScalar(text[0] as int), Encode(text[1..]));
    }
  }

  lemma {:induction false} EncodeDecode(b: seq<byte>)
    requires IsUtf8(b)
    ensures Encode(Decode(b)) == b
    decreases |b|
  {
    if b == [] {
    } else {
      FirstLengthOfTake(b);
      var head, rest := b[..FirstLength(b)], b[FirstLength(b)..];
      assert b == head + rest;
      EncodeDecode(rest);
      DecodeCons(head, rest);
      EncodeCons(DecodeScalar(head), Decode(rest));
      DecodeThenEncode(head);
    }
  }

  /** The grammar accepts exactly the octets that spell some text. */
  lemma GrammarIsEncodings(b: seq<byte>)
    ensures IsUtf8(b) <==> exists text :: Encode(text) == b
  {
    if IsUtf8(b) {
      EncodeDecode(b);
    }
    forall text | Encode(text) == b ensures IsUtf8(b) {
      DecodeEncode(text);
    }
  }

  lemma {:induction false} EncodeAppend(s: string, t: string)
    ensures Encode(s + t) == Encode(s) + Encode(t)
  {
    hide EncodeScalar;
    if s == "" {
      assert s + t == t;
    } else {
      EncodeAppend(s[1..], t);
      assert (s + t)[1..] == s[1..] + t;
    }
  }

  /** Every character takes four octets or fewer. */
  lemma {:induction false} EncodeIsShort(text: string)
    ensures |Encode(text)| <= 4 * |text|
  {
    if text == "" {
    } else {
      EncodeIsShort(text[1..]);
    }
  }

  predicate IsAscii(text: string) {
    forall i :: 0 <= i < |text| ==> text[i] as int < 0x80
  }

  /** ASCII text is one octet a character. */
  lemma {:induction false} EncodeAscii(text: string)
    requires IsAscii(text)
    ensures |Encode(text)| == |text|
    ensures forall i :: 0 <= i < |text| ==> Encode(text)[i] == text[i] as int
  {
    if text == "" {
    } else {
      EncodeAscii(text[1..]);
    }
  }

  /** Octets below 0x80 spell ASCII. */
  lemma {:induction false} AsciiOctets(text: string)
    requires forall i :: 0 <= i < |Encode(text)| ==> Encode(text)[i] < 0x80
    ensures IsAscii(text)
  {
    if text == "" {
    } else {
      var first, rest := EncodeScalar(text[0] as int), Encode(text[1..]);
      assert Encode(text) == first + rest;
      assert first[0] == Encode(text)[0];
      forall i | 0 <= i < |rest| ensures rest[i] < 0x80 {
        assert rest[i] == Encode(text)[|first| + i];
      }
      AsciiOctets(text[1..]);
      assert text == [text[0]] + text[1..];
    }
  }

  /** A control character below 0x80 appears in the octets only if it appears in the text. */
  lemma {:induction false} EncodeAvoids(text: string, c: char)
    requires c as int < 0x80 && c !in text
    ensures forall i :: 0 <= i < |Encode(text)| ==> Encode(text)[i] != c as int
  {
    if text == "" {
    } else {
      assert text[0] in text;
      EncodeAvoids(text[1..], c);
    }
  }
}
