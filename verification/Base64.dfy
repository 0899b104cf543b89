/** Base64 with padding, section 4 of RFC 4648, and the handshake key made with it. */
module Base64 {
  import opened Bytes

  const UPPER := "ABCDEFGHIJKLMNOPQRSTUVWXYZ"
  const LOWER := "abcdefghijklmnopqrstuvwxyz"
  const DIGITS := "0123456789"
  const ALPHABET: string := UPPER + LOWER + DIGITS + "+/"

  // ---- The standard's table and decoder ---------------------------------------------------

  /** The value of a character, Table 1 of RFC 4648. */
  function Value(c: char): Option<nat> {
    if 'A' <= c <= 'Z' then Some(c as int - 'A' as int)
    else if 'a' <= c <= 'z' then Some(c as int - 'a' as int + 26)
    else if '0' <= c <= '9' then Some(c as int - '0' as int + 52)
    else if c == '+' then Some(62)
    else if c == '/' then Some(63)
    else None
  }

  lemma UpperAt(i: nat)
    requires i < 26
    ensures UPPER[i] as int == 'A' as int + i
  {
  }

  lemma LowerAt(i: nat)
    requires i < 26
    ensures LOWER[i] as int == 'a' as int + i
  {
  }

  lemma DigitAt(i: nat)
    requires i < 10
    ensures DIGITS[i] as int == '0' as int + i
  {
  }

  /** Table 1 from values to characters. */
  function Code(i: nat): nat {
    if i < 26 then 'A' as int + i
    else if i < 52 then 'a' as int + (i - 26)
    else if i < 62 then '0' as int + (i - 52)
    else if i == 62 then '+' as int
    else '/' as int
  }

  lemma AlphabetLengths()
    ensures |UPPER| == |LOWER| == 26 && |DIGITS| == 10
  {
  }

  lemma JoinedAt(u: string, l: string, d: string, e: string, i: nat)
    requires |u| == |l| == 26 && |d| == 10 && |e| == 2 && i < 64
    ensures (u + l + d + e)[i] == if i < 26 then u[i] else if i < 52 then l[i - 26]
                                  else if i < 62 then d[i - 52] else e[i - 62]
  {
  }

  lemma AlphabetAt(i: nat)
    requires i < 64
    ensures ALPHABET[i] as int == Code(i)
  {
    hide UPPER, LOWER, DIGITS;
    AlphabetLengths();
    JoinedAt(UPPER, LOWER, DIGITS, "+/", i);
    if i < 26 {
      UpperAt(i);
    } else if i < 52 {
      LowerAt(i - 26);
    } else if i < 62 {
      DigitAt(i - 52);
    }
  }

  lemma AlphabetIsTable(i: nat)
    requires i < 64
    ensures Value(ALPHABET[i]) == Some(i) && ALPHABET[i] != '='
  {
    AlphabetAt(i);
    hide ALPHABET;
  }

  lemma TableIsAlphabet(c: char)
    requires Value(c).Some?
    ensures Value(c).value < 64 && ALPHABET[Value(c).value] == c
  {
    AlphabetAt(Value(c).value);
    hide ALPHABET;
  }

  /** One group of four characters; the last may be padded, and then the spare bits are zero. */
  function DecodeGroup(s: string): Option<seq<byte>>
    requires |s| == 4
  {
    var (v0, v1, v2, v3) := (Value(s[0]), Value(s[1]), Value(s[2]), Value(s[3]));
    if v0.None? || v1.None? then None
    else if s[2] == '=' && s[3] == '=' then
      if v1.value % 16 == 0 then Octets(v0.value, v1.value, 0, 0, 1) else None
    else if v2.None? then None
    else if s[3] == '=' then
      if v2.value % 4 == 0 then Octets(v0.value, v1.value, v2.value, 0, 2) else None
    else if v3.None? then None
    else Octets(v0.value, v1.value, v2.value, v3.value, 3)
  }

  function Sextets(d0: nat, d1: nat, d2: nat, d3: nat): nat {
    d0 * 262144 + d1 * 4096 + d2 * 64 + d3
  }

  /** The first `n` octets of twenty-four bits. */
  function Octets(d0: nat, d1: nat, d2: nat, d3: nat, n: nat): Option<seq<byte>>
    requires n <= 3
  {
    var bits := Sextets(d0, d1, d2, d3);
    if bits >= 0x100_0000 then None else Some([bits / 0x100 / 0x100, bits / 0x100 % 0x100, bits % 0x100][..n])
  }

  /** The decoder of section 4: whole groups, only the last of them padded. */
  function Decode(s: string): Option<seq<byte>> {
    if s == "" then Some([])
    else if |s| < 4 then None
    else
      var (group, rest) := (DecodeGroup(s[..4]), Decode(s[4..]));
      if group.None? || rest.None? || (s[4..] != "" && |group.value| < 3) then None
      else Some(group.value + rest.value)
  }

  // ---- The encoder --------------------------------------------------------------------------

  function Triple(b0: nat, b1: nat, b2: nat): nat {
    (b0 * 0x100 + b1) * 0x100 + b2
  }

  /** The six bits of a triple that character `i` carries. */
  function Digit(triple: nat, i: nat): (d: nat)
    ensures d < 64
  {
    (if i == 0 then triple / 262144 else if i == 1 then triple / 4096 else if i == 2 then triple / 64 else triple) % 64
  }

  /** The four characters for one, two or three octets. */
  function EncodeGroup(chunk: seq<byte>): (s: string)
    requires 1 <= |chunk| <= 3
    ensures |s| == 4
  {
    var b1: nat := if |chunk| > 1 then chunk[1] else 0;
    var b2: nat := if |chunk| > 2 then chunk[2] else 0;
    var triple := Triple(chunk[0], b1, b2);
    [ALPHABET[Digit(triple, 0)],
     ALPHABET[Digit(triple, 1)],
     if |chunk| > 1 then ALPHABET[Digit(triple, 2)] else '=',
     if |chunk| > 2 then ALPHABET[Digit(triple, 3)] else '=']
  }

  function Encode(input: seq<byte>): (s: string) {
    if input == [] then "" else
    var n := Min(3, |input|);
    EncodeGroup(input[..n]) + Encode(input[n..])
  }

  /** `base64_encode`: group by group. */
  method Base64Encode(input: seq<byte>) returns (out: string)
    ensures out == Encode(input)
  {
    hide EncodeGroup;
    out := "";
    var i := 0;
    while i < |input|
      invariant 0 <= i <= |input|
      invariant out + Encode(input[i..]) == Encode(input)
    {
      var n := Min(3, |input| - i);
      ghost var rest := input[i..];
      assert rest[..n] == input[i..i + n] && rest[n..] == input[i + n..];
      assert out + (EncodeGroup(rest[..n]) + Encode(rest[n..])) == out + EncodeGroup(rest[..n]) + Encode(rest[n..]);
      out := out + EncodeGroup(input[i..i + n]);
      i := i + n;
    }
  }

  lemma {:induction false} EncodedLength(input: seq<byte>)
    ensures |Encode(input)| == (|input| + 2) / 3 * 4
  {
    hide EncodeGroup;
    if input == [] {
    } else {
      EncodedLength(input[Min(3, |input|)..]);
    }
  }

  // ---- The two are inverse --------------------------------------------------------------

  lemma SextetsOf(t: nat)
    requires t < 0x100_0000
    ensures Sextets(Digit(t, 0), Digit(t, 1), Digit(t, 2), Digit(t, 3)) == t
  {
    assert t / 4096 == t / 64 / 64 && t / 262144 == t / 64 / 64 / 64;
  }

  lemma TripleOf(b0: byte, b1: byte, b2: byte)
    ensures var t := Triple(b0, b1, b2);
            t < 0x100_0000 && t / 0x100 / 0x100 == b0 && t / 0x100 % 0x100 == b1 && t % 0x100 == b2
  {
    var t := Triple(b0, b1, b2);
    assert t / 0x100 == b0 * 0x100 + b1;
  }

  lemma SpareBits(b0: byte, b1: byte)
    ensures Digit(Triple(b0, 0, 0), 1) % 16 == 0
    ensures Digit(Triple(b0, b1, 0), 2) % 4 == 0
    ensures Digit(Triple(b0, 0, 0), 2) == 0 && Digit(Triple(b0, 0, 0), 3) == 0 && Digit(Triple(b0, b1, 0), 3) == 0
  {
    hide Triple, Digit;
    DigitsOfHigh(b0 * 0x100 + b1);
    DigitsOfTop(b0);
    assert Triple(b0, b1, 0) == 0x100 * (b0 * 0x100 + b1) && Triple(b0, 0, 0) == 0x1_0000 * b0 by {
      TriplesShort(b0, b1);
    }
  }

  lemma TriplesShort(b0: nat, b1: nat)
    ensures Triple(b0, b1, 0) == 0x100 * (b0 * 0x100 + b1) && Triple(b0, 0, 0) == 0x1_0000 * b0
  {
  }

  lemma DigitsOfHigh(x: nat)
    ensures Digit(0x100 * x, 2) % 4 == 0 && Digit(0x100 * x, 3) == 0
  {
    SixtyFours(4 * x);
    Fours(x);
    assert 0x100 * x == 64 * (4 * x);
  }

  lemma DigitsOfTop(x: nat)
    ensures Digit(0x1_0000 * x, 1) % 16 == 0 && Digit(0x1_0000 * x, 2) == 0 && Digit(0x1_0000 * x, 3) == 0
  {
    SixtyFours(1024 * x);
    SixtyFours(16 * x);
    Sixteens(x);
    assert 0x1_0000 * x == 64 * (1024 * x) && 1024 * x == 64 * (16 * x);
    assert 0x1_0000 * x == 4096 * (16 * x);
  }

  lemma SixtyFours(m: nat)
    ensures 64 * m % 64 == 0 && 64 * m / 64 == m && 4096 * m / 4096 == m
  {
  }

  lemma Sixteens(x: nat)
    ensures 16 * x % 64 % 16 == 0
  {
    assert 16 * x == 64 * (x / 4) + 16 * (x % 4);
  }

  lemma Fours(x: nat)
    ensures 4 * x % 64 % 4 == 0
  {
    assert 4 * x == 64 * (x / 16) + 4 * (x % 16);
  }

  lemma DecodeFull(d0: nat, d1: nat, d2: nat, d3: nat)
    requires d0 < 64 && d1 < 64 && d2 < 64 && d3 < 64
    ensures DecodeGroup([ALPHABET[d0], ALPHABET[d1], ALPHABET[d2], ALPHABET[d3]]) == Octets(d0, d1, d2, d3, 3)
    ensures d2 % 4 == 0 ==>
              DecodeGroup([ALPHABET[d0], ALPHABET[d1], ALPHABET[d2], '=']) == Octets(d0, d1, d2, 0, 2)
    ensures d1 % 16 == 0 ==>
              DecodeGroup([ALPHABET[d0], ALPHABET[d1], '=', '=']) == Octets(d0, d1, 0, 0, 1)
  {
    AlphabetIsTable(d0);
    AlphabetIsTable(d1);
    AlphabetIsTable(d2);
    AlphabetIsTable(d3);
    assert Value('=') == None;
    hide ALPHABET, Value, Octets;
  }

  lemma OctetsOf(b0: byte, b1: byte, b2: byte, n: nat)
    requires n <= 3
    ensures var t := Triple(b0, b1, b2);
            Octets(Digit(t, 0), Digit(t, 1), Digit(t, 2), Digit(t, 3), n) == Some([b0, b1, b2][..n])
  {
    var t := Triple(b0, b1, b2);
    TripleOf(b0, b1, b2);
    SextetsOf(t);
    hide Triple, Sextets, Digit;
  }

  lemma GroupRoundTrip(chunk: seq<byte>)
    requires 1 <= |chunk| <= 3
    ensures DecodeGroup(EncodeGroup(chunk)) == Some(chunk)
  {
    hide ALPHABET, Triple, Octets, DecodeGroup, Digit;
    var b0: byte := chunk[0];
    var b1: byte := if |chunk| > 1 then chunk[1] else 0;
    var b2: byte := if |chunk| > 2 then chunk[2] else 0;
    var t := Triple(b0, b1, b2);
    SpareBits(b0, b1);
    OctetsOf(b0, b1, b2, |chunk|);
    DecodeFull(Digit(t, 0), Digit(t, 1), Digit(t, 2), Digit(t, 3));
    assert [b0, b1, b2][..|chunk|] == chunk;
  }

  lemma DigitsOf(d0: nat, d1: nat, d2: nat, d3: nat)
    requires d0 < 64 && d1 < 64 && d2 < 64 && d3 < 64
    ensures var t := Sextets(d0, d1, d2, d3);
            t < 0x100_0000 && Digit(t, 0) == d0 && Digit(t, 1) == d1 && Digit(t, 2) == d2 && Digit(t, 3) == d3
  {
    var t := Sextets(d0, d1, d2, d3);
    assert t / 64 == d0 * 4096 + d1 * 64 + d2;
    assert t / 4096 == d0 * 64 + d1;
    assert t / 262144 == d0;
  }

  lemma TripleOfNumber(t: nat)
    requires t < 0x100_0000
    ensures t / 0x100 / 0x100 < 0x100 && t == Triple(t / 0x100 / 0x100, t / 0x100 % 0x100, t % 0x100)
  {
  }

  lemma Multiples(x: nat)
    ensures 0x100 * x % 0x100 == 0 && 0x1_0000 * x / 0x100 == 0x100 * x
  {
  }

  lemma SpareOctets(d0: nat, d1: nat, k: nat)
    ensures Sextets(d0, d1, 4 * k, 0) % 0x100 == 0
    ensures Sextets(d0, 16 * k, 0, 0) / 0x100 % 0x100 == 0
  {
    Multiples(d0 * 1024 + d1 * 16 + k);
    Multiples(d0 * 4 + k);
  }

  /** The number is the triple of its octets; with the spare bits zero, of the first ones. */
  lemma TripleOfOctets(d0: nat, d1: nat, d2: nat, d3: nat, n: nat)
    requires d0 < 64 && d1 < 64 && d2 < 64 && d3 < 64 && 1 <= n <= 3
    requires n < 3 ==> d3 == 0 && d2 % 4 == 0
    requires n < 2 ==> d2 == 0 && d1 % 16 == 0
    ensures var t := Sextets(d0, d1, d2, d3);
            var b0, b1, b2 := t / 0x100 / 0x100, t / 0x100 % 0x100, t % 0x100;
            b0 < 0x100 && t == Triple(b0, b1, b2) &&
            (n < 3 ==> b2 == 0) && (n < 2 ==> b1 == 0) &&
            Octets(d0, d1, d2, d3, n) == Some([b0, b1, b2][..n])
  {
    hide Sextets, Triple, Digit;
    DigitsOf(d0, d1, d2, d3);
    TripleOfNumber(Sextets(d0, d1, d2, d3));
    SpareOctets(d0, d1, d2 / 4);
    SpareOctets(d0, d1, d1 / 16);
  }

  lemma EncodeOctets(d0: nat, d1: nat, d2: nat, d3: nat, n: nat)
    requires d0 < 64 && d1 < 64 && d2 < 64 && d3 < 64 && 1 <= n <= 3
    requires n < 3 ==> d3 == 0 && d2 % 4 == 0
    requires n < 2 ==> d2 == 0 && d1 % 16 == 0
    ensures Octets(d0, d1, d2, d3, n).Some? && |Octets(d0, d1, d2, d3, n).value| == n
    ensures EncodeGroup(Octets(d0, d1, d2, d3, n).value)
         == [ALPHABET[d0], ALPHABET[d1], if n > 1 then ALPHABET[d2] else '=', if n > 2 then ALPHABET[d3] else '=']
  {
    hide ALPHABET, Triple, Octets, Digit, Sextets;
    TripleOfOctets(d0, d1, d2, d3, n);
    DigitsOf(d0, d1, d2, d3);
  }

  lemma GroupConverse(s: string)
    requires |s| == 4
    ensures DecodeGroup(s).Some? ==>
              1 <= |DecodeGroup(s).value| <= 3 && EncodeGroup(DecodeGroup(s).value) == s
  {
    hide ALPHABET, EncodeGroup, Octets, Value;
    if DecodeGroup(s).None? {
      return;
    }
    var (v0, v1, v2, v3) := (Value(s[0]), Value(s[1]), Value(s[2]), Value(s[3]));
    TableIsAlphabet(s[0]);
    TableIsAlphabet(s[1]);
    if s[2] == '=' && s[3] == '=' {
      EncodeOctets(v0.value, v1.value, 0, 0, 1);
    } else if s[3] == '=' {
      TableIsAlphabet(s[2]);
      EncodeOctets(v0.value, v1.value, v2.value, 0, 2);
    } else {
      TableIsAlphabet(s[2]);
      TableIsAlphabet(s[3]);
      EncodeOctets(v0.value, v1.value, v2.value, v3.value, 3);
    }
  }

  lemma {:induction false} EncodeDecodes(b: seq<byte>)
    ensures Decode(Encode(b)) == Some(b)
  {
    hide EncodeGroup, DecodeGroup;
    if b == [] {
    } else {
      var n := Min(3, |b|);
      var rest := b[n..];
      GroupRoundTrip(b[..n]);
      EncodeDecodes(rest);
      var s := Encode(b);
      assert s[..4] == EncodeGroup(b[..n]) && s[4..] == Encode(rest);
      assert b == b[..n] + rest;
      if rest == [] {
        assert s[4..] == "";
      }
    }
  }

  lemma {:induction false} DecodeEncodes(s: string)
    requires Decode(s).Some?
    ensures Encode(Decode(s).value) == s
  {
    hide EncodeGroup, DecodeGroup;
    if s == "" {
    } else {
      var group, rest := DecodeGroup(s[..4]).value, Decode(s[4..]).value;
      GroupConverse(s[..4]);
      DecodeEncodes(s[4..]);
      var b := group + rest;
      if s[4..] == "" {
        assert rest == [] && b == group;
        assert b[..|b|] == b && b[|b|..] == [];
      } else {
        assert b[..3] == group && b[3..] == rest;
      }
      assert s == s[..4] + s[4..];
    }
  }

  /** The decoder of the standard accepts exactly the encoder's texts, and inverts it. */
  lemma Base64Bijection(s: string, b: seq<byte>)
    ensures Decode(s) == Some(b) <==> s == Encode(b)
  {
    EncodeDecodes(b);
    if Decode(s) == Some(b) {
      DecodeEncodes(s);
    }
  }

  /** Whole groups of characters of the table, but for two pads at the end. */
  predicate TwicePadded(s: string) {
    |s| >= 4 && |s| % 4 == 0 && s[|s| - 2] == '=' && s[|s| - 1] == '=' &&
    forall i :: 0 <= i < |s| - 2 ==> Value(s[i]).Some?
  }

  lemma FullGroupDecodes(s: string)
    requires |s| == 4 && forall i :: 0 <= i < 4 ==> Value(s[i]).Some?
    ensures DecodeGroup(s).Some? && |DecodeGroup(s).value| == 3
  {
    ValuesFit(s, 4);
    assert Value('=') == None;
    hide Value;
  }

  lemma LastGroupDecodes(s: string)
    requires |s| == 4 && TwicePadded(s)
    ensures DecodeGroup(s).Some? <==> Value(s[1]).value % 16 == 0
    ensures DecodeGroup(s).Some? ==> |DecodeGroup(s).value| == 1
  {
    ValuesFit(s, 2);
    hide Value;
  }

  lemma ValuesFit(s: string, n: nat)
    requires n <= |s| && forall i :: 0 <= i < n ==> Value(s[i]).Some?
    ensures forall i :: 0 <= i < n ==> Value(s[i]).value < 64
  {
  }

  /** Such a text decodes exactly when the four bits that no octet holds are zero. */
  lemma {:induction false} PaddedDecodesIff(s: string)
    requires TwicePadded(s)
    ensures Decode(s).Some? <==> Value(s[|s| - 3]).value % 16 == 0
    ensures Decode(s).Some? ==> |Decode(s).value| == |s| / 4 * 3 - 2
  {
    hide Value, DecodeGroup;
    if |s| == 4 {
      assert s[..4] == s && s[4..] == "";
      LastGroupDecodes(s);
    } else {
      FullGroupDecodes(s[..4]);
      PaddedDecodesIff(s[4..]);
    }
  }

  lemma EncodeInjective(a: seq<byte>, b: seq<byte>)
    ensures Encode(a) == Encode(b) ==> a == b
  {
    EncodeDecodes(a);
    EncodeDecodes(b);
  }

  /** The characters of the text: from the alphabet, then the padding the length calls for. */
  lemma {:induction false} EncodedCharacters(b: seq<byte>)
    requires |b| % 3 == 1
    ensures var s := Encode(b);
            |s| >= 4 && s[|s| - 2..] == "==" && forall i :: 0 <= i < |s| - 2 ==> Value(s[i]).Some?
  {
    hide ALPHABET, Value, Triple, Digit;
    var n := Min(3, |b|);
    var group, rest := b[..n], b[n..];
    var b1: nat := if n > 1 then group[1] else 0;
    var b2: nat := if n > 2 then group[2] else 0;
    var t := Triple(group[0], b1, b2);
    AlphabetIsTable(Digit(t, 0));
    AlphabetIsTable(Digit(t, 1));
    AlphabetIsTable(Digit(t, 2));
    AlphabetIsTable(Digit(t, 3));
    if n == 3 {
      EncodedCharacters(rest);
      var s, tail := Encode(b), Encode(rest);
      assert s[4..] == tail && s[|s| - 2..] == tail[|tail| - 2..];
      forall i | 0 <= i < |s| - 2 ensures Value(s[i]).Some? {
        assert i >= 4 ==> s[i] == tail[i - 4];
      }
    } else {
      assert Encode(rest) == "";
    }
  }

  predicate IsEncodedCharacter(c: char) {
    Value(c).Some? || c == '='
  }

  lemma GroupCharacters(chunk: seq<byte>)
    requires 1 <= |chunk| <= 3
    ensures forall i :: 0 <= i < 4 ==> IsEncodedCharacter(EncodeGroup(chunk)[i])
  {
    hide ALPHABET, Value, Triple, Digit;
    var b1: nat := if |chunk| > 1 then chunk[1] else 0;
    var b2: nat := if |chunk| > 2 then chunk[2] else 0;
    var t := Triple(chunk[0], b1, b2);
    AlphabetIsTable(Digit(t, 0));
    AlphabetIsTable(Digit(t, 1));
    AlphabetIsTable(Digit(t, 2));
    AlphabetIsTable(Digit(t, 3));
  }

  /** Every character is from the alphabet or a pad. */
  lemma {:induction false} AllCharacters(b: seq<byte>)
    ensures forall i :: 0 <= i < |Encode(b)| ==> IsEncodedCharacter(Encode(b)[i])
  {
    hide EncodeGroup, IsEncodedCharacter;
    if b == [] {
    } else {
      var n := Min(3, |b|);
      GroupCharacters(b[..n]);
      AllCharacters(b[n..]);
    }
  }
}
