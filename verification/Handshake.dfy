/** The opening handshake, section 4 of RFC 6455: keys, and the HTTP heads that carry them. */
module Handshake {
  import opened Bytes
  import opened Text
  import Utf8
  import Base64
  import Sha1

  const WS_GUID := "258EAFA5-E914-47DA-95CA-C5AB0DC85B11"
  const DEFAULT_MAX_HEAD: nat := 16384
  const MAX_HEADERS: nat := 128

  datatype UpgradeError = Malformed | NotGet | NotAnUpgrade | WrongVersion | BadKey | HeadTooLarge

  datatype Result<+T> = Ok(value: T) | Err(error: UpgradeError)

  datatype Method = Get | Options | Head | Other(name: string)

  datatype Header = Header(name: string, value: string)

  datatype Request = Request(
    verb: Method,
    path: string,
    key: seq<byte>,
    protocols: seq<string>,
    headers: seq<Header>)

  datatype Parsed = Upgrade(request: Request) | Plain(request: Request)

  // ---- Keys ----------------------------------------------------------------------------------

  /** What the server must answer to a key, section 1.3 of RFC 6455. */
  function AcceptFor(key: seq<byte>): string {
    Base64.Encode(Sha1.Digest(key + Utf8.Encode(WS_GUID)))
  }

  lemma GuidLength()
    ensures |Utf8.Encode(WS_GUID)| == 36
  {
    GuidIsAscii();
    Utf8.EncodeAscii(WS_GUID);
  }

  lemma GuidIsAscii()
    ensures Utf8.IsAscii(WS_GUID) && |WS_GUID| == 36
  {
  }

  /** `accept_for` */
  method ComputeAccept(key: seq<byte>) returns (accept: string)
    requires |key| + 36 < 0x2000_0000_0000_0000
    ensures accept == AcceptFor(key)
  {
    GuidLength();
    hide Sha1.Digest, Base64.Encode, Utf8.Encode;
    var hasher := new Sha1.Hasher();
    hasher.Update(key);
    assert [] + key == key;
    hasher.Update(Utf8.Encode(WS_GUID));
    var digest := hasher.Finish();
    accept := Base64.Base64Encode(digest);
  }

  predicate IsBase64Octet(b: byte) {
    'A' as int <= b <= 'Z' as int || 'a' as int <= b <= 'z' as int || '0' as int <= b <= '9' as int ||
    b == '+' as int || b == '/' as int
  }

  /** `is_valid_key` */
  predicate IsValidKey(key: seq<byte>) {
    |key| == 24 && key[22] == '=' as int && key[23] == '=' as int &&
    forall i :: 0 <= i < 22 ==> IsBase64Octet(key[i])
  }

  /** `new_key` */
  function NewKey(entropy: seq<byte>): string
    requires |entropy| == 16
  {
    Base64.Encode(entropy)
  }

  /** Every key made from sixteen octets is valid, and different octets make different keys. */
  lemma NewKeyIsValid(entropy: seq<byte>)
    requires |entropy| == 16
    ensures IsValidKey(Utf8.Encode(NewKey(entropy)))
    ensures Base64.Decode(NewKey(entropy)) == Some(entropy)
  {
    hide Base64.Encode, Base64.Decode;
    var key := NewKey(entropy);
    Base64.EncodedLength(entropy);
    Base64.EncodedCharacters(entropy);
    Base64.EncodeDecodes(entropy);
    assert key[22] == key[22..][0] && key[23] == key[22..][1];
    forall i | 0 <= i < 22 ensures IsBase64Octet(key[i] as int) {
    }
    Utf8.EncodeAscii(key);
  }

  function Characters(octets: seq<byte>): string {
    seq(|octets|, i requires 0 <= i < |octets| => octets[i] as char)
  }

  lemma ValidKeyCharacters(key: seq<byte>)
    requires IsValidKey(key)
    ensures Utf8.Encode(Characters(key)) == key && Base64.TwicePadded(Characters(key))
  {
    Utf8.EncodeAscii(Characters(key));
    hide Utf8.Encode;
    forall i | 0 <= i < 22 ensures Base64.Value(Characters(key)[i]).Some? {
      assert IsBase64Octet(key[i]);
    }
  }

  /** A key is valid exactly when it has 24 characters of the base64 table, two pads among them at the end. */
  lemma ValidKeyIff(key: seq<byte>)
    ensures IsValidKey(key) <==> |key| == 24 && Base64.TwicePadded(Characters(key))
  {
    if |key| == 24 && Base64.TwicePadded(Characters(key)) {
      assert Characters(key)[22] as int == key[22] && Characters(key)[23] as int == key[23];
      forall i | 0 <= i < 22 ensures IsBase64Octet(key[i]) {
        assert Base64.Value(Characters(key)[i]).Some?;
      }
    }
    if IsValidKey(key) {
      ValidKeyCharacters(key);
    }
  }

  /** A valid key whose spare bits, four in the last character before the pads, are zero. */
  predicate IsExactKey(key: seq<byte>) {
    IsValidKey(key) && Base64.Value(key[21] as char).Some? && Base64.Value(key[21] as char).value % 16 == 0
  }

  /** The keys that encode sixteen octets are exactly the valid ones with their spare bits zero. */
  lemma ExactKeyIff(key: seq<byte>)
    ensures IsExactKey(key) <==> exists entropy: seq<byte> :: |entropy| == 16 && key == Utf8.Encode(NewKey(entropy))
  {
    hide Base64.Encode, Base64.Decode, Base64.Value, Utf8.Encode, IsValidKey;
    if IsExactKey(key) {
      var entropy := ExactKeyEntropy(key);
    }
    forall entropy: seq<byte> | |entropy| == 16 && key == Utf8.Encode(NewKey(entropy)) ensures IsExactKey(key) {
      NewKeyIsExact(entropy);
    }
  }

  lemma ExactKeyEntropy(key: seq<byte>) returns (entropy: seq<byte>)
    requires IsExactKey(key)
    ensures |entropy| == 16 && key == Utf8.Encode(NewKey(entropy))
  {
    hide Base64.Encode, Base64.Decode, Base64.Value, Utf8.Encode;
    var text := Characters(key);
    ValidKeyCharacters(key);
    Base64.PaddedDecodesIff(text);
    entropy := Base64.Decode(text).value;
    Base64.DecodeEncodes(text);
  }

  lemma NewKeyIsExact(entropy: seq<byte>)
    requires |entropy| == 16
    ensures IsExactKey(Utf8.Encode(NewKey(entropy)))
  {
    hide Base64.Encode, Base64.Decode, Base64.Value, Utf8.Encode;
    var key := NewKey(entropy);
    NewKeyIsValid(entropy);
    Base64.EncodedLength(entropy);
    Base64.EncodedCharacters(entropy);
    assert key[22] == key[22..][0] && key[23] == key[22..][1];
    Base64.PaddedDecodesIff(key);
    KeyOctets(key);
  }

  /** A text with a valid key's octets has them one to a character. */
  lemma KeyOctets(text: string)
    requires IsValidKey(Utf8.Encode(text))
    ensures |text| == 24 && forall i :: 0 <= i < 24 ==> Utf8.Encode(text)[i] == text[i] as int
  {
    hide Utf8.Encode;
    var key := Utf8.Encode(text);
    forall i | 0 <= i < |key| ensures key[i] < 0x80 {
      assert i < 22 ==> IsBase64Octet(key[i]);
    }
    Utf8.AsciiOctets(text);
    Utf8.EncodeAscii(text);
  }

  const LOOSE_KEY := "AAAAAAAAAAAAAAAAAAAAAB=="

  /** A key that is valid, though it is not base64 of anything. */
  lemma LooseKeyIsValid()
    ensures IsValidKey(Utf8.Encode(LOOSE_KEY)) && Base64.Decode(LOOSE_KEY) == None
    ensures forall entropy: seq<byte> :: |entropy| == 16 ==> NewKey(entropy) != LOOSE_KEY
  {
    hide Base64.Decode, Utf8.Encode, Base64.Encode;
    LooseCharacters();
    Utf8.EncodeAscii(LOOSE_KEY);
    Base64.PaddedDecodesIff(LOOSE_KEY);
    forall entropy: seq<byte> | |entropy| == 16 ensures NewKey(entropy) != LOOSE_KEY {
      NewKeyIsValid(entropy);
    }
  }

  lemma LooseCharacters()
    ensures |LOOSE_KEY| == 24 && LOOSE_KEY[22] == '=' && LOOSE_KEY[23] == '=' && LOOSE_KEY[21] == 'B'
    ensures forall i :: 0 <= i < 22 ==> 'A' <= LOOSE_KEY[i] <= 'B'
  {
  }

  lemma NewKeyIsInjective(a: seq<byte>, b: seq<byte>)
    requires |a| == |b| == 16
    ensures NewKey(a) == NewKey(b) ==> a == b
  {
    hide Base64.Encode;
    Base64.EncodeInjective(a, b);
  }

  // ---- The end of a head ----------------------------------------------------------------------

  /** The first position at which `pattern` occurs. */
  function Find(input: seq<byte>, pattern: seq<byte>): (at: Option<nat>)
    requires pattern != []
    ensures at.Some? ==>
              at.value + |pattern| <= |input| && input[at.value..at.value + |pattern|] == pattern
  {
    if |input| < |pattern| then None
    else if input[..|pattern|] == pattern then Some(0)
    else match Find(input[1..], pattern)
      case None => None
      case Some(at) => Some(at + 1)
  }

  const CRLF: seq<byte> := [13, 10]
  const CRLFCRLF: seq<byte> := [13, 10, 13, 10]
  const LFLF: seq<byte> := [10, 10]

  /** `head_end`: just past the first CRLFCRLF, or failing that the first LFLF. */
  function HeadEnd(input: seq<byte>): (end: Option<nat>)
    ensures end.Some? ==> 0 < end.value <= |input|
  {
    match Find(input, CRLFCRLF)
    case Some(at) => Some(at + 4)
    case None =>
      match Find(input, LFLF)
      case Some(at) => Some(at + 2)
      case None => None
  }

  predicate OccursAt(input: seq<byte>, pattern: seq<byte>, at: nat) {
    at + |pattern| <= |input| && input[at..at + |pattern|] == pattern
  }

  /** `pattern` occurs there and nowhere before. */
  predicate FirstAt(input: seq<byte>, pattern: seq<byte>, at: nat) {
    OccursAt(input, pattern, at) && forall k :: 0 <= k < at ==> !OccursAt(input, pattern, k)
  }

  lemma OccursBehind(input: seq<byte>, pattern: seq<byte>, at: nat)
    requires input != []
    ensures OccursAt(input[1..], pattern, at) <==> OccursAt(input, pattern, at + 1)
  {
    var n := |pattern|;
    if at + 1 + n <= |input| {
      var a, b := input[1..][at..at + n], input[at + 1..at + 1 + n];
      assert forall i :: 0 <= i < n ==> a[i] == b[i];
      assert a == b;
    }
  }

  lemma {:induction false} FindIsFirst(input: seq<byte>, pattern: seq<byte>)
    requires pattern != []
    ensures Find(input, pattern).Some? ==> FirstAt(input, pattern, Find(input, pattern).value)
    ensures Find(input, pattern).None? ==> forall k :: 0 <= k <= |input| ==> !OccursAt(input, pattern, k)
  {
    if |input| >= |pattern| && input[..|pattern|] != pattern {
      FindIsFirst(input[1..], pattern);
      forall k: nat | 0 < k <= |input|
        ensures OccursAt(input, pattern, k) <==> OccursAt(input[1..], pattern, k - 1)
      {
        OccursBehind(input, pattern, k - 1);
      }
    }
  }

  /** The end of a head: behind the first CRLFCRLF, or, if there is none anywhere, behind the first LFLF. */
  lemma HeadEndIff(input: seq<byte>, end: nat)
    ensures HeadEnd(input) == Some(end)
       <==> (end >= 4 && FirstAt(input, [0x0D, 0x0A, 0x0D, 0x0A], end - 4)) ||
            ((forall k :: 0 <= k <= |input| ==> !OccursAt(input, [0x0D, 0x0A, 0x0D, 0x0A], k)) &&
             end >= 2 && FirstAt(input, [0x0A, 0x0A], end - 2))
  {
    hide Find;
    FindIsFirst(input, CRLFCRLF);
    FindIsFirst(input, LFLF);
  }

  // ---- Reading a head -------------------------------------------------------------------------

  function TrimmedAll(lines: seq<string>): seq<string> {
    seq(|lines|, i requires 0 <= i < |lines| => TrimEndCR(lines[i]))
  }

  /** The lines of a head, without their ends. */
  function Lines(text: string): (lines: seq<string>)
    ensures |lines| >= 1
  {
    TrimmedAll(Split(text, '\n'))
  }

  function ParseMethod(name: string): Method {
    if SameName(name, "GET") then Get
    else if SameName(name, "OPTIONS") then Options
    else if SameName(name, "HEAD") then Head
    else Other(name)
  }

  /** Name and trimmed value of a header line. */
  function ParseHeader(line: string): Option<Header> {
    match SplitOnce(line, ':')
    case None => None
    case Some((name, value)) => Some(Header(name, Trim(value)))
  }

  /** The headers of the lines, read in order: a line without a colon and the 129th header are
      errors, whichever comes first. */
  function Collect(lines: seq<string>): Result<seq<Header>> {
    if lines == [] then Ok([]) else
    var n := |lines| - 1;
    match Collect(lines[..n])
    case Err(e) => Err(e)
    case Ok(headers) =>
      if lines[n] == "" then Ok(headers) else
      match ParseHeader(lines[n])
      case None => Err(Malformed)
      case Some(header) => if |headers| == MAX_HEADERS then Err(HeadTooLarge) else Ok(headers + [header])
  }

  /** The value of the last header of that name. */
  function Last(headers: seq<Header>, name: string): Option<string> {
    if headers == [] then None else
    var n := |headers| - 1;
    if SameName(headers[n].name, name) then Some(headers[n].value) else Last(headers[..n], name)
  }

  /** Every token of every header of that name, in order. */
  function AllProtocols(headers: seq<Header>): seq<string> {
    if headers == [] then [] else
    var n := |headers| - 1;
    AllProtocols(headers[..n]) +
    if SameName(headers[n].name, "sec-websocket-protocol") then Tokens(headers[n].value) else []
  }

  predicate HasUpgradeToken(pieces: seq<string>) {
    exists i :: 0 <= i < |pieces| && SameName(Trim(pieces[i]), "upgrade")
  }

  predicate WantsUpgrade(headers: seq<Header>) {
    Last(headers, "upgrade").Some? && SameName(Last(headers, "upgrade").value, "websocket")
  }

  predicate WantsConnection(headers: seq<Header>) {
    Last(headers, "connection").Some? && HasUpgradeToken(Split(Last(headers, "connection").value, ','))
  }

  predicate VersionOk(headers: seq<Header>) {
    Last(headers, "sec-websocket-version") == Some("13")
  }

  /** What a head with this request line and these headers asks for. */
  function Decide(verb: Method, path: string, headers: seq<Header>): Result<Parsed> {
    var request := Request(verb, path, [], AllProtocols(headers), headers);
    if verb != Get || !WantsUpgrade(headers) || !WantsConnection(headers) then Ok(Plain(request))
    else if !VersionOk(headers) then Err(WrongVersion)
    else match Last(headers, "sec-websocket-key")
      case None => Err(BadKey)
      case Some(key) =>
        if IsValidKey(Utf8.Encode(key)) then Ok(Upgrade(request.(key := Utf8.Encode(key)))) else Err(BadKey)
  }

  /** The verdict on a head: the decision is a function of the headers it retains. */
  function Verdict(input: seq<byte>, maxHead: nat): Result<Parsed> {
    if |input| > maxHead then Err(HeadTooLarge)
    else if !Utf8.IsUtf8(input) then Err(Malformed)
    else
      var lines := Lines(Utf8.Decode(input));
      var parts := Split(lines[0], ' ');
      if |parts| < 2 then Err(Malformed) else
      match Collect(lines[1..])
      case Err(e) => Err(e)
      case Ok(headers) => Decide(ParseMethod(parts[0]), parts[1], headers)
  }

  lemma {:induction false} CollectStops(lines: seq<string>, i: nat)
    requires i <= |lines| && Collect(lines[..i]).Err?
    ensures Collect(lines) == Collect(lines[..i])
  {
    if i < |lines| {
      var n := |lines| - 1;
      assert lines[..n][..i] == lines[..i];
      CollectStops(lines[..n], i);
    } else {
      assert lines[..i] == lines;
    }
  }

  /** No name is two of the five the parse interprets: their lengths differ. */
  lemma NamesDiffer(name: string)
    ensures SameName(name, "upgrade") ==> |name| == 7
    ensures SameName(name, "connection") ==> |name| == 10
    ensures SameName(name, "sec-websocket-key") ==> |name| == 17
    ensures SameName(name, "sec-websocket-version") ==> |name| == 21
    ensures SameName(name, "sec-websocket-protocol") ==> |name| == 22
  {
  }

  lemma NoHeaders()
    ensures !WantsUpgrade([]) && !WantsConnection([]) && !VersionOk([])
    ensures Last([], "sec-websocket-key") == None && AllProtocols([]) == []
  {
  }

  lemma LastSnoc(headers: seq<Header>, h: Header, name: string)
    ensures Last(headers + [h], name) == if SameName(h.name, name) then Some(h.value) else Last(headers, name)
  {
    assert (headers + [h])[..|headers|] == headers;
  }

  /** What one header more changes, by its name. */
  lemma OneMore(headers: seq<Header>, h: Header)
    ensures var more := headers + [h];
            WantsUpgrade(more)
              == (if SameName(h.name, "upgrade") then SameName(h.value, "websocket") else WantsUpgrade(headers)) &&
            WantsConnection(more)
              == (if SameName(h.name, "connection") then HasUpgradeToken(Split(h.value, ','))
                  else WantsConnection(headers)) &&
            VersionOk(more)
              == (if SameName(h.name, "sec-websocket-version") then h.value == "13" else VersionOk(headers)) &&
            Last(more, "sec-websocket-key")
              == (if SameName(h.name, "sec-websocket-key") then Some(h.value)
                  else Last(headers, "sec-websocket-key")) &&
            AllProtocols(more)
              == AllProtocols(headers) + (if SameName(h.name, "sec-websocket-protocol") then Tokens(h.value) else [])
  {
    hide SameName, Last, HasUpgradeToken, Split, Tokens;
    LastSnoc(headers, h, "upgrade");
    LastSnoc(headers, h, "connection");
    LastSnoc(headers, h, "sec-websocket-version");
    LastSnoc(headers, h, "sec-websocket-key");
    assert (headers + [h])[..|headers|] == headers;
  }

  /** `parse_request` */
  method ParseRequest(input: seq<byte>, maxHead: nat) returns (r: Result<Parsed>)
    ensures r == Verdict(input, maxHead)
  {
    hide SameName, Last, AllProtocols, WantsUpgrade, WantsConnection, VersionOk, Split, Trim, Tokens,
         IsValidKey, Utf8.Encode, Utf8.Decode, Utf8.IsUtf8, HasUpgradeToken, Lines, ParseMethod;
    if |input| > maxHead {
      return Err(HeadTooLarge);
    }
    if !Utf8.IsUtf8(input) {
      return Err(Malformed);
    }
    var lines := Lines(Utf8.Decode(input));
    var parts := Split(lines[0], ' ');
    if |parts| < 2 {
      return Err(Malformed);
    }
    var verb := ParseMethod(parts[0]);
    var upgradeSeen, connectionSeen, versionOk := false, false, false;
    var key: Option<string> := None;
    var protocols: seq<string> := [];
    var headers: seq<Header> := [];
    ghost var rest := lines[1..];
    assert rest[..0] == [];
    NoHeaders();
    for i := 1 to |lines|
      invariant Collect(rest[..i - 1]) == Ok(headers)
      invariant upgradeSeen == WantsUpgrade(headers)
      invariant connectionSeen == WantsConnection(headers)
      invariant versionOk == VersionOk(headers)
      invariant key == Last(headers, "sec-websocket-key")
      invariant protocols == AllProtocols(headers)
    {
      var line := lines[i];
      assert rest[..i][..i - 1] == rest[..i - 1] && rest[i - 1] == line;
      if line == "" {
        continue;
      }
      var split := SplitOnce(line, ':');
      if split.None? {
        CollectStops(rest, i);
        return Err(Malformed);
      }
      var name, value := split.value.0, Trim(split.value.1);
      NamesDiffer(name);
      if SameName(name, "upgrade") {
        upgradeSeen := SameName(value, "websocket");
      } else if SameName(name, "connection") {
        connectionSeen := HasUpgradeToken(Split(value, ','));
      } else if SameName(name, "sec-websocket-version") {
        versionOk := value == "13";
      } else if SameName(name, "sec-websocket-key") {
        key := Some(value);
      } else if SameName(name, "sec-websocket-protocol") {
        protocols := protocols + Tokens(value);
      }
      if |headers| == MAX_HEADERS {
        CollectStops(rest, i);
        return Err(HeadTooLarge);
      }
      OneMore(headers, Header(name, value));
      headers := headers + [Header(name, value)];
    }
    assert rest[..|rest|] == rest;
    var request := Request(verb, parts[1], [], protocols, headers);
    if verb != Get || !upgradeSeen || !connectionSeen {
      return Ok(Plain(request));
    }
    if !versionOk {
      return Err(WrongVersion);
    }
    if key.None? || !IsValidKey(Utf8.Encode(key.value)) {
      return Err(BadKey);
    }
    return Ok(Upgrade(request.(key := Utf8.Encode(key.value))));
  }

  // ---- The headers of an accepted head -----------------------------------------------------------

  function NonEmpty(lines: seq<string>): seq<string> {
    if lines == [] then [] else
    var n := |lines| - 1;
    NonEmpty(lines[..n]) + if lines[n] == "" then [] else [lines[n]]
  }

  predicate AllParse(lines: seq<string>) {
    forall i :: 0 <= i < |lines| ==> ParseHeader(lines[i]).Some?
  }

  function ParseAll(lines: seq<string>): seq<Header>
    requires AllParse(lines)
  {
    seq(|lines|, i requires 0 <= i < |lines| => ParseHeader(lines[i]).value)
  }

  predicate BadLineFirst(lines: seq<string>) {
    exists i :: 0 <= i < |lines| && i <= MAX_HEADERS && ParseHeader(lines[i]).None?
  }

  lemma BadLineSnoc(before: seq<string>, line: string)
    ensures BadLineFirst(before + [line])
       <==> BadLineFirst(before) || (|before| <= MAX_HEADERS && ParseHeader(line).None?)
  {
    hide ParseHeader;
    var kept := before + [line];
    assert forall i :: 0 <= i < |before| ==> kept[i] == before[i];
    assert kept[|before|] == line;
    if BadLineFirst(before) {
      var i :| 0 <= i < |before| && i <= MAX_HEADERS && ParseHeader(before[i]).None?;
      assert ParseHeader(kept[i]).None?;
    }
  }

  /** The headers kept are every non-empty line after the first, in order, at most 128 of them;
      a line without a colon among the first 129 is malformed, and any other excess too large. */
  lemma {:induction false} CollectKeepsAll(lines: seq<string>)
    ensures var kept := NonEmpty(lines);
            Collect(lines) ==
            if BadLineFirst(kept) then Err(Malformed)
            else if |kept| > MAX_HEADERS then Err(HeadTooLarge)
            else Ok(ParseAll(kept))
  {
    hide ParseHeader;
    if lines != [] {
      var n := |lines| - 1;
      var before, kept := NonEmpty(lines[..n]), NonEmpty(lines);
      CollectKeepsAll(lines[..n]);
      if lines[n] == "" {
        assert kept == before;
      } else {
        assert kept == before + [lines[n]];
        BadLineSnoc(before, lines[n]);
        if AllParse(kept) {
          assert before == kept[..|before|] && AllParse(before) && kept[|before|] == lines[n];
          assert ParseAll(kept) == ParseAll(before) + [ParseHeader(lines[n]).value];
        }
      }
    } else {
      assert ParseAll([]) == [];
    }
  }

  // ---- The verdict from the headers ---------------------------------------------------------------

  predicate IsLastNamed(headers: seq<Header>, name: string, i: nat) {
    i < |headers| && SameName(headers[i].name, name) &&
    forall j :: i < j < |headers| ==> !SameName(headers[j].name, name)
  }

  /** Some header of that name has that value, and none of the name is behind it. */
  predicate LastValueIs(headers: seq<Header>, name: string, value: string) {
    exists i: nat :: i < |headers| && IsLastNamed(headers, name, i) && headers[i].value == value
  }

  /** Of several headers of a name the last one counts. */
  lemma {:induction false} LastWins(headers: seq<Header>, name: string)
    ensures Last(headers, name).None? ==> forall h :: h in headers ==> !SameName(h.name, name)
    ensures Last(headers, name).Some? ==>
              exists i: nat :: IsLastNamed(headers, name, i) && headers[i].value == Last(headers, name).value
  {
    hide SameName;
    if headers == [] {
    } else {
      var n: nat := |headers| - 1;
      if SameName(headers[n].name, name) {
        assert IsLastNamed(headers, name, n);
      } else {
        LastWins(headers[..n], name);
        assert headers == headers[..n] + [headers[n]];
        if Last(headers, name).Some? {
          var i: nat :| IsLastNamed(headers[..n], name, i) && headers[..n][i].value == Last(headers, name).value;
          assert IsLastNamed(headers, name, i);
        }
      }
    }
  }

  /** ... and there is no second last one. */
  lemma OneLastNamed(headers: seq<Header>, name: string, i: nat, j: nat)
    requires IsLastNamed(headers, name, i) && IsLastNamed(headers, name, j)
    ensures i == j
  {
    hide SameName;
  }

  /** So the last one's value is that of the one and only header of the name with none behind it. */
  lemma {:induction false} LastMeans(headers: seq<Header>, name: string, value: string)
    ensures Last(headers, name) == Some(value) <==> LastValueIs(headers, name, value)
  {
    LastWins(headers, name);
    hide SameName, Last;
    if i: nat :| IsLastNamed(headers, name, i) && headers[i].value == value {
      assert headers[i] in headers;
      var k: nat :| IsLastNamed(headers, name, k) && headers[k].value == Last(headers, name).value;
      OneLastNamed(headers, name, i, k);
    }
  }

  /** The protocols asked for: those of every header of that name, in order, and of no other. */
  lemma {:induction false} ProtocolsAppend(a: seq<Header>, b: seq<Header>)
    ensures AllProtocols(a + b) == AllProtocols(a) + AllProtocols(b)
    ensures |a| == 1 ==>
              AllProtocols(a) == if SameName(a[0].name, "sec-websocket-protocol") then Tokens(a[0].value) else []
  {
    hide SameName, Tokens;
    if |a| == 1 {
      assert a[..0] == [];
    }
    if b == [] {
      assert a + b == a;
    } else {
      var n := |b| - 1;
      assert (a + b)[..|a| + n] == a + b[..n];
      ProtocolsAppend(a, b[..n]);
    }
  }

  /** A header line is a name, the first colon, and a value to be trimmed. */
  lemma HeaderIs(name: string, value: string)
    ensures ':' !in name ==>
              ParseHeader(name + ":" + value) == Some(Header(name, Trim(value))) && ParseHeader(name) == None
  {
    hide Trim;
    if ':' !in name {
      SplitHere(name, ':', value);
      assert name[..|name|] == name;
      IndexOfIs(name, ':', |name|);
    }
  }

  /** The method asked for, whatever its case. */
  lemma MethodIs(name: string)
    ensures ParseMethod(name) == Get <==> SameName(name, "GET")
    ensures ParseMethod(name) == Options <==> SameName(name, "OPTIONS")
    ensures ParseMethod(name) == Head <==> SameName(name, "HEAD")
    ensures ParseMethod(name) == Other(name)
       <==> !SameName(name, "GET") && !SameName(name, "OPTIONS") && !SameName(name, "HEAD")
  {
  }

  /** Some item of a comma-separated value is "upgrade", in any case and with any blanks around it. */
  ghost predicate ListsUpgrade(value: string) {
    exists before, item, behind :: IsItem(value, ',', before, item, behind) && SameName(Trim(item), "upgrade")
  }

  lemma UpgradeListed(value: string)
    ensures HasUpgradeToken(Split(value, ',')) <==> ListsUpgrade(value)
  {
    hide Split, IsItem, Trim, SameName;
    var pieces := Split(value, ',');
    if i :| 0 <= i < |pieces| && SameName(Trim(pieces[i]), "upgrade") {
      var before, behind := PieceIsItem(value, ',', i);
    }
    if before, item, behind :| IsItem(value, ',', before, item, behind) && SameName(Trim(item), "upgrade") {
      ItemIsPiece(value, ',', before, item, behind);
    }
  }

  /** The last upgrade header says websocket, and the last connection header lists upgrade. */
  ghost predicate AsksUpgrade(headers: seq<Header>) {
    (exists v :: LastValueIs(headers, "upgrade", v) && SameName(v, "websocket")) &&
    (exists v :: LastValueIs(headers, "connection", v) && ListsUpgrade(v))
  }

  lemma AsksIff(headers: seq<Header>)
    ensures WantsUpgrade(headers) && WantsConnection(headers) <==> AsksUpgrade(headers)
    ensures VersionOk(headers) <==> LastValueIs(headers, "sec-websocket-version", "13")
  {
    hide Last, LastValueIs, HasUpgradeToken, ListsUpgrade, Split, SameName;
    forall v ensures Last(headers, "upgrade") == Some(v) <==> LastValueIs(headers, "upgrade", v) {
      LastMeans(headers, "upgrade", v);
    }
    forall v
      ensures Last(headers, "connection") == Some(v) <==> LastValueIs(headers, "connection", v)
      ensures HasUpgradeToken(Split(v, ',')) <==> ListsUpgrade(v)
    {
      LastMeans(headers, "connection", v);
      UpgradeListed(v);
    }
    LastMeans(headers, "sec-websocket-version", "13");
  }

  lemma LastIsOne(headers: seq<Header>, name: string)
    ensures forall v :: Last(headers, name) == Some(v) <==> LastValueIs(headers, name, v)
  {
    hide Last, LastValueIs;
    forall v ensures Last(headers, name) == Some(v) <==> LastValueIs(headers, name, v) {
      LastMeans(headers, name, v);
    }
  }

  /** An accepted head keeps every header line, and its verdict can be recomputed from them. */
  lemma VerdictFromHeaders(input: seq<byte>, maxHead: nat)
    requires Verdict(input, maxHead).Ok?
    ensures |input| <= maxHead && Utf8.IsUtf8(input)
    ensures var lines := Lines(Utf8.Decode(input));
            var kept := NonEmpty(lines[1..]);
            var p := Verdict(input, maxHead).value;
            var r := p.request;
            |kept| <= 128 && AllParse(kept) && r.headers == ParseAll(kept) &&
            r.protocols == AllProtocols(r.headers) &&
            |Split(lines[0], ' ')| >= 2 && r.verb == ParseMethod(Split(lines[0], ' ')[0]) &&
            r.path == Split(lines[0], ' ')[1] &&
            (p.Upgrade? <==> r.verb == Get && AsksUpgrade(r.headers)) &&
            (p.Upgrade? ==> LastValueIs(r.headers, "sec-websocket-version", "13") && IsValidKey(r.key) &&
                            exists key :: LastValueIs(r.headers, "sec-websocket-key", key) &&
                                          r.key == Utf8.Encode(key)) &&
            (p.Plain? ==> r.key == [])
  {
    hide Utf8.Encode, Utf8.Decode, Utf8.IsUtf8, Lines, Collect, Split, Last, ParseMethod, AllProtocols, LastValueIs,
         WantsUpgrade, WantsConnection, VersionOk, IsValidKey, ParseHeader, NonEmpty, BadLineFirst, ParseAll,
         AllParse, AsksUpgrade;
    var lines := Lines(Utf8.Decode(input))[1..];
    CollectKeepsAll(lines);
    NoBadLine(NonEmpty(lines));
    var headers := Verdict(input, maxHead).value.request.headers;
    AsksIff(headers);
    LastIsOne(headers, "sec-websocket-key");
  }

  /** A head that has a request line and headers that parse, at most 128 of them. */
  ghost predicate WellShaped(input: seq<byte>) {
    Utf8.IsUtf8(input) &&
    var lines := Lines(Utf8.Decode(input));
    var kept := NonEmpty(lines[1..]);
    ' ' in lines[0] && AllParse(kept) && |kept| <= 128
  }

  function KeptHeaders(input: seq<byte>): seq<Header>
    requires WellShaped(input)
  {
    ParseAll(NonEmpty(Lines(Utf8.Decode(input))[1..]))
  }

  /** A GET that asks for an upgrade. */
  ghost predicate IsAttempt(input: seq<byte>)
    requires WellShaped(input)
  {
    SameName(Split(Lines(Utf8.Decode(input))[0], ' ')[0], "GET") && AsksUpgrade(KeptHeaders(input))
  }

  ghost predicate HasValidKey(headers: seq<Header>) {
    exists key :: LastValueIs(headers, "sec-websocket-key", key) && IsValidKey(Utf8.Encode(key))
  }

  /** Every refusal, exactly, from the text and the headers it holds. */
  lemma RefusedIff(input: seq<byte>, maxHead: nat)
    ensures Verdict(input, maxHead) == Err(HeadTooLarge) <==>
            |input| > maxHead ||
            (Utf8.IsUtf8(input) &&
             var lines := Lines(Utf8.Decode(input));
             ' ' in lines[0] && !BadLineFirst(NonEmpty(lines[1..])) && |NonEmpty(lines[1..])| > 128)
    ensures Verdict(input, maxHead) == Err(Malformed) <==>
            |input| <= maxHead &&
            (!Utf8.IsUtf8(input) ||
             var lines := Lines(Utf8.Decode(input));
             ' ' !in lines[0] || BadLineFirst(NonEmpty(lines[1..])))
    ensures Verdict(input, maxHead) == Err(WrongVersion) <==>
            |input| <= maxHead && WellShaped(input) && IsAttempt(input) &&
            !LastValueIs(KeptHeaders(input), "sec-websocket-version", "13")
    ensures Verdict(input, maxHead) == Err(BadKey) <==>
            |input| <= maxHead && WellShaped(input) && IsAttempt(input) &&
            LastValueIs(KeptHeaders(input), "sec-websocket-version", "13") && !HasValidKey(KeptHeaders(input))
    ensures Verdict(input, maxHead) != Err(NotGet) && Verdict(input, maxHead) != Err(NotAnUpgrade)
  {
    hide Utf8.Encode, Utf8.Decode, Utf8.IsUtf8, Lines, Collect, Split, Last, ParseMethod, AllProtocols, LastValueIs,
         WantsUpgrade, WantsConnection, VersionOk, IsValidKey, ParseHeader, NonEmpty, BadLineFirst, ParseAll,
         AllParse, AsksUpgrade, SameName;
    if Utf8.IsUtf8(input) {
      var lines := Lines(Utf8.Decode(input));
      var kept := NonEmpty(lines[1..]);
      SplitOfMany(lines[0], ' ');
      CollectKeepsAll(lines[1..]);
      BadLineIff(kept);
      MethodIs(Split(lines[0], ' ')[0]);
      if AllParse(kept) {
        AsksIff(ParseAll(kept));
        LastIsOne(ParseAll(kept), "sec-websocket-key");
      }
    }
  }

  lemma BadLineIff(lines: seq<string>)
    ensures |lines| <= MAX_HEADERS ==> (BadLineFirst(lines) <==> !AllParse(lines))
  {
    hide ParseHeader;
  }

  lemma NoBadLine(lines: seq<string>)
    requires !BadLineFirst(lines) && |lines| <= MAX_HEADERS
    ensures AllParse(lines)
  {
    hide ParseHeader;
  }
}
