/** What is printed is read back: requests, responses, and where a head ends. */
module RoundTrip {
  import opened Bytes
  import opened Text
  import opened Handshake
  import opened Heads
  import Utf8

  /** Free of line ends. */
  predicate Clean(s: string) {
    '\r' !in s && '\n' !in s
  }

  predicate GoodHeader(h: Header) {
    Clean(h.name) && ':' !in h.name && Clean(h.value)
  }

  predicate GoodHeaders(headers: seq<Header>) {
    forall i :: 0 <= i < |headers| ==> GoodHeader(headers[i])
  }

  function PrintedAll(headers: seq<Header>): seq<string> {
    seq(|headers|, i requires 0 <= i < |headers| => Printed(headers[i]))
  }

  function WithCR(lines: seq<string>): seq<string> {
    seq(|lines|, i requires 0 <= i < |lines| => lines[i] + "\r")
  }

  /** A header as it is retained: the value trimmed. */
  function Retained(headers: seq<Header>): seq<Header> {
    seq(|headers|, i requires 0 <= i < |headers| => Header(headers[i].name, Trim(headers[i].value)))
  }

  // ---- The lines of a printed head ------------------------------------------------------------

  lemma SplitLine(line: string, rest: string)
    requires '\n' !in line
    ensures Split(line + "\r\n" + rest, '\n') == [line + "\r"] + Split(rest, '\n')
  {
    SplitHere(line + "\r", '\n', rest);
    assert line + "\r\n" + rest == (line + "\r") + ['\n'] + rest;
  }

  lemma {:induction false} SplitBlock(headers: seq<Header>, rest: string)
    requires GoodHeaders(headers)
    ensures Split(HeaderBlock(headers) + rest, '\n') == WithCR(PrintedAll(headers)) + Split(rest, '\n')
  {
    hide Split;
    if headers == [] {
      assert HeaderBlock(headers) + rest == rest;
    } else {
      var line, more := Printed(headers[0]), HeaderBlock(headers[1..]) + rest;
      SplitBlock(headers[1..], rest);
      assert HeaderBlock(headers) + rest == line + "\r\n" + more;
      SplitLine(line, more);
      assert WithCR(PrintedAll(headers)) == [line + "\r"] + WithCR(PrintedAll(headers[1..]));
    }
  }

  lemma SplitTail(headers: seq<Header>)
    requires GoodHeaders(headers)
    ensures Split(HeaderBlock(headers) + "\r\n", '\n') == WithCR(PrintedAll(headers)) + ["\r", ""]
  {
    SplitLast("", '\n');
    hide Split, HeaderBlock, GoodHeader, Printed;
    SplitBlock(headers, "\r\n");
    SplitLine("", "");
    assert "" + "\r\n" + "" == "\r\n" && "" + "\r" == "\r";
    assert ["\r"] + [""] == ["\r", ""];
  }

  lemma SplitHead(start: string, headers: seq<Header>)
    requires Clean(start) && GoodHeaders(headers)
    ensures Split(HeadText(start, headers), '\n')
         == WithCR([start] + PrintedAll(headers) + [""]) + [""]
  {
    hide Split, HeaderBlock, GoodHeader, Printed;
    var tail := HeaderBlock(headers) + "\r\n";
    assert HeadText(start, headers) == start + "\r\n" + tail;
    SplitLine(start, tail);
    SplitTail(headers);
    var lines := PrintedAll(headers);
    assert "" + "\r" == "\r";
    assert WithCR([start] + lines + [""]) == [start + "\r"] + WithCR(lines) + ["\r"];
    assert [start + "\r"] + (WithCR(lines) + ["\r", ""]) == [start + "\r"] + WithCR(lines) + ["\r"] + [""];
  }

  lemma HeadLines(start: string, headers: seq<Header>)
    requires Clean(start) && GoodHeaders(headers)
    ensures Lines(HeadText(start, headers)) == [start] + PrintedAll(headers) + ["", ""]
  {
    var lines := [start] + PrintedAll(headers) + [""];
    SplitHead(start, headers);
    assert TrimEndCR("") == "";
    hide Split, TrimEndCR, HeadText;
    forall i | 0 <= i < |lines| ensures TrimEndCR(WithCR(lines)[i]) == lines[i] {
      PrintedIsClean(start, headers, i);
      TrimOneCR(lines[i]);
    }
    assert TrimmedAll(WithCR(lines) + [""]) == lines + [""];
    assert lines + [""] == [start] + PrintedAll(headers) + ["", ""];
  }

  lemma PrintedIsClean(start: string, headers: seq<Header>, i: nat)
    requires Clean(start) && GoodHeaders(headers) && i < |headers| + 2
    ensures '\r' !in ([start] + PrintedAll(headers) + [""])[i]
  {
    if 1 <= i <= |headers| {
      assert GoodHeader(headers[i - 1]);
    }
  }

  // ---- The headers of a printed head -----------------------------------------------------------

  lemma PrintedParses(h: Header)
    requires GoodHeader(h)
    ensures Printed(h) != "" && ParseHeader(Printed(h)) == Some(Header(h.name, Trim(h.value)))
  {
    hide Split, Trim;
    assert Printed(h) == h.name + ":" + (" " + h.value);
    SplitHere(h.name, ':', " " + h.value);
    TrimAfterSpace(h.value);
  }

  lemma {:induction false} CollectPrinted(headers: seq<Header>)
    requires GoodHeaders(headers) && |headers| <= MAX_HEADERS
    ensures Collect(PrintedAll(headers)) == Ok(Retained(headers))
  {
    hide Printed, ParseHeader, GoodHeader, Trim;
    if headers == [] {
      assert PrintedAll(headers) == [] && Retained(headers) == [];
    } else {
      var n := |headers| - 1;
      CollectPrinted(headers[..n]);
      PrintedParses(headers[n]);
      assert PrintedAll(headers)[..n] == PrintedAll(headers[..n]);
      assert Retained(headers) == Retained(headers[..n]) + [Retained(headers)[n]];
    }
  }

  lemma CollectHead(headers: seq<Header>)
    requires GoodHeaders(headers) && |headers| <= MAX_HEADERS
    ensures Collect(PrintedAll(headers) + ["", ""]) == Ok(Retained(headers))
  {
    hide ParseHeader;
    CollectPrinted(headers);
    var lines := PrintedAll(headers);
    assert (lines + [""])[..|lines|] == lines;
    assert (lines + ["", ""])[..|lines| + 1] == lines + [""];
  }

  // ---- Which headers decide ---------------------------------------------------------------------

  predicate Lacks(headers: seq<Header>, name: string) {
    forall i :: 0 <= i < |headers| ==> !SameName(headers[i].name, name)
  }

  lemma {:induction false} LastSkips(a: seq<Header>, b: seq<Header>, name: string)
    requires Lacks(b, name)
    ensures Last(a + b, name) == Last(a, name)
  {
    hide SameName;
    if b == [] {
      assert a + b == a;
    } else {
      var n := |b| - 1;
      LastSkips(a, b[..n], name);
      assert a + b == (a + b[..n]) + [b[n]];
      LastSnoc(a + b[..n], b[n], name);
    }
  }

  lemma {:induction false} ProtocolsSkip(a: seq<Header>, b: seq<Header>)
    requires Lacks(b, "sec-websocket-protocol")
    ensures AllProtocols(a + b) == AllProtocols(a)
  {
    hide SameName, Tokens;
    if b == [] {
      assert a + b == a;
    } else {
      var n := |b| - 1;
      ProtocolsSkip(a, b[..n]);
      assert (a + b)[..|a| + n] == a + b[..n];
    }
  }

  /** Extra headers that do not repeat a name the handshake interprets. */
  predicate NoRequestNames(extra: seq<Header>) {
    Lacks(extra, "upgrade") && Lacks(extra, "connection") && Lacks(extra, "sec-websocket-version") &&
    Lacks(extra, "sec-websocket-key") && Lacks(extra, "sec-websocket-protocol")
  }

  lemma RequestNames()
    ensures SameName("Upgrade", "upgrade") && SameName("websocket", "websocket")
    ensures SameName("Connection", "connection")
  {
  }

  lemma KeyName()
    ensures SameName("Sec-WebSocket-Key", "sec-websocket-key")
  {
  }

  lemma VersionName()
    ensures SameName("Sec-WebSocket-Version", "sec-websocket-version")
  {
  }

  lemma ProtocolName()
    ensures SameName("Sec-WebSocket-Protocol", "sec-websocket-protocol")
  {
  }

  lemma AcceptName()
    ensures SameName("Sec-WebSocket-Accept", "sec-websocket-accept")
  {
  }

  /** The value of the last header of that name, found by position. */
  lemma {:induction false} LastIs(headers: seq<Header>, i: nat, name: string)
    requires i < |headers| && SameName(headers[i].name, name)
    requires forall j :: i < j < |headers| ==> |headers[j].name| != |name|
    ensures Last(headers, name) == Some(headers[i].value)
  {
    if i == |headers| - 1 {
    } else {
      LastIs(headers[..|headers| - 1], i, name);
    }
  }

  lemma {:induction false} NoProtocols(headers: seq<Header>)
    requires forall j :: 0 <= j < |headers| ==> |headers[j].name| != 22
    ensures AllProtocols(headers) == []
  {
    if headers == [] {
    } else {
      NoProtocols(headers[..|headers| - 1]);
    }
  }

  /** The retained fixed headers one by one; no two names are equally long. */
  lemma FixedAre(host: string, key: string)
    requires Trim(key) == key
    ensures var fixed := Retained(FixedRequestHeaders(host, key));
            |fixed| == 5 && |fixed[0].name| == 4 &&
            fixed[1] == Header("Upgrade", "websocket") && fixed[2] == Header("Connection", "Upgrade") &&
            fixed[3] == Header("Sec-WebSocket-Key", key) && fixed[4] == Header("Sec-WebSocket-Version", "13")
  {
    TrimTrimmed("websocket");
    TrimTrimmed("Upgrade");
    TrimTrimmed("13");
    hide Trim;
  }

  lemma FixedDecides(host: string, key: string)
    requires Trim(key) == key
    ensures var fixed := Retained(FixedRequestHeaders(host, key));
            Last(fixed, "upgrade") == Some("websocket") &&
            Last(fixed, "connection") == Some("Upgrade") &&
            Last(fixed, "sec-websocket-version") == Some("13") &&
            Last(fixed, "sec-websocket-key") == Some(key) &&
            AllProtocols(fixed) == []
  {
    hide Trim, Last, AllProtocols, SameName, Retained, FixedRequestHeaders;
    FixedAre(host, key);
    RequestNames();
    KeyName();
    VersionName();
    var fixed := Retained(FixedRequestHeaders(host, key));
    LastIs(fixed, 1, "upgrade");
    LastIs(fixed, 2, "connection");
    LastIs(fixed, 3, "sec-websocket-key");
    LastIs(fixed, 4, "sec-websocket-version");
    NoProtocols(fixed);
  }

  lemma ValidKeyText(key: string)
    requires IsValidKey(Utf8.Encode(key))
    ensures Clean(key) && Trim(key) == key
  {
    hide Utf8.Encode, Trim;
    Utf8.AsciiOctets(key);
    Utf8.EncodeAscii(key);
    TrimTrimmed(key);
  }

  lemma UpgradeWanted(headers: seq<Header>)
    requires Last(headers, "upgrade") == Some("websocket") && Last(headers, "connection") == Some("Upgrade")
    ensures WantsUpgrade(headers) && WantsConnection(headers)
  {
    hide Last;
    RequestNames();
    SplitLast("Upgrade", ',');
    TrimTrimmed("Upgrade");
    var pieces := Split("Upgrade", ',');
    assert SameName(Trim(pieces[0]), "upgrade");
  }

  /** The protocol header, when there is one, is read back token by token. */
  lemma ProtocolsDecide(fixed: seq<Header>, protocols: seq<string>)
    requires AllTokens(protocols) && AllProtocols(fixed) == []
    ensures AllProtocols(fixed + Retained(ProtocolHeaders(protocols))) == protocols
  {
    hide Tokens, Join, Trim, SameName, IsToken;
    var more := Retained(ProtocolHeaders(protocols));
    if protocols == [] {
      assert more == [] && fixed + more == fixed;
    } else {
      JoinIsTrimmed(protocols);
      TokensOfJoin(protocols);
      ProtocolName();
      assert (fixed + more)[..|fixed|] == fixed && (fixed + more)[|fixed|] == more[0];
      assert [] + protocols == protocols;
    }
  }

  lemma JoinIsTrimmed(protocols: seq<string>)
    requires protocols != [] && AllTokens(protocols)
    ensures Trim(Join(protocols, ", ")) == Join(protocols, ", ")
  {
    JoinTrimmed(protocols);
    TrimTrimmed(Join(protocols, ", "));
  }

  lemma RetainedAppend(a: seq<Header>, b: seq<Header>)
    ensures Retained(a + b) == Retained(a) + Retained(b)
  {
  }

  lemma LastOfFirst(fixed: seq<Header>, proto: seq<Header>, more: seq<Header>, name: string)
    requires Lacks(proto, name) && Lacks(more, name)
    ensures Last(fixed + proto + more, name) == Last(fixed, name)
  {
    hide Last, SameName;
    LastSkips(fixed + proto, more, name);
    LastSkips(fixed, proto, name);
  }

  /** Headers that begin with a full request decide on an upgrade, whatever harmless ones follow. */
  lemma DecidesUpgrade(path: string, key: string, protocols: seq<string>,
                       fixed: seq<Header>, proto: seq<Header>, more: seq<Header>)
    requires IsValidKey(Utf8.Encode(key)) && NoRequestNames(more)
    requires Lacks(proto, "upgrade") && Lacks(proto, "connection")
    requires Lacks(proto, "sec-websocket-version") && Lacks(proto, "sec-websocket-key")
    requires Last(fixed, "upgrade") == Some("websocket") && Last(fixed, "connection") == Some("Upgrade")
    requires Last(fixed, "sec-websocket-version") == Some("13") && Last(fixed, "sec-websocket-key") == Some(key)
    requires AllProtocols(fixed + proto) == protocols
    ensures var headers := fixed + proto + more;
            Decide(Get, path, headers) == Ok(Upgrade(Request(Get, path, Utf8.Encode(key), protocols, headers)))
  {
    hide Last, AllProtocols, Lacks, IsValidKey, Utf8.Encode, WantsUpgrade, WantsConnection;
    LastOfFirst(fixed, proto, more, "upgrade");
    LastOfFirst(fixed, proto, more, "connection");
    LastOfFirst(fixed, proto, more, "sec-websocket-version");
    LastOfFirst(fixed, proto, more, "sec-websocket-key");
    ProtocolsSkip(fixed + proto, more);
    UpgradeWanted(fixed + proto + more);
  }

  lemma RetainedLacks(extra: seq<Header>)
    requires NoRequestNames(extra)
    ensures NoRequestNames(Retained(extra))
  {
    hide SameName, Trim;
  }

  /** What the retained headers of a printed request ask for. */
  lemma RequestDecides(path: string, host: string, key: string, protocols: seq<string>, extra: seq<Header>)
    requires IsValidKey(Utf8.Encode(key)) && AllTokens(protocols) && NoRequestNames(extra)
    ensures var headers := Retained(RequestHeaders(host, key, protocols, extra));
            Decide(Get, path, headers) == Ok(Upgrade(Request(Get, path, Utf8.Encode(key), protocols, headers)))
  {
    ValidKeyText(key);
    hide Trim, Last, AllProtocols, IsValidKey, Utf8.Encode, AllTokens, NoRequestNames, Lacks, Decide,
         Retained, FixedRequestHeaders, ProtocolHeaders;
    var a, b := FixedRequestHeaders(host, key), ProtocolHeaders(protocols);
    RetainedAppend(a + b, extra);
    RetainedAppend(a, b);
    FixedDecides(host, key);
    ProtocolsDecide(Retained(a), protocols);
    NamesLacked(protocols);
    RetainedLacks(extra);
    DecidesUpgrade(path, key, protocols, Retained(a), Retained(b), Retained(extra));
  }

  lemma NamesLacked(protocols: seq<string>)
    ensures var proto := Retained(ProtocolHeaders(protocols));
            Lacks(proto, "upgrade") && Lacks(proto, "connection") &&
            Lacks(proto, "sec-websocket-version") && Lacks(proto, "sec-websocket-key")
  {
    hide Join, Trim;
  }

  lemma GetIsGet()
    ensures ParseMethod("GET") == Get
  {
  }

  lemma RequestLineIsClean(path: string)
    requires Clean(path)
    ensures Clean(RequestLine(path))
  {
    assert Clean("GET ") && Clean(" HTTP/1.1");
  }

  lemma RequestLineParses(path: string)
    requires ' ' !in path
    ensures Split(RequestLine(path), ' ') == ["GET", path, "HTTP/1.1"]
  {
    hide Split;
    assert RequestLine(path) == "GET" + [' '] + (path + [' '] + "HTTP/1.1");
    SplitHere("GET", ' ', path + [' '] + "HTTP/1.1");
    SplitHere(path, ' ', "HTTP/1.1");
    SplitLast("HTTP/1.1", ' ');
    assert ["GET"] + ([path] + ["HTTP/1.1"]) == ["GET", path, "HTTP/1.1"];
  }

  /** A request may be printed: nothing in it breaks a line or repeats what the handshake says. */
  predicate Printable(path: string, host: string, key: string, protocols: seq<string>, extra: seq<Header>) {
    Clean(path) && ' ' !in path && Clean(host) && IsValidKey(Utf8.Encode(key)) &&
    AllTokens(protocols) && (forall i :: 0 <= i < |protocols| ==> Clean(protocols[i])) &&
    GoodHeaders(extra) && NoRequestNames(extra)
  }

  lemma {:induction false} JoinIsClean(protocols: seq<string>)
    requires forall i :: 0 <= i < |protocols| ==> Clean(protocols[i])
    ensures Clean(Join(protocols, ", "))
  {
    if |protocols| <= 1 {
    } else {
      JoinIsClean(protocols[1..]);
    }
  }

  lemma NamesAreClean()
    ensures Clean("Host") && ':' !in "Host" && Clean("Upgrade") && ':' !in "Upgrade"
    ensures Clean("Connection") && ':' !in "Connection" && Clean("websocket") && Clean("13")
  {
  }

  lemma KeyNameIsClean()
    ensures Clean("Sec-WebSocket-Key") && ':' !in "Sec-WebSocket-Key"
  {
  }

  lemma VersionNameIsClean()
    ensures Clean("Sec-WebSocket-Version") && ':' !in "Sec-WebSocket-Version"
  {
  }

  lemma ProtocolNameIsClean()
    ensures Clean("Sec-WebSocket-Protocol") && ':' !in "Sec-WebSocket-Protocol"
  {
  }

  lemma GoodAppend(a: seq<Header>, b: seq<Header>)
    requires GoodHeaders(a) && GoodHeaders(b)
    ensures GoodHeaders(a + b)
  {
  }

  lemma RequestHeadersAreGood(path: string, host: string, key: string, protocols: seq<string>, extra: seq<Header>)
    requires Printable(path, host, key, protocols, extra)
    ensures GoodHeaders(RequestHeaders(host, key, protocols, extra))
  {
    hide Join, Utf8.Encode, Trim, IsToken, SameName, Clean;
    ValidKeyText(key);
    JoinIsClean(protocols);
    NamesAreClean();
    KeyNameIsClean();
    VersionNameIsClean();
    ProtocolNameIsClean();
    GoodAppend(FixedRequestHeaders(host, key), ProtocolHeaders(protocols));
    GoodAppend(FixedRequestHeaders(host, key) + ProtocolHeaders(protocols), extra);
  }

  /** A printed request within the limits is read as exactly the upgrade it asks for. */
  lemma RequestRoundTrip(path: string, host: string, key: string, protocols: seq<string>,
                         extra: seq<Header>, maxHead: nat)
    requires Printable(path, host, key, protocols, extra)
    requires |RequestHeaders(host, key, protocols, extra)| <= MAX_HEADERS
    requires |Utf8.Encode(HeadText(RequestLine(path), RequestHeaders(host, key, protocols, extra)))| <= maxHead
    ensures var headers := RequestHeaders(host, key, protocols, extra);
            Handshake.Verdict(Utf8.Encode(HeadText(RequestLine(path), headers)), maxHead) ==
            Ok(Upgrade(Request(Get, path, Utf8.Encode(key), protocols, Retained(headers))))
  {
    hide Utf8.Encode, Utf8.Decode, Utf8.IsUtf8, HeadText, RequestHeaders, Lines, Collect, Decide, Retained, RequestLine;
    var headers := RequestHeaders(host, key, protocols, extra);
    var text := HeadText(RequestLine(path), headers);
    Utf8.DecodeEncode(text);
    RequestHeadersAreGood(path, host, key, protocols, extra);
    RequestLineIsClean(path);
    RequestLineParses(path);
    GetIsGet();
    HeadLines(RequestLine(path), headers);
    assert Lines(text)[1..] == PrintedAll(headers) + ["", ""];
    CollectHead(headers);
    RequestDecides(path, host, key, protocols, extra);
  }

  // ---- Where a head ends -----------------------------------------------------------------------

  /** No octet of `s` is a carriage return or a line feed. */
  predicate Lineless(s: seq<byte>) {
    forall i :: 0 <= i < |s| ==> s[i] != 13 && s[i] != 10
  }

  predicate At(input: seq<byte>, pattern: seq<byte>, i: nat) {
    i + |pattern| <= |input| && input[i..i + |pattern|] == pattern
  }

  function Shifted(at: Option<nat>, k: nat): Option<nat> {
    if at.None? then None else Some(at.value + k)
  }

  lemma AtTail(input: seq<byte>, pattern: seq<byte>, j: nat)
    requires input != []
    ensures At(input[1..], pattern, j) <==> At(input, pattern, j + 1)
  {
    var n := |pattern|;
    assert j + 1 + n <= |input| ==> input[1..][j..j + n] == input[j + 1..j + 1 + n];
  }

  lemma FindStep(input: seq<byte>, pattern: seq<byte>)
    requires pattern != [] && input != [] && !At(input, pattern, 0)
    ensures Find(input, pattern) == Shifted(Find(input[1..], pattern), 1)
  {
    assert |input| >= |pattern| ==> input[0..|pattern|] == input[..|pattern|];
  }

  /** The search may start at the first position where a match is possible. */
  lemma {:induction false} FindSkip(input: seq<byte>, pattern: seq<byte>, k: nat)
    requires pattern != [] && k <= |input|
    requires forall j :: 0 <= j < k ==> !At(input, pattern, j)
    ensures Find(input, pattern) == Shifted(Find(input[k..], pattern), k)
    decreases k
  {
    hide Find, At;
    if k > 0 {
      var rest := input[1..];
      forall j | 0 <= j < k - 1 ensures !At(rest, pattern, j) {
        AtTail(input, pattern, j);
      }
      FindStep(input, pattern);
      FindSkip(rest, pattern, k - 1);
      assert rest[k - 1..] == input[k..];
    } else {
      assert input[0..] == input;
    }
  }

  /** A match is where the first octets are. */
  lemma NoMatchWithout(input: seq<byte>, j: nat)
    requires j < |input| && (input[j] != 13 || (j + 2 < |input| && input[j + 2] != 13))
    ensures !At(input, CRLFCRLF, j)
  {
    assert j + 4 <= |input| ==> input[j..j + 4][0] == input[j] && input[j..j + 4][2] == input[j + 2];
  }

  /** One line of a head: the search goes on behind its end, unless a blank line follows. */
  lemma FindAfterLine(line: seq<byte>, rest: seq<byte>)
    requires Lineless(line) && rest != [] && rest[0] != 13
    ensures Find(line + CRLF + rest, CRLFCRLF) == Shifted(Find(rest, CRLFCRLF), |line| + 2)
  {
    hide Find, At;
    var whole := line + CRLF + rest;
    var n := |line|;
    assert whole[n + 1] == 10 && whole[n + 2] == rest[0];
    forall j | 0 <= j < n + 2 ensures !At(whole, CRLFCRLF, j) {
      assert j < n ==> whole[j] == line[j];
      NoMatchWithout(whole, j);
    }
    FindSkip(whole, CRLFCRLF, |line| + 2);
    assert whole[|line| + 2..] == rest;
  }

  /** The last line and the blank one behind it. */
  lemma FindAtBlank(line: seq<byte>, rest: seq<byte>)
    requires Lineless(line)
    ensures Find(line + CRLF + CRLF + rest, CRLFCRLF) == Some(|line|)
  {
    var whole := line + CRLF + CRLF + rest;
    forall j | 0 <= j < |line| ensures !At(whole, CRLFCRLF, j) {
      assert whole[j] == line[j];
      NoMatchWithout(whole, j);
    }
    FindSkip(whole, CRLFCRLF, |line|);
    assert whole[|line|..][..4] == CRLFCRLF;
  }

  lemma EncodedLine(line: string, rest: string)
    requires Clean(line)
    ensures Utf8.Encode(line + "\r\n" + rest) == Utf8.Encode(line) + CRLF + Utf8.Encode(rest)
    ensures Lineless(Utf8.Encode(line))
  {
    Utf8.EncodeAscii("\r\n");
    hide Utf8.Encode;
    Utf8.EncodeAppend(line + "\r\n", rest);
    Utf8.EncodeAppend(line, "\r\n");
    Utf8.EncodeAvoids(line, '\r');
    Utf8.EncodeAvoids(line, '\n');
    assert Utf8.Encode("\r\n") == CRLF;
  }

  /** The octets after a line of a head do not start with a line end while headers remain. */
  lemma EncodedStart(line: string, rest: string)
    requires line != "" && Clean(line)
    ensures var b := Utf8.Encode(line + rest);
            b != [] && b[0] != 13
  {
    var head := Utf8.Encode(line);
    Utf8.EncodeAppend(line, rest);
    Utf8.EncodeAvoids(line, '\r');
    assert |head| > 0 && head[0] != 13;
    assert (head + Utf8.Encode(rest))[0] == head[0];
  }

  /** `head_end` finds the end of a printed head exactly, whatever follows it. */
  lemma {:induction false} FindEndOfHead(start: string, headers: seq<Header>, more: seq<byte>)
    requires Clean(start) && GoodHeaders(headers)
    ensures Find(Utf8.Encode(HeadText(start, headers)) + more, CRLFCRLF)
         == Some(|Utf8.Encode(HeadText(start, headers))| - 4)
    decreases headers
  {
    hide Utf8.Encode, Find, Printed;
    if headers == [] {
      assert HeadText(start, []) == start + "\r\n" + "\r\n";
      EncodedLine(start, "\r\n");
      EncodedLine("", "");
      assert "" + "\r\n" + "" == "\r\n";
      EncodedNothing();
      var line := Utf8.Encode(start);
      assert Utf8.Encode("\r\n") == CRLF;
      FindAtBlank(line, more);
      assert Utf8.Encode(HeadText(start, [])) == line + CRLF + CRLF;
    } else {
      var next, line := Printed(headers[0]), Utf8.Encode(start);
      var text := HeadText(next, headers[1..]);
      HeadTextStep(start, headers);
      EncodedLine(start, text);
      PrintedIsText(headers[0]);
      EncodedStart(next, "\r\n" + HeaderBlock(headers[1..]) + "\r\n");
      FindEndOfHead(next, headers[1..], more);
      assert next + ("\r\n" + HeaderBlock(headers[1..]) + "\r\n") == text;
      assert (line + CRLF + Utf8.Encode(text)) + more == line + CRLF + (Utf8.Encode(text) + more);
      FindAfterLine(line, Utf8.Encode(text) + more);
    }
  }

  lemma EncodedNothing()
    ensures Utf8.Encode("") == []
  {
  }

  lemma PrintedIsText(h: Header)
    requires GoodHeader(h)
    ensures Printed(h) != "" && Clean(Printed(h))
  {
  }

  lemma HeadTextStep(start: string, headers: seq<Header>)
    requires headers != []
    ensures HeadText(start, headers) == start + "\r\n" + HeadText(Printed(headers[0]), headers[1..])
  {
    hide Printed;
  }

  /** The end of a printed head is found exactly, even with the peer's first frames behind it. */
  lemma HeadEndOfPrinted(start: string, headers: seq<Header>, more: seq<byte>)
    requires Clean(start) && GoodHeaders(headers)
    ensures HeadEnd(Utf8.Encode(HeadText(start, headers)) + more)
         == Some(|Utf8.Encode(HeadText(start, headers))|)
  {
    hide Utf8.Encode, Find, HeadText;
    FindEndOfHead(start, headers, more);
  }
}
