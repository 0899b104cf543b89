/** Printing the two heads of the handshake, and reading back what was printed. */
module Heads {
  import opened Bytes
  import opened Text
  import opened Handshake
  import Utf8

  // ---- What is printed ------------------------------------------------------------------------

  function Printed(h: Header): string {
    h.name + ": " + h.value
  }

  function HeaderBlock(headers: seq<Header>): string {
    if headers == [] then "" else Printed(headers[0]) + "\r\n" + HeaderBlock(headers[1..])
  }

  /** A whole head: the start line, the headers, the blank line. */
  function HeadText(start: string, headers: seq<Header>): string {
    start + "\r\n" + HeaderBlock(headers) + "\r\n"
  }

  function FixedRequestHeaders(host: string, key: string): seq<Header> {
    [Header("Host", host), Header("Upgrade", "websocket"), Header("Connection", "Upgrade"),
     Header("Sec-WebSocket-Key", key), Header("Sec-WebSocket-Version", "13")]
  }

  function ProtocolHeaders(protocols: seq<string>): seq<Header> {
    if protocols == [] then [] else [Header("Sec-WebSocket-Protocol", Join(protocols, ", "))]
  }

  function RequestHeaders(host: string, key: string, protocols: seq<string>, extra: seq<Header>): seq<Header> {
    FixedRequestHeaders(host, key) + ProtocolHeaders(protocols) + extra
  }

  function RequestLine(path: string): string {
    "GET " + path + " HTTP/1.1"
  }

  const STATUS_LINE := "HTTP/1.1 101 Switching Protocols"

  function ResponseHeaders(accept: string, protocol: Option<string>, extra: seq<Header>): seq<Header> {
    [Header("Upgrade", "websocket"), Header("Connection", "Upgrade"), Header("Sec-WebSocket-Accept", accept)]
    + (if protocol.Some? then [Header("Sec-WebSocket-Protocol", protocol.value)] else [])
    + extra
  }

  lemma {:induction false} HeaderBlockAppend(a: seq<Header>, b: seq<Header>)
    ensures HeaderBlock(a + b) == HeaderBlock(a) + HeaderBlock(b)
  {
    hide Printed;
    if a == [] {
      assert a + b == b;
    } else {
      HeaderBlockAppend(a[1..], b);
      assert (a + b)[1..] == a[1..] + b;
      var line := Printed(a[0]) + "\r\n";
      assert line + (HeaderBlock(a[1..]) + HeaderBlock(b)) == line + HeaderBlock(a[1..]) + HeaderBlock(b);
    }
  }

  lemma HeaderBlockSnoc(a: seq<Header>, h: Header)
    ensures HeaderBlock(a + [h]) == HeaderBlock(a) + (h.name + ": " + h.value + "\r\n")
  {
    HeaderBlockAppend(a, [h]);
    assert HeaderBlock([h]) == Printed(h) + "\r\n" + HeaderBlock([]);
  }

  /** Append one printed header per element. */
  method PushHeaders(start: string, headers: seq<Header>) returns (out: string)
    ensures out == start + HeaderBlock(headers)
  {
    out := start;
    assert headers[..0] == [];
    for i := 0 to |headers|
      invariant out == start + HeaderBlock(headers[..i])
    {
      HeaderBlockSnoc(headers[..i], headers[i]);
      assert headers[..i + 1] == headers[..i] + [headers[i]];
      out := out + headers[i].name;
      out := out + ": ";
      out := out + headers[i].value;
      out := out + "\r\n";
    }
    assert headers[..|headers|] == headers;
  }

  // The literals the request is written with, in terms of the headers they hold.

  lemma HostLiteral()
    ensures " HTTP/1.1\r\nHost: " == " HTTP/1.1" + "\r\n" + ("Host" + ": ")
  {
  }

  lemma UpgradeLiteral()
    ensures "Upgrade: websocket\r\n" == "Upgrade" + ": " + "websocket" + "\r\n"
  {
  }

  lemma ConnectionLiteral()
    ensures "Connection: Upgrade\r\n" == "Connection" + ": " + "Upgrade" + "\r\n"
  {
  }

  lemma KeyLiteral()
    ensures "Sec-WebSocket-Key: " == "Sec-WebSocket-Key" + ": "
  {
  }

  lemma AcceptLiteral()
    ensures "Sec-WebSocket-Accept: " == "Sec-WebSocket-Accept" + ": "
  {
  }

  lemma VersionLiteral()
    ensures "\r\nSec-WebSocket-Version: 13\r\n" == "\r\n" + ("Sec-WebSocket-Version" + ": " + "13" + "\r\n")
  {
  }

  lemma FixedBlock(h: seq<Header>)
    requires |h| == 5
    ensures HeaderBlock(h) ==
            Printed(h[0]) + "\r\n" + (Printed(h[1]) + "\r\n") + (Printed(h[2]) + "\r\n") +
            (Printed(h[3]) + "\r\n") + (Printed(h[4]) + "\r\n")
  {
    hide HeaderBlock, Printed;
    BlockStep(h, 0);
    BlockStep(h, 1);
    BlockStep(h, 2);
    BlockStep(h, 3);
    BlockStep(h, 4);
    assert h[..5] == h;
    assert HeaderBlock(h[..0]) == "" by { NoBlock(h); }
  }

  lemma NoBlock(h: seq<Header>)
    ensures HeaderBlock(h[..0]) == ""
  {
  }

  lemma BlockStep(h: seq<Header>, i: nat)
    requires i < |h|
    ensures HeaderBlock(h[..i + 1]) == HeaderBlock(h[..i]) + (Printed(h[i]) + "\r\n")
  {
    hide HeaderBlock;
    HeaderBlockSnoc(h[..i], h[i]);
    assert h[..i + 1] == h[..i] + [h[i]];
  }

  /** The same characters, bracketed as they are written and as they are specified. */
  lemma Rebracket(get: string, path: string, http: string, nl: string, host0: string, host: string,
                  up: string, co: string, key0: string, key: string, version: string)
    ensures get + path + (http + nl + host0) + host + nl + up + co + key0 + key + (nl + version)
         == get + path + http + nl + (host0 + host + nl + up + co + (key0 + key + nl) + version)
  {
    var a := get + path + http + nl;
    assert get + path + (http + nl + host0) + host == a + (host0 + host);
    var b := host0 + host + nl + up + co;
    assert a + (host0 + host) + nl + up + co + key0 == a + b + key0;
    assert a + b + key0 + key + (nl + version) == a + (b + (key0 + key + nl) + version);
  }

  lemma FixedRequestText(path: string, host: string, key: string)
    ensures RequestLine(path) + "\r\n" + HeaderBlock(FixedRequestHeaders(host, key))
         == "GET " + path + " HTTP/1.1\r\nHost: " + host +
            "\r\n" + "Upgrade: websocket\r\n" + "Connection: Upgrade\r\n" + "Sec-WebSocket-Key: " + key +
            "\r\nSec-WebSocket-Version: 13\r\n"
  {
    hide HeaderBlock;
    HostLiteral();
    UpgradeLiteral();
    ConnectionLiteral();
    KeyLiteral();
    VersionLiteral();
    FixedBlock(FixedRequestHeaders(host, key));
    Rebracket("GET ", path, " HTTP/1.1", "\r\n", "Host" + ": ", host,
              "Upgrade" + ": " + "websocket" + "\r\n", "Connection" + ": " + "Upgrade" + "\r\n",
              "Sec-WebSocket-Key" + ": ", key, "Sec-WebSocket-Version" + ": " + "13" + "\r\n");
  }

  /** `build_request` */
  method BuildRequest(path: string, host: string, key: string, protocols: seq<string>, extra: seq<Header>)
    returns (bytes: seq<byte>)
    ensures bytes == Utf8.Encode(HeadText(RequestLine(path), RequestHeaders(host, key, protocols, extra)))
  {
    hide HeaderBlock, RequestLine, FixedRequestHeaders, Utf8.Encode, Join;
    var out := "GET ";
    out := out + path;
    out := out + " HTTP/1.1\r\nHost: ";
    out := out + host;
    out := out + "\r\n";
    out := out + "Upgrade: websocket\r\n";
    out := out + "Connection: Upgrade\r\n";
    out := out + "Sec-WebSocket-Key: ";
    out := out + key;
    out := out + "\r\nSec-WebSocket-Version: 13\r\n";
    FixedRequestText(path, host, key);
    ghost var fixed := FixedRequestHeaders(host, key);
    ghost var start := RequestLine(path) + "\r\n";
    assert out == start + HeaderBlock(fixed);
    if protocols != [] {
      HeaderBlockSnoc(fixed, ProtocolHeaders(protocols)[0]);
      out := out + "Sec-WebSocket-Protocol: ";
      out := out + Join(protocols, ", ");
      out := out + "\r\n";
    } else {
      assert fixed + ProtocolHeaders(protocols) == fixed;
    }
    assert out == start + HeaderBlock(fixed + ProtocolHeaders(protocols));
    HeaderBlockAppend(fixed + ProtocolHeaders(protocols), extra);
    ghost var head := HeaderBlock(fixed + ProtocolHeaders(protocols));
    out := PushHeaders(out, extra);
    assert start + head + HeaderBlock(extra) == start + (head + HeaderBlock(extra));
    out := out + "\r\n";
    bytes := Utf8.Encode(out);
  }

  /** `build_response` */
  method BuildResponse(key: seq<byte>, protocol: Option<string>, extra: seq<Header>) returns (bytes: seq<byte>)
    requires |key| + 36 < 0x2000_0000_0000_0000
    ensures bytes == Utf8.Encode(HeadText(STATUS_LINE, ResponseHeaders(AcceptFor(key), protocol, extra)))
  {
    hide HeaderBlock, STATUS_LINE, Utf8.Encode, AcceptFor;
    var accept := ComputeAccept(key);
    ghost var fixed := ResponseHeaders(accept, None, []);
    var out := STATUS_LINE + "\r\n";
    out := out + "Upgrade: websocket\r\n";
    out := out + "Connection: Upgrade\r\n";
    out := out + "Sec-WebSocket-Accept: ";
    out := out + accept;
    out := out + "\r\n";
    FixedResponseText(accept);
    ghost var start := STATUS_LINE + "\r\n";
    assert out == start + HeaderBlock(fixed);
    ghost var all := fixed;
    if protocol.Some? {
      HeaderBlockSnoc(fixed, Header("Sec-WebSocket-Protocol", protocol.value));
      all := fixed + [Header("Sec-WebSocket-Protocol", protocol.value)];
      out := out + "Sec-WebSocket-Protocol: ";
      out := out + protocol.value;
      out := out + "\r\n";
    }
    assert out == start + HeaderBlock(all);
    assert all + extra == ResponseHeaders(accept, protocol, extra);
    HeaderBlockAppend(all, extra);
    out := PushHeaders(out, extra);
    assert start + HeaderBlock(all) + HeaderBlock(extra) == start + (HeaderBlock(all) + HeaderBlock(extra));
    out := out + "\r\n";
    bytes := Utf8.Encode(out);
  }

  lemma ThreeBlock(h: seq<Header>)
    requires |h| == 3
    ensures HeaderBlock(h) == Printed(h[0]) + "\r\n" + (Printed(h[1]) + "\r\n") + (Printed(h[2]) + "\r\n")
  {
    hide HeaderBlock, Printed;
    BlockStep(h, 0);
    BlockStep(h, 1);
    BlockStep(h, 2);
    assert h[..3] == h;
    assert HeaderBlock(h[..0]) == "" by { NoBlock(h); }
  }

  lemma FixedResponseText(accept: string)
    ensures HeaderBlock(ResponseHeaders(accept, None, []))
         == "Upgrade: websocket\r\n" + "Connection: Upgrade\r\n" + "Sec-WebSocket-Accept: " + accept + "\r\n"
  {
    hide HeaderBlock;
    var h := ResponseHeaders(accept, None, []);
    assert h == [Header("Upgrade", "websocket"), Header("Connection", "Upgrade"),
                 Header("Sec-WebSocket-Accept", accept)];
    ThreeBlock(h);
    hide ResponseHeaders;
    UpgradeLiteral();
    ConnectionLiteral();
    AcceptLiteral();
    assert Printed(h[2]) + "\r\n" == "Sec-WebSocket-Accept: " + accept + "\r\n";
    ThreeParts(Printed(h[0]) + "\r\n", Printed(h[1]) + "\r\n", "Sec-WebSocket-Accept: ", accept, "\r\n");
  }

  lemma ThreeParts(a: string, b: string, c: string, d: string, e: string)
    ensures a + b + (c + d + e) == a + b + c + d + e
  {
  }

  // ---- Both heads in full ---------------------------------------------------------------------

  /** One optional line. */
  function ProtocolLine(protocol: Option<string>): string {
    if protocol.None? then "" else "Sec-WebSocket-Protocol: " + protocol.value + "\r\n"
  }

  lemma ProtocolBlock(fixed: seq<Header>, own: seq<Header>, protocol: Option<string>, extra: seq<Header>)
    requires own == if protocol.None? then [] else [Header("Sec-WebSocket-Protocol", protocol.value)]
    ensures HeaderBlock(fixed + own + extra) == HeaderBlock(fixed) + ProtocolLine(protocol) + HeaderBlock(extra)
  {
    hide HeaderBlock;
    HeaderBlockAppend(fixed + own, extra);
    if protocol.None? {
      assert fixed + own == fixed;
    } else {
      HeaderBlockSnoc(fixed, Header("Sec-WebSocket-Protocol", protocol.value));
      ProtocolLiteral();
    }
  }

  lemma ProtocolLiteral()
    ensures "Sec-WebSocket-Protocol: " == "Sec-WebSocket-Protocol" + ": "
  {
  }

  /** The request, written out. */
  lemma RequestIs(path: string, host: string, key: string, protocols: seq<string>, extra: seq<Header>)
    ensures HeadText(RequestLine(path), RequestHeaders(host, key, protocols, extra)) ==
            "GET " + path + " HTTP/1.1\r\nHost: " + host +
            "\r\n" + "Upgrade: websocket\r\n" + "Connection: Upgrade\r\n" + "Sec-WebSocket-Key: " + key +
            "\r\nSec-WebSocket-Version: 13\r\n" +
            ProtocolLine(if protocols == [] then None else Some(Join(protocols, ", "))) +
            HeaderBlock(extra) + "\r\n"
  {
    hide HeaderBlock, Join, RequestLine, FixedRequestHeaders, ProtocolLine;
    var protocol := if protocols == [] then None else Some(Join(protocols, ", "));
    FixedRequestText(path, host, key);
    ProtocolBlock(FixedRequestHeaders(host, key), ProtocolHeaders(protocols), protocol, extra);
    Regroup4(RequestLine(path) + "\r\n", HeaderBlock(FixedRequestHeaders(host, key)), ProtocolLine(protocol),
             HeaderBlock(extra));
  }

  /** The answer, written out. */
  lemma ResponseIs(accept: string, protocol: Option<string>, extra: seq<Header>)
    ensures HeadText(STATUS_LINE, ResponseHeaders(accept, protocol, extra)) ==
            "HTTP/1.1 101 Switching Protocols" + "\r\n" +
            ("Upgrade: websocket\r\n" + "Connection: Upgrade\r\n" + "Sec-WebSocket-Accept: " + accept + "\r\n") +
            ProtocolLine(protocol) + HeaderBlock(extra) + "\r\n"
  {
    hide HeaderBlock, ProtocolLine;
    FixedResponseText(accept);
    var fixed := ResponseHeaders(accept, None, []);
    var own := if protocol.None? then [] else [Header("Sec-WebSocket-Protocol", protocol.value)];
    assert ResponseHeaders(accept, protocol, extra) == fixed + own + extra;
    hide ResponseHeaders;
    ProtocolBlock(fixed, own, protocol, extra);
    Regroup4(STATUS_LINE + "\r\n", HeaderBlock(fixed), ProtocolLine(protocol), HeaderBlock(extra));
  }

  lemma Regroup4(a: string, b: string, c: string, d: string)
    ensures a + (b + c + d) == a + b + c + d
  {
  }
}
