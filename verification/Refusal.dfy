/** The server's plain HTTP refusal, and what a client makes of it. */
module Refusal {
  import opened Bytes
  import opened Text
  import opened Handshake
  import opened Heads
  import opened RoundTrip
  import opened Response
  import Utf8

  function StatusOf(error: UpgradeError): string {
    match error
    case WrongVersion => "426 Upgrade Required"
    case HeadTooLarge => "431 Request Header Fields Too Large"
    case _ => "400 Bad Request"
  }

  /** The header line an error adds of its own. */
  function ReasonOf(error: UpgradeError): string {
    if error == WrongVersion then "Sec-WebSocket-Version: 13\r\n" else ""
  }

  function RefusalLine(error: UpgradeError): string {
    "HTTP/1.1 " + StatusOf(error)
  }

  /** Section 4.4 of RFC 6455: a wrong version is told which one would do. */
  function RefusalHeaders(error: UpgradeError, extra: seq<Header>): seq<Header> {
    (if error == WrongVersion then [Header("Sec-WebSocket-Version", "13")] else []) +
    [Header("Connection", "close"), Header("Content-Length", "0")] + extra
  }

  /** The refusal as the head it is: a status line, headers, a blank line. */
  function RefusalText(error: UpgradeError, extra: seq<Header>): string {
    HeadText(RefusalLine(error), RefusalHeaders(error, extra))
  }

  // ---- Printing it --------------------------------------------------------------------------------

  lemma CloseLiteral()
    ensures "Connection: close\r\n" == "Connection" + ": " + "close" + "\r\n"
  {
  }

  lemma LengthLiteral()
    ensures "Content-Length: 0\r\n" == "Content-Length" + ": " + "0" + "\r\n"
  {
  }

  lemma WantedVersionLiteral()
    ensures "Sec-WebSocket-Version: 13\r\n" == "Sec-WebSocket-Version" + ": " + "13" + "\r\n"
  {
  }

  /** The part of the refusal behind the status line that does not depend on the caller. */
  lemma OwnBlock(error: UpgradeError)
    ensures HeaderBlock(RefusalHeaders(error, []))
         == ReasonOf(error) + "Connection: close\r\n" + "Content-Length: 0\r\n"
  {
    hide HeaderBlock;
    CloseLiteral();
    LengthLiteral();
    WantedVersionLiteral();
    var version := if error == WrongVersion then [Header("Sec-WebSocket-Version", "13")] else [];
    var close, length := Header("Connection", "close"), Header("Content-Length", "0");
    NoBlock([]);
    assert [] + [Header("Sec-WebSocket-Version", "13")] == [Header("Sec-WebSocket-Version", "13")];
    HeaderBlockSnoc([], Header("Sec-WebSocket-Version", "13"));
    HeaderBlockSnoc(version, close);
    HeaderBlockSnoc(version + [close], length);
    assert RefusalHeaders(error, []) == version + [close] + [length];
  }

  /** `build_rejection` */
  method BuildRejection(error: UpgradeError, extra: seq<Header>) returns (bytes: seq<byte>)
    ensures bytes == Utf8.Encode(RefusalText(error, extra))
  {
    hide Utf8.Encode, HeaderBlock, RefusalHeaders, StatusOf, ReasonOf;
    var status, reason := StatusOf(error), ReasonOf(error);
    OwnBlock(error);
    var out := "HTTP/1.1 ";
    out := out + status;
    out := out + "\r\n";
    assert out == RefusalLine(error) + "\r\n";
    ghost var start := out;
    assert start + reason + "Connection: close\r\n" + "Content-Length: 0\r\n"
        == start + (reason + "Connection: close\r\n" + "Content-Length: 0\r\n");
    out := out + reason;
    out := out + "Connection: close\r\n";
    out := out + "Content-Length: 0\r\n";
    assert out == start + HeaderBlock(RefusalHeaders(error, []));
    out := PushHeaders(out, extra);
    CallersHeaders(error, extra);
    ghost var own := HeaderBlock(RefusalHeaders(error, []));
    assert start + own + HeaderBlock(extra) == start + (own + HeaderBlock(extra));
    out := out + "\r\n";
    bytes := Utf8.Encode(out);
  }

  lemma CallersHeaders(error: UpgradeError, extra: seq<Header>)
    ensures HeaderBlock(RefusalHeaders(error, extra)) == HeaderBlock(RefusalHeaders(error, [])) + HeaderBlock(extra)
  {
    HeaderBlockAppend(RefusalHeaders(error, []), extra);
    assert RefusalHeaders(error, []) + extra == RefusalHeaders(error, extra);
  }

  /** The whole refusal of each error, written out. */
  lemma RefusalIs(error: UpgradeError, extra: seq<Header>)
    ensures RefusalText(error, extra) ==
            (if error == WrongVersion then
               "HTTP/1.1 " + "426 Upgrade Required" + "\r\n" + ("Sec-WebSocket-Version: 13\r\n" + FIXED)
             else if error == HeadTooLarge then
               "HTTP/1.1 " + "431 Request Header Fields Too Large" + "\r\n" + ("" + FIXED)
             else
               "HTTP/1.1 " + "400 Bad Request" + "\r\n" + ("" + FIXED))
            + HeaderBlock(extra) + "\r\n"
  {
    OwnBlock(error);
    CallersHeaders(error, extra);
    hide RefusalHeaders, HeaderBlock;
    Regroup("HTTP/1.1 " + StatusOf(error) + "\r\n", ReasonOf(error), "Connection: close\r\n",
            "Content-Length: 0\r\n", HeaderBlock(extra));
  }

  const FIXED := "Connection: close\r\n" + "Content-Length: 0\r\n"

  lemma Regroup(a: string, b: string, c: string, d: string, e: string)
    ensures a + ((b + c + d) + e) == a + (b + (c + d)) + e
  {
    assert b + c + d == b + (c + d);
  }

  // ---- Reading it ---------------------------------------------------------------------------------

  /** Nowhere a zero right behind a one. */
  predicate NoTen(s: string) {
    forall i :: 0 < i < |s| && s[i] == '0' ==> s[i - 1] != '1'
  }

  lemma StartOf101(s: string)
    ensures StartsWith(s, "101") ==> |s| > 1 && s[0] == '1' && s[1] == '0'
  {
    assert |s| >= 3 ==> s[0] == s[..3][0] && s[1] == s[..3][1];
  }

  lemma {:induction false} NoTenNo101(s: string)
    requires NoTen(s)
    ensures !Contains(s, "101")
  {
    StartOf101(s);
    if s == "" || StartsWith(s, "101") {
    } else {
      var rest := s[1..];
      forall i | 0 < i < |rest| && rest[i] == '0' ensures rest[i - 1] != '1' {
        assert s[i + 1] == rest[i] && s[i] == rest[i - 1];
      }
      NoTenNo101(rest);
    }
  }

  lemma PrefixIs()
    ensures Clean("HTTP/1.1 ") && NoTen("HTTP/1.1 ") && "HTTP/1.1 "[8] == ' ' && |"HTTP/1.1 "| == 9
  {
  }

  lemma VersionStatusIs()
    ensures Clean("426 Upgrade Required") && NoTen("426 Upgrade Required")
  {
  }

  lemma SizeStatusIs()
    ensures Clean("431 Request Header Fields Too Large") && NoTen("431 Request Header Fields Too Large")
  {
  }

  lemma OtherStatusIs()
    ensures Clean("400 Bad Request") && NoTen("400 Bad Request")
  {
  }

  lemma Joined(a: string, b: string)
    requires Clean(a) && NoTen(a) && Clean(b) && NoTen(b) && a != "" && a[|a| - 1] != '1'
    ensures Clean(a + b) && NoTen(a + b)
  {
    var s := a + b;
    forall i | 0 < i < |s| && s[i] == '0' ensures s[i - 1] != '1' {
      assert i > |a| ==> s[i] == b[i - |a|] && s[i - 1] == b[i - 1 - |a|];
      assert i < |a| ==> s[i] == a[i] && s[i - 1] == a[i - 1];
    }
  }

  lemma RefusalLineIs(error: UpgradeError)
    ensures Clean(RefusalLine(error)) && NoTen(RefusalLine(error))
  {
    PrefixIs();
    VersionStatusIs();
    SizeStatusIs();
    OtherStatusIs();
    hide Clean, NoTen;
    Joined("HTTP/1.1 ", StatusOf(error));
  }

  lemma RefusalHeadersAreGood(error: UpgradeError, extra: seq<Header>)
    requires GoodHeaders(extra)
    ensures GoodHeaders(RefusalHeaders(error, extra))
  {
    hide Clean;
    NamesAreClean();
    VersionNameIsClean();
    CloseIsClean();
    LengthIsClean();
  }

  lemma CloseIsClean()
    ensures Clean("close") && Clean("0")
  {
  }

  lemma LengthIsClean()
    ensures Clean("Content-Length") && ':' !in "Content-Length"
  {
  }

  /** No refusal, whatever the error and the caller's headers, is taken for an acceptance. */
  lemma RefusalIsNoUpgrade(error: UpgradeError, extra: seq<Header>, key: string)
    requires GoodHeaders(extra)
    ensures CheckVerdict(Utf8.Encode(RefusalText(error, extra)), key) == Err(NotAnUpgrade)
  {
    hide Utf8.Encode, Utf8.Decode, Utf8.IsUtf8, HeadText, RefusalHeaders, RefusalLine, Lines, Contains, NoTen, Skim,
         AcceptFor, Last, Clean;
    RefusalLineIs(error);
    RefusalHeadersAreGood(error, extra);
    NoTenNo101(RefusalLine(error));
    Utf8.DecodeEncode(RefusalText(error, extra));
    HeadLines(RefusalLine(error), RefusalHeaders(error, extra));
  }
}
