/** The client's check of the server's answer. */
module Response {
  import opened Bytes
  import opened Text
  import opened Handshake
  import opened Heads
  import opened RoundTrip
  import Utf8
  import Base64
  import Sha1

  /** The headers of the lines that hold one; other lines are passed over. */
  function Skim(lines: seq<string>): seq<Header> {
    if lines == [] then [] else
    var n := |lines| - 1;
    Skim(lines[..n]) + match ParseHeader(lines[n]) case None => [] case Some(h) => [h]
  }

  /** The verdict on an answer: the last accept header must be the one the key calls for. */
  function CheckVerdict(input: seq<byte>, key: string): Result<Option<string>> {
    if !Utf8.IsUtf8(input) then Err(Malformed)
    else
      var lines := Lines(Utf8.Decode(input));
      var headers := Skim(lines[1..]);
      if !Contains(lines[0], "101") then Err(NotAnUpgrade)
      else if Last(headers, "sec-websocket-accept") != Some(AcceptFor(Utf8.Encode(key))) then Err(BadKey)
      else Ok(Last(headers, "sec-websocket-protocol"))
  }

  lemma TwoNames(name: string)
    ensures SameName(name, "sec-websocket-accept") ==> |name| == 20
    ensures SameName(name, "sec-websocket-protocol") ==> |name| == 22
  {
  }

  /** `check_response` */
  method CheckResponse(input: seq<byte>, key: string) returns (r: Result<Option<string>>)
    requires |Utf8.Encode(key)| + 36 < 0x2000_0000_0000_0000
    ensures r == CheckVerdict(input, key)
  {
    hide SameName, Split, Trim, Utf8.Encode, Utf8.Decode, Utf8.IsUtf8, Lines, Contains, AcceptFor, Skim, Last;
    SkimNothing();
    if !Utf8.IsUtf8(input) {
      return Err(Malformed);
    }
    var lines := Lines(Utf8.Decode(input));
    if !Contains(lines[0], "101") {
      return Err(NotAnUpgrade);
    }
    var expected := ComputeAccept(Utf8.Encode(key));
    var acceptOk := false;
    var protocol: Option<string> := None;
    ghost var rest := lines[1..];
    assert rest[..0] == [];
    for i := 1 to |lines|
      invariant acceptOk == (Last(Skim(rest[..i - 1]), "sec-websocket-accept") == Some(expected))
      invariant protocol == Last(Skim(rest[..i - 1]), "sec-websocket-protocol")
    {
      var line := lines[i];
      ghost var before := Skim(rest[..i - 1]);
      SkimSnoc(rest, i - 1);
      NoHeaderInNothing();
      assert before + [] == before;
      if line == "" {
        continue;
      }
      var split := SplitOnce(line, ':');
      if split.None? {
        continue;
      }
      var name, value := split.value.0, Trim(split.value.1);
      TwoNames(name);
      LastSnoc(before, Header(name, value), "sec-websocket-accept");
      LastSnoc(before, Header(name, value), "sec-websocket-protocol");
      if SameName(name, "sec-websocket-accept") {
        acceptOk := value == expected;
      } else if SameName(name, "sec-websocket-protocol") {
        protocol := Some(value);
      }
    }
    assert rest[..|rest|] == rest;
    if !acceptOk {
      return Err(BadKey);
    }
    return Ok(protocol);
  }

  /** An accepted answer proves itself: the last accept header is the one the key calls for,
      wherever it stands among the others. */
  lemma AcceptedAnswer(input: seq<byte>, key: string)
    ensures CheckVerdict(input, key).Ok? <==>
            Utf8.IsUtf8(input) && Contains(Lines(Utf8.Decode(input))[0], "101") &&
            var headers := Skim(Lines(Utf8.Decode(input))[1..]);
            LastValueIs(headers, "sec-websocket-accept", AcceptFor(Utf8.Encode(key)))
  {
    hide Utf8.Encode, Utf8.Decode, Utf8.IsUtf8, Lines, Contains, AcceptFor, Skim, Last, LastValueIs;
    if Utf8.IsUtf8(input) {
      LastMeans(Skim(Lines(Utf8.Decode(input))[1..]), "sec-websocket-accept", AcceptFor(Utf8.Encode(key)));
    }
  }

  ghost predicate Says101(line: string) {
    exists i: nat :: i <= |line| && StartsWith(line[i..], "101")
  }

  lemma Says101Iff(line: string)
    ensures Contains(line, "101") <==> Says101(line)
  {
    ContainsIff(line, "101");
  }

  /** Every verdict, exactly: not text, no 101, the wrong accept value, or the protocol named last. */
  lemma AnswerIff(input: seq<byte>, key: string)
    ensures CheckVerdict(input, key) == Err(Malformed) <==> !Utf8.IsUtf8(input)
    ensures Utf8.IsUtf8(input) ==>
              var lines := Lines(Utf8.Decode(input));
              var headers := Skim(lines[1..]);
              var says101 := Says101(lines[0]);
              var accepted := LastValueIs(headers, "sec-websocket-accept", AcceptFor(Utf8.Encode(key)));
              (CheckVerdict(input, key) == Err(NotAnUpgrade) <==> !says101) &&
              (CheckVerdict(input, key) == Err(BadKey) <==> says101 && !accepted) &&
              (forall protocol :: CheckVerdict(input, key) == Ok(Some(protocol)) <==>
                 says101 && accepted && LastValueIs(headers, "sec-websocket-protocol", protocol)) &&
              (CheckVerdict(input, key) == Ok(None) <==>
                 says101 && accepted && forall h :: h in headers ==> !SameName(h.name, "sec-websocket-protocol"))
  {
    hide Utf8.Encode, Utf8.Decode, Utf8.IsUtf8, Lines, Contains, AcceptFor, Skim, Last, LastValueIs, SameName,
         Says101;
    if Utf8.IsUtf8(input) {
      var lines := Lines(Utf8.Decode(input));
      var headers := Skim(lines[1..]);
      Says101Iff(lines[0]);
      LastMeans(headers, "sec-websocket-accept", AcceptFor(Utf8.Encode(key)));
      LastIsOne(headers, "sec-websocket-protocol");
      NoneNamed(headers, "sec-websocket-protocol");
    }
  }

  lemma NoneNamed(headers: seq<Header>, name: string)
    ensures Last(headers, name) == None <==> forall h :: h in headers ==> !SameName(h.name, name)
  {
    hide Last, SameName;
    LastWins(headers, name);
    if Last(headers, name).Some? {
      var i: nat :| IsLastNamed(headers, name, i) && headers[i].value == Last(headers, name).value;
      assert headers[i] in headers;
    }
  }

  /** Lines with no colon are passed over, and the others are all there, in order. */
  lemma {:induction false} SkimAppend(a: seq<string>, b: seq<string>)
    ensures Skim(a + b) == Skim(a) + Skim(b)
    ensures |a| == 1 ==> Skim(a) == match ParseHeader(a[0]) case None => [] case Some(h) => [h]
  {
    hide ParseHeader;
    if |a| == 1 {
      assert a[..0] == [];
    }
    if b == [] {
      assert a + b == a;
    } else {
      var n := |b| - 1;
      assert (a + b)[..|a| + n] == a + b[..n];
      SkimAppend(a, b[..n]);
    }
  }

  lemma SkimNothing()
    ensures Skim([]) == [] && forall name :: Last([], name) == None
  {
  }

  lemma SkimSnoc(lines: seq<string>, i: nat)
    requires i < |lines|
    ensures Skim(lines[..i + 1])
         == Skim(lines[..i]) + match ParseHeader(lines[i]) case None => [] case Some(h) => [h]
  {
    hide ParseHeader;
    assert lines[..i + 1][..i] == lines[..i];
  }

  lemma NoHeaderInNothing()
    ensures ParseHeader("") == None
  {
  }

  // ---- A printed response is accepted ---------------------------------------------------------------

  lemma {:induction false} SkimPrinted(headers: seq<Header>)
    requires GoodHeaders(headers)
    ensures Skim(PrintedAll(headers)) == Retained(headers)
  {
    hide Printed, ParseHeader, GoodHeader, Trim;
    if headers == [] {
      assert PrintedAll(headers) == [] && Retained(headers) == [];
    } else {
      var n := |headers| - 1;
      SkimPrinted(headers[..n]);
      PrintedParses(headers[n]);
      assert PrintedAll(headers)[..n] == PrintedAll(headers[..n]);
      assert Retained(headers) == Retained(headers[..n]) + [Retained(headers)[n]];
    }
  }

  lemma SkimHead(headers: seq<Header>)
    requires GoodHeaders(headers)
    ensures Skim(PrintedAll(headers) + ["", ""]) == Retained(headers)
  {
    NoHeaderInNothing();
    hide ParseHeader;
    SkimPrinted(headers);
    var lines := PrintedAll(headers);
    assert (lines + [""])[..|lines|] == lines;
    assert (lines + ["", ""])[..|lines| + 1] == lines + [""];
  }

  /** The accept text has no white space in it. */
  lemma AcceptText(key: seq<byte>)
    ensures Clean(AcceptFor(key)) && Trim(AcceptFor(key)) == AcceptFor(key)
  {
    hide Base64.Encode, Sha1.Digest, Utf8.Encode;
    Base64.AllCharacters(Sha1.Digest(key + Utf8.Encode(WS_GUID)));
    TrimTrimmed(AcceptFor(key));
  }

  predicate NoResponseNames(extra: seq<Header>) {
    Lacks(extra, "sec-websocket-accept") && Lacks(extra, "sec-websocket-protocol")
  }

  lemma AcceptNameIsClean()
    ensures Clean("Sec-WebSocket-Accept") && ':' !in "Sec-WebSocket-Accept"
  {
  }

  lemma ResponseHeadersAreGood(accept: string, protocol: Option<string>, extra: seq<Header>)
    requires Clean(accept) && (protocol.Some? ==> Clean(protocol.value)) && GoodHeaders(extra)
    ensures GoodHeaders(ResponseHeaders(accept, protocol, extra))
  {
    hide Clean;
    NamesAreClean();
    AcceptNameIsClean();
    ProtocolNameIsClean();
  }

  lemma StatusLineParts()
    ensures |STATUS_LINE| == 32 && STATUS_LINE[9] == '1' && STATUS_LINE[10] == '0' && STATUS_LINE[11] == '1'
  {
  }

  lemma StatusLineIsClean()
    ensures Clean(STATUS_LINE)
  {
  }

  lemma StatusLineSays101()
    ensures Contains(STATUS_LINE, "101")
  {
    hide STATUS_LINE;
    StatusLineParts();
    assert STATUS_LINE[9..][..3] == "101";
    ContainsBehind(STATUS_LINE, 9, "101");
  }

  lemma {:induction false} ContainsBehind(s: string, i: nat, needle: string)
    requires i <= |s| && StartsWith(s[i..], needle)
    ensures Contains(s, needle)
  {
    if i == 0 {
      assert s[0..] == s;
    } else {
      assert s[1..][i - 1..] == s[i..];
      ContainsBehind(s[1..], i - 1, needle);
    }
  }

  lemma ResponseDecides(accept: string, protocol: Option<string>, extra: seq<Header>)
    requires Trim(accept) == accept && (protocol.Some? ==> Trim(protocol.value) == protocol.value)
    requires NoResponseNames(extra)
    ensures var headers := Retained(ResponseHeaders(accept, protocol, extra));
            Last(headers, "sec-websocket-accept") == Some(accept) &&
            Last(headers, "sec-websocket-protocol") == protocol
  {
    hide Trim, SameName, Last;
    AcceptName();
    ProtocolName();
    var own := Retained(ResponseHeaders(accept, protocol, []));
    var more := Retained(extra);
    assert Retained(ResponseHeaders(accept, protocol, extra)) == own + more;
    LastSkips(own, more, "sec-websocket-accept");
    LastSkips(own, more, "sec-websocket-protocol");
    LastIs(own, 2, "sec-websocket-accept");
    if protocol.Some? {
      LastIs(own, 3, "sec-websocket-protocol");
    } else {
      LastOfNone(own, "sec-websocket-protocol");
    }
  }

  lemma {:induction false} LastOfNone(headers: seq<Header>, name: string)
    requires forall j :: 0 <= j < |headers| ==> |headers[j].name| != |name|
    ensures Last(headers, name) == None
  {
    if headers == [] {
    } else {
      LastOfNone(headers[..|headers| - 1], name);
    }
  }

  /** The client accepts the server's answer to its own key and learns the protocol selected. */
  lemma ResponseRoundTrip(key: string, protocol: Option<string>, extra: seq<Header>)
    requires protocol.Some? ==> Clean(protocol.value) && Trim(protocol.value) == protocol.value
    requires GoodHeaders(extra) && NoResponseNames(extra)
    ensures var accept := AcceptFor(Utf8.Encode(key));
            CheckVerdict(Utf8.Encode(HeadText(STATUS_LINE, ResponseHeaders(accept, protocol, extra))), key)
            == Ok(protocol)
  {
    hide Utf8.Encode, Utf8.Decode, Utf8.IsUtf8, HeadText, ResponseHeaders, Lines, Skim, Retained, Contains,
         STATUS_LINE, AcceptFor, Trim, Last;
    var accept := AcceptFor(Utf8.Encode(key));
    var headers := ResponseHeaders(accept, protocol, extra);
    var text := HeadText(STATUS_LINE, headers);
    AcceptText(Utf8.Encode(key));
    Utf8.DecodeEncode(text);
    ResponseHeadersAreGood(accept, protocol, extra);
    StatusLineSays101();
    StatusLineIsClean();
    HeadLines(STATUS_LINE, headers);
    assert Lines(text)[1..] == PrintedAll(headers) + ["", ""];
    SkimHead(headers);
    ResponseDecides(accept, protocol, extra);
  }
}
