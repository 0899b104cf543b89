/** The two ends of the opening handshake over live streams, and what happens to the bytes that
    arrive together with the heads. */
module Opening {
  import opened Bytes
  import opened Bits
  import opened Text
  import opened Handshake
  import opened Heads
  import opened RoundTrip
  import opened Response
  import opened Refusal
  import opened Upgrade
  import opened Conn
  import opened Delivery
  import Base64
  import Mask
  import Messages
  import Receiving
  import Sending
  import Sha1
  import Utf8

  // ---- A printed head is settled ------------------------------------------------------------------

  /** Every line feed has a carriage return before it. */
  predicate CRBeforeLF(s: seq<byte>) {
    forall k :: 0 <= k < |s| && s[k] == 10 ==> k > 0 && s[k - 1] == 13
  }

  lemma CRBeforeLFAppend(a: seq<byte>, b: seq<byte>)
    requires CRBeforeLF(a) && CRBeforeLF(b)
    ensures CRBeforeLF(a + b)
  {
    var s := a + b;
    forall k | 0 <= k < |s| && s[k] == 10 ensures k > 0 && s[k - 1] == 13 {
      assert k >= |a| ==> s[k] == b[k - |a|];
    }
  }

  lemma {:induction false} BlockHasCR(headers: seq<Header>)
    requires GoodHeaders(headers)
    ensures CRBeforeLF(Utf8.Encode(HeaderBlock(headers)))
  {
    hide Utf8.Encode, CRBeforeLF, Printed, GoodHeader;
    if headers == [] {
      EncodedNothing();
      NothingHasCR();
    } else {
      var line, rest := Printed(headers[0]), HeaderBlock(headers[1..]);
      BlockHasCR(headers[1..]);
      PrintedIsText(headers[0]);
      EncodedLine(line, rest);
      LineHasCR(Utf8.Encode(line), Utf8.Encode(rest));
      assert HeaderBlock(headers) == line + "\r\n" + rest;
    }
  }

  lemma NothingHasCR()
    ensures CRBeforeLF([]) && CRBeforeLF(CRLF)
  {
  }

  lemma LineHasCR(line: seq<byte>, rest: seq<byte>)
    requires Lineless(line) && CRBeforeLF(rest)
    ensures CRBeforeLF(line + CRLF + rest)
  {
    assert CRBeforeLF(line);
    NothingHasCR();
    CRBeforeLFAppend(line, CRLF);
    CRBeforeLFAppend(line + CRLF, rest);
  }

  lemma HeadHasCR(start: string, headers: seq<Header>)
    requires Clean(start) && GoodHeaders(headers)
    ensures CRBeforeLF(Utf8.Encode(HeadText(start, headers)))
  {
    hide Utf8.Encode, CRBeforeLF, HeaderBlock, GoodHeader;
    var block := HeaderBlock(headers);
    BlockHasCR(headers);
    EncodedLine("", "");
    EncodedNothing();
    NothingHasCR();
    assert "" + "\r\n" + "" == "\r\n";
    assert Utf8.Encode("\r\n") == CRLF;
    Utf8.EncodeAppend(block, "\r\n");
    CRBeforeLFAppend(Utf8.Encode(block), CRLF);
    EncodedLine(start, block + "\r\n");
    LineHasCR(Utf8.Encode(start), Utf8.Encode(block + "\r\n"));
    assert HeadText(start, headers) == start + "\r\n" + (block + "\r\n");
  }

  /** A head whose line feeds all follow carriage returns is settled, whatever comes behind it. */
  lemma HeadIsSettled(head: seq<byte>, more: seq<byte>, maxHead: nat)
    requires CRBeforeLF(head) && 4 <= |head| <= maxHead + 1
    requires Find(head + more, CRLFCRLF) == Some(|head| - 4)
    ensures Settled(head + more, maxHead) && HeadEnd(head + more) == Some(|head|)
  {
    hide Find;
    var all := head + more;
    var j := Find(all, LFLF);
    if j.Some? {
      var w := all[j.value..j.value + 2];
      assert w[0] == all[j.value] && w[1] == all[j.value + 1];
    }
  }

  lemma PrintedIsSettled(start: string, headers: seq<Header>, more: seq<byte>, maxHead: nat)
    requires Clean(start) && GoodHeaders(headers)
    requires |Utf8.Encode(HeadText(start, headers))| <= maxHead + 1
    ensures var head := Utf8.Encode(HeadText(start, headers));
            Settled(head + more, maxHead) && HeadEnd(head + more) == Some(|head|)
  {
    hide Utf8.Encode, HeadText, Settled, HeadEnd, Find, CRBeforeLF;
    HeadHasCR(start, headers);
    FindEndOfHead(start, headers, more);
    HeadIsSettled(Utf8.Encode(HeadText(start, headers)), more, maxHead);
  }

  // ---- Bytes read past the head ---------------------------------------------------------------------

  predicate NoEmptyChunk(chunks: seq<seq<byte>>) {
    forall i :: 0 <= i < |chunks| ==> chunks[i] != []
  }

  lemma {:induction false} ChunksLeft(maxHead: nat, buffer: seq<byte>, chunks: seq<seq<byte>>)
    requires NoEmptyChunk(chunks) && ReadHead(maxHead, buffer, chunks).GotHead?
    ensures NoEmptyChunk(ReadHead(maxHead, buffer, chunks).chunks)
    decreases |chunks|
  {
    hide HeadEnd;
    if HeadEnd(buffer).Some? {
    } else {
      ChunksLeft(maxHead, buffer + chunks[0], chunks[1..]);
    }
  }

  /** The connection as it stands when the head has been read. */
  function Carried(r: HeadRead): Receiving.Receiver
    requires r.GotHead?
  {
    Receiving.Receiver(Messages.FRESH, r.rest, r.chunks)
  }

  /** Settled bytes: the head is found, and the connection has exactly the bytes behind it. */
  lemma HeadThenRest(head: seq<byte>, tail: seq<byte>, maxHead: nat, chunks: seq<seq<byte>>)
    requires Settled(head + tail, maxHead) && HeadEnd(head + tail) == Some(|head|)
    requires CutsOf(chunks, head + tail)
    ensures var r := ReadHead(maxHead, [], chunks);
            r.GotHead? && r.head == head && NoEmptyChunk(r.chunks) && Pending(Carried(r)) == tail
  {
    hide HeadEnd, Settled;
    var all := head + tail;
    assert [] + Concat(chunks) == all;
    SettledHeadIsRead(maxHead, [], chunks);
    ChunksLeft(maxHead, [], chunks);
    assert all[..|head|] == head && all[|head|..] == tail;
  }

  /** The connection reads the same things as if head and frames had never shared a read. */
  lemma CarryOver(cfg: Receiving.Config, head: seq<byte>, tail: seq<byte>, maxHead: nat,
                  together: seq<seq<byte>>, apart: seq<seq<byte>>, n: nat)
    requires Settled(head + tail, maxHead) && HeadEnd(head + tail) == Some(|head|)
    requires CutsOf(together, head + tail) && CutsOf(apart, tail)
    ensures var r := ReadHead(maxHead, [], together);
            r.GotHead? && r.head == head && NoEmptyChunk(r.chunks) &&
            Receiving.ReadMany(cfg, Carried(r), n).0
            == Receiving.ReadMany(cfg, Receiving.Receiver(Messages.FRESH, [], apart), n).0
  {
    hide HeadEnd, Settled, Receiving.ReadMany, Concat;
    HeadThenRest(head, tail, maxHead, together);
    var r := ReadHead(maxHead, [], together);
    var b := Receiving.Receiver(Messages.FRESH, [], apart);
    assert Pending(b) == [] + Concat(apart) == tail;
    ChunkingIndependence(cfg, Carried(r), b, n);
  }

  /** A printed head and a batch of messages behind it, cut into reads anywhere: the head is read
      exactly, and the connection delivers exactly the messages. */
  lemma HeadThenMessages(start: string, headers: seq<Header>, maxHead: nat, e: Mask.Endian, role: Receiving.Role,
                         state: u64, limits: Messages.Limits, messages: seq<Messages.Message>,
                         chunks: seq<seq<byte>>)
    requires Clean(start) && GoodHeaders(headers)
    requires |Utf8.Encode(HeadText(start, headers))| <= maxHead + 1
    requires GoodBatch(limits, messages)
    requires CutsOf(chunks, Utf8.Encode(HeadText(start, headers)) + Sending.Wire(e, role, state, messages).0)
    ensures var r := ReadHead(maxHead, [], chunks);
            r.GotHead? && r.head == Utf8.Encode(HeadText(start, headers)) && NoEmptyChunk(r.chunks) &&
            Receiving.ReadMany(Receiving.Config(Opposite(role), limits), Carried(r), |messages|).0
            == Arrivals(messages)
  {
    hide Utf8.Encode, HeadText, Settled, HeadEnd, GoodBatch, Receiving.ReadMany, Arrivals;
    var head := Utf8.Encode(HeadText(start, headers));
    GoodIsSized(limits, messages);
    var tail := Sending.Wire(e, role, state, messages).0;
    PrintedIsSettled(start, headers, tail, maxHead);
    HeadThenRest(head, tail, maxHead, chunks);
    EndToEnd(e, role, state, limits, messages, Carried(ReadHead(maxHead, [], chunks)));
  }

  // ---- The handshake over streams ---------------------------------------------------------------------

  /** `read_head`: grow a buffer until it holds a whole head, then split it there. */
  method ReadHeadFrom(stream: Stream, maxHead: nat) returns (r: HeadRead)
    requires stream.Valid()
    modifies stream`incoming
    ensures stream.Valid()
    ensures r == ReadHead(maxHead, [], old(stream.incoming))
    ensures r.GotHead? ==> stream.incoming == r.chunks
  {
    hide HeadEnd;
    var buffer: seq<byte> := [];
    while true
      invariant stream.Valid()
      invariant ReadHead(maxHead, buffer, stream.incoming) == ReadHead(maxHead, [], old(stream.incoming))
      decreases |stream.incoming|
    {
      var end := HeadEnd(buffer);
      if end.Some? {
        return GotHead(buffer[..end.value], buffer[end.value..], stream.incoming);
      }
      if |buffer| > maxHead {
        return NoHead(HeadTooLarge);
      }
      var chunk := stream.ReadBuf();
      if |chunk| == 0 {
        return NoHead(Malformed);
      }
      buffer := buffer + chunk;
    }
    return NoHead(Malformed);
  }

  /** The three ways the server's side can end: a connection, a request for the caller to answer
      with the bytes behind it, or an error. */
  datatype Outcome =
    | Upgraded(conn: Connection, request: Request)
    | PlainRequest(request: Request, buffered: seq<byte>)
    | Refused(error: UpgradeError)

  /** A connection just made from what was read past a head. */
  ghost predicate Started(conn: Connection, stream: Stream, role: Receiving.Role, limits: Messages.Limits,
                          seed: u64, endian: Mask.Endian, r: HeadRead)
    requires r.GotHead?
    reads conn, conn.stream, conn.assembler
  {
    conn.Valid() && conn.stream == stream && conn.role == role && conn.limits == limits &&
    conn.maskState == seed && conn.endian == endian && !conn.closeSent && conn.Side() == Carried(r)
  }

  function ResponseText(request: Request, selected: (Option<string>, seq<Header>)): string {
    HeadText(STATUS_LINE, ResponseHeaders(AcceptFor(request.key), selected.0, selected.1))
  }

  lemma UpgradeHasKey(input: seq<byte>, maxHead: nat)
    requires Verdict(input, maxHead).Ok? && Verdict(input, maxHead).value.Upgrade?
    ensures IsValidKey(Verdict(input, maxHead).value.request.key)
  {
    hide Utf8.Encode, Utf8.Decode, Utf8.IsUtf8, Lines, Collect, Split, Last, ParseMethod, AllProtocols,
         WantsUpgrade, WantsConnection, IsValidKey;
  }

  /** `accept`: the server's side. */
  method Accept(stream: Stream, limits: Messages.Limits, errorHeaders: seq<Header>,
                select: Request -> (Option<string>, seq<Header>), seed: u64, endian: Mask.Endian)
    returns (r: Outcome)
    requires stream.Valid()
    modifies stream
    ensures stream.Valid()
    ensures match ReadHead(DEFAULT_MAX_HEAD, [], old(stream.incoming))
            case NoHead(e) => r == Refused(e) && stream.sent == old(stream.sent)
            case GotHead(head, rest, chunks) =>
              stream.incoming == chunks &&
              match Verdict(head, DEFAULT_MAX_HEAD)
              case Err(e) =>
                r == Refused(e) && stream.sent == old(stream.sent) + Utf8.Encode(RefusalText(e, errorHeaders))
              case Ok(Plain(request)) => r == PlainRequest(request, rest) && stream.sent == old(stream.sent)
              case Ok(Upgrade(request)) =>
                stream.sent == old(stream.sent) + Utf8.Encode(ResponseText(request, select(request))) &&
                r.Upgraded? && r.request == request && fresh(r.conn) && fresh(r.conn.assembler) &&
                Started(r.conn, stream, Receiving.Server, limits, seed, endian, GotHead(head, rest, chunks))
  {
    hide Utf8.Encode, RefusalText, ReadHead, Verdict, HeadText, ResponseHeaders, AcceptFor;
    var read := ReadHeadFrom(stream, DEFAULT_MAX_HEAD);
    if read.NoHead? {
      return Refused(read.error);
    }
    var parsed := ParseRequest(read.head, DEFAULT_MAX_HEAD);
    if parsed.Err? {
      var rejection := BuildRejection(parsed.error, errorHeaders);
      stream.WriteAll(rejection);
      return Refused(parsed.error);
    }
    if parsed.value.Plain? {
      return PlainRequest(parsed.value.request, read.rest);
    }
    var request := parsed.value.request;
    UpgradeHasKey(read.head, DEFAULT_MAX_HEAD);
    var (protocol, headers) := select(request);
    var response := BuildResponse(request.key, protocol, headers);
    stream.WriteAll(response);
    var conn := new Connection(stream, Receiving.Server, limits, read.rest, seed, endian);
    return Upgraded(conn, request);
  }

  function RequestText(path: string, host: string, key: string, protocols: seq<string>, extra: seq<Header>): string {
    HeadText(RequestLine(path), RequestHeaders(host, key, protocols, extra))
  }

  datatype Opened =
    | Connected(conn: Connection, protocol: Option<string>)
    | NotConnected(error: UpgradeError)

  /** `connect`: the client's side. */
  method Connect(stream: Stream, path: string, host: string, protocols: seq<string>, headers: seq<Header>,
                 entropy: seq<byte>, limits: Messages.Limits, seed: u64, endian: Mask.Endian)
    returns (r: Opened)
    requires stream.Valid() && |entropy| == 16
    modifies stream
    ensures stream.Valid()
    ensures stream.sent == old(stream.sent)
              + Utf8.Encode(RequestText(path, host, NewKey(entropy), protocols, headers))
    ensures match ReadHead(DEFAULT_MAX_HEAD, [], old(stream.incoming))
            case NoHead(e) => r == NotConnected(e)
            case GotHead(head, rest, chunks) =>
              stream.incoming == chunks &&
              match CheckVerdict(head, NewKey(entropy))
              case Err(e) => r == NotConnected(e)
              case Ok(protocol) =>
                r.Connected? && r.protocol == protocol && fresh(r.conn) && fresh(r.conn.assembler) &&
                Started(r.conn, stream, Receiving.Client, limits, seed, endian, GotHead(head, rest, chunks))
  {
    hide Utf8.Encode, ReadHead, CheckVerdict, HeadText, RequestHeaders, RequestLine, NewKey;
    var key := NewKey(entropy);
    NewKeyIsValid(entropy);
    var request := BuildRequest(path, host, key, protocols, headers);
    stream.WriteAll(request);
    var read := ReadHeadFrom(stream, DEFAULT_MAX_HEAD);
    if read.NoHead? {
      return NotConnected(read.error);
    }
    var checked := CheckResponse(read.head, key);
    if checked.Err? {
      return NotConnected(checked.error);
    }
    var conn := new Connection(stream, Receiving.Client, limits, read.rest, seed, endian);
    return Connected(conn, checked.value);
  }

  /** The server reads the client's request as the upgrade it is, whatever follows it in the same reads. */
  lemma RequestIsRead(path: string, host: string, key: string, protocols: seq<string>, extra: seq<Header>,
                      early: seq<byte>, chunks: seq<seq<byte>>)
    requires Printable(path, host, key, protocols, extra)
    requires |RequestHeaders(host, key, protocols, extra)| <= MAX_HEADERS
    requires |Utf8.Encode(RequestText(path, host, key, protocols, extra))| <= DEFAULT_MAX_HEAD
    requires CutsOf(chunks, Utf8.Encode(RequestText(path, host, key, protocols, extra)) + early)
    ensures var headers := RequestHeaders(host, key, protocols, extra);
            var r := ReadHead(DEFAULT_MAX_HEAD, [], chunks);
            r.GotHead? && NoEmptyChunk(r.chunks) && Pending(Carried(r)) == early &&
            Verdict(r.head, DEFAULT_MAX_HEAD)
            == Ok(Upgrade(Request(Get, path, Utf8.Encode(key), protocols, Retained(headers))))
  {
    hide Utf8.Encode, HeadText, RequestHeaders, Verdict, Settled, HeadEnd, ReadHead, Retained, CutsOf, RequestLine,
         NoRequestNames, GoodHeaders, IsValidKey;
    var headers := RequestHeaders(host, key, protocols, extra);
    RequestRoundTrip(path, host, key, protocols, extra, DEFAULT_MAX_HEAD);
    RequestHeadersAreGood(path, host, key, protocols, extra);
    RequestLineIsClean(path);
    PrintedIsSettled(RequestLine(path), headers, early, DEFAULT_MAX_HEAD);
    HeadThenRest(Utf8.Encode(HeadText(RequestLine(path), headers)), early, DEFAULT_MAX_HEAD, chunks);
  }

  /** What a server may put into its answer. */
  predicate Answerable(selected: (Option<string>, seq<Header>)) {
    (selected.0.Some? ==> Clean(selected.0.value) && Trim(selected.0.value) == selected.0.value) &&
    GoodHeaders(selected.1) && NoResponseNames(selected.1)
  }

  /** The client accepts the answer to its own key and learns the protocol selected. */
  lemma AnswerIsRead(key: string, request: Request, selected: (Option<string>, seq<Header>),
                     late: seq<byte>, chunks: seq<seq<byte>>)
    requires request.key == Utf8.Encode(key) && Answerable(selected)
    requires |Utf8.Encode(ResponseText(request, selected))| <= DEFAULT_MAX_HEAD + 1
    requires CutsOf(chunks, Utf8.Encode(ResponseText(request, selected)) + late)
    ensures var r := ReadHead(DEFAULT_MAX_HEAD, [], chunks);
            r.GotHead? && NoEmptyChunk(r.chunks) && Pending(Carried(r)) == late &&
            CheckVerdict(r.head, key) == Ok(selected.0)
  {
    hide Utf8.Encode, HeadText, ResponseHeaders, CheckVerdict, Settled, HeadEnd, ReadHead, CutsOf, STATUS_LINE,
         AcceptFor, Trim, GoodHeaders, NoResponseNames;
    var headers := ResponseHeaders(AcceptFor(request.key), selected.0, selected.1);
    ResponseRoundTrip(key, selected.0, selected.1);
    AcceptText(request.key);
    ResponseHeadersAreGood(AcceptFor(request.key), selected.0, selected.1);
    StatusLineIsClean();
    PrintedIsSettled(STATUS_LINE, headers, late, DEFAULT_MAX_HEAD);
    HeadThenRest(Utf8.Encode(HeadText(STATUS_LINE, headers)), late, DEFAULT_MAX_HEAD, chunks);
  }

  // ---- A refusal crosses over ---------------------------------------------------------------------

  /** The client reads a refusal, whatever follows it and however it is cut, as exactly the bytes the
      server wrote, and learns that there is no upgrade. */
  lemma RefusalIsRead(error: UpgradeError, extra: seq<Header>, key: string, more: seq<byte>, chunks: seq<seq<byte>>)
    requires GoodHeaders(extra) && |Utf8.Encode(RefusalText(error, extra))| <= DEFAULT_MAX_HEAD + 1
    requires CutsOf(chunks, Utf8.Encode(RefusalText(error, extra)) + more)
    ensures var r := ReadHead(DEFAULT_MAX_HEAD, [], chunks);
            r.GotHead? && r.head == Utf8.Encode(RefusalText(error, extra)) && Pending(Carried(r)) == more &&
            CheckVerdict(r.head, key) == Err(NotAnUpgrade)
  {
    hide Utf8.Encode, HeadText, RefusalLine, RefusalHeaders, CheckVerdict, Settled, HeadEnd, ReadHead, CutsOf,
         GoodHeaders, Clean;
    RefusalLineIs(error);
    RefusalHeadersAreGood(error, extra);
    RefusalIsNoUpgrade(error, extra, key);
    PrintedIsSettled(RefusalLine(error), RefusalHeaders(error, extra), more, DEFAULT_MAX_HEAD);
    HeadThenRest(Utf8.Encode(RefusalText(error, extra)), more, DEFAULT_MAX_HEAD, chunks);
  }

  // ---- An answer past the limit -------------------------------------------------------------------

  /** The client's verdict on what arrives in these reads. */
  ghost predicate Accepts(key: string, chunks: seq<seq<byte>>) {
    var r := ReadHead(DEFAULT_MAX_HEAD, [], chunks);
    r.GotHead? && CheckVerdict(r.head, key).Ok?
  }

  lemma AnswerEnds(key: string, request: Request, selected: (Option<string>, seq<Header>), late: seq<byte>)
    requires request.key == Utf8.Encode(key) && Answerable(selected)
    ensures var answer := Utf8.Encode(ResponseText(request, selected));
            Unambiguous(answer + late) && HeadEnd(answer + late) == Some(|answer|) &&
            CheckVerdict(answer, key) == Ok(selected.0)
  {
    hide Utf8.Encode, HeadText, ResponseHeaders, CheckVerdict, HeadEnd, Unambiguous, STATUS_LINE, AcceptFor, Trim,
         GoodHeaders, NoResponseNames;
    var headers := ResponseHeaders(AcceptFor(request.key), selected.0, selected.1);
    ResponseRoundTrip(key, selected.0, selected.1);
    AcceptText(request.key);
    ResponseHeadersAreGood(AcceptFor(request.key), selected.0, selected.1);
    StatusLineIsClean();
    PrintedIsSettled(STATUS_LINE, headers, late, |Utf8.Encode(HeadText(STATUS_LINE, headers))|);
  }

  /** The client has no second check. Some cut into reads of at most `largest` octets makes it accept
      the server's answer exactly when the answer is at most one read past the limit, and every cut
      does exactly when it is at most one octet past it. */
  lemma AnswerAcceptedIff(key: string, request: Request, selected: (Option<string>, seq<Header>), late: seq<byte>,
                          largest: nat)
    requires request.key == Utf8.Encode(key) && Answerable(selected) && largest > 0
    ensures var answer := Utf8.Encode(ResponseText(request, selected));
            (exists c: seq<seq<byte>> :: BoundedCut(c, answer + late, largest) && Accepts(key, c))
            <==> |answer| <= DEFAULT_MAX_HEAD + largest
    ensures var answer := Utf8.Encode(ResponseText(request, selected));
            (forall c: seq<seq<byte>> :: BoundedCut(c, answer + late, largest) ==> Accepts(key, c))
            <==> |answer| <= DEFAULT_MAX_HEAD + 1
  {
    hide Utf8.Encode, ResponseText, CheckVerdict, HeadEnd, FirstEnd, ReadHead, BoundedCut, Unambiguous, Answerable,
         Singles, OneBigRead;
    var answer := Utf8.Encode(ResponseText(request, selected));
    var all := answer + late;
    AnswerEnds(key, request, selected, late);
    EndInPrefix(all, 0);
    assert all[..|answer|] == answer;
    forall c: seq<seq<byte>> | BoundedCut(c, all, largest)
      ensures Accepts(key, c) <==> ReadHead(DEFAULT_MAX_HEAD, [], c).GotHead?
      ensures Accepts(key, c) ==> |answer| <= DEFAULT_MAX_HEAD + largest
      ensures |answer| <= DEFAULT_MAX_HEAD + 1 ==> Accepts(key, c)
    {
      FromTheStart(all, DEFAULT_MAX_HEAD, largest, c);
    }
    if |answer| <= DEFAULT_MAX_HEAD + largest {
      BigReadReturns(all, DEFAULT_MAX_HEAD, largest, |answer|);
      assert Accepts(key, OneBigRead(all, Before(all, DEFAULT_MAX_HEAD), |answer|));
    }
    if |answer| > DEFAULT_MAX_HEAD + 1 {
      SinglesGiveUp(all, DEFAULT_MAX_HEAD, largest);
      assert !Accepts(key, Singles(all));
    }
  }

  function Filler(n: nat): string {
    seq(n, _ => 'a')
  }

  /** A selection of no protocol and one header of `n` characters. */
  function Padding(n: nat): (Option<string>, seq<Header>) {
    (None, [Header("X", Filler(n))])
  }

  /** The padding that makes an answer one octet too long. */
  function OneTooMany(request: Request): nat {
    var bare := |Utf8.Encode(ResponseText(request, Padding(0)))|;
    if bare <= DEFAULT_MAX_HEAD + 1 then DEFAULT_MAX_HEAD + 1 - bare else 0
  }

  /** That answer, of `DEFAULT_MAX_HEAD` + 1 octets, is accepted however it is cut. */
  lemma LongAnswerIsAccepted(key: string, request: Request, late: seq<byte>, chunks: seq<seq<byte>>)
    requires request.key == Utf8.Encode(key)
    requires CutsOf(chunks, Utf8.Encode(ResponseText(request, Padding(OneTooMany(request)))) + late)
    ensures var answer := Utf8.Encode(ResponseText(request, Padding(OneTooMany(request))));
            var r := ReadHead(DEFAULT_MAX_HEAD, [], chunks);
            |answer| == DEFAULT_MAX_HEAD + 1 && r.GotHead? && |r.head| == DEFAULT_MAX_HEAD + 1 &&
            CheckVerdict(r.head, key) == Ok(None) && Pending(Carried(r)) == late
  {
    hide Utf8.Encode, ResponseText, CheckVerdict, ReadHead, CutsOf, Answerable, Padding, OneTooMany;
    var selected := Padding(OneTooMany(request));
    var answer := Utf8.Encode(ResponseText(request, selected));
    PaddingIsAnswerable(OneTooMany(request));
    PaddedLength(request);
    AnswerIsRead(key, request, selected, late, chunks);
    AnswerEnds(key, request, selected, late);
    SameHead(answer, late, chunks);
  }

  lemma SameHead(head: seq<byte>, tail: seq<byte>, chunks: seq<seq<byte>>)
    requires Unambiguous(head + tail) && HeadEnd(head + tail) == Some(|head|)
    requires |head| <= DEFAULT_MAX_HEAD + 1 && CutsOf(chunks, head + tail)
    ensures ReadHead(DEFAULT_MAX_HEAD, [], chunks).GotHead? && ReadHead(DEFAULT_MAX_HEAD, [], chunks).head == head
  {
    hide HeadEnd, Unambiguous, ReadHead, CutsOf;
    HeadThenRest(head, tail, DEFAULT_MAX_HEAD, chunks);
  }

  lemma PaddingIsAnswerable(n: nat)
    ensures Answerable(Padding(n)) && Padding(n).0 == None
  {
  }

  /** An answer is as much longer as its padding. */
  lemma PaddingAdds(request: Request, n: nat)
    ensures |Utf8.Encode(ResponseText(request, Padding(n)))|
         == |Utf8.Encode(ResponseText(request, Padding(0)))| + n
  {
    hide Utf8.Encode, STATUS_LINE, AcceptFor, HeaderBlock, ResponseHeaders;
    var before := ResponseHeaders(AcceptFor(request.key), None, []);
    var start := STATUS_LINE + "\r\n" + HeaderBlock(before) + ("X" + ": ");
    PaddedText(request, n);
    PaddedText(request, 0);
    Utf8.EncodeAppend(start, Filler(n) + "\r\n\r\n");
    Utf8.EncodeAppend(start, Filler(0) + "\r\n\r\n");
    Utf8.EncodeAppend(Filler(n), "\r\n\r\n");
    Utf8.EncodeAppend(Filler(0), "\r\n\r\n");
    Utf8.EncodeAscii(Filler(n));
    Utf8.EncodeAscii(Filler(0));
  }

  lemma PaddedText(request: Request, n: nat)
    ensures var before := ResponseHeaders(AcceptFor(request.key), None, []);
            ResponseText(request, Padding(n))
            == STATUS_LINE + "\r\n" + HeaderBlock(before) + ("X" + ": ") + (Filler(n) + "\r\n\r\n")
  {
    hide STATUS_LINE, AcceptFor, HeaderBlock, Filler;
    var before := ResponseHeaders(AcceptFor(request.key), None, []);
    assert ResponseHeaders(AcceptFor(request.key), None, Padding(n).1) == before + Padding(n).1;
    HeaderBlockSnoc(before, Padding(n).1[0]);
    LineEnds(STATUS_LINE + "\r\n", HeaderBlock(before), "X" + ": ", Filler(n));
  }

  lemma LineEnds(a: string, b: string, c: string, d: string)
    ensures a + (b + (c + d + "\r\n")) + "\r\n" == a + b + c + (d + "\r\n\r\n")
  {
    assert (c + d + "\r\n") + "\r\n" == c + (d + "\r\n\r\n");
  }

  lemma PaddedLength(request: Request)
    ensures |Utf8.Encode(ResponseText(request, Padding(OneTooMany(request))))| == DEFAULT_MAX_HEAD + 1
  {
    hide Utf8.Encode, ResponseText, Padding;
    BareIsShort(request);
    PaddingAdds(request, OneTooMany(request));
  }

  lemma BareIsShort(request: Request)
    ensures |Utf8.Encode(ResponseText(request, Padding(0)))| <= 4096
  {
    hide Utf8.Encode, STATUS_LINE, AcceptFor, HeaderBlock;
    var accept := AcceptFor(request.key);
    PaddedText(request, 0);
    FixedResponseText(accept);
    StatusLineParts();
    AcceptLength(request.key);
    Utf8.EncodeIsShort(ResponseText(request, Padding(0)));
  }

  lemma AcceptLength(key: seq<byte>)
    ensures |AcceptFor(key)| == 28
  {
    hide Base64.Encode, Sha1.Digest, Utf8.Encode;
    DigestLength(key + Utf8.Encode(WS_GUID));
    Base64.EncodedLength(Sha1.Digest(key + Utf8.Encode(WS_GUID)));
  }

  lemma DigestLength(message: seq<byte>)
    ensures |Sha1.Digest(message)| == 20
  {
    hide Sha1.Hashed, Sha1.Padded;
  }

  // ---- A whole session ----------------------------------------------------------------------------

  /** What a client asks for. */
  datatype Hello = Hello(path: string, host: string, key: string, protocols: seq<string>, extra: seq<Header>)

  function HelloBytes(h: Hello): seq<byte> {
    Utf8.Encode(RequestText(h.path, h.host, h.key, h.protocols, h.extra))
  }

  /** The request a server must make of it. */
  function HelloRequest(h: Hello): Request {
    Request(Get, h.path, Utf8.Encode(h.key), h.protocols, Retained(RequestHeaders(h.host, h.key, h.protocols, h.extra)))
  }

  predicate Fits(h: Hello) {
    Printable(h.path, h.host, h.key, h.protocols, h.extra) &&
    |RequestHeaders(h.host, h.key, h.protocols, h.extra)| <= MAX_HEADERS &&
    |HelloBytes(h)| <= DEFAULT_MAX_HEAD
  }

  function AnswerBytes(h: Hello, selected: (Option<string>, seq<Header>)): seq<byte> {
    Utf8.Encode(ResponseText(HelloRequest(h), selected))
  }

  /** One side of a session: its limits, byte order, mask generator state and what it sends. */
  datatype Peer = Peer(limits: Messages.Limits, endian: Mask.Endian, state: u64, sends: seq<Messages.Message>)

  function WireOf(peer: Peer, role: Receiving.Role): seq<byte>
    requires Sending.AllSized(peer.sends)
  {
    Sending.Wire(peer.endian, role, peer.state, peer.sends).0
  }

  /** Behind the head, this role reads exactly `messages`. */
  predicate ThenReads(r: HeadRead, role: Receiving.Role, limits: Messages.Limits, messages: seq<Messages.Message>) {
    r.GotHead? && NoEmptyChunk(r.chunks) &&
    Receiving.ReadMany(Receiving.Config(role, limits), Carried(r), |messages|).0 == Arrivals(messages)
  }

  /** A whole session: the client's request and first messages, in whatever reads they arrive, and the
      server's answer and first messages, likewise. Each side completes the handshake and reads
      exactly the messages of the other. */
  lemma SessionDelivers(hello: Hello, selected: (Option<string>, seq<Header>), client: Peer, server: Peer,
                        there: seq<seq<byte>>, back: seq<seq<byte>>)
    requires Fits(hello) && Answerable(selected) && |AnswerBytes(hello, selected)| <= DEFAULT_MAX_HEAD + 1
    requires GoodBatch(server.limits, client.sends) && GoodBatch(client.limits, server.sends)
    requires CutsOf(there, HelloBytes(hello) + WireOf(client, Receiving.Client))
    requires CutsOf(back, AnswerBytes(hello, selected) + WireOf(server, Receiving.Server))
    ensures var r := ReadHead(DEFAULT_MAX_HEAD, [], there);
            ThenReads(r, Receiving.Server, server.limits, client.sends) &&
            Verdict(r.head, DEFAULT_MAX_HEAD) == Ok(Upgrade(HelloRequest(hello)))
    ensures var r := ReadHead(DEFAULT_MAX_HEAD, [], back);
            ThenReads(r, Receiving.Client, client.limits, server.sends) &&
            CheckVerdict(r.head, hello.key) == Ok(selected.0)
  {
    hide Utf8.Encode, RequestText, ResponseText, RequestHeaders, Verdict, CheckVerdict, ReadHead, Retained,
         Answerable, Printable, CutsOf, GoodBatch, Receiving.ReadMany, Arrivals, Sending.AllSized;
    GoodIsSized(server.limits, client.sends);
    GoodIsSized(client.limits, server.sends);
    RequestIsRead(hello.path, hello.host, hello.key, hello.protocols, hello.extra,
                  WireOf(client, Receiving.Client), there);
    AnswerIsRead(hello.key, HelloRequest(hello), selected, WireOf(server, Receiving.Server), back);
    EndToEnd(client.endian, Receiving.Client, client.state, server.limits, client.sends,
             Carried(ReadHead(DEFAULT_MAX_HEAD, [], there)));
    EndToEnd(server.endian, Receiving.Server, server.state, client.limits, server.sends,
             Carried(ReadHead(DEFAULT_MAX_HEAD, [], back)));
  }

  // ---- The same, live -----------------------------------------------------------------------------

  /** A client opens, writes its batch and reads the server's, and then the end. */
  method ClientSide(stream: Stream, hello: Hello, entropy: seq<byte>, client: Peer,
                    ghost selected: (Option<string>, seq<Header>), server: Peer)
    returns (protocol: Option<string>, readings: seq<Receiving.Reading>)
    requires stream.Valid() && |entropy| == 16 && hello.key == NewKey(entropy)
    requires Answerable(selected) && |AnswerBytes(hello, selected)| <= DEFAULT_MAX_HEAD + 1
    requires Sending.AllSized(client.sends) && GoodBatch(client.limits, server.sends)
    requires CutsOf(stream.incoming, AnswerBytes(hello, selected) + WireOf(server, Receiving.Server))
    modifies stream
    ensures stream.sent == old(stream.sent) + (HelloBytes(hello) + WireOf(client, Receiving.Client))
    ensures protocol == selected.0 && readings == Arrivals(server.sends) + [EndReading(server.sends)]
  {
    hide Utf8.Encode, RequestText, ResponseText, CheckVerdict, ReadHead, Retained, NewKey, RequestHeaders, CutsOf,
         Answerable, GoodBatch, Arrivals, Sending.AllSized, Sending.Wire, Concat,
         EndReading, Sending.SendsClose, Receiving.Cut, Reassembly.Run;
    GoodIsSized(client.limits, server.sends);
    AnswerIsRead(hello.key, HelloRequest(hello), selected, WireOf(server, Receiving.Server), stream.incoming);
    var reached := Connect(stream, hello.path, hello.host, hello.protocols, hello.extra, entropy,
                           client.limits, client.state, client.endian);
    protocol := reached.protocol;
    reached.conn.WriteAll(client.sends);
    readings := ReadBatch(reached.conn, server.endian, server.state, server.sends);
  }

  /** A server accepts, writes its batch and reads the client's, and then the end. */
  method ServerSide(stream: Stream, ghost hello: Hello, server: Peer, errorHeaders: seq<Header>,
                    select: Request -> (Option<string>, seq<Header>), client: Peer)
    returns (readings: seq<Receiving.Reading>)
    requires stream.Valid() && Fits(hello)
    requires Sending.AllSized(server.sends) && GoodBatch(server.limits, client.sends)
    requires CutsOf(stream.incoming, HelloBytes(hello) + WireOf(client, Receiving.Client))
    modifies stream
    ensures stream.sent == old(stream.sent) +
                           (AnswerBytes(hello, select(HelloRequest(hello))) + WireOf(server, Receiving.Server))
    ensures readings == Arrivals(client.sends) + [EndReading(client.sends)]
  {
    hide Utf8.Encode, RequestText, ResponseText, Verdict, ReadHead, Retained, RequestHeaders, CutsOf,
         Printable, GoodBatch, Arrivals, Sending.AllSized, Sending.Wire, Concat,
         EndReading, Sending.SendsClose, Receiving.Cut, Reassembly.Run;
    GoodIsSized(server.limits, client.sends);
    RequestIsRead(hello.path, hello.host, hello.key, hello.protocols, hello.extra,
                  WireOf(client, Receiving.Client), stream.incoming);
    var accepted := Accept(stream, server.limits, errorHeaders, select, server.state, server.endian);
    accepted.conn.WriteAll(server.sends);
    readings := ReadBatch(accepted.conn, client.endian, client.state, client.sends);
  }

  /** Both ends, each over its stream. What either writes is what arrives at the other, and each
      reads exactly the other's batch and then the right end. */
  method Session(atClient: Stream, atServer: Stream, hello: Hello, entropy: seq<byte>,
                 select: Request -> (Option<string>, seq<Header>), errorHeaders: seq<Header>,
                 client: Peer, server: Peer)
    returns (protocol: Option<string>, byClient: seq<Receiving.Reading>, byServer: seq<Receiving.Reading>)
    requires atClient != atServer && atClient.Valid() && atServer.Valid()
    requires |entropy| == 16 && hello.key == NewKey(entropy) && Fits(hello)
    requires Answerable(select(HelloRequest(hello)))
    requires |AnswerBytes(hello, select(HelloRequest(hello)))| <= DEFAULT_MAX_HEAD + 1
    requires Sending.AllSized(client.sends) && Sending.AllSized(server.sends)
    requires GoodBatch(server.limits, client.sends) && GoodBatch(client.limits, server.sends)
    requires CutsOf(atServer.incoming, HelloBytes(hello) + WireOf(client, Receiving.Client))
    requires CutsOf(atClient.incoming,
                    AnswerBytes(hello, select(HelloRequest(hello))) + WireOf(server, Receiving.Server))
    modifies atClient, atServer
    ensures protocol == select(HelloRequest(hello)).0
    ensures byServer == Arrivals(client.sends) + [EndReading(client.sends)]
    ensures byClient == Arrivals(server.sends) + [EndReading(server.sends)]
    ensures atClient.sent == old(atClient.sent) + Concat(old(atServer.incoming))
    ensures atServer.sent == old(atServer.sent) + Concat(old(atClient.incoming))
  {
    hide HelloBytes, AnswerBytes, HelloRequest, Fits, NewKey, Answerable, GoodBatch, Arrivals, EndReading,
         Sending.AllSized, WireOf, Concat;
    protocol, byClient := ClientSide(atClient, hello, entropy, client, select(HelloRequest(hello)), server);
    byServer := ServerSide(atServer, hello, server, errorHeaders, select, client);
  }
}
