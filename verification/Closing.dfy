/** How many close frames a connection sends, over any sequence of calls that write. */
module Closing {
  import opened Bytes
  import opened Bits
  import opened Mask
  import opened Messages
  import opened Reassembly
  import opened Receiving
  import opened Sending
  import opened Conn
  import opened Delivery

  /** A call of `write`, `write_all`, `pong` or `close`. */
  datatype Call =
    | WriteCall(message: Message)
    | BatchCall(messages: seq<Message>)
    | PongCall(payload: seq<byte>)
    | CloseCall(frame: Option<CloseFrame>)

  /** The messages a call hands over, whether or not they go out. */
  function Offered(call: Call): seq<Message> {
    match call
    case WriteCall(m) => [m]
    case BatchCall(ms) => ms
    case PongCall(p) => [PongMessage(p)]
    case CloseCall(f) => [CloseMessage(f)]
  }

  /** The messages it sends: only `close` looks at the flag. */
  function Sends(call: Call, closeSent: bool): seq<Message> {
    if call.CloseCall? && closeSent then [] else Offered(call)
  }

  function AllSends(calls: seq<Call>, closeSent: bool): seq<Message> {
    if calls == [] then [] else
    var now := Sends(calls[0], closeSent);
    now + AllSends(calls[1..], closeSent || SendsClose(now))
  }

  predicate AllOffersSized(calls: seq<Call>) {
    forall i :: 0 <= i < |calls| ==> AllSized(Offered(calls[i]))
  }

  lemma {:induction false} AllSendsSized(calls: seq<Call>, closeSent: bool)
    requires AllOffersSized(calls)
    ensures AllSized(AllSends(calls, closeSent))
  {
    hide Sized;
    if calls == [] {
    } else {
      AllSendsSized(calls[1..], closeSent || SendsClose(Sends(calls[0], closeSent)));
    }
  }

  lemma SendsCloseAppend(a: seq<Message>, b: seq<Message>)
    ensures SendsClose(a + b) <==> SendsClose(a) || SendsClose(b)
  {
    var all := a + b;
    assert forall i :: 0 <= i < |a| ==> all[i] == a[i];
    assert forall i :: 0 <= i < |b| ==> all[|a| + i] == b[i];
  }

  /** One call on a live connection. */
  method Perform(conn: Connection, call: Call)
    requires conn.Valid() && AllSized(Offered(call))
    modifies conn`maskState, conn`scratch, conn`closeSent, conn`outgoing, conn.stream`sent
    ensures conn.Valid() && AllSized(Sends(call, old(conn.closeSent)))
    ensures var messages := Sends(call, old(conn.closeSent));
            var (bytes, last) := Wire(conn.endian, conn.role, old(conn.maskState), messages);
            conn.stream.sent == old(conn.stream.sent) + bytes && conn.maskState == last &&
            conn.closeSent == (old(conn.closeSent) || SendsClose(messages))
  {
    hide Wire, Cut, Run;
    assert AllSized(Sends(call, conn.closeSent));
    WireOfNone(conn.endian, conn.role, conn.maskState);
    match call {
      case WriteCall(m) =>
        assert Sized(FragmentOf([m][0]));
        conn.Write(m);
      case BatchCall(ms) => conn.WriteAll(ms);
      case PongCall(p) =>
        assert Sized(FragmentOf([PongMessage(p)][0]));
        conn.Pong(p);
      case CloseCall(f) =>
        assert Sized(FragmentOf([CloseMessage(f)][0]));
        conn.Close(f);
    }
    assert [CloseMessage(None)][0].CloseMessage?;
  }

  /** Any sequence of calls puts exactly these messages on the stream. */
  method PerformAll(conn: Connection, calls: seq<Call>)
    requires conn.Valid() && AllOffersSized(calls)
    modifies conn`maskState, conn`scratch, conn`closeSent, conn`outgoing, conn.stream`sent
    ensures conn.Valid() && AllSized(AllSends(calls, old(conn.closeSent)))
    ensures var messages := AllSends(calls, old(conn.closeSent));
            var (bytes, last) := Wire(conn.endian, conn.role, old(conn.maskState), messages);
            conn.stream.sent == old(conn.stream.sent) + bytes && conn.maskState == last &&
            conn.closeSent == (old(conn.closeSent) || SendsClose(messages))
    decreases |calls|
  {
    hide Wire, Cut, Run, SendsClose, Sends, Offered, AllSized;
    AllSendsSized(calls, conn.closeSent);
    if calls == [] {
      WireOfNone(conn.endian, conn.role, conn.maskState);
      NoClose();
    } else {
      ghost var state, closeSent := conn.maskState, conn.closeSent;
      ghost var now := Sends(calls[0], closeSent);
      ghost var rest := AllSends(calls[1..], closeSent || SendsClose(now));
      AllSendsSized(calls[1..], closeSent || SendsClose(now));
      Perform(conn, calls[0]);
      WireAppend(conn.endian, conn.role, state, now, rest);
      SendsCloseAppend(now, rest);
      PerformAll(conn, calls[1..]);
    }
  }

  lemma NoClose()
    ensures !SendsClose([])
  {
  }

  // ---- Counting them --------------------------------------------------------------------------------

  function Closes(messages: seq<Message>): nat {
    if messages == [] then 0 else (if messages[0].CloseMessage? then 1 else 0) + Closes(messages[1..])
  }

  lemma {:induction false} ClosesAppend(a: seq<Message>, b: seq<Message>)
    ensures Closes(a + b) == Closes(a) + Closes(b)
  {
    if a == [] {
      assert a + b == b;
    } else {
      ClosesAppend(a[1..], b);
      assert (a + b)[1..] == a[1..] + b;
    }
  }

  lemma {:induction false} SomeClose(messages: seq<Message>)
    ensures SendsClose(messages) <==> Closes(messages) > 0
  {
    if messages == [] {
    } else {
      SomeClose(messages[1..]);
      SendsCloseAppend([messages[0]], messages[1..]);
      assert [messages[0]] + messages[1..] == messages;
      assert SendsClose([messages[0]]) <==> messages[0].CloseMessage?;
    }
  }

  /** A close passed to `write` or `write_all`, which send it whatever went out before. */
  predicate WritesClose(call: Call) {
    !call.CloseCall? && SendsClose(Offered(call))
  }

  /** How many such closes there are. */
  function Written(calls: seq<Call>): nat {
    if calls == [] then 0 else
    (if calls[0].CloseCall? then 0 else Closes(Offered(calls[0]))) + Written(calls[1..])
  }

  /** Some `close` comes before every written close. */
  predicate CloseLeads(calls: seq<Call>) {
    exists i :: 0 <= i < |calls| && calls[i].CloseCall? && forall j :: 0 <= j < i ==> !WritesClose(calls[j])
  }

  lemma CloseLeadsCons(call: Call, rest: seq<Call>)
    ensures CloseLeads([call] + rest) <==> call.CloseCall? || (!WritesClose(call) && CloseLeads(rest))
  {
    hide WritesClose;
    var all := [call] + rest;
    assert all[0] == call;
    assert forall j :: 0 <= j < |rest| ==> all[j + 1] == rest[j];
    if CloseLeads(all) && !call.CloseCall? {
      var i :| 0 <= i < |all| && all[i].CloseCall? && forall j :: 0 <= j < i ==> !WritesClose(all[j]);
      assert !WritesClose(all[0]);
      assert rest[i - 1].CloseCall?;
      assert forall j :: 0 <= j < i - 1 ==> rest[j] == all[j + 1];
    }
    if !WritesClose(call) && CloseLeads(rest) {
      var i :| 0 <= i < |rest| && rest[i].CloseCall? && forall j :: 0 <= j < i ==> !WritesClose(rest[j]);
      assert all[i + 1].CloseCall?;
      forall j | 0 <= j < i + 1 ensures !WritesClose(all[j]) {
        assert j > 0 ==> all[j] == rest[j - 1];
      }
    }
  }

  /** The close frames of any sequence of calls: every written one, and one more if no close had gone
      out before and some `close` comes before every written one. */
  lemma {:induction false} CloseCount(calls: seq<Call>, closeSent: bool)
    ensures Closes(AllSends(calls, closeSent))
         == Written(calls) + if !closeSent && CloseLeads(calls) then 1 else 0
  {
    hide SendsClose, CloseLeads, Offered, Closes;
    NoneInNone();
    if calls == [] {
      NothingLeads();
    } else {
      var call, rest := calls[0], calls[1..];
      var now := Sends(call, closeSent);
      CloseCount(rest, closeSent || SendsClose(now));
      ClosesAppend(now, AllSends(rest, closeSent || SendsClose(now)));
      SomeClose(now);
      CloseLeadsCons(call, rest);
      assert [call] + rest == calls;
      OneClose(call);
    }
  }

  lemma NoneInNone()
    ensures Closes([]) == 0
  {
  }

  lemma NothingLeads()
    ensures !CloseLeads([])
  {
  }

  lemma OneClose(call: Call)
    ensures call.CloseCall? ==> Closes(Offered(call)) == 1
  {
    if call.CloseCall? {
      assert Offered(call)[1..] == [];
    }
  }

  /** A caller that leaves closing to `close` sends at most one close frame, and exactly one if it calls
      it at all with none sent before. */
  lemma OnlyCloseCloses(calls: seq<Call>, closeSent: bool)
    requires forall i :: 0 <= i < |calls| ==> !WritesClose(calls[i])
    ensures Closes(AllSends(calls, closeSent))
         == if !closeSent && exists i :: 0 <= i < |calls| && calls[i].CloseCall? then 1 else 0
  {
    hide WritesClose, AllSends, Closes;
    CloseCount(calls, closeSent);
    NoneWritten(calls);
  }

  lemma {:induction false} NoneWritten(calls: seq<Call>)
    requires forall i :: 0 <= i < |calls| ==> !WritesClose(calls[i])
    ensures Written(calls) == 0
  {
    hide SendsClose, Offered, Closes;
    if calls == [] {
    } else {
      assert !WritesClose(calls[0]);
      SomeClose(Offered(calls[0]));
      NoneWritten(calls[1..]);
    }
  }

  /** The flag does not stop `write`: a close behind a close goes out. */
  lemma TwoClosesAreSent(first: Option<CloseFrame>, second: Option<CloseFrame>)
    ensures AllSends([CloseCall(first), WriteCall(CloseMessage(second))], false)
         == [CloseMessage(first), CloseMessage(second)]
    ensures AllSends([WriteCall(CloseMessage(first)), CloseCall(second)], false) == [CloseMessage(first)]
  {
    var a, b := CloseCall(first), WriteCall(CloseMessage(second));
    assert [a, b][1..] == [b] && [b][1..] == [];
    var c, d := WriteCall(CloseMessage(first)), CloseCall(second);
    assert [c, d][1..] == [d] && [d][1..] == [];
    assert [CloseMessage(first)][0].CloseMessage?;
    assert AllSends([b], true) == [CloseMessage(second)] + AllSends([], true);
    assert AllSends([d], true) == [] + AllSends([], true);
  }
}
