/** Finding the end of a head in bytes that arrive in chunks: when the outcome depends on the chunks,
    and when the size limit holds. */
module Upgrade {
  import opened Bytes
  import opened Handshake
  import RoundTrip

  /** What reading a head comes to: the head, what was read past it and what is still to come. */
  datatype HeadRead =
    | GotHead(head: seq<byte>, rest: seq<byte>, chunks: seq<seq<byte>>)
    | NoHead(error: UpgradeError)

  /** `read_head` from a buffer and the chunks still to arrive. */
  function ReadHead(maxHead: nat, buffer: seq<byte>, chunks: seq<seq<byte>>): HeadRead
    decreases |chunks|
  {
    match HeadEnd(buffer)
    case Some(end) => GotHead(buffer[..end], buffer[end..], chunks)
    case None =>
      if |buffer| > maxHead then NoHead(HeadTooLarge)
      else if chunks == [] then NoHead(Malformed)
      else ReadHead(maxHead, buffer + chunks[0], chunks[1..])
  }

  // ---- Finding in a prefix -----------------------------------------------------------------------

  lemma FoundAtFront(input: seq<byte>, pattern: seq<byte>)
    requires pattern != [] && pattern <= input
    ensures Find(input, pattern) == Some(0)
  {
  }

  lemma ShortHasNone(input: seq<byte>, pattern: seq<byte>)
    requires pattern != [] && |input| < |pattern|
    ensures Find(input, pattern) == None
  {
  }

  /** The first match in a prefix is the first match, if the prefix holds it. */
  lemma {:induction false} FindInPrefix(all: seq<byte>, pattern: seq<byte>, p: nat)
    requires pattern != [] && p <= |all|
    ensures var whole := Find(all, pattern);
            Find(all[..p], pattern)
            == if whole.Some? && whole.value + |pattern| <= p then whole else None
    decreases |all|
  {
    hide Find;
    if p < |pattern| {
      ShortHasNone(all[..p], pattern);
    } else if pattern <= all {
      assert pattern <= all[..p];
      FoundAtFront(all, pattern);
      FoundAtFront(all[..p], pattern);
    } else {
      assert all[..p][..|pattern|] == all[..|pattern|];
      RoundTrip.FindStep(all, pattern);
      RoundTrip.FindStep(all[..p], pattern);
      assert all[..p][1..] == all[1..][..p - 1];
      FindInPrefix(all[1..], pattern, p - 1);
    }
  }

  /** A double line feed is not inside a CRLFCRLF, nor one inside it. */
  lemma TerminatorsApart(all: seq<byte>)
    ensures var (i, j) := (Find(all, CRLFCRLF), Find(all, LFLF));
            i.Some? && j.Some? && j.value >= i.value ==> j.value >= i.value + 3
  {
    hide Find;
    var (i, j) := (Find(all, CRLFCRLF), Find(all, LFLF));
    if i.Some? && j.Some? {
      var a, b := all[i.value..i.value + 4], all[j.value..j.value + 2];
      assert a[0] == all[i.value] && a[2] == all[i.value + 2];
      assert b[0] == all[j.value] && b[1] == all[j.value + 1];
    }
  }

  // ---- When a head does not depend on how it was cut ------------------------------------------------

  /** No bare line-feed terminator comes before a CRLFCRLF. */
  predicate Unambiguous(all: seq<byte>) {
    var (i, j) := (Find(all, CRLFCRLF), Find(all, LFLF));
    i.Some? && j.Some? ==> i.value <= j.value
  }

  /** What a caller can check of the bytes: one terminator, and it comes early enough. */
  predicate Settled(all: seq<byte>, maxHead: nat) {
    Unambiguous(all) && (HeadEnd(all).Some? ==> HeadEnd(all).value <= maxHead + 1)
  }

  lemma HeadEndOfPrefix(all: seq<byte>, p: nat)
    requires p <= |all| && Unambiguous(all)
    ensures HeadEnd(all[..p]) == if HeadEnd(all).Some? && HeadEnd(all).value <= p then HeadEnd(all) else None
  {
    hide Find;
    FindInPrefix(all, CRLFCRLF, p);
    FindInPrefix(all, LFLF, p);
    TerminatorsApart(all);
  }

  /** The outcome that settled bytes have, however they arrive. */
  ghost predicate HasOutcome(r: HeadRead, all: seq<byte>, maxHead: nat) {
    match HeadEnd(all)
    case Some(end) => r.GotHead? && r.head == all[..end] && r.rest + Concat(r.chunks) == all[end..]
    case None => r == NoHead(if |all| > maxHead then HeadTooLarge else Malformed)
  }

  lemma {:induction false} SettledHeadIsRead(maxHead: nat, buffer: seq<byte>, chunks: seq<seq<byte>>)
    requires Settled(buffer + Concat(chunks), maxHead)
    ensures HasOutcome(ReadHead(maxHead, buffer, chunks), buffer + Concat(chunks), maxHead)
    decreases |chunks|
  {
    hide HeadEnd, Unambiguous;
    var all := buffer + Concat(chunks);
    HeadEndOfPrefix(all, |buffer|);
    assert all[..|buffer|] == buffer;
    match HeadEnd(buffer) {
      case Some(end) =>
        assert buffer[..end] == all[..end] && buffer[end..] + Concat(chunks) == all[end..];
      case None =>
        if chunks == [] {
          assert all == buffer;
        } else if |buffer| <= maxHead {
          assert (buffer + chunks[0]) + Concat(chunks[1..]) == all;
          SettledHeadIsRead(maxHead, buffer + chunks[0], chunks[1..]);
        }
    }
  }

  /** The same head and the same bytes left, or the same error. */
  ghost predicate SameOutcome(a: HeadRead, b: HeadRead) {
    if a.GotHead? && b.GotHead? then
      a.head == b.head && a.rest + Concat(a.chunks) == b.rest + Concat(b.chunks)
    else
      a == b
  }

  predicate CutsOf(chunks: seq<seq<byte>>, all: seq<byte>) {
    Concat(chunks) == all && forall i :: 0 <= i < |chunks| ==> chunks[i] != []
  }

  lemma NothingHasNoEnd()
    ensures HeadEnd([]) == None
  {
  }

  lemma ReadWhole(maxHead: nat, all: seq<byte>)
    requires HeadEnd(all).Some?
    ensures CutsOf([all], all)
    ensures var end := HeadEnd(all).value;
            ReadHead(maxHead, [], [all]) == GotHead(all[..end], all[end..], [])
  {
    hide HeadEnd;
    NothingHasNoEnd();
    assert Concat([all]) == all + Concat([]);
    assert [] + [all][0] == all && [all][1..] == [];
    assert ReadHead(maxHead, all, []) == GotHead(all[..HeadEnd(all).value], all[HeadEnd(all).value..], []);
  }

  /** Reading a proper prefix first: its own head end or its size decides. */
  lemma ReadInTwo(maxHead: nat, all: seq<byte>, p: nat)
    requires 0 < p < |all| && (HeadEnd(all[..p]).Some? || p > maxHead)
    ensures CutsOf([all[..p], all[p..]], all)
    ensures ReadHead(maxHead, [], [all[..p], all[p..]]) ==
            match HeadEnd(all[..p])
            case Some(end) => GotHead(all[..p][..end], all[..p][end..], [all[p..]])
            case None => NoHead(HeadTooLarge)
  {
    hide HeadEnd;
    NothingHasNoEnd();
    var chunks := [all[..p], all[p..]];
    assert chunks[1..] == [all[p..]] && [all[p..]][1..] == [];
    assert Concat([all[p..]]) == all[p..] + Concat([]) && Concat(chunks) == all[..p] + Concat([all[p..]]);
    assert [] + chunks[0] == all[..p];
  }

  // ---- What reads of bounded size can come to ------------------------------------------------------

  /** A cut into reads of at most `largest` octets each. */
  predicate BoundedCut(chunks: seq<seq<byte>>, all: seq<byte>, largest: nat) {
    CutsOf(chunks, all) && forall i :: 0 <= i < |chunks| ==> |chunks[i]| <= largest
  }

  /** With a bound as large as the whole every cut is meant. */
  lemma {:induction false} EveryCutIsBounded(chunks: seq<seq<byte>>, all: seq<byte>)
    requires CutsOf(chunks, all)
    ensures BoundedCut(chunks, all, |all|)
    decreases |chunks|
  {
    if chunks == [] {
    } else {
      EveryCutIsBounded(chunks[1..], Concat(chunks[1..]));
      forall i | 0 <= i < |chunks| ensures |chunks[i]| <= |all| {
        assert i > 0 ==> chunks[i] == chunks[1..][i - 1];
      }
    }
  }

  /** The end in the shortest prefix that has one. */
  function FirstEnd(all: seq<byte>): Option<nat> {
    var (i, j) := (Find(all, CRLFCRLF), Find(all, LFLF));
    if i.Some? && (j.None? || i.value <= j.value) then Some(i.value + 4)
    else if j.Some? then Some(j.value + 2)
    else None
  }

  /** Both ends, and which of them a prefix shows. */
  lemma EndInPrefix(all: seq<byte>, p: nat)
    requires p <= |all|
    ensures FirstEnd(all).Some? <==> HeadEnd(all).Some?
    ensures FirstEnd(all).Some? ==> 0 < FirstEnd(all).value <= HeadEnd(all).value <= |all|
    ensures Unambiguous(all) <==> FirstEnd(all) == HeadEnd(all)
    ensures HeadEnd(all[..p]) ==
            if FirstEnd(all).None? || p < FirstEnd(all).value then None
            else if p < HeadEnd(all).value then FirstEnd(all)
            else HeadEnd(all)
  {
    hide Find;
    FindInPrefix(all, CRLFCRLF, p);
    FindInPrefix(all, LFLF, p);
    TerminatorsApart(all);
  }

  /** The most that can be buffered when the read that brings an end begins. */
  function Before(all: seq<byte>, maxHead: nat): nat
    requires FirstEnd(all).Some? && FirstEnd(all).value > 0
  {
    Min(maxHead, FirstEnd(all).value - 1)
  }

  /** A head of `n` octets is one of the two there are, and one read reaches it. */
  predicate CanReturn(all: seq<byte>, maxHead: nat, largest: nat, n: nat) {
    FirstEnd(all).Some? && FirstEnd(all).value > 0 && (Some(n) == FirstEnd(all) || Some(n) == HeadEnd(all)) &&
    n <= Before(all, maxHead) + largest
  }

  /** The buffer can pass the limit with no end in it. */
  predicate CanGiveUp(all: seq<byte>, maxHead: nat) {
    FirstEnd(all).Some? && FirstEnd(all).value > maxHead + 1
  }

  ghost predicate Expected(r: HeadRead, all: seq<byte>, maxHead: nat, largest: nat) {
    if r.NoHead? then
      r.error == HeadTooLarge && CanGiveUp(all, maxHead)
    else
      CanReturn(all, maxHead, largest, |r.head|) && |r.head| <= |all| &&
      r.head == all[..|r.head|] && r.rest + Concat(r.chunks) == all[|r.head|..]
  }

  lemma PrefixParts(all: seq<byte>, b: nat, end: nat)
    requires end <= b <= |all|
    ensures all[..b][..end] == all[..end] && all[..b][end..] + all[b..] == all[end..]
  {
  }

  lemma NextChunk(all: seq<byte>, b: nat, c: seq<byte>, rest: seq<byte>)
    requires b <= |all| && all[b..] == c + rest
    ensures b + |c| <= |all| && all[..b] + c == all[..b + |c|] && all[b + |c|..] == rest
  {
    assert all[b..][..|c|] == c && all[b..][|c|..] == rest;
  }

  /** Where there is an end, nothing else comes of any cut. */
  lemma {:induction false} OnlyThese(all: seq<byte>, maxHead: nat, largest: nat, b: nat, chunks: seq<seq<byte>>)
    requires FirstEnd(all).Some? && FirstEnd(all).value > 0
    requires b <= |all| && all[b..] == Concat(chunks) && b <= Before(all, maxHead) + largest
    requires forall i :: 0 <= i < |chunks| ==> |chunks[i]| <= largest
    ensures Expected(ReadHead(maxHead, all[..b], chunks), all, maxHead, largest)
    decreases |chunks|
  {
    hide HeadEnd, FirstEnd, Unambiguous;
    EndInPrefix(all, b);
    EndInPrefix(all, |all|);
    assert all[..|all|] == all;
    if HeadEnd(all[..b]).Some? {
      PrefixParts(all, b, HeadEnd(all[..b]).value);
    } else if b <= maxHead {
      assert chunks == [] ==> b == |all|;
      var c := chunks[0];
      NextChunk(all, b, c, Concat(chunks[1..]));
      OnlyThese(all, maxHead, largest, b + |c|, chunks[1..]);
    }
  }

  function Singles(s: seq<byte>): seq<seq<byte>> {
    seq(|s|, i requires 0 <= i < |s| => [s[i]])
  }

  lemma {:induction false} ConcatSingles(s: seq<byte>)
    ensures Concat(Singles(s)) == s
  {
    if s == [] {
    } else {
      ConcatSingles(s[1..]);
      assert Singles(s)[1..] == Singles(s[1..]);
    }
  }

  /** Octet by octet while there is no end and the limit is not passed. */
  lemma {:induction false} ReadSingles(all: seq<byte>, maxHead: nat, b: nat, q: nat, more: seq<seq<byte>>)
    requires b <= q <= |all| && q <= maxHead + 1 && (FirstEnd(all).Some? ==> q <= FirstEnd(all).value)
    ensures ReadHead(maxHead, all[..b], Singles(all[b..q]) + more) == ReadHead(maxHead, all[..q], more)
    decreases q - b
  {
    hide HeadEnd, FirstEnd;
    var chunks := Singles(all[b..q]) + more;
    if b == q {
      assert chunks == more;
    } else {
      EndInPrefix(all, b);
      assert all[..b] + chunks[0] == all[..b + 1] && chunks[1..] == Singles(all[b + 1..q]) + more;
      ReadSingles(all, maxHead, b + 1, q, more);
    }
  }

  /** The cut that shows what can happen: octet by octet to `q`, one read to `n`, octet by octet. */
  function OneBigRead(all: seq<byte>, q: nat, n: nat): seq<seq<byte>>
    requires q < n <= |all|
  {
    Singles(all[..q]) + ([all[q..n]] + Singles(all[n..]))
  }

  lemma BigReadIsACut(all: seq<byte>, q: nat, n: nat, largest: nat)
    requires q < n <= |all| && n - q <= largest
    ensures BoundedCut(OneBigRead(all, q, n), all, largest)
  {
    var rest := [all[q..n]] + Singles(all[n..]);
    ConcatSingles(all[..q]);
    ConcatSingles(all[n..]);
    ConcatAppend(Singles(all[..q]), rest);
    assert rest[1..] == Singles(all[n..]);
    assert all[..q] + (all[q..n] + all[n..]) == all;
  }

  /** One read that reaches an end: the head is returned. */
  lemma BigReadReturns(all: seq<byte>, maxHead: nat, largest: nat, n: nat)
    requires CanReturn(all, maxHead, largest, n)
    ensures n <= |all| && Before(all, maxHead) < n
    ensures var c := OneBigRead(all, Before(all, maxHead), n);
            var r := ReadHead(maxHead, [], c);
            BoundedCut(c, all, largest) && r.GotHead? && r.head == all[..n]
  {
    hide HeadEnd, FirstEnd, Find, Singles;
    EndInPrefix(all, |all|);
    var q := Before(all, maxHead);
    BigReadIsACut(all, q, n, largest);
    var more := [all[q..n]] + Singles(all[n..]);
    assert all[..0] == [] && all[0..q] == all[..q] && all[..|all|] == all;
    ReadSingles(all, maxHead, 0, q, more);
    EndInPrefix(all, q);
    EndInPrefix(all, n);
    assert all[..q] + more[0] == all[..n] && more[1..] == Singles(all[n..]);
    assert all[..n][..n] == all[..n];
  }

  /** Octet by octet, the buffer passes the limit first. */
  lemma SinglesGiveUp(all: seq<byte>, maxHead: nat, largest: nat)
    requires CanGiveUp(all, maxHead) && largest > 0
    ensures BoundedCut(Singles(all), all, largest) && ReadHead(maxHead, [], Singles(all)) == NoHead(HeadTooLarge)
  {
    SinglesAreACut(all, largest);
    hide HeadEnd, FirstEnd, Find;
    EndInPrefix(all, |all|);
    var q := maxHead + 1;
    assert all[..0] == [] && Singles(all) == Singles(all[0..q]) + Singles(all[q..]);
    ReadSingles(all, maxHead, 0, q, Singles(all[q..]));
    EndInPrefix(all, q);
  }

  ghost predicate Returns(all: seq<byte>, maxHead: nat, largest: nat, n: nat) {
    exists c: seq<seq<byte>> ::
      BoundedCut(c, all, largest) && ReadHead(maxHead, [], c).GotHead? && |ReadHead(maxHead, [], c).head| == n
  }

  ghost predicate GivesUp(all: seq<byte>, maxHead: nat, largest: nat) {
    exists c: seq<seq<byte>> :: BoundedCut(c, all, largest) && ReadHead(maxHead, [], c) == NoHead(HeadTooLarge)
  }

  lemma FromTheStart(all: seq<byte>, maxHead: nat, largest: nat, c: seq<seq<byte>>)
    requires BoundedCut(c, all, largest) && HeadEnd(all).Some?
    ensures Expected(ReadHead(maxHead, [], c), all, maxHead, largest)
  {
    hide HeadEnd, FirstEnd, Find, Unambiguous, CanReturn, CanGiveUp, ReadHead, Concat;
    EndInPrefix(all, 0);
    assert all[..0] == [] && all[0..] == all;
    OnlyThese(all, maxHead, largest, 0, c);
  }

  lemma NoEndNoHead(all: seq<byte>, maxHead: nat, c: seq<seq<byte>>)
    requires CutsOf(c, all) && HeadEnd(all).None?
    ensures ReadHead(maxHead, [], c) == NoHead(if |all| > maxHead then HeadTooLarge else Malformed)
  {
    hide Find;
    CutIsWhole(c, all);
    SettledHeadIsRead(maxHead, [], c);
  }

  /** Which lengths of head some cut into reads of at most `largest` octets gives, exactly. */
  lemma ReturnsIff(all: seq<byte>, maxHead: nat, largest: nat, n: nat)
    ensures Returns(all, maxHead, largest, n) <==> CanReturn(all, maxHead, largest, n)
  {
    hide HeadEnd, FirstEnd, BoundedCut, OneBigRead, ReadHead;
    EndInPrefix(all, 0);
    if CanReturn(all, maxHead, largest, n) {
      BigReadReturns(all, maxHead, largest, n);
    }
    if c: seq<seq<byte>> :| BoundedCut(c, all, largest) && ReadHead(maxHead, [], c).GotHead? &&
                            |ReadHead(maxHead, [], c).head| == n {
      if HeadEnd(all).None? {
        BoundedIsCut(c, all, largest);
        NoEndNoHead(all, maxHead, c);
      } else {
        FromTheStart(all, maxHead, largest, c);
      }
    }
  }

  lemma SinglesAreACut(all: seq<byte>, largest: nat)
    requires largest > 0
    ensures BoundedCut(Singles(all), all, largest)
  {
    ConcatSingles(all);
  }

  /** When some cut makes it give up on the size. */
  lemma GivesUpIff(all: seq<byte>, maxHead: nat, largest: nat)
    requires largest > 0
    ensures GivesUp(all, maxHead, largest) <==>
            if HeadEnd(all).Some? then FirstEnd(all).value > maxHead + 1 else |all| > maxHead
  {
    hide HeadEnd, FirstEnd, BoundedCut, Singles, ReadHead;
    EndInPrefix(all, 0);
    SinglesAreACut(all, largest);
    BoundedIsCut(Singles(all), all, largest);
    if HeadEnd(all).Some? {
      if CanGiveUp(all, maxHead) {
        SinglesGiveUp(all, maxHead, largest);
      }
      if c: seq<seq<byte>> :| BoundedCut(c, all, largest) && ReadHead(maxHead, [], c) == NoHead(HeadTooLarge) {
        FromTheStart(all, maxHead, largest, c);
      }
    } else {
      NoEndNoHead(all, maxHead, Singles(all));
      if c: seq<seq<byte>> :| BoundedCut(c, all, largest) && ReadHead(maxHead, [], c) == NoHead(HeadTooLarge) {
        BoundedIsCut(c, all, largest);
        NoEndNoHead(all, maxHead, c);
      }
    }
  }

  lemma BoundedIsCut(c: seq<seq<byte>>, all: seq<byte>, largest: nat)
    requires BoundedCut(c, all, largest)
    ensures CutsOf(c, all)
  {
  }

  // ---- When the size limit holds -------------------------------------------------------------------

  /** No cut of these bytes into such reads makes `read_head` return more than the limit allows. */
  ghost predicate LimitHolds(all: seq<byte>, maxHead: nat, largest: nat) {
    forall n: nat :: Returns(all, maxHead, largest, n) ==> n <= maxHead
  }

  /** The limit is compared with the buffer between reads only. It holds exactly when each of the two
      ends is within it, or further behind than one read reaches. */
  lemma LimitHoldsIff(all: seq<byte>, maxHead: nat, largest: nat)
    ensures LimitHolds(all, maxHead, largest) <==>
            (HeadEnd(all).Some? ==>
               (FirstEnd(all).value <= maxHead || FirstEnd(all).value > maxHead + largest) &&
               (HeadEnd(all).value <= maxHead || HeadEnd(all).value > Before(all, maxHead) + largest))
    ensures Unambiguous(all) ==>
              (LimitHolds(all, maxHead, largest) <==>
               (HeadEnd(all).Some? ==> HeadEnd(all).value <= maxHead || HeadEnd(all).value > maxHead + largest))
  {
    hide HeadEnd, FirstEnd, Returns, Unambiguous;
    EndInPrefix(all, 0);
    forall n: nat ensures Returns(all, maxHead, largest, n) <==> CanReturn(all, maxHead, largest, n) {
      ReturnsIff(all, maxHead, largest, n);
    }
    if HeadEnd(all).Some? {
      ReturnsIff(all, maxHead, largest, FirstEnd(all).value);
      ReturnsIff(all, maxHead, largest, HeadEnd(all).value);
    }
  }

  // ---- When the cut does not matter ----------------------------------------------------------------

  ghost predicate Independent(all: seq<byte>, maxHead: nat, largest: nat) {
    forall a: seq<seq<byte>>, b: seq<seq<byte>> :: BoundedCut(a, all, largest) && BoundedCut(b, all, largest) ==>
      SameOutcome(ReadHead(maxHead, [], a), ReadHead(maxHead, [], b))
  }

  /** No end; or one that comes in time, with no other or the other out of reach; or none in reach. */
  predicate SettledFor(all: seq<byte>, maxHead: nat, largest: nat) {
    HeadEnd(all).None? || FirstEnd(all).None? ||
    var (first, end) := (FirstEnd(all).value, HeadEnd(all).value);
    (first <= maxHead + 1 && (first == end || end >= first + largest)) || first > maxHead + largest
  }

  /** Reading a head does not depend on how the bytes are cut into reads of at most `largest` octets
      exactly when they are settled for such reads. */
  lemma IndependentIffSettled(all: seq<byte>, maxHead: nat, largest: nat)
    requires largest > 0
    ensures Independent(all, maxHead, largest) <==> SettledFor(all, maxHead, largest)
  {
    hide HeadEnd, FirstEnd, BoundedCut, ReadHead, Concat;
    EndInPrefix(all, 0);
    if SettledFor(all, maxHead, largest) {
      forall a: seq<seq<byte>>, b: seq<seq<byte>> | BoundedCut(a, all, largest) && BoundedCut(b, all, largest)
        ensures SameOutcome(ReadHead(maxHead, [], a), ReadHead(maxHead, [], b))
      {
        OneOutcome(all, maxHead, largest, a, b);
      }
    } else {
      TwoOutcomes(all, maxHead, largest);
    }
  }

  lemma OneOutcome(all: seq<byte>, maxHead: nat, largest: nat, a: seq<seq<byte>>, b: seq<seq<byte>>)
    requires SettledFor(all, maxHead, largest) && largest > 0
    requires BoundedCut(a, all, largest) && BoundedCut(b, all, largest)
    ensures SameOutcome(ReadHead(maxHead, [], a), ReadHead(maxHead, [], b))
  {
    hide HeadEnd, FirstEnd, BoundedCut, ReadHead, Concat;
    EndInPrefix(all, 0);
    if HeadEnd(all).None? {
      BoundedIsCut(a, all, largest);
      BoundedIsCut(b, all, largest);
      NoEndNoHead(all, maxHead, a);
      NoEndNoHead(all, maxHead, b);
    } else {
      FromTheStart(all, maxHead, largest, a);
      FromTheStart(all, maxHead, largest, b);
    }
  }

  lemma TwoOutcomes(all: seq<byte>, maxHead: nat, largest: nat)
    requires !SettledFor(all, maxHead, largest) && largest > 0
    ensures !Independent(all, maxHead, largest)
  {
    hide HeadEnd, FirstEnd, BoundedCut, ReadHead, Concat, OneBigRead, Singles;
    EndInPrefix(all, 0);
    var (first, end, q) := (FirstEnd(all).value, HeadEnd(all).value, Before(all, maxHead));
    BigReadReturns(all, maxHead, largest, first);
    var a := OneBigRead(all, q, first);
    if first <= maxHead + 1 {
      BigReadReturns(all, maxHead, largest, end);
      assert |all[..first]| == first < |all[..end]|;
      assert !SameOutcome(ReadHead(maxHead, [], a), ReadHead(maxHead, [], OneBigRead(all, q, end)));
    } else {
      SinglesGiveUp(all, maxHead, largest);
      assert !SameOutcome(ReadHead(maxHead, [], a), ReadHead(maxHead, [], Singles(all)));
    }
  }

  /** For cuts of every kind that is: no bare terminator first, and the end at most one past the limit. */
  lemma SettledForEvery(all: seq<byte>, maxHead: nat)
    ensures SettledFor(all, maxHead, |all|) <==> Settled(all, maxHead)
  {
    hide HeadEnd, FirstEnd, Unambiguous;
    EndInPrefix(all, 0);
  }

  lemma CutIsWhole(chunks: seq<seq<byte>>, all: seq<byte>)
    requires CutsOf(chunks, all)
    ensures [] + Concat(chunks) == all
  {
  }

  /** Bytes for which the cut matters: an LFLF stands before the CRLFCRLF. */
  const AMBIGUOUS: seq<byte> := [65, 10, 10, 13, 10, 13, 10]

  /** Read at once they are one head of seven octets; cut behind the third, a head of three. */
  lemma CutMatters(maxHead: nat)
    requires maxHead >= 7
    ensures !Settled(AMBIGUOUS, maxHead)
    ensures ReadHead(maxHead, [], [AMBIGUOUS]) == GotHead(AMBIGUOUS, [], [])
    ensures ReadHead(maxHead, [], [AMBIGUOUS[..3], AMBIGUOUS[3..]]) == GotHead([65, 10, 10], [], [AMBIGUOUS[3..]])
  {
    WhereTheyEnd();
    hide HeadEnd, AMBIGUOUS;
    ReadWhole(maxHead, AMBIGUOUS);
    ReadInTwo(maxHead, AMBIGUOUS, 3);
    assert AMBIGUOUS[..7] == AMBIGUOUS && AMBIGUOUS[7..] == [];
    assert AMBIGUOUS[..3][..3] == AMBIGUOUS[..3] && AMBIGUOUS[..3][3..] == [];
  }

  lemma WhereTheyEnd()
    ensures |AMBIGUOUS| == 7 && AMBIGUOUS[..3] == [65, 10, 10]
    ensures !Unambiguous(AMBIGUOUS)
    ensures HeadEnd(AMBIGUOUS) == Some(7) && HeadEnd(AMBIGUOUS[..3]) == Some(3)
  {
    hide AMBIGUOUS, Find, RoundTrip.At, CRLFCRLF, LFLF;
    var all := AMBIGUOUS;
    ItsParts();
    forall j | 0 <= j < 3 ensures !RoundTrip.At(all, CRLFCRLF, j) {
      RoundTrip.NoMatchWithout(all, j);
    }
    NoPairAtFront(all);
    RoundTrip.FindSkip(all, CRLFCRLF, 3);
    RoundTrip.FindSkip(all, LFLF, 1);
    FoundAtFront(all[3..], CRLFCRLF);
    FoundAtFront(all[1..], LFLF);
    FindInPrefix(all, CRLFCRLF, 3);
    FindInPrefix(all, LFLF, 3);
  }

  lemma ItsParts()
    ensures |AMBIGUOUS| == 7 && AMBIGUOUS[..3] == [65, 10, 10]
    ensures forall j :: 0 <= j < 3 ==> AMBIGUOUS[j] != 13
    ensures AMBIGUOUS[0] != 10
    ensures CRLFCRLF <= AMBIGUOUS[3..] && LFLF <= AMBIGUOUS[1..]
    ensures |CRLFCRLF| == 4 && |LFLF| == 2
  {
    assert AMBIGUOUS[1..][..2] == LFLF;
  }

  lemma NoPairAtFront(input: seq<byte>)
    requires |input| >= 2 && input[0] != 10
    ensures !RoundTrip.At(input, LFLF, 0)
  {
    assert input[0..2][0] == input[0];
  }

  /** What the comparison does keep: a head exceeds the limit by no more than the largest read. */
  lemma {:induction false} ExcessIsOneRead(maxHead: nat, buffer: seq<byte>, chunks: seq<seq<byte>>, largest: nat)
    requires |buffer| <= maxHead + largest
    requires forall i :: 0 <= i < |chunks| ==> |chunks[i]| <= largest
    ensures var r := ReadHead(maxHead, buffer, chunks);
            r.GotHead? ==> |r.head| <= maxHead + largest
    decreases |chunks|
  {
    hide HeadEnd;
    if HeadEnd(buffer).Some? || |buffer| > maxHead || chunks == [] {
    } else {
      ExcessIsOneRead(maxHead, buffer + chunks[0], chunks[1..], largest);
    }
  }

  /** At one past the limit every cut returns the head. */
  lemma OneOverIsReturned(all: seq<byte>, maxHead: nat, chunks: seq<seq<byte>>)
    requires Unambiguous(all) && HeadEnd(all) == Some(maxHead + 1) && CutsOf(chunks, all)
    ensures var r := ReadHead(maxHead, [], chunks);
            r.GotHead? && r.head == all[..maxHead + 1] && |r.head| > maxHead
  {
    hide HeadEnd, ReadHead, Unambiguous;
    CutIsWhole(chunks, all);
    SettledHeadIsRead(maxHead, [], chunks);
  }

  /** A server is safe all the same: an unambiguous head past the limit is refused as too large by
      `read_head` or by the parse behind it, whatever the cut. */
  lemma {:induction false} LongHeadIsRefused(maxHead: nat, buffer: seq<byte>, chunks: seq<seq<byte>>)
    requires var all := buffer + Concat(chunks);
             Unambiguous(all) && HeadEnd(all).Some? && HeadEnd(all).value > maxHead
    ensures var all := buffer + Concat(chunks);
            match ReadHead(maxHead, buffer, chunks)
            case NoHead(e) => e == HeadTooLarge
            case GotHead(head, _, _) => head == all[..HeadEnd(all).value] && Verdict(head, maxHead) == Err(HeadTooLarge)
    decreases |chunks|
  {
    hide HeadEnd, Unambiguous;
    var all := buffer + Concat(chunks);
    HeadEndOfPrefix(all, |buffer|);
    assert all[..|buffer|] == buffer && (chunks == [] ==> all == buffer);
    if HeadEnd(buffer).Some? {
      var end := HeadEnd(buffer).value;
      assert buffer[..end] == all[..end];
    } else if |buffer| <= maxHead {
      assert (buffer + chunks[0]) + Concat(chunks[1..]) == all;
      LongHeadIsRefused(maxHead, buffer + chunks[0], chunks[1..]);
    }
  }
}
