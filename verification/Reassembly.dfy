/** Theorems about the reassembler over whole runs of frames. */
module Reassembly {
  import opened Bytes
  import opened Opcode
  import opened Utf8
  import opened Messages

  /** Feed every frame in turn; one answer per frame. */
  function Run(max: nat, st: State, frames: seq<Fragment>): (r: (State, seq<Outcome>))
    requires Inv(max, st)
    ensures Inv(max, r.0) && |r.1| == |frames|
    decreases frames
  {
    if frames == [] then (st, []) else
    var (next, out) := Step(max, st, frames[0]);
    var (last, outs) := Run(max, next, frames[1..]);
    (last, [out] + outs)
  }

  lemma RunCons(max: nat, st: State, f: Fragment, rest: seq<Fragment>)
    requires Inv(max, st)
    ensures var (next, out) := Step(max, st, f);
            var (last, outs) := Run(max, next, rest);
            Run(max, st, [f] + rest) == (last, [out] + outs)
  {
    hide Step;
    assert ([f] + rest)[1..] == rest;
  }

  lemma {:induction false} RunAppend(max: nat, st: State, a: seq<Fragment>, b: seq<Fragment>)
    requires Inv(max, st)
    ensures var (mid, outs) := Run(max, st, a);
            var (last, more) := Run(max, mid, b);
            Run(max, st, a + b) == (last, outs + more)
    decreases a
  {
    hide Step;
    if a == [] {
      assert a + b == b;
      assert [] + Run(max, st, b).1 == Run(max, st, b).1;
    } else {
      var (next, out) := Step(max, st, a[0]);
      RunAppend(max, next, a[1..], b);
      assert (a + b)[0] == a[0] && (a + b)[1..] == a[1..] + b;
      var (mid, outs) := Run(max, next, a[1..]);
      var more := Run(max, mid, b).1;
      assert [out] + (outs + more) == [out] + outs + more;
    }
  }

  // ---- Fragmentation -----------------------------------------------------------------

  predicate IsOpen(st: State) {
    !st.closed && st.partial.Some?
  }

  /** A frame that may turn up inside an open message without ending it: a probe, a data frame
      that has no business there, or a continuation too large for any message. */
  predicate IsInterruption(max: nat, f: Fragment) {
    !f.opcode.Close? && (f.opcode.Continuation? ==> |f.payload| > max)
  }

  predicate AllInterruptions(max: nat, gap: seq<Fragment>) {
    forall i :: 0 <= i < |gap| ==> IsInterruption(max, gap[i])
  }

  predicate AllProbes(gap: seq<Fragment>) {
    forall i :: 0 <= i < |gap| ==> gap[i].opcode.Ping? || gap[i].opcode.Pong?
  }

  /** Probes are delivered, data frames refused by section 5.4 of RFC 6455, and what is too large
      by the limit. */
  function GapAnswer(f: Fragment): Outcome {
    if f.opcode.Ping? then Delivered(PingMessage(f.payload))
    else if f.opcode.Pong? then Delivered(PongMessage(f.payload))
    else if f.opcode.Continuation? then Refused(MessageTooLarge)
    else Refused(InterleavedDataFrame)
  }

  function GapAnswers(gap: seq<Fragment>): seq<Outcome> {
    seq(|gap|, i requires 0 <= i < |gap| => GapAnswer(gap[i]))
  }

  /** The continuation frames for `parts`, the last one final, with `gaps[i]` just before part `i`. */
  function Continuations(parts: seq<seq<byte>>, gaps: seq<seq<Fragment>>): seq<Fragment>
    requires |gaps| == |parts|
  {
    if parts == [] then [] else
    gaps[0] + [Fragment(Continuation, |parts| == 1, parts[0])] + Continuations(parts[1..], gaps[1..])
  }

  /** A message of `kind` cut into `parts`, with `gaps[i]` between part `i` and part `i + 1`. */
  function Fragmented(kind: OpCode, parts: seq<seq<byte>>, gaps: seq<seq<Fragment>>): seq<Fragment>
    requires |parts| == |gaps| + 1
  {
    [Fragment(kind, |parts| == 1, parts[0])] + Continuations(parts[1..], gaps)
  }

  /** Every interruption answered in its place, silence for the fragments, `last` for the final one. */
  function Answers(gaps: seq<seq<Fragment>>, last: Outcome): seq<Outcome> {
    if gaps == [] then [last] else [Nothing] + GapAnswers(gaps[0]) + Answers(gaps[1..], last)
  }

  /** What the whole payload deserves, however it was cut. */
  function Verdict(max: nat, kind: OpCode, bytes: seq<byte>): Outcome
    requires IsData(kind)
  {
    if |bytes| > max then Refused(MessageTooLarge) else FinishUnfragmented(kind, bytes)
  }

  /** The verdict, spelled out: too large, not text, or the message. */
  lemma VerdictIs(max: nat, kind: OpCode, bytes: seq<byte>)
    requires IsData(kind)
    ensures Verdict(max, kind, bytes) == Refused(MessageTooLarge) <==> |bytes| > max
    ensures Verdict(max, kind, bytes) == Refused(InvalidUtf8) <==> |bytes| <= max && kind.Text? && !IsUtf8(bytes)
    ensures Verdict(max, kind, bytes) == Delivered(TextMessage(bytes))
       <==> |bytes| <= max && kind.Text? && IsUtf8(bytes)
    ensures Verdict(max, kind, bytes) == Delivered(BinaryMessage(bytes)) <==> |bytes| <= max && kind.Binary?
  {
    hide IsUtf8;
  }

  lemma {:induction false} InterruptionsPass(max: nat, st: State, gap: seq<Fragment>)
    requires Inv(max, st) && IsOpen(st) && AllInterruptions(max, gap)
    ensures Run(max, st, gap) == (st, GapAnswers(gap))
    decreases gap
  {
    if gap == [] {
    } else {
      InterruptionsPass(max, st, gap[1..]);
      assert GapAnswers(gap) == [GapAnswers(gap)[0]] + GapAnswers(gap[1..]);
    }
  }

  /** The run over the continuations: the interruptions of the first gap, the first part, the rest. */
  lemma FirstContinuation(max: nat, st: State, parts: seq<seq<byte>>, gaps: seq<seq<Fragment>>)
    requires Inv(max, st) && IsOpen(st) && parts != [] && |gaps| == |parts|
    requires AllInterruptions(max, gaps[0])
    ensures var (next, out) := Step(max, st, Fragment(Continuation, |parts| == 1, parts[0]));
            var (last, outs) := Run(max, next, Continuations(parts[1..], gaps[1..]));
            Run(max, st, Continuations(parts, gaps)) == (last, GapAnswers(gaps[0]) + ([out] + outs))
  {
    hide Step, Run, GapAnswers;
    var first, rest := Fragment(Continuation, |parts| == 1, parts[0]), Continuations(parts[1..], gaps[1..]);
    InterruptionsPass(max, st, gaps[0]);
    RunCons(max, st, first, rest);
    RunAppend(max, st, gaps[0], [first] + rest);
    assert Continuations(parts, gaps) == gaps[0] + ([first] + rest);
  }

  /** With nothing open, continuations are refused one by one and open nothing. */
  lemma {:induction false} StrayContinuations(max: nat, frames: seq<Fragment>)
    requires forall i :: 0 <= i < |frames| ==> frames[i].opcode.Continuation?
    ensures Run(max, FRESH, frames).0 == FRESH
    ensures forall i :: 0 <= i < |frames| ==> Run(max, FRESH, frames).1[i] == Refused(UnexpectedContinuation)
    decreases frames
  {
    if frames == [] {
    } else {
      StrayContinuations(max, frames[1..]);
    }
  }

  function Open(kind: OpCode, bytes: seq<byte>): State {
    State(Some(Partial(kind, bytes)), false)
  }

  lemma {:induction false} ContinuationsComplete(
    max: nat, kind: OpCode, sofar: seq<byte>, parts: seq<seq<byte>>, gaps: seq<seq<Fragment>>)
    requires IsData(kind) && parts != [] && |gaps| == |parts|
    requires |sofar + Concat(parts)| <= max
    requires forall i :: 0 <= i < |gaps| ==> AllInterruptions(max, gaps[i])
    ensures var last := FinishUnfragmented(kind, sofar + Concat(parts));
            var (st, outs) := Run(max, Open(kind, sofar), Continuations(parts, gaps));
            st == FRESH && [Nothing] + outs == Answers(gaps, last)
    decreases parts
  {
    var joined := sofar + parts[0];
    assert sofar + Concat(parts) == joined + Concat(parts[1..]);
    FirstContinuation(max, Open(kind, sofar), parts, gaps);
    if |parts| == 1 {
      assert joined == sofar + Concat(parts);
    } else {
      ContinuationsComplete(max, kind, joined, parts[1..], gaps[1..]);
    }
  }

  /** Any cut of a message that fits, with any interruptions between the pieces, answers every one
      in place, then exactly the message (or the UTF-8 verdict on it), and leaves nothing open. */
  lemma FragmentsReassemble(max: nat, kind: OpCode, parts: seq<seq<byte>>, gaps: seq<seq<Fragment>>)
    requires IsData(kind) && |parts| == |gaps| + 1
    requires forall i :: 0 <= i < |gaps| ==> AllInterruptions(max, gaps[i])
    requires |Concat(parts)| <= max
    ensures Run(max, FRESH, Fragmented(kind, parts, gaps))
         == (FRESH, Answers(gaps, Verdict(max, kind, Concat(parts))))
    ensures var bytes := Concat(parts);
            Verdict(max, kind, bytes) ==
            if kind.Binary? then Delivered(BinaryMessage(bytes))
            else if IsUtf8(bytes) then Delivered(TextMessage(bytes))
            else Refused(InvalidUtf8)
  {
    VerdictIs(max, kind, Concat(parts));
    var frames := Fragmented(kind, parts, gaps);
    assert frames[1..] == Continuations(parts[1..], gaps);
    if |parts| == 1 {
      assert Concat(parts) == parts[0];
      var verdict := Verdict(max, kind, Concat(parts));
      assert [verdict] + [] == Answers(gaps, verdict);
    } else {
      assert Concat(parts) == parts[0] + Concat(parts[1..]);
      ContinuationsComplete(max, kind, parts[0], parts[1..], gaps);
    }
  }

  /** The first answer that is neither silence nor a probe. */
  function FirstVerdict(outs: seq<Outcome>): Outcome {
    if outs == [] then Nothing
    else if outs[0].Refused? || (outs[0].Delivered? && !outs[0].message.PingMessage? && !outs[0].message.PongMessage?)
    then outs[0]
    else FirstVerdict(outs[1..])
  }

  lemma {:induction false} FirstVerdictAfterProbes(gap: seq<Fragment>, outs: seq<Outcome>)
    requires AllProbes(gap)
    ensures FirstVerdict(GapAnswers(gap) + outs) == FirstVerdict(outs)
  {
    var all := GapAnswers(gap) + outs;
    if gap == [] {
      assert all == outs;
    } else {
      FirstVerdictAfterProbes(gap[1..], outs);
      assert all[1..] == GapAnswers(gap[1..]) + outs;
    }
  }

  lemma {:induction false} ContinuationsVerdict(
    max: nat, kind: OpCode, sofar: seq<byte>, parts: seq<seq<byte>>, gaps: seq<seq<Fragment>>)
    requires IsData(kind) && parts != [] && |gaps| == |parts| && |sofar| <= max
    requires forall i :: 0 <= i < |gaps| ==> AllProbes(gaps[i])
    ensures FirstVerdict(Run(max, Open(kind, sofar), Continuations(parts, gaps)).1)
         == Verdict(max, kind, sofar + Concat(parts))
    decreases parts
  {
    var joined := sofar + parts[0];
    assert sofar + Concat(parts) == joined + Concat(parts[1..]);
    FirstContinuation(max, Open(kind, sofar), parts, gaps);
    var (next, out) := Step(max, Open(kind, sofar), Fragment(Continuation, |parts| == 1, parts[0]));
    var outs := [out] + Run(max, next, Continuations(parts[1..], gaps[1..])).1;
    FirstVerdictAfterProbes(gaps[0], outs);
    if |joined| > max {
    } else {
      if |parts| == 1 {
        assert joined == sofar + Concat(parts);
      } else {
        ContinuationsVerdict(max, kind, joined, parts[1..], gaps[1..]);
        assert outs[1..] == Run(max, next, Continuations(parts[1..], gaps[1..])).1;
      }
    }
  }

  /** The verdict is a function of the joined bytes, within the limit or beyond it. */
  lemma FragmentationVerdict(max: nat, kind: OpCode, parts: seq<seq<byte>>, gaps: seq<seq<Fragment>>)
    requires IsData(kind) && |parts| == |gaps| + 1
    requires forall i :: 0 <= i < |gaps| ==> AllProbes(gaps[i])
    ensures FirstVerdict(Run(max, FRESH, Fragmented(kind, parts, gaps)).1)
         == Verdict(max, kind, Concat(parts))
    ensures var bytes := Concat(parts);
            FirstVerdict(Run(max, FRESH, Fragmented(kind, parts, gaps)).1) ==
            if |bytes| > max then Refused(MessageTooLarge)
            else if kind.Binary? then Delivered(BinaryMessage(bytes))
            else if IsUtf8(bytes) then Delivered(TextMessage(bytes))
            else Refused(InvalidUtf8)
  {
    VerdictIs(max, kind, Concat(parts));
    var frames := Fragmented(kind, parts, gaps);
    assert frames[1..] == Continuations(parts[1..], gaps);
    if |parts| == 1 {
      assert Concat(parts) == parts[0];
    } else if |parts[0]| <= max {
      ContinuationsVerdict(max, kind, parts[0], parts[1..], gaps);
      var outs := Run(max, FRESH, frames).1;
      assert outs[1..] == Run(max, Open(kind, parts[0]), frames[1..]).1;
    }
  }

  // ---- Safety over whole runs, errors included ----------------------------------------

  /** What may ever be handed to the application. */
  predicate Sound(max: nat, out: Outcome) {
    out.Delivered? ==>
      match out.message
      case TextMessage(p) => IsUtf8(p) && |p| <= max
      case BinaryMessage(p) => |p| <= max
      case CloseMessage(Some(f)) => IsSendable(f.code) && IsUtf8(f.reason)
      case _ => true
  }

  predicate HasClose(frames: seq<Fragment>) {
    exists i :: 0 <= i < |frames| && frames[i].opcode.Close?
  }

  /** After any run: the open message is data and fits, every delivery is sound, and the
      machine is closed exactly when a close frame was among the frames, well formed or not. */
  lemma {:induction false} RunIsSafe(max: nat, st: State, frames: seq<Fragment>)
    requires Inv(max, st)
    ensures var (last, outs) := Run(max, st, frames);
            Inv(max, last) &&
            (last.closed <==> st.closed || HasClose(frames)) &&
            forall i :: 0 <= i < |outs| ==> Sound(max, outs[i])
    decreases frames
  {
    if frames == [] {
    } else {
      var next := Step(max, st, frames[0]).0;
      RunIsSafe(max, next, frames[1..]);
      if HasClose(frames) && !frames[0].opcode.Close? {
        var i :| 0 <= i < |frames| && frames[i].opcode.Close?;
        assert frames[1..][i - 1].opcode.Close?;
      }
    }
  }

  /** Nothing is answered after a close frame, not even when its body was malformed. */
  lemma {:induction false} SilentAfterClose(max: nat, st: State, frames: seq<Fragment>, i: nat, j: nat)
    requires Inv(max, st)
    requires st.closed || (i < j && i < |frames| && frames[i].opcode.Close?)
    requires j < |frames|
    ensures Run(max, st, frames).1[j] == Nothing
    decreases frames
  {
    if j == 0 {
    } else {
      SilentAfterClose(max, Step(max, st, frames[0]).0, frames[1..], if i > 0 then i - 1 else 0, j - 1);
    }
  }

  // ---- Where a delivered message came from --------------------------------------------

  function Payloads(frames: seq<Fragment>, at: seq<nat>): seq<seq<byte>>
    requires forall k :: 0 <= k < |at| ==> at[k] < |frames|
  {
    seq(|at|, k requires 0 <= k < |at| => frames[at[k]].payload)
  }

  /** The octets at the positions `at`, one after the other. */
  function Gathered(frames: seq<Fragment>, at: seq<nat>): seq<byte>
    requires forall k :: 0 <= k < |at| ==> at[k] < |frames|
  {
    Concat(Payloads(frames, at))
  }

  /** The positions `at` hold, in order, a frame and continuations of it, none but the last final. */
  predicate Spells(frames: seq<Fragment>, at: seq<nat>) {
    at != [] &&
    (forall k :: 0 <= k < |at| ==> at[k] < |frames|) &&
    (forall k, l :: 0 <= k < l < |at| ==> at[k] < at[l]) &&
    (forall k :: 0 < k < |at| ==> frames[at[k]].opcode.Continuation?) &&
    (forall k :: 0 <= k < |at| - 1 ==> !frames[at[k]].fin)
  }

  lemma PayloadsPast(frames: seq<Fragment>, at: seq<nat>, f: Fragment)
    requires forall k :: 0 <= k < |at| ==> at[k] < |frames|
    ensures Payloads(frames + [f], at) == Payloads(frames, at)
    ensures Payloads(frames + [f], at + [|frames|]) == Payloads(frames, at) + [f.payload]
  {
  }

  lemma ConcatOne(piece: seq<byte>)
    ensures Concat([piece]) == piece
  {
  }

  /** A frame more changes nothing gathered before, and adds its own payload if it is taken. */
  lemma GatheredPast(frames: seq<Fragment>, at: seq<nat>, f: Fragment)
    requires forall k :: 0 <= k < |at| ==> at[k] < |frames|
    ensures Gathered(frames + [f], at) == Gathered(frames, at)
    ensures Gathered(frames + [f], at + [|frames|]) == Gathered(frames, at) + f.payload
  {
    hide Concat, Payloads;
    PayloadsPast(frames, at, f);
    ConcatAppend(Payloads(frames, at), [f.payload]);
    ConcatOne(f.payload);
  }

  lemma GatheredOne(frames: seq<Fragment>, i: nat)
    requires i < |frames|
    ensures Gathered(frames, [i]) == frames[i].payload
  {
    assert Payloads(frames, [i]) == [frames[i].payload];
    ConcatOne(frames[i].payload);
  }

  // ---- The open message, from the history alone ------------------------------------------

  /** Where the frames behind piece `k` and before the next one end. */
  function NextPiece(frames: seq<Fragment>, at: seq<nat>, k: nat): nat
    requires k < |at|
  {
    if k + 1 < |at| then at[k + 1] else |frames|
  }

  /** How many octets the pieces up to and including piece `k` hold. */
  function SizeUpTo(frames: seq<Fragment>, at: seq<nat>, k: nat): nat
    requires k < |at| && forall i :: 0 <= i < |at| ==> at[i] < |frames|
  {
    |Gathered(frames, at[..k + 1])|
  }

  /** Every continuation that is not a piece was too large for what had been gathered by then. */
  predicate OthersTooLarge(max: nat, frames: seq<Fragment>, at: seq<nat>)
    requires Spells(frames, at)
  {
    forall k: nat, j: nat :: k < |at| && at[k] < j < NextPiece(frames, at, k) && frames[j].opcode.Continuation? ==>
      SizeUpTo(frames, at, k) + |frames[j].payload| > max
  }

  /** The history `frames` leaves a message open, with its pieces at `at`: no close, a data frame
      that opens it where the frames before leave nothing open, and every continuation since, but
      for those too large. Nothing here refers to the machine. */
  ghost predicate LeavesOpen(max: nat, frames: seq<Fragment>, at: seq<nat>)
    decreases |frames|, 0
  {
    Spells(frames, at) && !HasClose(frames) &&
    IsData(frames[at[0]].opcode) && !frames[at[|at| - 1]].fin &&
    |Gathered(frames, at)| <= max && OthersTooLarge(max, frames, at) &&
    LeavesNothing(max, frames[..at[0]])
  }

  ghost predicate LeavesNothing(max: nat, frames: seq<Fragment>)
    decreases |frames|, 1
  {
    !exists at :: LeavesOpen(max, frames, at)
  }

  lemma HasCloseSnoc(frames: seq<Fragment>, f: Fragment)
    ensures HasClose(frames + [f]) <==> HasClose(frames) || f.opcode.Close?
  {
    var all := frames + [f];
    assert forall i :: 0 <= i < |frames| ==> all[i] == frames[i];
    assert all[|frames|] == f;
    if HasClose(frames) {
      var i :| 0 <= i < |frames| && frames[i].opcode.Close?;
      assert all[i].opcode.Close?;
    }
  }

  /** A frame that is no piece: it changes nothing exactly when it is no close, and too large if
      it is a continuation. */
  lemma OpenPast(max: nat, frames: seq<Fragment>, at: seq<nat>, f: Fragment)
    requires at != [] && forall k :: 0 <= k < |at| ==> at[k] < |frames|
    ensures LeavesOpen(max, frames + [f], at)
       <==> LeavesOpen(max, frames, at) && !f.opcode.Close? &&
            (f.opcode.Continuation? ==> |Gathered(frames, at)| + |f.payload| > max)
  {
    hide HasClose, Gathered;
    var all := frames + [f];
    HasCloseSnoc(frames, f);
    GatheredPast(frames, at, f);
    assert all[..at[0]] == frames[..at[0]];
    assert Spells(all, at) <==> Spells(frames, at);
    if Spells(frames, at) {
      OthersPast(max, frames, at, f);
    }
  }

  lemma SizePast(frames: seq<Fragment>, at: seq<nat>, f: Fragment, k: nat)
    requires k < |at| && forall i :: 0 <= i < |at| ==> at[i] < |frames|
    ensures SizeUpTo(frames + [f], at, k) == SizeUpTo(frames, at, k)
    ensures SizeUpTo(frames + [f], at + [|frames|], k) == SizeUpTo(frames, at, k)
  {
    hide Gathered;
    GatheredPast(frames, at[..k + 1], f);
    assert (at + [|frames|])[..k + 1] == at[..k + 1];
  }

  lemma SizeOfAll(frames: seq<Fragment>, at: seq<nat>)
    requires at != [] && forall i :: 0 <= i < |at| ==> at[i] < |frames|
    ensures SizeUpTo(frames, at, |at| - 1) == |Gathered(frames, at)|
  {
    hide Gathered;
    assert at[..|at| - 1 + 1] == at;
  }

  lemma OthersPast(max: nat, frames: seq<Fragment>, at: seq<nat>, f: Fragment)
    requires Spells(frames, at) && Spells(frames + [f], at)
    ensures OthersTooLarge(max, frames + [f], at)
       <==> OthersTooLarge(max, frames, at) &&
            (f.opcode.Continuation? ==> |Gathered(frames, at)| + |f.payload| > max)
  {
    hide SizeUpTo;
    var all, n := frames + [f], |frames|;
    var last: nat := |at| - 1;
    forall k: nat | k < |at| ensures SizeUpTo(all, at, k) == SizeUpTo(frames, at, k) {
      SizePast(frames, at, f, k);
    }
    SizeOfAll(frames, at);
    assert all[n] == f && at[last] < n < NextPiece(all, at, last);
    if OthersTooLarge(max, all, at) {
      assert all[n].opcode.Continuation? ==> SizeUpTo(all, at, last) + |all[n].payload| > max;
      forall k: nat, j: nat | k < |at| && at[k] < j < NextPiece(frames, at, k) && frames[j].opcode.Continuation?
        ensures SizeUpTo(frames, at, k) + |frames[j].payload| > max
      {
        assert all[j] == frames[j] && at[k] < j < NextPiece(all, at, k);
      }
    }
    if OthersTooLarge(max, frames, at) && (f.opcode.Continuation? ==> |Gathered(frames, at)| + |f.payload| > max) {
      forall k: nat, j: nat | k < |at| && at[k] < j < NextPiece(all, at, k) && all[j].opcode.Continuation?
        ensures SizeUpTo(all, at, k) + |all[j].payload| > max
      {
        if j < n {
          assert all[j] == frames[j] && at[k] < j < NextPiece(frames, at, k);
        } else {
          assert k == last;
        }
      }
    }
  }

  /** A frame that is the next piece. */
  lemma OpenWith(max: nat, frames: seq<Fragment>, at: seq<nat>, f: Fragment)
    requires at != [] && forall k :: 0 <= k < |at| ==> at[k] < |frames|
    ensures LeavesOpen(max, frames + [f], at + [|frames|])
       <==> LeavesOpen(max, frames, at) && f.opcode.Continuation? && !f.fin &&
            |Gathered(frames, at)| + |f.payload| <= max
  {
    hide HasClose, Gathered;
    var all, longer, n := frames + [f], at + [|frames|], |frames|;
    HasCloseSnoc(frames, f);
    GatheredPast(frames, at, f);
    assert all[..at[0]] == frames[..at[0]] && longer[0] == at[0];
    SpellsWith(frames, at, f);
    if Spells(frames, at) && Spells(all, longer) {
      OthersWith(max, frames, at, f);
    }
  }

  lemma SpellsWith(frames: seq<Fragment>, at: seq<nat>, f: Fragment)
    requires at != [] && forall k :: 0 <= k < |at| ==> at[k] < |frames|
    ensures Spells(frames + [f], at + [|frames|])
       <==> Spells(frames, at) && !frames[at[|at| - 1]].fin && f.opcode.Continuation?
  {
    var all, longer, last := frames + [f], at + [|frames|], |at| - 1;
    assert longer[|at|] == |frames| && longer[last] == at[last];
    if Spells(all, longer) {
      assert forall k :: 0 <= k < |at| ==> longer[k] == at[k] && all[longer[k]] == frames[at[k]];
      assert all[longer[|at|]].opcode.Continuation? && !all[longer[last]].fin;
    }
  }

  lemma OthersWith(max: nat, frames: seq<Fragment>, at: seq<nat>, f: Fragment)
    requires Spells(frames, at) && Spells(frames + [f], at + [|frames|])
    ensures OthersTooLarge(max, frames + [f], at + [|frames|]) <==> OthersTooLarge(max, frames, at)
  {
    var all, longer := frames + [f], at + [|frames|];
    hide SizeUpTo;
    forall k: nat | k < |at|
      ensures SizeUpTo(all, longer, k) == SizeUpTo(frames, at, k)
      ensures NextPiece(all, longer, k) == NextPiece(frames, at, k)
    {
      SizePast(frames, at, f, k);
    }
    if OthersTooLarge(max, all, longer) {
      forall k: nat, j: nat | k < |at| && at[k] < j < NextPiece(frames, at, k) && frames[j].opcode.Continuation?
        ensures SizeUpTo(frames, at, k) + |frames[j].payload| > max
      {
        assert longer[k] < j < NextPiece(all, longer, k) && all[j] == frames[j];
      }
    }
    if OthersTooLarge(max, frames, at) {
      forall k: nat, j: nat | k < |longer| && longer[k] < j < NextPiece(all, longer, k) && all[j].opcode.Continuation?
        ensures SizeUpTo(all, longer, k) + |all[j].payload| > max
      {
        assert k < |at| && at[k] < j < NextPiece(frames, at, k) && all[j] == frames[j];
      }
    }
  }

  /** A frame that opens a message. */
  lemma OpenAlone(max: nat, frames: seq<Fragment>, f: Fragment)
    ensures LeavesOpen(max, frames + [f], [|frames|])
       <==> LeavesNothing(max, frames) && !HasClose(frames) &&
            IsData(f.opcode) && !f.fin && |f.payload| <= max
  {
    hide HasClose, Gathered;
    var all, n := frames + [f], |frames|;
    HasCloseSnoc(frames, f);
    GatheredOne(all, n);
    assert all[..n] == frames && [n][0] == n && all[n] == f && Spells(all, [n]);
    assert forall k: nat :: k < |[n]| ==> NextPiece(all, [n], k) == n + 1;
    assert OthersTooLarge(max, all, [n]);
  }

  /** The run on one frame more. */
  lemma RunSnoc(max: nat, frames: seq<Fragment>, f: Fragment)
    ensures var (mid, outs) := Run(max, FRESH, frames);
            var (next, out) := Step(max, mid, f);
            Run(max, FRESH, frames + [f]) == (next, outs + [out])
  {
    RunAppend(max, FRESH, frames, [f]);
    var (mid, outs) := Run(max, FRESH, frames);
    assert Run(max, mid, [f]).1 == [Step(max, mid, f).1];
  }

  lemma OpenStep(max: nat, st: State, f: Fragment)
    requires Inv(max, st) && IsOpen(Step(max, st, f).0)
    ensures var (next, out) := Step(max, st, f);
            !st.closed &&
            match st.partial
            case None => !f.fin && next.partial.value == Partial(f.opcode, f.payload)
            case Some(p) =>
              if out == Nothing then
                f.opcode.Continuation? && !f.fin && next.partial.value == Partial(p.kind, p.bytes + f.payload)
              else
                next.partial.value == p
  {
  }

  lemma WhatIsOpen(max: nat, frames: seq<Fragment>, at: seq<nat>)
    requires LeavesOpen(max, frames, at)
    ensures Spells(frames, at) && !HasClose(frames) && !frames[at[|at| - 1]].fin
    ensures IsData(frames[at[0]].opcode) && |Gathered(frames, at)| <= max
  {
  }

  lemma StepPast(max: nat, st: State, f: Fragment)
    requires Inv(max, st) && IsOpen(st) && !f.opcode.Close?
    requires f.opcode.Continuation? ==> |st.partial.value.bytes| + |f.payload| > max
    ensures Step(max, st, f).0 == st && Step(max, st, f).1 != Nothing
  {
  }

  lemma StepWith(max: nat, st: State, f: Fragment)
    requires Inv(max, st) && IsOpen(st) && f.opcode.Continuation? && !f.fin
    requires |st.partial.value.bytes| + |f.payload| <= max
    ensures Step(max, st, f).0 == Open(st.partial.value.kind, st.partial.value.bytes + f.payload)
  {
  }

  lemma StepAlone(max: nat, st: State, f: Fragment)
    requires Inv(max, st) && !IsOpen(st) && !st.closed && IsData(f.opcode) && !f.fin && |f.payload| <= max
    ensures Step(max, st, f).0 == Open(f.opcode, f.payload)
  {
  }

  /** One frame more: what it does to a history is what it does to the machine. */
  lemma OpenNext(max: nat, frames: seq<Fragment>, f: Fragment, st: State, at: seq<nat>)
    requires Inv(max, st) && (st.closed <==> HasClose(frames))
    requires IsOpen(st) <==> !LeavesNothing(max, frames)
    requires forall before :: LeavesOpen(max, frames, before) ==>
               st == Open(frames[before[0]].opcode, Gathered(frames, before))
    requires LeavesOpen(max, frames + [f], at)
    ensures Step(max, st, f).0 == Open((frames + [f])[at[0]].opcode, Gathered(frames + [f], at))
    ensures |frames| !in at ==> Step(max, st, f).1 != Nothing
  {
    hide Step, HasClose, Gathered, LeavesOpen, LeavesNothing;
    WhatIsOpen(max, frames + [f], at);
    var all, last, n := frames + [f], |at| - 1, |frames|;
    if at[last] < n {
      OpenPast(max, frames, at, f);
      WhatIsOpen(max, frames, at);
      GatheredPast(frames, at, f);
      StepPast(max, st, f);
    } else if at == [n] {
      OpenAlone(max, frames, f);
      GatheredOne(all, n);
      StepAlone(max, st, f);
    } else {
      var shorter := at[..last];
      assert at == shorter + [n];
      OpenWith(max, frames, shorter, f);
      WhatIsOpen(max, frames, shorter);
      GatheredPast(frames, shorter, f);
      StepWith(max, st, f);
    }
  }

  /** What opens or carries on a message in the machine does so in the history. */
  lemma NextOpen(max: nat, frames: seq<Fragment>, f: Fragment, st: State) returns (at: seq<nat>)
    requires Inv(max, st) && (st.closed <==> HasClose(frames))
    requires IsOpen(st) <==> !LeavesNothing(max, frames)
    requires forall before :: LeavesOpen(max, frames, before) ==>
               st == Open(frames[before[0]].opcode, Gathered(frames, before))
    requires IsOpen(Step(max, st, f).0)
    ensures LeavesOpen(max, frames + [f], at)
  {
    hide HasClose, Gathered, LeavesOpen;
    OpenStep(max, st, f);
    if IsOpen(st) {
      at :| LeavesOpen(max, frames, at);
      WhatIsOpen(max, frames, at);
      OpenPast(max, frames, at, f);
      OpenWith(max, frames, at, f);
      if Step(max, st, f).1 == Nothing {
        at := at + [|frames|];
      }
    } else {
      at := [|frames|];
      OpenAlone(max, frames, f);
    }
  }

  /** A message is open after a run if and only if the history leaves one open, and then it is of
      that kind and has exactly those octets. */
  lemma {:induction false} OpenIffHistory(max: nat, frames: seq<Fragment>)
    ensures IsOpen(Run(max, FRESH, frames).0) <==> !LeavesNothing(max, frames)
    ensures forall at :: LeavesOpen(max, frames, at) ==>
              Run(max, FRESH, frames).0 == Open(frames[at[0]].opcode, Gathered(frames, at))
    decreases |frames|
  {
    hide Step, HasClose, Gathered, OthersTooLarge;
    if frames == [] {
    } else {
      var n := |frames| - 1;
      var before, f := frames[..n], frames[n];
      var mid := Run(max, FRESH, before).0;
      assert frames == before + [f];
      OpenIffHistory(max, before);
      RunIsSafe(max, FRESH, before);
      RunSnoc(max, before, f);
      forall at | LeavesOpen(max, frames, at)
        ensures Run(max, FRESH, frames).0 == Open(frames[at[0]].opcode, Gathered(frames, at))
      {
        OpenNext(max, before, f, mid, at);
      }
      if IsOpen(Run(max, FRESH, frames).0) {
        var at := NextOpen(max, before, f, mid);
      }
    }
  }

  /** Every frame behind the opening that is no piece got an answer of its own. */
  lemma {:induction false} OthersAnswered(max: nat, frames: seq<Fragment>, at: seq<nat>)
    requires LeavesOpen(max, frames, at)
    ensures forall j :: at[0] < j < |frames| && j !in at ==> Run(max, FRESH, frames).1[j] != Nothing
    decreases |frames|
  {
    hide Run, Step, HasClose, Gathered, LeavesOpen;
    WhatIsOpen(max, frames, at);
    var n, last := |frames| - 1, |at| - 1;
    var before, f := frames[..n], frames[n];
    assert frames == before + [f];
    OpenIffHistory(max, before);
    RunIsSafe(max, FRESH, before);
    RunSnoc(max, before, f);
    OpenNext(max, before, f, Run(max, FRESH, before).0, at);
    if at[last] < n {
      OpenPast(max, before, at, f);
      OthersAnswered(max, before, at);
    } else if last > 0 {
      assert at == at[..last] + [n];
      OpenWith(max, before, at[..last], f);
      OthersAnswered(max, before, at[..last]);
    }
  }

  /** The frames at `at` spell `bytes` of `kind`, and every frame in between that is not among them
      got an answer of its own. */
  ghost predicate Composes(frames: seq<Fragment>, outs: seq<Outcome>, at: seq<nat>,
                           kind: OpCode, bytes: seq<byte>)
    requires |outs| == |frames|
  {
    Spells(frames, at) && frames[at[0]].opcode == kind && bytes == Gathered(frames, at) &&
    forall j :: at[0] < j < |frames| && j !in at ==> outs[j] != Nothing
  }

  /** An open message is spelled by the frames it was opened and continued with. */
  lemma OpenComesFrom(max: nat, frames: seq<Fragment>) returns (at: seq<nat>)
    requires IsOpen(Run(max, FRESH, frames).0)
    ensures var (st, outs) := Run(max, FRESH, frames);
            Composes(frames, outs, at, st.partial.value.kind, st.partial.value.bytes) &&
            !frames[at[|at| - 1]].fin && LeavesOpen(max, frames, at)
  {
    hide Run, HasClose, Gathered, OthersTooLarge;
    OpenIffHistory(max, frames);
    at :| LeavesOpen(max, frames, at);
    OthersAnswered(max, frames, at);
  }

  predicate IsDataDelivery(out: Outcome) {
    out.Delivered? && (out.message.TextMessage? || out.message.BinaryMessage?)
  }

  function KindOf(m: Message): OpCode
    requires m.TextMessage? || m.BinaryMessage?
  {
    if m.TextMessage? then OpCode.Text else OpCode.Binary
  }

  lemma DataDeliveryStep(max: nat, st: State, f: Fragment)
    requires Inv(max, st) && IsDataDelivery(Step(max, st, f).1)
    ensures var m := Step(max, st, f).1.message;
            !st.closed && f.fin &&
            match st.partial
            case None => f.opcode == KindOf(m) && f.payload == m.payload
            case Some(p) => f.opcode.Continuation? && p.kind == KindOf(m) && p.bytes + f.payload == m.payload
  {
  }

  /** A data message is delivered if and only if the history and the frame spell it: the frame alone
      where nothing is open, or what is open and a final continuation; fitting and well formed. */
  lemma DeliveredIffHistory(max: nat, frames: seq<Fragment>, f: Fragment, m: Message)
    requires m.TextMessage? || m.BinaryMessage?
    ensures Run(max, FRESH, frames + [f]).1[|frames|] == Delivered(m)
       <==> f.fin && !HasClose(frames) && |m.payload| <= max && (m.TextMessage? ==> IsUtf8(m.payload)) &&
            ((f.opcode == KindOf(m) && f.payload == m.payload && LeavesNothing(max, frames)) ||
             (f.opcode.Continuation? &&
              exists at :: LeavesOpen(max, frames, at) && frames[at[0]].opcode == KindOf(m) &&
                           Gathered(frames, at) + f.payload == m.payload))
  {
    hide Run, HasClose, Gathered, OthersTooLarge, Spells, IsUtf8;
    RunSnoc(max, frames, f);
    RunIsSafe(max, FRESH, frames);
    OpenIffHistory(max, frames);
  }

  /** What the history and the frame must be for each refusal. */
  ghost predicate IsCause(max: nat, frames: seq<Fragment>, f: Fragment, e: ProtocolError) {
    match e
    case UnexpectedContinuation => f.opcode.Continuation? && LeavesNothing(max, frames)
    case InterleavedDataFrame => IsData(f.opcode) && !LeavesNothing(max, frames)
    case MessageTooLarge =>
      (IsData(f.opcode) && LeavesNothing(max, frames) && |f.payload| > max) ||
      (f.opcode.Continuation? &&
       exists at :: LeavesOpen(max, frames, at) && |Gathered(frames, at)| + |f.payload| > max)
    case InvalidUtf8 =>
      (f.opcode.Close? && |f.payload| >= 2 && IsSendable(Number2(f.payload[0], f.payload[1])) &&
       !IsUtf8(f.payload[2..])) ||
      (f.opcode.Text? && f.fin && LeavesNothing(max, frames) && |f.payload| <= max && !IsUtf8(f.payload)) ||
      (f.opcode.Continuation? && f.fin &&
       exists at :: LeavesOpen(max, frames, at) && frames[at[0]].opcode.Text? &&
                    |Gathered(frames, at)| + |f.payload| <= max && !IsUtf8(Gathered(frames, at) + f.payload))
    case MalformedCloseFrame => f.opcode.Close? && |f.payload| == 1
    case InvalidCloseCode =>
      f.opcode.Close? && |f.payload| >= 2 && !IsSendable(Number2(f.payload[0], f.payload[1]))
  }

  lemma CloseCodeIs(payload: seq<byte>)
    requires |payload| >= 2
    ensures FromBE(payload[..2]) == Number2(payload[0], payload[1])
  {
    var s := payload[..2];
    assert s[..1][..0] == [];
    assert FromBE(s[..1]) == s[0];
  }

  /** A frame is refused with an error if and only if nothing has closed the connection and the history
      and the frame are what that error names. */
  lemma RefusedIffHistory(max: nat, frames: seq<Fragment>, f: Fragment, e: ProtocolError)
    ensures Run(max, FRESH, frames + [f]).1[|frames|] == Refused(e)
       <==> !HasClose(frames) && IsCause(max, frames, f, e)
  {
    hide Run, HasClose, Gathered, OthersTooLarge, Spells, IsUtf8, IsSendable, FromBE;
    RunSnoc(max, frames, f);
    RunIsSafe(max, FRESH, frames);
    OpenIffHistory(max, frames);
    if |f.payload| >= 2 {
      CloseCodeIs(f.payload);
    }
  }

  /** A delivered data message is spelled by an opening frame of its kind and the continuations
      up to the final frame that completed it; nothing is invented, reordered or lost. */
  lemma DeliveredComesFrom(max: nat, frames: seq<Fragment>, f: Fragment) returns (at: seq<nat>)
    requires IsDataDelivery(Run(max, FRESH, frames + [f]).1[|frames|])
    ensures var outs := Run(max, FRESH, frames + [f]).1;
            var m := outs[|frames|].message;
            Composes(frames + [f], outs, at, KindOf(m), m.payload) &&
            at[|at| - 1] == |frames| && f.fin
  {
    hide Run, Gathered, OthersTooLarge;
    var (mid, outs) := Run(max, FRESH, frames);
    RunSnoc(max, frames, f);
    DataDeliveryStep(max, mid, f);
    if mid.partial.Some? {
      var before := OpenComesFrom(max, frames);
      GatheredPast(frames, before, f);
      SpellsWith(frames, before, f);
      at := before + [|frames|];
      assert forall j :: j in before ==> j in at;
    } else {
      at := [|frames|];
      GatheredOne(frames + [f], |frames|);
    }
  }
}
