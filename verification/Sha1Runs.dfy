/** What whole sequences of SHA1Reset, SHA1Input and SHA1Result calls compute. */
module Sha1Runs {
  import opened Basics
  import opened Bytes
  import opened Sha1Spec
  import opened Sha1

  datatype Call = ResetCall | InputCall(m: seq<byte>) | ResultCall

  datatype Reply = Code(code: int) | DigestIs(digest: seq<byte>)

  function Next(p: Phase, call: Call): Phase {
    match call
    case ResetCall => Open([])
    case InputCall(m) => AfterInput(p, m)
    case ResultCall => AfterResult(p)
  }

  function Answer(p: Phase, call: Call): Reply {
    match call
    case ResetCall => Code(SHA_SUCCESS)
    case InputCall(m) => Code(InputReply(p, m))
    case ResultCall => if p.Broken? then Code(p.code) else DigestIs(Digest(p.data))
  }

  function Run(p: Phase, calls: seq<Call>): Phase {
    if calls == [] then p else Next(Run(p, calls[..|calls| - 1]), calls[|calls| - 1])
  }

  /** Everything fed in, in order. */
  function Fed(calls: seq<Call>): seq<byte> {
    if calls == [] then [] else
    var last := calls[|calls| - 1];
    Fed(calls[..|calls| - 1]) + if last.InputCall? then last.m else []
  }

  predicate NonEmptyInput(call: Call) {
    call.InputCall? && call.m != []
  }

  /** No byte is fed in after a digest was asked for. */
  ghost predicate FedBeforeResult(calls: seq<Call>) {
    forall i, j :: 0 <= i < j < |calls| && calls[i].ResultCall? ==> !NonEmptyInput(calls[j])
  }

  /**
   After a reset, a run without further resets keeps a digest available exactly
   when no byte came after a digest and fewer than 2^64 bits came in all; the
   digest is then that of everything fed in, however it was split.
   */
  lemma {:induction false} DigestOfRun(calls: seq<Call>)
    requires ResetCall !in calls
    ensures var p := Run(Open([]), calls);
            (p.Broken? <==> !FedBeforeResult(calls) || |Fed(calls)| >= TOO_LONG)
            && (!p.Broken? ==> p.data == Fed(calls) && Answer(p, ResultCall) == DigestIs(Digest(Fed(calls))))
            && (p.Open? ==> ResultCall !in calls) && (p.Closed? ==> ResultCall in calls)
  {
    hide Digest;
    if calls != [] {
      hide FedBeforeResult;
      var n := |calls| - 1;
      var before, last := calls[..n], calls[n];
      DigestOfRun(before);
      assert calls == before + [last];
      assert |Fed(before)| <= |Fed(calls)|;
      FedBeforeLast(before, last);
    }
  }

  lemma FedBeforeLast(before: seq<Call>, last: Call)
    ensures FedBeforeResult(before + [last]) <==> FedBeforeResult(before) && !(NonEmptyInput(last) && ResultCall in before)
  {
    var calls, n := before + [last], |before|;
    assert FedBeforeResult(calls) ==> FedBeforeResult(before) by {
      assert forall i :: 0 <= i < n ==> calls[i] == before[i];
    }
    if NonEmptyInput(last) && ResultCall in before {
      var i :| 0 <= i < n && before[i] == ResultCall;
      assert calls[i].ResultCall? && NonEmptyInput(calls[n]);
    }
  }

  function Inputs(pieces: seq<seq<byte>>): (calls: seq<Call>)
    ensures |calls| == |pieces|
    ensures forall i :: 0 <= i < |pieces| ==> calls[i] == InputCall(pieces[i])
  {
    seq(|pieces|, i requires 0 <= i < |pieces| => InputCall(pieces[i]))
  }

  lemma {:induction false} FedPieces(pieces: seq<seq<byte>>)
    ensures Fed(Inputs(pieces)) == Concat(pieces)
  {
    if pieces != [] {
      var n := |pieces| - 1;
      FedPieces(pieces[..n]);
      ConcatLast(pieces);
      assert Inputs(pieces)[..n] == Inputs(pieces[..n]);
    }
  }

  /** Any way of cutting a message into pieces gives its one-shot digest. */
  lemma SplitDoesNotMatter(m: seq<byte>, pieces: seq<seq<byte>>)
    requires |m| < TOO_LONG && Concat(pieces) == m
    ensures Answer(Run(Open([]), Inputs(pieces)), ResultCall) == DigestIs(Digest(m))
  {
    hide Digest;
    FedPieces(pieces);
    DigestOfRun(Inputs(pieces));
  }

  /** Every code, as a number: the input that overflows is accepted, and what comes after it is refused with 1, not 2. */
  lemma Codes(d: seq<byte>, m: seq<byte>, m': seq<byte>)
    requires m != [] && m' != []
    ensures Answer(Open(d), InputCall(m)) == Code(0)
    ensures |d| + |m| >= TOO_LONG ==>
              var p := Next(Open(d), InputCall(m));
              Answer(p, ResultCall) == Code(1) && Answer(p, InputCall(m')) == Code(1) && Answer(p, InputCall([])) == Code(0)
    ensures Answer(Closed(d), InputCall(m)) == Code(3)
            && Answer(Next(Closed(d), InputCall(m)), ResultCall) == Code(3)
            && Answer(Next(Closed(d), InputCall(m)), InputCall(m')) == Code(3)
  {
    hide Digest;
  }

  /** Asking again gives the same answer; and an error stays until the next reset. */
  lemma {:induction false} Sticky(p: Phase, calls: seq<Call>)
    requires ResetCall !in calls
    ensures p.Broken? ==> Run(p, calls) == p
    ensures p.Closed? && (forall c :: c in calls ==> !NonEmptyInput(c)) ==> Run(p, calls) == p
    ensures p.Closed? && (exists c :: c in calls && NonEmptyInput(c)) ==> Run(p, calls) == Broken(SHA_STATE_ERROR)
  {
    if calls != [] {
      var n := |calls| - 1;
      Sticky(p, calls[..n]);
      assert calls == calls[..n] + [calls[n]];
      assert calls[n] in calls;
    }
  }
}
