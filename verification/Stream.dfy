/**
 readn and writen of inet_socket.c over a descriptor whose single read and write
 calls transfer as much or as little as a schedule says, are interrupted, or fail.
 */
module Stream {

  /** What one read or write call does. */
  datatype Event =
    | Chunk(more: nat)           // transfers at most more + 1 elements
    | Interrupt                  // fails with EINTR
    | Fail(wouldBlock: bool)     // fails with EWOULDBLOCK, or with another error

  /** No call of the schedule fails; counts and interruptions are arbitrary. */
  ghost predicate Steady(schedule: seq<Event>) {
    forall e :: e in schedule ==> !e.Fail?
  }

  ghost predicate IsSuffix<X>(s: seq<X>, t: seq<X>) {
    |s| <= |t| && s == t[|t| - |s|..]
  }

  /** The calls made, when rest is what is left of the schedule. */
  function Made(schedule: seq<Event>, rest: seq<Event>): (calls: seq<Event>) {
    if |rest| <= |schedule| then schedule[..|schedule| - |rest|] else []
  }

  /** No call made failed; errno still says "would block" if it did before and no call was interrupted. */
  ghost predicate Unbroken(schedule: seq<Event>, rest: seq<Event>, before: bool, after: bool) {
    IsSuffix(rest, schedule) && Steady(Made(schedule, rest))
    && after == (before && Interrupt !in Made(schedule, rest))
  }

  /** The last call made was the first to fail, with this errno. */
  ghost predicate Broken(schedule: seq<Event>, rest: seq<Event>, wouldBlock: bool) {
    var n := |Made(schedule, rest)| - 1;
    IsSuffix(rest, schedule) && n >= 0 && schedule[n] == Fail(wouldBlock) && Steady(schedule[..n])
  }

  lemma SuffixChain<X>(s: seq<X>, t: seq<X>, u: seq<X>)
    requires IsSuffix(s, t) && IsSuffix(t, u)
    ensures IsSuffix(s, u)
  {
  }

  lemma UnbrokenSelf(schedule: seq<Event>, errno: bool)
    ensures Unbroken(schedule, schedule, errno, errno)
  {
  }

  /** Two stretches of calls, the second on what the first left of the schedule. */
  lemma UnbrokenChain(s: seq<Event>, t: seq<Event>, u: seq<Event>, a: bool, b: bool, c: bool)
    requires Unbroken(s, t, a, b) && Unbroken(t, u, b, c)
    ensures Unbroken(s, u, a, c)
  {
    SuffixChain(u, t, s);
    assert Made(s, u) == Made(s, t) + Made(t, u);
  }

  lemma BrokenChain(s: seq<Event>, t: seq<Event>, u: seq<Event>, a: bool, b: bool, c: bool)
    requires Unbroken(s, t, a, b) && Broken(t, u, c)
    ensures Broken(s, u, c)
  {
    SuffixChain(u, t, s);
    var k, n := |Made(s, t)|, |Made(t, u)| - 1;
    assert Made(s, u) == Made(s, t) + Made(t, u);
    assert s[k + n] == t[n] && s[..k + n] == s[..k] + t[..n];
  }

  lemma StretchChain(s: seq<Event>, t: seq<Event>, u: seq<Event>, a: bool, b: bool, c: bool)
    requires Unbroken(s, t, a, b)
    ensures Unbroken(t, u, b, c) ==> Unbroken(s, u, a, c)
    ensures Broken(t, u, c) ==> Broken(s, u, c)
  {
    hide Unbroken, Broken;
    if Unbroken(t, u, b, c) {
      UnbrokenChain(s, t, u, a, b, c);
    }
    if Broken(t, u, c) {
      BrokenChain(s, t, u, a, b, c);
    }
  }

  /** What the calls made tell about the schedule, and about what is left of it. */
  lemma StretchFacts(schedule: seq<Event>, rest: seq<Event>, before: bool, after: bool)
    ensures Unbroken(schedule, rest, before, after) || Broken(schedule, rest, after) ==>
              IsSuffix(rest, schedule) && (Steady(schedule) ==> Steady(rest))
    ensures Broken(schedule, rest, after) ==> !Steady(schedule) && !Unbroken(schedule, rest, before, after)
  {
    var made := Made(schedule, rest);
    assert forall k :: 0 <= k < |made| ==> made[k] in made && made[k] == schedule[k];
  }

  lemma TailIsSuffix<X>(s: seq<X>, k: nat)
    requires k <= |s|
    ensures IsSuffix(s[k..], s)
  {
  }

  /** How a call that was not a chunk leaves errno. */
  predicate Errno(e: Event, interrupted: bool, wouldBlock: bool) {
    !e.Chunk? && interrupted == e.Interrupt? && wouldBlock == (e.Fail? && e.wouldBlock)
  }

  /** One call, by how it ended. */
  lemma OneCall(s: seq<Event>, t: seq<Event>, failed: bool, interrupted: bool, before: bool, after: bool)
    requires IsSuffix(t, s) && |t| == if s == [] then 0 else |s| - 1
    requires if failed then s != [] && Errno(s[0], interrupted, after)
             else after == before && (s == [] || s[0].Chunk?)
    ensures failed && !interrupted ==> Broken(s, t, after)
    ensures !failed || interrupted ==> Unbroken(s, t, before, after)
  {
    assert s != [] ==> Made(s, t) == [s[0]];
  }

  lemma Advance<X>(out: seq<X>, s: seq<X>, at: nat, k: nat)
    requires at + k <= |s|
    ensures out + s[..at] + s[at..][..k] == out + s[..at + k]
  {
  }

  /** now is before with n elements of input written over it from at on. */
  ghost predicate Filled<X>(now: seq<X>, before: seq<X>, at: nat, input: seq<X>, n: nat) {
    |now| == |before| && n <= |input| && at + n <= |before|
    && forall k :: 0 <= k < |now| ==> now[k] == if at <= k < at + n then input[k - at] else before[k]
  }

  lemma FilledMore<X>(now: seq<X>, between: seq<X>, before: seq<X>, at: nat, input: seq<X>, n: nat, m: nat)
    requires Filled(between, before, at, input, n) && Filled(now, between, at + n, input[n..], m)
    ensures Filled(now, before, at, input, n + m) && input[n..][m..] == input[n + m..]
  {
  }

  lemma FilledAt<X>(now: seq<X>, before: seq<X>, at: nat, input: seq<X>, n: nat)
    requires Filled(now, before, at, input, n)
    ensures |now| == |before| && n <= |input| && at + n <= |now|
    ensures forall k :: 0 <= k < n ==> now[at + k] == input[k]
    ensures forall k :: 0 <= k < at || at + n <= k < |now| ==> now[k] == before[k]
  {
  }

  lemma FilledNone<X>(now: seq<X>, before: seq<X>, at: nat, input: seq<X>)
    requires now == before && at <= |before|
    ensures Filled(now, before, at, input, 0)
  {
  }

  function Min(a: nat, b: nat): nat {
    if a <= b then a else b
  }

  class Descriptor<T> {
    var incoming: seq<T>        // sent by the peer and not read yet
    var outgoing: seq<T>        // everything written so far
    var readPlan: seq<Event>       // schedules of the coming calls; once a schedule
    var writePlan: seq<Event>      // is used up, every call transfers all it can
    var interrupted: bool       // errno == EINTR
    var wouldBlock: bool        // errno == EWOULDBLOCK

    constructor (incoming: seq<T>, readPlan: seq<Event>, writePlan: seq<Event>)
      ensures this.incoming == incoming && this.readPlan == readPlan && this.writePlan == writePlan && outgoing == []
    {
      this.incoming, this.readPlan, this.writePlan := incoming, readPlan, writePlan;
      outgoing := [];
      interrupted, wouldBlock := false, false;
    }

    /** The system call: the count, 0 at the end of the stream, or -1. */
    method Read(buf: array<T>, at: nat, n: nat) returns (r: int)
      requires 0 < n && at + n <= buf.Length
      modifies this`incoming, this`readPlan, this`interrupted, this`wouldBlock, buf
      ensures IsSuffix(readPlan, old(readPlan)) && |readPlan| == if old(readPlan) == [] then 0 else |old(readPlan)| - 1
      ensures r < 0 ==> r == -1 && old(readPlan) != [] && incoming == old(incoming)
      ensures r < 0 ==> buf[..] == old(buf[..])
      ensures r < 0 ==> Errno(old(readPlan)[0], interrupted, wouldBlock)
      ensures r >= 0 ==> wouldBlock == old(wouldBlock) && (old(readPlan) == [] || old(readPlan)[0].Chunk?)
      ensures r >= 0 ==> r <= n && r <= |old(incoming)| && (r == 0 <==> old(incoming) == [])
      ensures r >= 0 ==> incoming == old(incoming)[r..]
      ensures r >= 0 ==> Filled(buf[..], old(buf[..]), at, old(incoming), r)
    {
      var limit := n;
      if readPlan != [] {
        var e := readPlan[0];
        readPlan := readPlan[1..];
        if !e.Chunk? {
          interrupted := e.Interrupt?;
          wouldBlock := e.Fail? && e.wouldBlock;
          return -1;
        }
        limit := Min(n, e.more + 1);
      }
      var k := Min(limit, |incoming|);
      forall i | 0 <= i < k {
        buf[at + i] := incoming[i];
      }
      incoming := incoming[k..];
      return k;
    }

    /** The system call: the count, or -1. */
    method Write(buf: seq<T>) returns (r: int)
      requires buf != []
      modifies this`outgoing, this`writePlan, this`interrupted, this`wouldBlock
      ensures IsSuffix(writePlan, old(writePlan)) && |writePlan| == if old(writePlan) == [] then 0 else |old(writePlan)| - 1
      ensures r < 0 ==> r == -1 && old(writePlan) != [] && outgoing == old(outgoing)
      ensures r < 0 ==> Errno(old(writePlan)[0], interrupted, wouldBlock)
      ensures r >= 0 ==> wouldBlock == old(wouldBlock) && (old(writePlan) == [] || old(writePlan)[0].Chunk?)
      ensures r >= 0 ==> 0 < r <= |buf| && outgoing == old(outgoing) + buf[..r]
    {
      var limit := |buf|;
      if writePlan != [] {
        var e := writePlan[0];
        writePlan := writePlan[1..];
        if !e.Chunk? {
          interrupted := e.Interrupt?;
          wouldBlock := e.Fail? && e.wouldBlock;
          return -1;
        }
        limit := Min(limit, e.more + 1);
      }
      outgoing := outgoing + buf[..limit];
      return limit;
    }

    /** One pass of readn: how much was read, counting an interruption as nothing; -1 for any other failure. */
    method ReadPass(buf: array<T>, at: nat, n: nat) returns (r: int, atEnd: bool)
      requires 0 < n && at + n <= buf.Length
      modifies this`incoming, this`readPlan, this`interrupted, this`wouldBlock, buf
      ensures |readPlan| <= |old(readPlan)|
      ensures r < 0 ==> r == -1 && Broken(old(readPlan), readPlan, wouldBlock)
      ensures r < 0 ==> incoming == old(incoming) && buf[..] == old(buf[..])
      ensures r >= 0 ==> Unbroken(old(readPlan), readPlan, old(wouldBlock), wouldBlock)
      ensures r >= 0 ==> r <= n && r <= |old(incoming)| && incoming == old(incoming)[r..]
      ensures r >= 0 ==> Filled(buf[..], old(buf[..]), at, old(incoming), r)
      ensures atEnd ==> r == 0 && old(incoming) == []
      ensures r == 0 && !atEnd ==> |readPlan| < |old(readPlan)|
    {
      hide IsSuffix, Unbroken, Broken, Errno, Filled;
      r := Read(buf, at, n);
      OneCall(old(readPlan), readPlan, r < 0, interrupted, old(wouldBlock), wouldBlock);
      atEnd := r == 0;
      if r < 0 && interrupted {
        FilledNone(buf[..], buf[..], at, incoming);
        r := 0;
      }
    }

    /**
     Reads until n elements, the end of the stream, or an error.  got elements
     leave the stream for the buffer, whether or not the call then fails; a
     steady schedule makes the outcome independent of how the stream is cut.
     */
    method Readn(buf: array<T>, at: nat, n: nat) returns (r: int, ghost got: nat)
      requires at + n <= buf.Length
      modifies this`incoming, this`readPlan, this`interrupted, this`wouldBlock, buf
      ensures got <= n && got <= |old(incoming)| && incoming == old(incoming)[got..]
      ensures Filled(buf[..], old(buf[..]), at, old(incoming), got)
      ensures r == -1 || r == got == Min(n, |old(incoming)|)
      ensures r == -1 ==> got < n && Broken(old(readPlan), readPlan, wouldBlock)
      ensures r != -1 ==> Unbroken(old(readPlan), readPlan, old(wouldBlock), wouldBlock)
      ensures IsSuffix(readPlan, old(readPlan))
      ensures Steady(old(readPlan)) ==> r == got && Steady(readPlan)
    {
      hide IsSuffix, Steady, Unbroken, Broken, Filled;
      ghost var input, before, schedule, errno := incoming, buf[..], readPlan, wouldBlock;
      var nleft, ptr := n, at;
      UnbrokenSelf(schedule, errno);
      FilledNone(before, before, at, input);
      got := 0;
      while nleft > 0
        invariant 0 <= nleft && nleft + got == n && ptr == at + got
        invariant got <= |input| && incoming == input[got..]
        invariant Filled(buf[..], before, at, input, got)
        invariant Unbroken(schedule, readPlan, errno, wouldBlock)
        decreases |readPlan| + nleft
      {
        ghost var between, pending, now := buf[..], readPlan, wouldBlock;
        var nread, atEnd := ReadPass(buf, ptr, nleft);
        if nread < 0 {
          StretchChain(schedule, pending, readPlan, errno, now, wouldBlock);
          StretchFacts(schedule, readPlan, errno, wouldBlock);
          return -1, got;
        }
        StretchChain(schedule, pending, readPlan, errno, now, wouldBlock);
        FilledMore(buf[..], between, before, at, input, got, nread);
        if atEnd {
          break;
        }
        nleft := nleft - nread;
        ptr := ptr + nread;
        got := got + nread;
      }
      StretchFacts(schedule, readPlan, errno, wouldBlock);
      return n - nleft, got;
    }

    /** Writes all n elements, or reports -1 with only a prefix written. */
    method Writen(buf: seq<T>) returns (r: int, ghost put: nat)
      modifies this`outgoing, this`writePlan, this`interrupted, this`wouldBlock
      ensures put <= |buf| && outgoing == old(outgoing) + buf[..put]
      ensures r == -1 || r == put == |buf|
      ensures r == -1 ==> put < |buf| && Broken(old(writePlan), writePlan, wouldBlock)
      ensures r != -1 ==> Unbroken(old(writePlan), writePlan, old(wouldBlock), wouldBlock)
      ensures IsSuffix(writePlan, old(writePlan))
      ensures Steady(old(writePlan)) ==> r == |buf| && Steady(writePlan)
    {
      hide IsSuffix, Steady, Unbroken, Broken, Errno;
      ghost var schedule, errno := writePlan, wouldBlock;
      var nleft, ptr := |buf|, 0;
      UnbrokenSelf(schedule, errno);
      put := 0;
      while nleft > 0
        invariant 0 <= nleft && nleft + ptr == |buf| && put == ptr
        invariant outgoing == old(outgoing) + buf[..ptr]
        invariant Unbroken(schedule, writePlan, errno, wouldBlock)
        decreases |writePlan| + nleft
      {
        ghost var pending, now := writePlan, wouldBlock;
        var nwritten := Write(buf[ptr..]);
        OneCall(pending, writePlan, nwritten < 0, interrupted, now, wouldBlock);
        if nwritten <= 0 {
          if nwritten < 0 && interrupted {
            StretchChain(schedule, pending, writePlan, errno, now, wouldBlock);
            continue;
          } else {
            StretchChain(schedule, pending, writePlan, errno, now, wouldBlock);
            StretchFacts(schedule, writePlan, errno, wouldBlock);
            return -1, put;
          }
        }
        StretchChain(schedule, pending, writePlan, errno, now, wouldBlock);
        Advance(old(outgoing), buf, ptr, nwritten);
        nleft := nleft - nwritten;
        ptr := ptr + nwritten;
        put := ptr;
      }
      assert buf[..ptr] == buf;
      StretchFacts(schedule, writePlan, errno, wouldBlock);
      return |buf|, put;
    }
  }
}
