/** The "<length>\n<payload>" framing of ducq_tcp.c. */
module TcpFraming {
  import opened Basics
  import opened States
  import opened Stream
  import opened Decimal

  /** What ducq_tcp_send puts on the wire. */
  function Frame(m: string): string {
    Print(|m|) + "\n" + m
  }

  datatype Received = Payload(m: string) | Error(state: State)

  /** How many digits make the length loop give up. */
  function Limit(size: nat): nat {
    if size <= 2 then 1 else size - 1
  }

  datatype LengthLine = Length(n: nat) | Refused(state: State)

  /** What the length line says, and what is behind it. */
  function Line(input: string, size: nat): (r: (LengthLine, string))
    ensures r.0.Length? ==> r.0.n + 1 <= size
    ensures r.0.Refused? ==> Code(r.0.state) > Code(ERROR) && r.0.state != ETIMEOUT
  {
    var d := DigitRun(input);
    if d >= Limit(size) then
      (Refused(EMSGSIZE), input[Limit(size)..])
    else if d == |input| then
      (Refused(ECONNCLOSED), "")
    else if input[d] != '\n' then
      (Refused(EMSGINV), input[d + 1..])
    else
      var len := Read(input[..d]);
      (if len + 1 > size then Refused(EMSGSIZE) else Length(len), input[d + 1..])
  }

  /** What one call makes of all the input there is, and what it leaves unread. */
  function Receive(input: string, size: nat): (r: (Received, string))
    ensures r.0.Error? ==> Code(r.0.state) > Code(ERROR) && r.0.state != ETIMEOUT
  {
    var (line, rest) := Line(input, size);
    match line
    case Refused(state) => (Error(state), rest)
    case Length(len) => Body(rest, len)
  }

  /** What the end of Receive makes of the bytes behind the length line. */
  function Body(body: string, len: nat): (r: (Received, string))
    ensures r.0.Error? ==> Code(r.0.state) > Code(ERROR) && r.0.state != ETIMEOUT
  {
    if len == 0 || body == "" then (Error(ECONNCLOSED), body)
    else if |body| < len then (Error(EREAD), "")
    else (Payload(body[..len]), body[len..])
  }

  /** The length field fits a C int. */
  predicate LengthFits(input: string, size: nat) {
    DigitRun(input) < Limit(size) ==> Read(input[..DigitRun(input)]) < 0x7fff_ffff
  }

  /** Return value and buffer report this outcome. */
  predicate Reports(r: int, buf: seq<char>, out: Received) {
    match out
    case Payload(m) => r == |m| < |buf| && buf[..|m|] == m && buf[|m|] == NUL
    case Error(s) => r == -Code(s)
  }

  // ------------------------------------------------- what is left in the buffer

  /** b, overwritten from its start. */
  function Over(b: string, s: string): (r: string)
    ensures |r| == |b|
  {
    if |s| <= |b| then s + b[|s|..] else s[..|b|]
  }

  /**
   The caller's buffer after taken characters were read: the length line from its
   start, and then, with a NUL behind its digits, the payload over it.
   */
  function BufferLeft(b: string, input: string, taken: nat): (r: string)
    requires taken <= |input|
    ensures |r| == |b|
  {
    var d := DigitRun(input);
    if taken <= d || input[d] != '\n' then Over(b, input[..taken])
    else Over(Over(b, input[..d] + [NUL]), input[d + 1..taken])
  }

  lemma OverIs(b: string, s: string, r: string)
    requires |r| == |b| >= |s|
    requires forall k :: 0 <= k < |b| ==> r[k] == if k < |s| then s[k] else b[k]
    ensures r == Over(b, s)
  {
  }

  lemma NothingTaken(b: string, input: string)
    ensures BufferLeft(b, input, 0) == b
  {
    OverNothing(b);
  }

  lemma OverAt(b: string, s: string, k: nat)
    requires k < |b|
    ensures Over(b, s)[k] == if k < |s| then s[k] else b[k]
  {
  }

  /** The buffer character by character, when the receive stops in the length line or behind it. */
  lemma LeftAt(b: string, input: string, d: nat, taken: nat, k: nat)
    requires d == DigitRun(input) < |b| && taken <= |input| && k < |b|
    requires taken > d ==> input[d] == '\n'
    ensures BufferLeft(b, input, taken)[k]
         == if taken > d && k < taken - d - 1 then input[d + 1 + k]
            else if taken > d && k == d then NUL
            else if k < d && k < taken then input[k]
            else b[k]
  {
    hide DigitRun, Over;
    if taken > d {
      var line := input[..d] + [NUL];
      OverAt(b, line, k);
      OverAt(Over(b, line), input[d + 1..taken], k);
    } else {
      OverAt(b, input[..taken], k);
    }
  }

  /** A readn of a single character. */
  method ReadOne(fd: Descriptor<char>, buf: array<char>, at: nat) returns (n: int)
    requires at < buf.Length
    modifies fd`incoming, fd`readPlan, fd`interrupted, fd`wouldBlock, buf
    ensures var got := if n > 0 then 1 else 0;
            got <= |old(fd.incoming)| && fd.incoming == old(fd.incoming)[got..]
            && Filled(buf[..], old(buf[..]), at, old(fd.incoming), got)
    ensures n < 0 ==> buf[..] == old(buf[..]) && Broken(old(fd.readPlan), fd.readPlan, fd.wouldBlock)
    ensures n >= 0 ==> Unbroken(old(fd.readPlan), fd.readPlan, old(fd.wouldBlock), fd.wouldBlock)
    ensures n == 0 ==> old(fd.incoming) == ""
    ensures n > 0 ==> buf[at] == old(fd.incoming)[0]
  {
    hide IsSuffix, Steady, Broken, Unbroken, Filled;
    ghost var got;
    n, got := fd.Readn(buf, at, 1);
    FilledAt(buf[..], old(buf[..]), at, old(fd.incoming), got);
    assert n <= 0 ==> buf[..] == old(buf[..]);
    assert n > 0 ==> buf[at] == buf[..][at + 0];
  }

  /** The digit loop: reads up to and including the character after the digits, one at a time. */
  method ReadDigits(fd: Descriptor<char>, buf: array<char>, size: nat) returns (n: int, ptr: nat, full: bool)
    requires 1 <= size <= buf.Length
    modifies fd`incoming, fd`readPlan, fd`interrupted, fd`wouldBlock, buf
    ensures ptr < size || full
    ensures var input := old(fd.incoming); var d := DigitRun(input);
            if full then d >= Limit(size) == ptr && fd.incoming == input[ptr..]
            else if n > 0 then d == ptr < Limit(size) && d < |input| && fd.incoming == input[ptr + 1..]
            else if n == 0 then d == ptr == |input| < Limit(size) && fd.incoming == ""
            else ptr <= d && fd.incoming == input[ptr..] && Broken(old(fd.readPlan), fd.readPlan, fd.wouldBlock)
    ensures full ==> n > 0
    ensures n >= 0 ==> Unbroken(old(fd.readPlan), fd.readPlan, old(fd.wouldBlock), fd.wouldBlock)
    ensures var taken := if !full && n > 0 then ptr + 1 else ptr;
            taken <= size && Filled(buf[..], old(buf[..]), 0, old(fd.incoming), taken)
  {
    hide IsSuffix, Steady, Broken, Unbroken, Filled, DigitRun;
    ghost var input, plan, errno, before := fd.incoming, fd.readPlan, fd.wouldBlock, buf[..];
    FilledNone(before, before, 0, input);
    var end := size - 1;
    ptr, n := 0, 0;
    UnbrokenSelf(plan, errno);
    while true
      invariant ptr < size && ptr < Limit(size) && ptr <= DigitRun(input)
      invariant Filled(buf[..], before, 0, input, ptr)
      invariant fd.incoming == input[ptr..] && Unbroken(plan, fd.readPlan, errno, fd.wouldBlock)
      decreases |input| - ptr
    {
      ghost var pending, now, between := fd.readPlan, fd.wouldBlock, buf[..];
      n := ReadOne(fd, buf, ptr);
      if n < 0 {
        StretchChain(plan, pending, fd.readPlan, errno, now, fd.wouldBlock);
        return n, ptr, false;
      }
      StretchChain(plan, pending, fd.readPlan, errno, now, fd.wouldBlock);
      FilledMore(buf[..], between, before, 0, input, ptr, if n > 0 then 1 else 0);
      if n == 0 {
        return n, ptr, false;
      }
      RunGoesOn(input, ptr);
      if !IsDigit(buf[ptr]) {
        return n, ptr, false;
      }
      ptr := ptr + 1;
      if ptr >= end {
        return n, ptr, true;
      }
    }
  }

  lemma LeftInLine(b: string, input: string, taken: nat, r: string)
    requires taken <= |input| && taken <= |b| == |r|
    requires taken <= DigitRun(input) || (taken == DigitRun(input) + 1 && input[taken - 1] != '\n')
    requires Filled(r, b, 0, input, taken)
    ensures r == BufferLeft(b, input, taken)
  {
    hide DigitRun, Over;
    OverIs(b, input[..taken], r);
  }

  lemma LeftBehindLine(b: string, input: string, r: string)
    requires DigitRun(input) < |input| && input[DigitRun(input)] == '\n' && DigitRun(input) < |b| == |r|
    requires forall k :: 0 <= k < |b| ==>
      r[k] == if k < DigitRun(input) then input[k] else if k == DigitRun(input) then NUL else b[k]
    ensures r == BufferLeft(b, input, DigitRun(input) + 1)
  {
    hide DigitRun, Over, BufferLeft;
    var d := DigitRun(input);
    var line := input[..d] + [NUL];
    assert forall k :: 0 <= k < |line| ==> line[k] == if k < d then input[k] else NUL;
    OverIs(b, line, r);
    LeftBehind(b, input, d, d + 1);
    OverNothing(r);
  }

  /** The length line, up to its conversion: a length, or an error as a negative number. */
  method ReadLength(fd: Descriptor<char>, buf: array<char>, size: nat) returns (len: int)
    requires 1 <= size <= buf.Length
    requires LengthFits(fd.incoming, size)
    modifies fd`incoming, fd`readPlan, fd`interrupted, fd`wouldBlock, buf
    ensures var (line, rest) := Line(old(fd.incoming), size);
            (fd.incoming == rest && Unbroken(old(fd.readPlan), fd.readPlan, old(fd.wouldBlock), fd.wouldBlock)
             && if line.Length? then len == line.n else len == -Code(line.state))
            || (len == -Code(EREAD) && Broken(old(fd.readPlan), fd.readPlan, fd.wouldBlock))
    ensures IsSuffix(fd.incoming, old(fd.incoming))
    ensures buf[..] == BufferLeft(old(buf[..]), old(fd.incoming), |old(fd.incoming)| - |fd.incoming|)
    ensures forall k :: size <= k < buf.Length ==> buf[k] == old(buf[k])
  {
    hide IsSuffix, Broken, Unbroken, BufferLeft, Filled;
    ghost var input, before := fd.incoming, buf[..];
    var n, ptr, full := ReadDigits(fd, buf, size);
    ghost var taken := if !full && n > 0 then ptr + 1 else ptr;
    TailIsSuffix(input, taken);
    FilledAt(buf[..], before, 0, input, taken);
    if full || n <= 0 || buf[ptr] != '\n' {
      LeftInLine(before, input, taken, buf[..]);
    }
    if full {
      return -Code(EMSGSIZE);
    }
    if n < 0 {
      return -Code(EREAD);
    }
    if n == 0 {
      return -Code(ECONNCLOSED);
    }
    if buf[ptr] != '\n' {
      return -Code(EMSGINV);
    }
    buf[ptr] := NUL;
    LeftBehindLine(before, input, buf[..]);
    RunIs(buf[..], ptr);
    assert buf[..][..ptr] == input[..ptr];
    len := Atoi(buf[..]);
    if len + 1 > size {
      return -Code(EMSGSIZE);
    }
  }

  method DucqTcpRecv(fd: Descriptor<char>, buf: array<char>, size: nat) returns (r: int)
    requires 1 <= size <= buf.Length
    requires LengthFits(fd.incoming, size)
    modifies fd`incoming, fd`readPlan, fd`interrupted, fd`wouldBlock, buf
    ensures var (out, rest) := Receive(old(fd.incoming), size);
            (Reports(r, buf[..], out) && fd.incoming == rest && Unbroken(old(fd.readPlan), fd.readPlan, old(fd.wouldBlock), fd.wouldBlock))
            || (r == -Code(EREAD) && Broken(old(fd.readPlan), fd.readPlan, fd.wouldBlock))
    ensures Steady(old(fd.readPlan)) ==> Steady(fd.readPlan)
    ensures IsSuffix(fd.incoming, old(fd.incoming)) && r < size
    ensures var left := BufferLeft(old(buf[..]), old(fd.incoming), |old(fd.incoming)| - |fd.incoming|);
            buf[..] == if r >= 0 then left[r := NUL] else left
    ensures forall k :: size <= k < buf.Length ==> buf[k] == old(buf[k])
  {
    hide IsSuffix, Steady, Broken, Unbroken, BufferLeft, Line, Body, Reports, Over, LengthFits;
    ghost var input, plan, before, errno := fd.incoming, fd.readPlan, buf[..], fd.wouldBlock;
    var len := ReadLength(fd, buf, size);
    ghost var pending, now, body := fd.readPlan, fd.wouldBlock, fd.incoming;
    StretchFacts(plan, pending, errno, now);
    if len < 0 {
      ErrorReported(len, buf[..], -len);
      return len;
    }
    LineBehind(input, size);
    ghost var got;
    r, got := ReadBody(fd, buf, len);
    StretchChain(plan, pending, fd.readPlan, errno, now, fd.wouldBlock);
    StretchFacts(plan, fd.readPlan, errno, fd.wouldBlock);
    BufferBehind(before, input, DigitRun(input), got);
    TailIsSuffix(input, |input| - |fd.incoming|);
  }

  lemma ErrorReported(r: int, buf: seq<char>, code: int)
    requires r == -code
    ensures forall s :: Code(s) == code ==> Reports(r, buf, Error(s))
  {
  }

  /** Where the payload of a well-formed length line starts. */
  lemma LineBehind(input: string, size: nat)
    ensures Line(input, size).0.Length? ==>
              var k := DigitRun(input) + 1; k <= |input| && input[k - 1] == '\n' && Line(input, size).1 == input[k..]
  {
    hide DigitRun, Read;
  }

  lemma BufferBehind(b: string, input: string, d: nat, got: nat)
    requires d == DigitRun(input) && d + 1 + got <= |input| && input[d] == '\n'
    ensures BufferLeft(b, input, d + 1 + got) == Over(BufferLeft(b, input, d + 1), input[d + 1..][..got])
    ensures input[d + 1..][got..] == input[d + 1 + got..]
  {
    hide DigitRun, Over, BufferLeft;
    LeftBehind(b, input, d, d + 1);
    LeftBehind(b, input, d, d + 1 + got);
    OverNothing(Over(b, input[..d] + [NUL]));
    Sliced(input, d + 1, got);
  }

  lemma OverNothing(b: string)
    ensures Over(b, "") == b
  {
  }

  lemma LeftBehind(b: string, input: string, d: nat, taken: nat)
    requires d == DigitRun(input) && d < taken <= |input| && input[d] == '\n'
    ensures BufferLeft(b, input, taken) == Over(Over(b, input[..d] + [NUL]), input[d + 1..taken])
    ensures taken == d + 1 ==> input[d + 1..taken] == ""
  {
    hide DigitRun, Over;
  }

  lemma Sliced(s: string, k: nat, n: nat)
    requires k + n <= |s|
    ensures s[k..k + n] == s[k..][..n] && s[k..][n..] == s[k + n..]
  {
  }

  method ReadBody(fd: Descriptor<char>, buf: array<char>, len: nat) returns (r: int, ghost got: nat)
    requires len < buf.Length
    modifies fd`incoming, fd`readPlan, fd`interrupted, fd`wouldBlock, buf
    ensures var (out, rest) := Body(old(fd.incoming), len);
            (Reports(r, buf[..], out) && fd.incoming == rest && Unbroken(old(fd.readPlan), fd.readPlan, old(fd.wouldBlock), fd.wouldBlock))
            || (r == -Code(EREAD) && Broken(old(fd.readPlan), fd.readPlan, fd.wouldBlock))
    ensures r <= len && got <= len && got <= |old(fd.incoming)| && fd.incoming == old(fd.incoming)[got..]
    ensures var left := Over(old(buf[..]), old(fd.incoming)[..got]);
            buf[..] == if r >= 0 then left[r := NUL] else left
    ensures forall k :: len < k < buf.Length ==> buf[k] == old(buf[k])
  {
    hide IsSuffix, Broken, Unbroken, Over;
    ghost var before, body := buf[..], fd.incoming;
    var n;
    n, got := fd.Readn(buf, 0, len);
    OverIs(before, body[..got], buf[..]);
    if n < 0 {
      return -Code(EREAD), got;
    }
    if n == 0 {
      return -Code(ECONNCLOSED), got;
    }
    if n != len {
      return -Code(EREAD), got;
    }
    buf[len] := NUL;
    return n, got;
  }

  /**
   The connection's receive: a failed read counts as a timeout when errno says so.
   errno is only as fresh as the last call that set it: a payload cut short by the
   end of the stream is a timeout too if an earlier one left its mark.
   */
  method Recv(fd: Descriptor<char>, buf: array<char>, count: nat) returns (state: State, newCount: nat)
    requires 1 <= count <= buf.Length
    requires LengthFits(fd.incoming, count)
    modifies fd`incoming, fd`readPlan, fd`interrupted, fd`wouldBlock, buf
    ensures var (out, rest) := Receive(old(fd.incoming), count); var unread := if fd.wouldBlock then ETIMEOUT else EREAD;
            (fd.incoming == rest && Unbroken(old(fd.readPlan), fd.readPlan, old(fd.wouldBlock), fd.wouldBlock)
             && match out
                case Payload(m) => state == OK && newCount == |m| < buf.Length && buf[..|m|] == m && buf[|m|] == NUL
                case Error(s) => state == (if s == EREAD then unread else s) && newCount == count)
            || (Broken(old(fd.readPlan), fd.readPlan, fd.wouldBlock) && state == unread && newCount == count)
    ensures state == ETIMEOUT <==> fd.wouldBlock && (Broken(old(fd.readPlan), fd.readPlan, fd.wouldBlock)
                                                     || Receive(old(fd.incoming), count).0 == Error(EREAD))
    ensures Steady(old(fd.readPlan)) ==>
              (state == ETIMEOUT <==> Receive(old(fd.incoming), count).0 == Error(EREAD)
                                      && old(fd.wouldBlock) && Interrupt !in Made(old(fd.readPlan), fd.readPlan))
    ensures Steady(old(fd.readPlan)) ==> Steady(fd.readPlan)
    ensures IsSuffix(fd.incoming, old(fd.incoming)) && newCount <= count
    ensures var left := BufferLeft(old(buf[..]), old(fd.incoming), |old(fd.incoming)| - |fd.incoming|);
            buf[..] == if state == OK && newCount < |left| then left[newCount := NUL] else left
  {
    hide Steady, IsSuffix, Receive, FromCode, BufferLeft, Broken;
    ghost var out := Receive(fd.incoming, count).0;
    var rc := DucqTcpRecv(fd, buf, count);
    StretchFacts(old(fd.readPlan), fd.readPlan, old(fd.wouldBlock), fd.wouldBlock);
    FromOwnCode(EREAD);
    FromOwnCode(if out.Error? then out.state else EREAD);
    if rc >= 0 {
      return OK, rc;
    }
    var s := FromCode(-rc);
    return if s == EREAD && fd.wouldBlock then ETIMEOUT else s, count;
  }

  /** A payload cut short by the end of the stream: no read fails. */
  lemma CutShort()
    ensures Receive("5\nab", 256) == (Error(EREAD), "") && LengthFits("5\nab", 256)
  {
    var input := "5\nab";
    RunIs(input, 1);
    assert input[..1] == "5" && "5"[..0] == "" && input[2..] == "ab";
    assert Read("") == 0 && Read("5") == 5;
  }

  /** It is reported as a timeout when an earlier call left its mark. */
  method StaleTimeout(fd: Descriptor<char>, buf: array<char>) returns (state: State)
    requires fd.incoming == "5\nab" && fd.readPlan == [] && fd.wouldBlock && buf.Length == 256
    modifies fd`incoming, fd`readPlan, fd`interrupted, fd`wouldBlock, buf
    ensures state == ETIMEOUT && fd.incoming == ""
  {
    hide Receive, LengthFits, BufferLeft;
    CutShort();
    var count;
    state, count := Recv(fd, buf, 256);
  }

  /** Prints the header, then writes header and payload in full. */
  method DucqTcpSend(fd: Descriptor<char>, buf: string) returns (r: int)
    requires |buf| < 0x8000_0000
    modifies fd`outgoing, fd`writePlan, fd`interrupted, fd`wouldBlock
    ensures (r == |buf| && fd.outgoing == old(fd.outgoing) + Frame(buf))
            || (r == -Code(EWRITE) && !Steady(old(fd.writePlan))
                && exists k :: 0 <= k < |Frame(buf)| && fd.outgoing == old(fd.outgoing) + Frame(buf)[..k])
    ensures Steady(old(fd.writePlan)) ==> Steady(fd.writePlan)
  {
    hide Unbroken, Broken, IsSuffix, Steady;
    var header := Print(|buf|) + "\n";
    var len := |header|;
    HeaderFits(|buf|);
    if len >= 25 {
      return -Code(ESTDC);
    }
    var n, put := fd.Writen(header);
    if n != len {
      assert Frame(buf)[..put] == header[..put];
      return -Code(EWRITE);
    }
    assert header[..put] == header;
    n, put := fd.Writen(buf);
    if n != |buf| {
      assert Frame(buf)[..len + put] == header + buf[..put];
      return -Code(EWRITE);
    }
    assert buf[..put] == buf;
    return |buf|;
  }

  lemma HeaderFits(n: nat)
    requires n < 0x8000_0000
    ensures |Print(n)| <= 10
  {
    assert Power10(10) == 10_000_000_000;
    PrintBound(n, 10);
  }

  // ------------------------------------------------- sequences of messages

  /** A frame comes back unchanged exactly when it is not empty and leaves room for the terminator, in a buffer of three or more. */
  lemma ReceiveFrame(m: string, rest: string, size: nat)
    requires size >= 1
    ensures Receive(Frame(m) + rest, size).0 == Payload(m) <==> m != "" && |m| <= size - 1 && size >= 3
    ensures |m| <= size - 1 && size >= 3 ==>
              Receive(Frame(m) + rest, size) == (if m == "" then Error(ECONNCLOSED) else Payload(m), rest)
  {
    hide DigitRun, Read, Print, Frame;
    FrameLine(m, rest);
    assert (m + rest)[..|m|] == m && (m + rest)[|m|..] == rest;
    if |m| <= size - 1 {
      PrintIsShort(|m|);
    }
  }

  /** The length line of a frame, and what is behind it. */
  lemma FrameLine(m: string, rest: string)
    ensures var input, d := Frame(m) + rest, |Print(|m|)|;
            DigitRun(input) == d < |input| && input[d] == '\n' && Read(input[..d]) == |m| && input[d + 1..] == m + rest
  {
    hide DigitRun, Read, Print;
    var input, d := Frame(m) + rest, |Print(|m|)|;
    assert input == Print(|m|) + ("\n" + m + rest);
    AtoiPrint(|m|, "\n" + m + rest);
    assert input[d + 1..] == m + rest;
  }

  /** A frame cut short: in its length line, or right behind it, the connection counts as closed; in the payload it is a read error. */
  lemma CutFrame(m: string, k: nat, size: nat)
    requires size >= 3 && m != "" && |m| <= size - 1 && k < |Frame(m)|
    ensures Receive(Frame(m)[..k], size) == (Error(if k <= |Print(|m|)| + 1 then ECONNCLOSED else EREAD), "")
  {
    hide DigitRun, Read, Print;
    var d, input := |Print(|m|)|, Frame(m)[..k];
    PrintIsShort(|m|);
    FrameLine(m, "");
    assert Frame(m) + "" == Frame(m);
    if k <= d {
      CutLine(m, k);
    } else {
      assert input[..d] == Print(|m|) && input[d] == '\n';
      assert input == Print(|m|) + ("\n" + input[d + 1..]);
      AtoiPrint(|m|, "\n" + input[d + 1..]);
      assert |input[d + 1..]| < |m|;
    }
  }

  lemma CutLine(m: string, k: nat)
    requires k <= |Print(|m|)|
    ensures DigitRun(Frame(m)[..k]) == k
  {
    hide DigitRun, Print;
    RunIs(Frame(m)[..k], k);
  }

  /** The other refusals: no newline behind the digits, a payload too large, and digits without end. */
  lemma Refusals(ds: string, c: char, rest: string, m: string, size: nat)
    requires forall i :: 0 <= i < |ds| ==> IsDigit(ds[i])
    ensures |ds| < Limit(size) && !IsDigit(c) && c != '\n' ==> Receive(ds + [c] + rest, size) == (Error(EMSGINV), rest)
    ensures |ds| < Limit(size) ==> Receive(ds, size) == (Error(ECONNCLOSED), "")
    ensures |ds| >= Limit(size) ==> Receive(ds + rest, size) == (Error(EMSGSIZE), (ds + rest)[Limit(size)..])
    ensures |m| + 1 > size && |Print(|m|)| < Limit(size) ==> Receive(Frame(m) + rest, size) == (Error(EMSGSIZE), m + rest)
  {
    hide DigitRun, Read, Print;
    RunIs(ds, |ds|);
    if !IsDigit(c) {
      RunIs(ds + [c] + rest, |ds|);
      assert (ds + [c] + rest)[|ds|] == c && (ds + [c] + rest)[|ds| + 1..] == rest;
    }
    LongRun(ds, rest);
    FrameLine(m, rest);
  }

  lemma {:induction false} LongRun(ds: string, rest: string)
    requires forall i :: 0 <= i < |ds| ==> IsDigit(ds[i])
    ensures DigitRun(ds + rest) >= |ds|
  {
    if ds != "" {
      LongRun(ds[1..], rest);
      assert (ds + rest)[1..] == ds[1..] + rest;
    }
  }

  /** What is on the wire for "hello". */
  lemma FrameOfHello()
    ensures Frame("hello") == "5\nhello"
  {
    assert Print(5) == "5";
  }

  function Frames(ms: seq<string>): string {
    if ms == [] then "" else Frame(ms[0]) + Frames(ms[1..])
  }

  /** The outcomes of k calls, one after the other. */
  function ReceiveMany(input: string, size: nat, k: nat): seq<Received>
    decreases k
  {
    if k == 0 then [] else
    var (out, rest) := Receive(input, size);
    [out] + ReceiveMany(rest, size, k - 1)
  }

  function Expected(m: string): Received {
    if m == "" then Error(ECONNCLOSED) else Payload(m)
  }

  /** Everything sent is received, in order; only an empty message is taken for a closed connection. */
  lemma {:induction false} ReceiveFrames(ms: seq<string>, size: nat)
    requires size >= 3 && forall i :: 0 <= i < |ms| ==> |ms[i]| <= size - 1
    ensures ReceiveMany(Frames(ms), size, |ms|) == seq(|ms|, i requires 0 <= i < |ms| => Expected(ms[i]))
  {
    hide Receive, Frame;
    if ms != [] {
      ReceiveFrame(ms[0], Frames(ms[1..]), size);
      ReceiveFrames(ms[1..], size);
      assert ReceiveMany(Frames(ms), size, |ms|)
          == [Expected(ms[0])] + ReceiveMany(Frames(ms[1..]), size, |ms| - 1);
    }
  }

  /** A frame's length field is what it takes for the conversion to int to be in range. */
  lemma FrameLengthFits(m: string, rest: string, size: nat)
    requires |m| < 0x7fff_ffff
    ensures LengthFits(Frame(m) + rest, size)
  {
    assert Frame(m) + rest == Print(|m|) + ("\n" + m + rest);
    AtoiPrint(|m|, "\n" + m + rest);
  }
}
