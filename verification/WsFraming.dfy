/**
 Sending and receiving WebSocket frames, as ducq_ws.c does: one object per
 connection, whose 14-byte header buffer serves both directions and keeps
 whatever the last call left in it.
 */
module WsFraming {
  import opened Bytes
  import opened Basics
  import opened States
  import opened Stream
  import opened WsHeader

  const FIN_TEXT: byte := 0x81
  const FIN_PONG: byte := 0x8A
  const OP_CLOSE := 8
  const OP_PING := 9

  function Opcode(first: byte): nat {
    first % 0x10
  }

  /** A whole frame on the wire. */
  function Frame(first: byte, mask: Option<Mask>, payload: seq<byte>): seq<byte>
    requires |payload| <= MAX_LEN
  {
    Encoded(first, |payload|, mask) + if mask.Some? then Masked(mask.value, payload) else payload
  }

  /** What a reader gets out of the input: an error, or a frame's first byte and unmasked payload. */
  datatype Incoming = Refused(state: State) | Arrived(first: byte, payload: seq<byte>)

  /** A whole header is there. */
  predicate Complete(input: seq<byte>) {
    |input| >= 2 && HdrLen(input) <= |input|
  }

  /** The header buffer once that header has been read over what was in it. */
  function Overlay(h: Header, input: seq<byte>): Header
    requires Complete(input)
  {
    Put(h, 0, input[..HdrLen(input)])
  }

  lemma OverlayIs(h: Header, input: seq<byte>, b: Header)
    requires Complete(input) && forall k :: 0 <= k < 14 ==> b[k] == if k < HdrLen(input) then input[k] else h[k]
    ensures b == Overlay(h, input)
  {
  }

  /** One call on all the input there is, with h in the header buffer; and what it leaves unread. */
  function RecvFrame(isServer: bool, h: Header, input: seq<byte>, count: nat): (Incoming, seq<byte>) {
    if !Complete(input) then
      (Refused(EREAD), [])
    else
      var hdr, body := Overlay(h, input), input[HdrLen(input)..];
      var len := GetLen(hdr);
      if len > count + 1 then (Refused(EMSGSIZE), body)
      else if |body| < len then (Refused(EREAD), [])
      else (Arrived(hdr[0], if isServer then Masked(GetMask(hdr), body[..len]) else body[..len]), body[len..])
  }

  /** The caller's buffer has room for every payload the length check lets through, and for the terminator. */
  predicate HasRoom(h: Header, input: seq<byte>, count: nat, room: nat) {
    Complete(input) ==> GetLen(Overlay(h, input)) < room || GetLen(Overlay(h, input)) > count + 1
  }

  /** Return value, count, buffer and bytes sent in reply fit what came in. */
  predicate Reports(isClient: bool, mask: Mask, came: Incoming,
                    state: State, count: int, ptr: seq<byte>, closing: bool, sent: seq<byte>)
  {
    match came
    case Refused(s) => state == s && sent == []
    case Arrived(first, p) =>
      && count == |p| < |ptr| && |p| <= MAX_LEN && ptr[..|p|] == p && ptr[|p|] == 0
      && if Opcode(first) == OP_CLOSE then state == ECONNCLOSED && closing && sent == []
         else if Opcode(first) == OP_PING then
           if isClient && |p| > MSGSZ then state == EMSGSIZE && sent == []
           else state == PROTOCOL && sent == Frame(FIN_PONG, if isClient then Some(mask) else None, p)
         else state == (if first == FIN_TEXT then OK else ENOIMPL) && sent == []
  }

  class DucqWs {
    const fd: Descriptor<byte>
    const isClient: bool
    const buf: array<byte>       // header, then room for a masked copy of the payload
    var closing: bool            // state == WS_CLOSING

    ghost predicate Valid()
    {
      buf.Length == HEADER_SIZE + MSGSZ
    }

    constructor (fd: Descriptor<byte>, isClient: bool)
      ensures this.fd == fd && this.isClient == isClient && !closing
      ensures Valid() && fresh(buf) && forall i :: 0 <= i < buf.Length ==> buf[i] == 0
    {
      this.fd, this.isClient, closing := fd, isClient, false;
      buf := new byte[270](_ => 0);
    }

    /** Prepares the header, and for a client the masked copy. */
    method Prepare(payload: seq<byte>, mask: Mask) returns (data: seq<byte>, tooBig: bool)
      requires Valid() && |payload| <= MAX_LEN
      modifies buf
      ensures tooBig <==> isClient && |payload| > MSGSZ
      ensures buf[0] == old(buf[0])
      ensures var key := if isClient then Some(mask) else None;
              !tooBig ==> Encodes(buf[..14], |payload|, key)
                          && data == if isClient then Masked(mask, payload) else payload
    {
      hide Masked, Encodes;
      ghost var h := buf[..14];
      WsSetLen(buf, |payload|);
      SetLenEncodes(h, |payload|);
      ghost var had := buf[..14];
      UnmarkEncodes(had, |payload|, MaskOf(h));
      buf[1] := buf[1] % 0x80;
      assert buf[..14] == Unmark(had);
      data, tooBig := payload, false;
      if isClient {
        if |payload| > MSGSZ {
          return data, true;
        }
        ghost var plain := buf[..14];
        Store(buf, HEADER_SIZE, payload);
        assert buf[..14] == plain && buf[14..14 + |payload|] == payload;
        WsSetMsk(buf, mask);
        SetMaskEncodes(plain, |payload|, None, mask);
        ghost var masked := buf[..14];
        assert buf[14..14 + |payload|] == buf[14..][..|payload|] == payload;
        WsMaskMessage(mask, buf, HEADER_SIZE, |payload|);
        assert buf[..14] == masked;
        data := buf[HEADER_SIZE..HEADER_SIZE + |payload|];
      }
    }

    /** ws_send: the frame whose first byte is in the buffer. */
    method WsSend(payload: seq<byte>, mask: Mask) returns (state: State)
      requires Valid() && |payload| <= MAX_LEN
      modifies buf, fd`outgoing, fd`writePlan, fd`interrupted, fd`wouldBlock
      ensures buf[0] == old(buf[0])
      ensures Steady(old(fd.writePlan)) ==> Steady(fd.writePlan)
      ensures state != EMSGSIZE ==> Encodes(buf[..14], |payload|, if isClient then Some(mask) else None)
      ensures var frame := Frame(old(buf[0]), if isClient then Some(mask) else None, payload);
              if isClient && |payload| > MSGSZ then state == EMSGSIZE && fd.outgoing == old(fd.outgoing)
              else (state == OK && fd.outgoing == old(fd.outgoing) + frame)
                   || (state == EWRITE && !Steady(old(fd.writePlan))
                       && exists k :: 0 <= k < |frame| && fd.outgoing == old(fd.outgoing) + frame[..k])
    {
      hide Encoded, Masked;
      var data, tooBig := Prepare(payload, mask);
      if tooBig {
        return EMSGSIZE;
      }
      var hdrLen := WsGetHdrLen(buf);
      assert buf[..hdrLen] == buf[..14][..hdrLen];
      assert buf[..hdrLen] + data == Frame(buf[0], if isClient then Some(mask) else None, payload);
      state := WriteBoth(buf[..hdrLen], data);
    }

    /** The two writen calls of ws_send. */
    method WriteBoth(head: seq<byte>, data: seq<byte>) returns (state: State)
      modifies fd`outgoing, fd`writePlan, fd`interrupted, fd`wouldBlock
      ensures Steady(old(fd.writePlan)) ==> Steady(fd.writePlan)
      ensures (state == OK && fd.outgoing == old(fd.outgoing) + (head + data))
              || (state == EWRITE && !Steady(old(fd.writePlan))
                  && exists k :: 0 <= k < |head + data| && fd.outgoing == old(fd.outgoing) + (head + data)[..k])
    {
      hide Unbroken, Broken, IsSuffix, Steady;
      ghost var out := fd.outgoing;
      var n, put := fd.Writen(head);
      if n != |head| {
        assert (head + data)[..put] == head[..put];
        return EWRITE;
      }
      assert fd.outgoing == out + head by { assert head[..put] == head; }
      n, put := fd.Writen(data);
      if n != |data| {
        assert (head + data)[..|head| + put] == head + data[..put];
        assert out + head + data[..put] == out + (head + data[..put]);
        return EWRITE;
      }
      assert data[..put] == data;
      assert out + head + data == out + (head + data);
      return OK;
    }

    /** _send: a text frame. */
    method Send(payload: seq<byte>, mask: Mask) returns (state: State)
      requires Valid() && |payload| <= MAX_LEN
      modifies buf, fd`outgoing, fd`writePlan, fd`interrupted, fd`wouldBlock
      ensures Steady(old(fd.writePlan)) ==> Steady(fd.writePlan)
      ensures state != EMSGSIZE ==> Encodes(buf[..14], |payload|, if isClient then Some(mask) else None)
      ensures var frame := Frame(FIN_TEXT, if isClient then Some(mask) else None, payload);
              if isClient && |payload| > MSGSZ then state == EMSGSIZE && fd.outgoing == old(fd.outgoing)
              else (state == OK && fd.outgoing == old(fd.outgoing) + frame)
                   || (state == EWRITE && !Steady(old(fd.writePlan))
                       && exists k :: 0 <= k < |frame| && fd.outgoing == old(fd.outgoing) + frame[..k])
    {
      hide Frame, Encodes;
      buf[0] := FIN_TEXT;
      state := WsSend(payload, mask);
    }

    /** Two bytes, then as many more as they announce. */
    method ReadHeader() returns (ok: bool)
      requires Valid()
      modifies buf, fd`incoming, fd`readPlan, fd`interrupted, fd`wouldBlock
      ensures ok ==> Complete(old(fd.incoming)) && buf[..14] == Overlay(old(buf[..14]), old(fd.incoming))
                     && fd.incoming == old(fd.incoming)[HdrLen(old(fd.incoming))..]
      ensures !ok ==> !Steady(old(fd.readPlan)) || (!Complete(old(fd.incoming)) && fd.incoming == [])
      ensures IsSuffix(fd.readPlan, old(fd.readPlan))
    {
      hide IsSuffix, Steady, Unbroken, Broken, Overlay;
      ghost var h, input, plan := buf[..14], fd.incoming, fd.readPlan;
      var n, got := fd.Readn(buf, 0, 2);
      ghost var left := fd.readPlan;
      if n < 2 {
        return false;
      }
      assert buf[1] == input[1];
      var hdrLen := WsGetHdrLen(buf);
      if hdrLen > 2 {
        n, got := fd.Readn(buf, 2, hdrLen - 2);
        SuffixChain(fd.readPlan, left, plan);
        if n < hdrLen - 2 {
          return false;
        }
      }
      assert forall k :: 0 <= k < hdrLen ==> buf[k] == input[k];
      assert forall k :: hdrLen <= k < 14 ==> buf[k] == h[k];
      OverlayIs(h, input, buf[..14]);
      return true;
    }

    /** The payload announced by the header in the buffer, unmasked by a server, and its terminator. */
    method ReadPayload(ptr: array<byte>, count: nat) returns (state: State, newCount: int)
      requires Valid() && ptr != buf
      requires GetLen(buf[..14]) < ptr.Length || GetLen(buf[..14]) > count + 1
      modifies ptr, fd`incoming, fd`readPlan, fd`interrupted, fd`wouldBlock
      ensures IsSuffix(fd.readPlan, old(fd.readPlan))
      ensures var hdr, body := buf[..14], old(fd.incoming); var len := GetLen(hdr);
              if len > count + 1 then state == EMSGSIZE && newCount == count && fd.incoming == body
              else if state == OK then
                len <= |body| && newCount == len < ptr.Length && fd.incoming == body[len..] && ptr[len] == 0
                && (forall k :: len < k < ptr.Length ==> ptr[k] == old(ptr[k]))
                && ptr[..len] == if isClient then body[..len] else Masked(GetMask(hdr), body[..len])
              else state == EREAD && (!Steady(old(fd.readPlan)) || (|body| < len && fd.incoming == []))
    {
      hide Masked, GetLen, Unbroken, Broken;
      ghost var body := fd.incoming;
      newCount := count;
      var msgLen := WsGetLen(buf);
      if msgLen > count + 1 {
        return EMSGSIZE, newCount;
      }
      ghost var got;
      newCount, got := fd.Readn(ptr, 0, msgLen);
      if newCount != msgLen {
        return EREAD, newCount;
      }
      assert ptr[..msgLen] == body[..msgLen];
      Unmask(ptr, newCount);
      return OK, newCount;
    }

    /** A server takes the mask off; the payload is terminated. */
    method Unmask(ptr: array<byte>, n: nat)
      requires Valid() && ptr != buf && n < ptr.Length
      modifies ptr
      ensures ptr[..n] == if isClient then old(ptr[..n]) else Masked(GetMask(buf[..14]), old(ptr[..n]))
      ensures ptr[n] == 0 && forall k :: n < k < ptr.Length ==> ptr[k] == old(ptr[k])
    {
      hide Masked;
      if !isClient {
        var at := WsGetMsk(buf);
        assert ptr[0..n] == ptr[..n];
        WsMaskMessage(buf[at..at + 4], ptr, 0, n);
        assert ptr[..n] == ptr[..][..n];
      }
      ptr[n] := 0;
    }

    /** The opcode check at the end of _recv, on a payload of n bytes. */
    method Dispatch(ptr: array<byte>, n: nat, mask: Mask) returns (state: State)
      requires Valid() && ptr != buf && n < ptr.Length <= MAX_LEN && ptr[n] == 0
      modifies this`closing, buf, fd`outgoing, fd`writePlan, fd`interrupted, fd`wouldBlock
      ensures Steady(old(fd.writePlan)) ==> Steady(fd.writePlan)
      ensures closing == (old(closing) || state == ECONNCLOSED)
      ensures state == OK || state == ENOIMPL || state == ECONNCLOSED ==> buf[..] == old(buf[..])
      ensures (old(fd.outgoing) <= fd.outgoing
               && Reports(isClient, mask, Arrived(old(buf[0]), ptr[..n]),
                          state, n, ptr[..], closing, fd.outgoing[|old(fd.outgoing)|..]))
              || (state == EWRITE && !Steady(old(fd.writePlan)))
    {
      hide Frame;
      assert ptr[..][..n] == ptr[..n];
      if buf[0] % 0x10 == OP_CLOSE {
        closing := true;
        return ECONNCLOSED;
      }
      if buf[0] % 0x10 == OP_PING {
        buf[0] := FIN_PONG;
        state := WsSend(ptr[..n], mask);
        return if state != OK then state else PROTOCOL;
      }
      if buf[0] != FIN_TEXT {
        return ENOIMPL;
      }
      return OK;
    }

    /** _recv; mask is what a client would use for the reply to a ping. */
    method Recv(ptr: array<byte>, count: nat, mask: Mask) returns (state: State, newCount: int)
      requires Valid() && ptr != buf && count <= ptr.Length <= MAX_LEN
      requires HasRoom(buf[..14], fd.incoming, count, ptr.Length)
      modifies this`closing, buf, ptr, fd`incoming, fd`outgoing, fd`readPlan, fd`writePlan, fd`interrupted, fd`wouldBlock
      ensures Steady(old(fd.readPlan)) ==> Steady(fd.readPlan)
      ensures Steady(old(fd.writePlan)) ==> Steady(fd.writePlan)
      ensures closing == (old(closing) || state == ECONNCLOSED)
      ensures state == OK || state == ENOIMPL || state == ECONNCLOSED ==>
                Complete(old(fd.incoming)) && buf[..14] == Overlay(old(buf[..14]), old(fd.incoming))
                && 0 <= newCount && forall k :: newCount < k < ptr.Length ==> ptr[k] == old(ptr[k])
      ensures var (came, rest) := RecvFrame(!isClient, old(buf[..14]), old(fd.incoming), count);
              (fd.incoming == rest && old(fd.outgoing) <= fd.outgoing
               && Reports(isClient, mask, came, state, newCount, ptr[..], closing, fd.outgoing[|old(fd.outgoing)|..]))
              || (state == EREAD && !Steady(old(fd.readPlan)))
              || (state == EWRITE && !Steady(old(fd.writePlan)))
    {
      hide Overlay, Masked, Frame, GetLen;
      newCount := count;
      var ok := ReadHeader();
      if !ok {
        return EREAD, newCount;
      }
      state, newCount := ReadPayload(ptr, count);
      if state != OK {
        return;
      }
      state := Dispatch(ptr, newCount, mask);
    }
  }

  // ------------------------------------------------- sequences of messages

  /** Whatever the header buffer held, a frame of the opposite role comes back as sent, up to count + 1 bytes. */
  lemma RecvSent(isServer: bool, h: Header, first: byte, mask: Option<Mask>, p: seq<byte>, rest: seq<byte>, count: nat)
    requires |p| <= MAX_LEN && (mask.Some? <==> isServer)
    ensures var input := Frame(first, mask, p) + rest;
            Complete(input) && GetLen(Overlay(h, input)) == |p|
            && RecvFrame(isServer, h, input, count)
               == if |p| <= count + 1 then (Arrived(first, p), rest)
                  else (Refused(EMSGSIZE), input[|Encoded(first, |p|, mask)|..])
  {
    hide Masked, GetLen;
    var e := Encoded(first, |p|, mask);
    var input := Frame(first, mask, p) + rest;
    var data := if mask.Some? then Masked(mask.value, p) else p;
    assert input == e + (data + rest);
    HdrLenOfEncoded(first, |p|, mask, data + rest);
    var hdr := Overlay(h, input);
    assert hdr[..|e|] == e && hdr[0] == first;
    EncodedIsRead(hdr, |p|, mask);
    assert input[|e|..][..|p|] == data && input[|e|..][|p|..] == rest;
    if mask.Some? {
      MaskedTwice(mask.value, p);
    }
  }

  /**
   When a frame overruns a buffer of exactly the size passed to Recv: at count bytes
   its terminator does, at count + 1 its last byte too; longer ones are refused.
   */
  lemma OverrunsExactly(h: Header, first: byte, mask: Option<Mask>, p: seq<byte>, rest: seq<byte>, count: nat)
    requires |p| <= MAX_LEN
    ensures HasRoom(h, Frame(first, mask, p) + rest, count, count) <==> |p| != count && |p| != count + 1
  {
    hide Complete, Overlay, GetLen, Frame;
    RecvSent(mask.Some?, h, first, mask, p, rest, count);
  }

  lemma HdrLenOfEncoded(first: byte, n: nat, mask: Option<Mask>, rest: seq<byte>)
    requires n <= MAX_LEN
    ensures var e := Encoded(first, n, mask);
            |e| <= 14 && HdrLen(e + rest) == HdrLen(e) == |e| >= 2
  {
    hide BigEndian;
  }

  /** One message and the key a client masks it with. */
  datatype Sent = Sent(key: Mask, payload: seq<byte>)

  predicate Sendable(ms: seq<Sent>) {
    forall m :: m in ms ==> |m.payload| <= MAX_LEN
  }

  function KeyOf(fromClient: bool, m: Sent): Option<Mask> {
    if fromClient then Some(m.key) else None
  }

  /** Everything a role sends, one frame after the other. */
  function Frames(fromClient: bool, ms: seq<Sent>): seq<byte>
    requires Sendable(ms)
  {
    if ms == [] then [] else Frame(FIN_TEXT, KeyOf(fromClient, ms[0]), ms[0].payload) + Frames(fromClient, ms[1..])
  }

  /** k calls, each finding some header buffer left over from before. */
  function RecvMany(isServer: bool, hs: seq<Header>, input: seq<byte>, count: nat): seq<Incoming> {
    if hs == [] then [] else
    var (came, rest) := RecvFrame(isServer, hs[0], input, count);
    [came] + RecvMany(isServer, hs[1..], rest, count)
  }

  /** Everything one role sends is received by the other, payload for payload, in order. */
  lemma {:induction false} RecvFrames(fromClient: bool, ms: seq<Sent>, hs: seq<Header>, count: nat)
    requires Sendable(ms) && |hs| == |ms|
    requires forall i :: 0 <= i < |ms| ==> |ms[i].payload| <= count + 1
    ensures RecvMany(fromClient, hs, Frames(fromClient, ms), count)
         == seq(|ms|, i requires 0 <= i < |ms| => Arrived(FIN_TEXT, ms[i].payload))
  {
    hide RecvFrame, Frame, Complete, Overlay, GetLen;
    if ms != [] {
      RecvSent(fromClient, hs[0], FIN_TEXT, KeyOf(fromClient, ms[0]), ms[0].payload, Frames(fromClient, ms[1..]), count);
      RecvFrames(fromClient, ms[1..], hs[1..], count);
    }
  }
}
