/**
 Whole conversations: what one side sends through the layers of framing and
 descriptors arrives at the other, however the transfers are cut.
 */
module Exchange {
  import opened Basics
  import opened Bytes
  import opened Stream
  import T = TcpFraming
  import W = WsFraming
  import H = WsHeader

  // ------------------------------------------------------------------- TCP

  method TcpSendAll(sender: Descriptor<char>, ms: seq<string>)
    requires Steady(sender.writePlan) && forall m :: m in ms ==> |m| < 0x7fff_ffff
    modifies sender`outgoing, sender`writePlan, sender`interrupted, sender`wouldBlock
    ensures sender.outgoing == old(sender.outgoing) + T.Frames(ms)
  {
    hide T.Frame;
    ghost var out := sender.outgoing;
    var i := 0;
    while i < |ms|
      invariant 0 <= i <= |ms| && Steady(sender.writePlan)
      invariant sender.outgoing + T.Frames(ms[i..]) == out + T.Frames(ms)
    {
      ghost var sofar := sender.outgoing;
      TcpNext(ms, i);
      var _ := T.DucqTcpSend(sender, ms[i]);
      assert sofar + (T.Frame(ms[i]) + T.Frames(ms[i + 1..])) == sofar + T.Frame(ms[i]) + T.Frames(ms[i + 1..]);
      i := i + 1;
    }
    assert sender.outgoing + "" == sender.outgoing;
  }

  lemma TcpNext(ms: seq<string>, i: nat)
    requires i < |ms|
    ensures T.Frames(ms[i..]) == T.Frame(ms[i]) + T.Frames(ms[i + 1..])
  {
    assert ms[i..][1..] == ms[i + 1..];
  }

  /** One call, on a frame and whatever follows it. */
  method TcpRecvOne(receiver: Descriptor<char>, ghost m: string, ghost rest: string, buf: array<char>, size: nat)
    returns (received: string)
    requires Steady(receiver.readPlan) && 3 <= size <= buf.Length && size < 0x7fff_ffff
    requires m != "" && |m| <= size - 1 && receiver.incoming == T.Frame(m) + rest
    modifies receiver`incoming, receiver`readPlan, receiver`interrupted, receiver`wouldBlock, buf
    ensures received == m && receiver.incoming == rest && Steady(receiver.readPlan)
  {
    hide T.Frame, T.Receive, T.LengthFits, T.BufferLeft, Steady, Unbroken, IsSuffix, Broken;
    T.FrameLengthFits(m, rest, size);
    T.ReceiveFrame(m, rest, size);
    ghost var plan, errno := receiver.readPlan, receiver.wouldBlock;
    var r := T.DucqTcpRecv(receiver, buf, size);
    StretchFacts(plan, receiver.readPlan, errno, receiver.wouldBlock);
    assert buf[..r] == buf[..][..r];
    received := buf[..r];
  }

  method TcpRecvAll(receiver: Descriptor<char>, ghost ms: seq<string>, n: nat, buf: array<char>, size: nat)
    returns (received: seq<string>)
    requires n == |ms| && Steady(receiver.readPlan) && 3 <= size <= buf.Length && size < 0x7fff_ffff
    requires forall m :: m in ms ==> m != "" && |m| <= size - 1
    requires receiver.incoming == T.Frames(ms)
    modifies receiver`incoming, receiver`readPlan, receiver`interrupted, receiver`wouldBlock, buf
    ensures received == ms && receiver.incoming == ""
  {
    hide T.Frame, Steady;
    received := [];
    while |received| < n
      invariant |received| <= n && received == ms[..|received|] && Steady(receiver.readPlan)
      invariant receiver.incoming == T.Frames(ms[|received|..])
    {
      ghost var k := |received|;
      TcpNext(ms, k);
      assert ms[k] in ms;
      var m := TcpRecvOne(receiver, ms[k], T.Frames(ms[k + 1..]), buf, size);
      received := received + [m];
    }
  }

  /** Messages sent by ducq_tcp_send, carried over, and taken off again by ducq_tcp_recv. */
  method TcpExchange(sender: Descriptor<char>, receiver: Descriptor<char>, ms: seq<string>, buf: array<char>, size: nat)
    returns (received: seq<string>)
    requires sender != receiver && Steady(sender.writePlan) && Steady(receiver.readPlan)
    requires 3 <= size <= buf.Length && size < 0x7fff_ffff
    requires forall m :: m in ms ==> m != "" && |m| <= size - 1
    requires sender.outgoing == ""
    modifies sender, receiver, buf
    ensures received == ms && receiver.incoming == ""
  {
    TcpSendAll(sender, ms);
    receiver.incoming := sender.outgoing;
    received := TcpRecvAll(receiver, ms, |ms|, buf, size);
  }

  // -------------------------------------------------------------- WebSocket

  method WsSendAll(sender: W.DucqWs, ms: seq<W.Sent>)
    requires sender.Valid() && Steady(sender.fd.writePlan) && W.Sendable(ms)
    requires sender.isClient ==> forall m :: m in ms ==> |m.payload| <= MSGSZ
    modifies sender.buf, sender.fd`outgoing, sender.fd`writePlan, sender.fd`interrupted, sender.fd`wouldBlock
    ensures sender.fd.outgoing == old(sender.fd.outgoing) + W.Frames(sender.isClient, ms)
  {
    hide W.Frame, H.Encodes;
    ghost var out := sender.fd.outgoing;
    var i := 0;
    while i < |ms|
      invariant 0 <= i <= |ms| && Steady(sender.fd.writePlan) && W.Sendable(ms[i..])
      invariant sender.fd.outgoing + W.Frames(sender.isClient, ms[i..]) == out + W.Frames(sender.isClient, ms)
    {
      ghost var sofar := sender.fd.outgoing;
      WsNext(sender.isClient, ms, i);
      assert ms[i] in ms;
      var _ := sender.Send(ms[i].payload, ms[i].key);
      ghost var frame := W.Frame(W.FIN_TEXT, W.KeyOf(sender.isClient, ms[i]), ms[i].payload);
      assert sofar + (frame + W.Frames(sender.isClient, ms[i + 1..])) == sofar + frame + W.Frames(sender.isClient, ms[i + 1..]);
      i := i + 1;
    }
    assert sender.fd.outgoing + [] == sender.fd.outgoing;
  }

  lemma WsNext(fromClient: bool, ms: seq<W.Sent>, i: nat)
    requires i < |ms| && W.Sendable(ms)
    ensures W.Sendable(ms[i..]) && W.Sendable(ms[i + 1..])
    ensures W.Frames(fromClient, ms[i..])
         == W.Frame(W.FIN_TEXT, W.KeyOf(fromClient, ms[i]), ms[i].payload) + W.Frames(fromClient, ms[i + 1..])
  {
    assert ms[i..][1..] == ms[i + 1..];
  }

  /** One call, on a text frame of the other role and whatever follows it. */
  method WsRecvOne(receiver: W.DucqWs, ghost m: W.Sent, ghost rest: seq<byte>, ptr: array<byte>, mask: H.Mask)
    returns (payload: seq<byte>)
    requires receiver.Valid() && Steady(receiver.fd.readPlan) && Steady(receiver.fd.writePlan)
    requires |m.payload| < ptr.Length <= H.MAX_LEN && ptr != receiver.buf
    requires receiver.fd.incoming == W.Frame(W.FIN_TEXT, W.KeyOf(!receiver.isClient, m), m.payload) + rest
    modifies receiver, receiver.buf, receiver.fd, ptr
    ensures payload == m.payload && receiver.fd.incoming == rest && receiver.closing == old(receiver.closing)
    ensures Steady(receiver.fd.readPlan) && Steady(receiver.fd.writePlan)
  {
    hide W.Frame, W.RecvFrame, W.Complete, W.Overlay, H.GetLen;
    W.RecvSent(!receiver.isClient, receiver.buf[..14], W.FIN_TEXT, W.KeyOf(!receiver.isClient, m), m.payload, rest, ptr.Length);
    var state, count := receiver.Recv(ptr, ptr.Length, mask);
    assert ptr[..count] == ptr[..][..count];
    payload := ptr[..count];
  }

  /** mask is what a client would answer a ping with; no ping is received here. */
  method WsRecvAll(receiver: W.DucqWs, ghost ms: seq<W.Sent>, n: nat, ptr: array<byte>, mask: H.Mask)
    returns (received: seq<seq<byte>>)
    requires n == |ms| && receiver.Valid() && Steady(receiver.fd.readPlan) && Steady(receiver.fd.writePlan)
    requires W.Sendable(ms) && forall m :: m in ms ==> |m.payload| < ptr.Length
    requires ptr != receiver.buf && ptr.Length <= H.MAX_LEN
    requires receiver.fd.incoming == W.Frames(!receiver.isClient, ms)
    modifies receiver, receiver.buf, receiver.fd, ptr
    ensures |received| == |ms| && forall i :: 0 <= i < |ms| ==> received[i] == ms[i].payload
    ensures receiver.fd.incoming == [] && receiver.closing == old(receiver.closing)
  {
    hide W.Frame;
    received := [];
    ghost var closing := receiver.closing;
    while |received| < n
      invariant |received| <= n && Steady(receiver.fd.readPlan) && Steady(receiver.fd.writePlan)
      invariant forall i :: 0 <= i < |received| ==> received[i] == ms[i].payload
      invariant W.Sendable(ms[|received|..]) && receiver.fd.incoming == W.Frames(!receiver.isClient, ms[|received|..])
      invariant receiver.closing == closing
    {
      ghost var k := |received|;
      WsNext(!receiver.isClient, ms, k);
      assert ms[k] in ms;
      var payload := WsRecvOne(receiver, ms[k], W.Frames(!receiver.isClient, ms[k + 1..]), ptr, mask);
      received := received + [payload];
    }
  }

  /** Payloads sent by one role as text frames, carried over, and received by the other. */
  method WsExchange(sender: W.DucqWs, receiver: W.DucqWs, ms: seq<W.Sent>, ptr: array<byte>, mask: H.Mask)
    returns (received: seq<seq<byte>>)
    requires sender.Valid() && receiver.Valid() && sender.isClient == !receiver.isClient
    requires sender.fd != receiver.fd && sender.buf != receiver.buf && ptr != receiver.buf && ptr != sender.buf
    requires Steady(sender.fd.writePlan) && Steady(receiver.fd.readPlan) && Steady(receiver.fd.writePlan)
    requires W.Sendable(ms) && forall m :: m in ms ==> |m.payload| < ptr.Length
    requires sender.isClient ==> forall m :: m in ms ==> |m.payload| <= MSGSZ
    requires ptr.Length <= H.MAX_LEN && sender.fd.outgoing == []
    modifies sender, sender.buf, sender.fd, receiver, receiver.buf, receiver.fd, ptr
    ensures |received| == |ms| && forall i :: 0 <= i < |ms| ==> received[i] == ms[i].payload
    ensures receiver.fd.incoming == []
  {
    WsSendAll(sender, ms);
    receiver.fd.incoming := sender.fd.outgoing;
    received := WsRecvAll(receiver, ms, |ms|, ptr, mask);
  }
}
