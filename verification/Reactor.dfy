/** The reactor itself: arrays of slots and of last messages, updated in place. */
module Reactor {
  import opened Basics
  import opened States
  import opened Route
  import opened MessageText
  import T = Table
  import opened LastMessages
  import opened Round
  import opened Commands

  const FREE_FD := -1

  class DucqReactor {
    const connections: array<T.Slot>
    const lastMsgs: array<Entry>
    ghost var accepted: seq<T.Pointer>
    ghost var closed: seq<T.Pointer>
    ghost var lawful: bool

    ghost predicate Valid() {
      connections.Length == T.MAX_CONNECTIONS && lastMsgs.Length == MAX_CHANNELS
    }

    /** The table this reactor holds. */
    ghost function Table(): (s: T.World)
      reads this, connections
      ensures |s.slots| == connections.Length
    {
      T.World(connections[..], accepted, closed, lawful)
    }

    constructor ()
      ensures Valid() && Table() == T.Initial() && lastMsgs[..] == Empty()
      ensures fresh(connections) && fresh(lastMsgs)
    {
      connections := new T.Slot[25](_ => T.EMPTY);
      lastMsgs := new Entry[25](_ => Entry("", ""));
      accepted, closed, lawful := [], [], true;
      new;
      assert connections[..] == T.Initial().slots;
    }

    /** connection_free, with the close and free of the client object. */
    method ConnectionFree(i: nat)
      requires Valid() && i < connections.Length
      modifies this, connections
      ensures Table() == T.Free(old(Table()), i)
    {
      if connections[i].fd == FREE_FD {
        return;
      }
      connections[i] := connections[i].(fd := FREE_FD);
      if connections[i].kind.Client? {
        var ducq := connections[i].pointer;
        if !ducq.Null? {
          closed := closed + [ducq];
        }
      }
    }

    method DucqReactorFree()
      requires Valid()
      modifies this, connections
      ensures Table() == T.FreeFrom(old(Table()), 0)
    {
      var i := 0;
      while i < 25
        invariant 0 <= i <= 25
        invariant T.FreeFrom(Table(), i) == T.FreeFrom(old(Table()), 0)
      {
        ConnectionFree(i);
        i := i + 1;
      }
    }

    method FindFree() returns (i: nat)
      requires Valid()
      ensures i == T.FirstFree(connections[..]) <= connections.Length
    {
      i := 0;
      while i < 25
        invariant i <= 25
        invariant T.Find(connections[..], s => !T.Live(s), i) == T.FirstFree(connections[..])
      {
        if connections[i].fd == FREE_FD {
          break;
        }
        i := i + 1;
      }
    }

    method AddServer(fd: int, accept: nat, ctx: int) returns (state: State)
      requires Valid()
      modifies this, connections
      ensures Table() == T.AddServerTo(old(Table()), fd, accept, ctx)
      ensures state == if T.FirstFree(old(connections[..])) == 25 then EMAX else OK
    {
      lawful := lawful && fd != FREE_FD;
      var i := FindFree();
      if i == 25 {
        return EMAX;
      }
      connections[i] := connections[i].(fd := fd);
      connections[i] := connections[i].(kind := T.Server);
      connections[i] := connections[i].(pointer := T.Function(accept));
      connections[i] := connections[i].(ctx := ctx);
      return OK;
    }

    method AddClient(fd: int, ducq: T.Pointer) returns (state: State)
      requires Valid()
      modifies this, connections
      ensures Table() == T.AddClientTo(old(Table()), fd, ducq)
      ensures state == if T.FirstFree(old(connections[..])) == 25 then EMAX else OK
    {
      hide T.FirstFree, T.SlotOf;
      lawful := lawful && fd != FREE_FD && !ducq.Function?
                && (ducq.Object? ==> T.SlotOf(connections[..], ducq) == connections.Length);
      var i := FindFree();
      if i == 25 {
        return EMAX;
      }
      connections[i] := connections[i].(fd := fd);
      connections[i] := connections[i].(kind := T.Client);
      connections[i] := connections[i].(pointer := ducq);
      connections[i] := connections[i].(route := "");
      accepted := if ducq.Null? then accepted else accepted + [ducq];
      return OK;
    }

    method Subscribe(ducq: T.Pointer, route: CString) returns (state: State)
      requires Valid()
      modifies this, connections
      ensures Table() == T.SubscribeTo(old(Table()), ducq, route)
      ensures state == if T.FirstWith(old(connections[..]), ducq) == 25 then ENOTFOUND else OK
    {
      hide T.FirstWith;
      ghost var slots := connections[..];
      lawful := lawful && |route| < T.MAX_ROUTE_LEN;
      var i := 0;
      while i < 25
        invariant 0 <= i <= 25 && connections[..] == slots
        invariant forall k :: 0 <= k < i ==> slots[k].pointer != ducq
      {
        if ducq != connections[i].pointer {
          i := i + 1;
          continue;
        }
        connections[i] := connections[i].(route := route);
        return OK;
      }
      return ENOTFOUND;
    }

    /** ducq_reactor_delete: a loop whose callback answers DELETE and BREAK for the client. */
    method Delete(ducq: T.Pointer) returns (deleted: bool)
      requires Valid()
      modifies this, connections
      ensures Table() == T.DeleteFrom(old(Table()), ducq)
      ensures deleted <==> !ducq.Null? && T.SlotOf(old(connections[..]), ducq) < 25
    {
      if ducq.Null? {
        return false;
      }
      ghost var slots := connections[..];
      var control := T.CONTINUE;
      var i := 0;
      while i < 25
        invariant 0 <= i <= 25 && Table() == old(Table()) && control == T.CONTINUE
        invariant T.Find(slots, s => T.Holds(s, ducq), i) == T.SlotOf(slots, ducq)
      {
        if connections[i].fd == FREE_FD {
          i := i + 1;
          continue;
        }
        control := T.CONTINUE;
        if connections[i].kind.Client? {
          control := if connections[i].pointer == ducq then T.Control(true, true) else T.CONTINUE;
        }
        if control.delete {
          ConnectionFree(i);
        }
        if control.break_ {
          break;
        }
        i := i + 1;
      }
      return control.delete;
    }

    // ------------------------------------------- loops and their callbacks

    /** One of the calls a callback can make. */
    method Call(op: T.Op)
      requires Valid()
      modifies this, connections
      ensures Table() == T.Exec(old(Table()), op)
      decreases op, 0, 0
    {
      match op
      case AddServer(fd, accept, ctx) => var _ := AddServer(fd, accept, ctx);
      case AddClient(fd, ducq) => var _ := AddClient(fd, ducq);
      case Subscribe(ducq, route) => var _ := Subscribe(ducq, route);
      case Delete(ducq) => var _ := Delete(ducq);
      case Loop(script) => var _ := DucqReactorLoop(script);
    }

    /** A callback's calls, one after the other. */
    method Calls(ops: seq<T.Op>)
      requires Valid()
      modifies this, connections
      ensures Table() == T.ExecAll(old(Table()), ops)
      decreases ops, 0, 0
    {
      var i := 0;
      while i < |ops|
        invariant 0 <= i <= |ops|
        invariant Table() == T.ExecAll(old(Table()), ops[..i])
      {
        assert ops[..i + 1][..i] == ops[..i];
        Call(ops[i]);
        i := i + 1;
      }
      assert ops[..i] == ops;
    }

    /** ducq_reactor_loop over connection_loop_template. */
    method DucqReactorLoop(script: seq<T.Callback>) returns (control: T.Control)
      requires Valid()
      modifies this, connections
      ensures (Table(), control) == T.LoopFrom(old(Table()), 0, script, T.CONTINUE)
      decreases script, 1, 0
    {
      control := T.CONTINUE;
      var i, next := 0, 0;
      while i < 25
        invariant 0 <= i <= 25 && 0 <= next <= |script|
        invariant T.LoopFrom(Table(), i, script[next..], control) == T.LoopFrom(old(Table()), 0, script, T.CONTINUE)
      {
        if connections[i].fd == FREE_FD {
          i := i + 1;
          continue;
        }
        control := T.CONTINUE;
        if connections[i].kind.Client? && next < |script| {
          assert script[next..][1..] == script[next + 1..];
          control := script[next].control;
          Calls(script[next].calls);
          next := next + 1;
        }
        if control.delete {
          ConnectionFree(i);
        }
        if control.break_ {
          break;
        }
        i := i + 1;
      }
    }

    /** One round of the main loop on what select found ready. */
    method RoundTable(ready: set<int>, nready: int, script: seq<Service>) returns (served: seq<nat>)
      requires Valid()
      modifies this, connections
      ensures (Table(), served) == RoundFrom(old(Table()), 0, ready, nready, script, true)
    {
      served := [];
      var left := nready;
      var i, next := 0, 0;
      assert script[0..] == script;
      assert served + RoundFrom(Table(), 0, ready, nready, script, true).1
          == RoundFrom(Table(), 0, ready, nready, script, true).1;
      while i < 25
        invariant 0 <= i <= 25 && 0 <= next <= |script|
        invariant var rest := RoundFrom(Table(), i, ready, left, script[next..], true);
                  (rest.0, served + rest.1) == RoundFrom(old(Table()), 0, ready, nready, script, true)
      {
        if connections[i].fd == FREE_FD || connections[i].fd !in ready {
          i := i + 1;
          continue;
        }
        ghost var rest := RoundFrom(Table(), i, ready, left, script[next..], true).1;
        var control := T.CONTINUE;
        left := left - 1;
        if left <= 0 {
          control := T.Control(false, true);
        }
        var service := Handled([]);
        if next < |script| {
          assert script[next..][1..] == script[next + 1..];
          service := script[next];
          next := next + 1;
        }
        if connections[i].kind.Server? {
          Calls(CallsOf(service));
        } else if service.Handled? {
          Calls(service.calls);
        } else {
          control := T.Control(true, control.break_);
        }
        if control.delete {
          ConnectionFree(i);
        }
        assert served + rest == served + [i] + rest[1..];
        served := served + [i];
        if control.break_ {
          assert rest[1..] == [];
          break;
        }
        i := i + 1;
      }
      assert served + [] == served;
    }

    // -------------------------------------------------------- last messages

    method GetLastMsg(route: string) returns (msg: string)
      requires Valid()
      ensures msg == Get(lastMsgs[..], route)
    {
      var i := 0;
      while i < 25
        invariant 0 <= i <= 25
        invariant Place(lastMsgs[..], route, i) == Place(lastMsgs[..], route, 0)
      {
        if lastMsgs[i].route == "" {
          return "ACK";
        }
        if lastMsgs[i].route == route {
          return lastMsgs[i].msg;
        }
        i := i + 1;
      }
      return "ACK\n_";
    }

    method SetLastMsg(route: string, msg: string) returns (state: State)
      requires Valid()
      requires |route| < T.MAX_ROUTE_LEN && |msg| < MSGSZ
      modifies lastMsgs
      ensures (lastMsgs[..], state) == Set(old(lastMsgs[..]), route, msg)
    {
      ghost var es := lastMsgs[..];
      var i := 0;
      while i < 25
        invariant 0 <= i <= 25 && lastMsgs[..] == es
        invariant Place(es, route, i) == Place(es, route, 0)
      {
        if lastMsgs[i].route == "" || lastMsgs[i].route == route {
          lastMsgs[i] := lastMsgs[i].(route := route);
          lastMsgs[i] := lastMsgs[i].(msg := msg);
          assert lastMsgs[..] == es[i := Entry(route, msg)];
          return OK;
        }
        i := i + 1;
      }
      return EMAX;
    }

    // -------------------------------------------------------------- commands

    /** The loop of pub: works[j] is how a send to slot j goes; sent collects whom the message went to. */
    method PublishLoop(route: CString, works: seq<bool>) returns (count: nat, sent: seq<T.Pointer>)
      requires Valid() && |works| == 25
      modifies this, connections
      ensures (Table(), count, sent) == PublishFrom(old(Table()), 0, route, works)
    {
      count, sent := 0, [];
      var i := 0;
      assert sent + PublishFrom(Table(), 0, route, works).2 == PublishFrom(Table(), 0, route, works).2;
      while i < 25
        invariant 0 <= i <= 25
        invariant var rest := PublishFrom(Table(), i, route, works);
                  (rest.0, count + rest.1, sent + rest.2) == PublishFrom(old(Table()), 0, route, works)
      {
        if connections[i].fd == FREE_FD {
          i := i + 1;
          continue;
        }
        ghost var rest := PublishFrom(Table(), i, route, works).2;
        var control := T.CONTINUE;
        if connections[i].kind.Client? {
          var matches := DucqRouteCmp(Some(connections[i].route), Some(route));
          if matches {
            assert sent + rest == sent + [connections[i].pointer] + rest[1..];
            sent := sent + [connections[i].pointer];
            if works[i] {
              count := count + 1;
            } else {
              control := T.Control(true, false);
            }
          }
        }
        if control.delete {
          ConnectionFree(i);
        }
        i := i + 1;
      }
      assert sent + [] == sent;
    }

    /** pub: ack is how sending the acknowledgement goes. */
    method PubCommand(ducq: T.Pointer, buffer: CString, ack: State, works: seq<bool>)
      returns (state: State, count: nat, sent: seq<T.Pointer>)
      requires Valid() && |works| == 25 && |buffer| < MSGSZ
      requires ParseRoute(buffer).Some? ==> |ParseRoute(buffer).value| < T.MAX_ROUTE_LEN
      modifies this, connections, lastMsgs
      ensures PubResult(Table(), lastMsgs[..], state, count, sent)
           == Pub(old(Table()), old(lastMsgs[..]), ducq, buffer, ack, works)
    {
      count, sent := 0, [];
      var route := ParseRoute(buffer);
      var routeState := if route.None? then EMSGINV else OK;
      if routeState == OK {
        RouteIsText(buffer);
        var _ := SetLastMsg(route.value, buffer);
      }
      state := if routeState != OK then routeState else ack;
      if state != OK {
        var _ := Delete(ducq);
        return;
      }
      count, sent := PublishLoop(route.value, works);
    }

    /**
     sub: the route is cut out of the message for the search and the reply, and
     the message put back together; works is how sending the reply goes.
     */
    method SubCommand(ducq: T.Pointer, buffer: array<char>, ghost text: CString, works: State)
      returns (state: State, reply: string)
      requires Valid() && IsCStr(buffer, 0, text)
      requires buffer as object != connections
      modifies this, connections, buffer
      ensures SubResult(Table(), state, reply) == Sub(old(Table()), lastMsgs[..], ducq, text, works)
      ensures buffer[..] == old(buffer[..])
    {
      hide ParseRoute, ParsePayload, StrChr, Get, AckText, T.SubscribeTo, T.DeleteFrom, T.FirstWith, Sub, SubTo;
      ghost var was := buffer[..];
      SubCases(Table(), lastMsgs[..], ducq, text, works);
      var newline := FindChar(buffer, 0, '\n', text);
      var start, routeEnd := FindRoute(buffer, text);
      if routeEnd.None? {
        return EMSGINV, AckText(EMSGINV);
      }
      var end := routeEnd.value;
      buffer[end] := NUL;
      var route := buffer[start..end];
      assert route == text[start..end];
      RouteIsText(text);
      var last := PayloadIsLast(buffer, newline, start - 1, end, text);
      state, reply := SubscribeAndReply(ducq, route, last, works);
      buffer[end] := '\n';
      assert buffer[..] == was;
    }

    /** The middle of sub: subscribe, answer, and delete a client that cannot be answered. */
    method SubscribeAndReply(ducq: T.Pointer, route: CString, last: bool, works: State)
      returns (state: State, reply: string)
      requires Valid()
      modifies this, connections
      ensures SubResult(Table(), state, reply) == SubTo(old(Table()), lastMsgs[..], ducq, route, last, works)
    {
      hide Get, AckText, T.SubscribeTo, T.DeleteFrom, T.FirstWith;
      var addState := Subscribe(ducq, route);
      reply := Reply(addState, route, last);
      if works != OK {
        var _ := Delete(ducq);
      }
      state := if addState != OK then addState else works;
    }

    method Reply(addState: State, route: CString, last: bool) returns (reply: string)
      requires Valid()
      ensures reply == if addState != OK then AckText(addState) else if last then Get(lastMsgs[..], route) else AckText(OK)
    {
      hide Get, AckText;
      if addState != OK {
        reply := AckText(addState);
      } else if last {
        reply := GetLastMsg(route);
      } else {
        reply := AckText(OK);
      }
    }
  }

  /** The payload, as the message stands with its route cut off at end, reads "last". */
  method PayloadIsLast(buffer: array<char>, newline: Option<nat>, at: nat, end: nat, ghost text: CString)
    returns (last: bool)
    requires at < end < |text| < buffer.Length && text[at] == ' ' && text[end] == '\n' && '\n' !in text[at..end]
    requires newline == StrChr(text, '\n')
    requires buffer[end] == NUL == buffer[|text|]
    requires forall k :: 0 <= k < |text| && k != end ==> buffer[k] == text[k]
    ensures last <==> ParsePayload(text) == Some("last")
  {
    hide StrChr, ParsePayload, IsCStr;
    CutKeepsLast(text, at, end);
    FirstNotAfter(text, end);
    var payload := newline.value + 1;
    ghost var t := CutPayload(buffer, payload, end, text);
    last := EqualTo(buffer, payload, "last", t);
  }

  /** The text from payload on, once the message is cut at end. */
  lemma CutPayload(buffer: array<char>, payload: nat, end: nat, text: CString) returns (t: CString)
    requires end < |text| < buffer.Length && payload <= end + 1
    requires buffer[end] == NUL == buffer[|text|]
    requires forall k :: 0 <= k < |text| && k != end ==> buffer[k] == text[k]
    ensures t == if payload == end + 1 then text[end + 1..] else text[payload..end]
    ensures IsCStr(buffer, payload, t)
  {
    var s := if payload == end + 1 then text[end + 1..] else text[payload..end];
    assert forall k :: 0 <= k < |s| ==> s[k] == text[payload + k] && s[k] in text;
    t := s;
  }

  lemma FirstNotAfter(text: string, end: nat)
    requires end < |text| && text[end] == '\n'
    ensures StrChr(text, '\n').Some? && StrChr(text, '\n').value <= end
    ensures '\n' in text[..end] <==> StrChr(text, '\n').value < end
  {
    var j := StrChr(text, '\n').value;
    forall k | 0 <= k < j
      ensures text[k] != '\n'
    {
      assert text[..j][k] == text[k];
    }
    assert j < end ==> text[..end][j] == '\n';
    if j == end {
      assert text[..end] == text[..j];
    }
  }
}
