/**
 The connection table of ducq_reactor.c as a value, and what every call does to
 it.  A callback run by the reactor's loop may itself call the reactor: it is
 given as the tree of calls it makes, so that a statement about all trees is a
 statement about all callbacks.
 */
module Table {
  import Route

  /** The first word of a slot's union: no client, a client object, or an accept function. */
  datatype Pointer = Null | Object(addr: nat) | Function(addr: nat)

  datatype Kind = Client | Server

  datatype Slot = Slot(fd: int, kind: Kind, pointer: Pointer, route: Route.CString, ctx: int)

  const MAX_CONNECTIONS: nat := 25
  const MAX_ROUTE_LEN: nat := 100

  const EMPTY := Slot(-1, Client, Null, "", 0)

  /**
   The table with three records the source does not keep: the client objects
   add_client took in, those closed and freed, and whether callers kept to the rules.
   */
  datatype World = World(slots: seq<Slot>, accepted: seq<Pointer>, closed: seq<Pointer>, lawful: bool)

  /** The table of a new reactor. */
  function Initial(): (s: World)
    ensures |s.slots| == MAX_CONNECTIONS
    ensures forall i :: 0 <= i < |s.slots| ==> s.slots[i] == EMPTY
  {
    World(seq(25, _ => EMPTY), [], [], true)
  }

  datatype Control = Control(delete: bool, break_: bool)

  const CONTINUE := Control(false, false)

  /** One callback invocation: the calls it makes, and what it answers. */
  datatype Callback = Callback(calls: seq<Op>, control: Control)

  datatype Op =
    | AddServer(fd: int, accept: nat, ctx: int)
    | AddClient(fd: int, ducq: Pointer)
    | Subscribe(ducq: Pointer, route: Route.CString)
    | Delete(ducq: Pointer)
    | Loop(script: seq<Callback>)

  predicate Live(slot: Slot) {
    slot.fd != -1
  }

  predicate LiveClient(slot: Slot) {
    Live(slot) && slot.kind.Client?
  }

  predicate Holds(slot: Slot, ducq: Pointer) {
    LiveClient(slot) && slot.pointer == ducq
  }

  /** The first index from i on whose slot satisfies p; |slots| if there is none. */
  function Find(slots: seq<Slot>, p: Slot -> bool, i: nat): (j: nat)
    requires i <= |slots|
    ensures i <= j <= |slots|
    ensures forall k :: i <= k < j ==> !p(slots[k])
    ensures j < |slots| ==> p(slots[j])
    decreases |slots| - i
  {
    if i == |slots| then i else if p(slots[i]) then i else Find(slots, p, i + 1)
  }

  function FirstFree(slots: seq<Slot>): nat {
    Find(slots, s => !Live(s), 0)
  }

  /** Where ducq_reactor_subscribe stops: it looks at the word alone, live or not. */
  function FirstWith(slots: seq<Slot>, ducq: Pointer): (i: nat)
    ensures i <= |slots|
    ensures forall k :: 0 <= k < i ==> slots[k].pointer != ducq
    ensures i < |slots| ==> slots[i].pointer == ducq
  {
    Find(slots, (s: Slot) => s.pointer == ducq, 0)
  }

  /** The slot of a live client. */
  function SlotOf(slots: seq<Slot>, ducq: Pointer): nat {
    Find(slots, s => Holds(s, ducq), 0)
  }

  // ------------------------------------------------------------- the calls

  /** connection_free: a slot already free is left alone. */
  function Free(s: World, i: nat): (t: World)
    requires i < |s.slots|
    ensures |t.slots| == |s.slots|
  {
    var slot := s.slots[i];
    if !Live(slot) then s else
    s.(slots := s.slots[i := slot.(fd := -1)],
       closed := if slot.kind.Client? && !slot.pointer.Null? then s.closed + [slot.pointer] else s.closed)
  }

  function AddServerTo(s: World, fd: int, accept: nat, ctx: int): (t: World)
    ensures |t.slots| == |s.slots|
  {
    var i := FirstFree(s.slots);
    var t := s.(lawful := s.lawful && fd != -1);
    if i == |s.slots| then t else t.(slots := s.slots[i := s.slots[i].(fd := fd, kind := Server, pointer := Function(accept), ctx := ctx)])
  }

  /** A caller adds an open descriptor, and a client object that is not in the table. */
  function AddClientTo(s: World, fd: int, ducq: Pointer): (t: World)
    ensures |t.slots| == |s.slots|
  {
    var i := FirstFree(s.slots);
    var t := s.(lawful := s.lawful && fd != -1 && !ducq.Function? && (ducq.Object? ==> SlotOf(s.slots, ducq) == |s.slots|));
    if i == |s.slots| then t else
    t.(slots := s.slots[i := s.slots[i].(fd := fd, kind := Client, pointer := ducq, route := "")],
       accepted := if ducq.Null? then s.accepted else s.accepted + [ducq])
  }

  function SubscribeTo(s: World, ducq: Pointer, route: Route.CString): (t: World)
    ensures |t.slots| == |s.slots|
  {
    var i := FirstWith(s.slots, ducq);
    var t := s.(lawful := s.lawful && |route| < MAX_ROUTE_LEN);
    if i == |s.slots| then t else t.(slots := s.slots[i := s.slots[i].(route := route)])
  }

  function DeleteFrom(s: World, ducq: Pointer): (t: World)
    ensures |t.slots| == |s.slots|
  {
    var i := SlotOf(s.slots, ducq);
    if ducq.Null? || i == |s.slots| then s else Free(s, i)
  }

  function Exec(s: World, op: Op): (t: World)
    ensures |t.slots| == |s.slots|
    decreases op, 0, 0
  {
    match op
    case AddServer(fd, accept, ctx) => AddServerTo(s, fd, accept, ctx)
    case AddClient(fd, ducq) => AddClientTo(s, fd, ducq)
    case Subscribe(ducq, route) => SubscribeTo(s, ducq, route)
    case Delete(ducq) => DeleteFrom(s, ducq)
    case Loop(script) => LoopFrom(s, 0, script, CONTINUE).0
  }

  function ExecAll(s: World, ops: seq<Op>): (t: World)
    ensures |t.slots| == |s.slots|
    decreases ops, 0, 0
  {
    if ops == [] then s else Exec(ExecAll(s, ops[..|ops| - 1]), ops[|ops| - 1])
  }

  /** The callback for slot i, and the deletion it may ask for. */
  function Visit(s: World, i: nat, callback: Callback): (t: World)
    requires i < |s.slots|
    ensures |t.slots| == |s.slots|
    decreases callback, 0, 0
  {
    var t := ExecAll(s, callback.calls);
    if callback.control.delete then Free(t, i) else t
  }

  /**
   connection_loop_template from slot i on, under ducq_reactor_loop: every live
   client met consumes one callback; one more than the script has does nothing.
   */
  function LoopFrom(s: World, i: nat, script: seq<Callback>, last: Control): (r: (World, Control))
    requires i <= |s.slots|
    ensures |r.0.slots| == |s.slots|
    decreases script, 1, |s.slots| - i
  {
    if i == |s.slots| then (s, last)
    else if !Live(s.slots[i]) then LoopFrom(s, i + 1, script, last)
    else if s.slots[i].kind.Server? || script == [] then LoopFrom(s, i + 1, script, CONTINUE)
    else
      var t := Visit(s, i, script[0]);
      if script[0].control.break_ then (t, script[0].control)
      else LoopFrom(t, i + 1, script[1..], script[0].control)
  }

  /** ducq_reactor_free: every slot is freed, from i on. */
  function FreeFrom(s: World, i: nat): (t: World)
    requires i <= |s.slots|
    ensures |t.slots| == |s.slots|
    decreases |s.slots| - i
  {
    if i == |s.slots| then s else FreeFrom(Free(s, i), i + 1)
  }
}
