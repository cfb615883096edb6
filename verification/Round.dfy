/** One ready-set round of the main loop: round_table under connection_loop_template. */
module Round {
  import opened Table
  import opened TableRuns

  /** What serving a slot does: calls made by the accept function or the dispatched command, or a failed receive. */
  datatype Service = Handled(calls: seq<Op>) | Failed

  function CallsOf(service: Service): seq<Op> {
    if service.Handled? then service.calls else []
  }

  /** A client whose receive failed is told and deleted; a server is never deleted. */
  function Serve(s: World, i: nat, service: Service): (t: World)
    requires i < |s.slots|
    ensures |t.slots| == |s.slots|
  {
    if s.slots[i].kind.Client? && service.Failed? then Free(s, i) else ExecAll(s, CallsOf(service))
  }

  predicate Ready(slot: Slot, ready: set<int>) {
    Live(slot) && slot.fd in ready
  }

  /**
   The round from slot i on, and the slots it serves.  With counting, it ends
   as the source does, when the number of ready descriptors has been counted
   down; without, it looks at every slot.
   */
  function RoundFrom(s: World, i: nat, ready: set<int>, nready: int, script: seq<Service>, counting: bool)
    : (r: (World, seq<nat>))
    requires i <= |s.slots|
    ensures |r.0.slots| == |s.slots|
    decreases |s.slots| - i
  {
    if i == |s.slots| then (s, [])
    else if !Ready(s.slots[i], ready) then RoundFrom(s, i + 1, ready, nready, script, counting)
    else
      var t := Serve(s, i, if script == [] then Handled([]) else script[0]);
      if counting && nready - 1 <= 0 then (t, [i])
      else
        var rest := RoundFrom(t, i + 1, ready, nready - 1, if script == [] then [] else script[1..], counting);
        (rest.0, [i] + rest.1)
  }

  // ---------------------------------------------------------- assumptions

  /** No two live slots share a ready descriptor. */
  ghost predicate Distinct(slots: seq<Slot>, ready: set<int>) {
    forall j, k :: 0 <= j < k < |slots| && Ready(slots[j], ready) && Ready(slots[k], ready) ==> slots[j].fd != slots[k].fd
  }

  predicate AddsElsewhere(ready: set<int>, op: Op) {
    match op
    case AddServer(fd, _, _) => fd !in ready
    case AddClient(fd, _) => fd !in ready
    case _ => true
  }

  /** Every call made in the round, at any depth, is good. */
  ghost predicate AllServices(script: seq<Service>, good: Op -> bool) {
    forall service :: service in script ==> forall op :: op in CallsOf(service) ==> AllCalls(op, good)
  }

  /** Whatever is added meanwhile, at any depth of callbacks, has a descriptor outside the ready set. */
  ghost predicate Undisturbing(script: seq<Service>, ready: set<int>) {
    AllServices(script, o => AddsElsewhere(ready, o))
  }

  /** The ready descriptors still in the table from slot i on. */
  ghost function Pending(slots: seq<Slot>, i: nat, ready: set<int>): set<int> {
    set fd | fd in ready && exists j :: i <= j < |slots| && Live(slots[j]) && slots[j].fd == fd
  }

  // --------------------------------------------------------------- proofs

  /** Ready slots can only go away. */
  ghost predicate Shrinks(ready: set<int>, s: World, t: World) {
    |s.slots| == |t.slots|
    && forall j :: 0 <= j < |t.slots| && Ready(t.slots[j], ready) ==> s.slots[j].fd == t.slots[j].fd
  }

  lemma ShrinksInductive(ready: set<int>)
    ensures Inductive((s, t) => Shrinks(ready, s, t), op => AddsElsewhere(ready, op))
  {
    forall s: World, op: Op | !op.Loop? && AddsElsewhere(ready, op)
      ensures Shrinks(ready, s, Exec(s, op))
    {
      match op
      case AddServer(fd, accept, ctx) =>
      case AddClient(fd, ducq) =>
      case Subscribe(ducq, route) =>
      case Delete(ducq) =>
    }
  }

  lemma ServeShrinks(s: World, i: nat, service: Service, ready: set<int>)
    requires i < |s.slots| && Undisturbing([service], ready)
    ensures Shrinks(ready, s, Serve(s, i, service))
  {
    var rel, good := (a: World, b: World) => Shrinks(ready, a, b), (o: Op) => AddsElsewhere(ready, o);
    assert Inductive(rel, good) by { ShrinksInductive(ready); }
    assert service in [service];
    RunWithin(s, CallsOf(service), rel, good);
  }

  /**
   The countdown never ends a round early: with as many counts as ready
   descriptors, the round is the one that looks at every slot, whatever the
   callbacks delete.
   */
  lemma {:induction false} CountdownSkipsNobody(s: World, i: nat, ready: set<int>, nready: int, script: seq<Service>)
    requires i <= |s.slots| && Distinct(s.slots, ready) && Undisturbing(script, ready)
    requires nready >= |Pending(s.slots, i, ready)|
    ensures RoundFrom(s, i, ready, nready, script, true) == RoundFrom(s, i, ready, nready, script, false)
    decreases |s.slots| - i
  {
    if i < |s.slots| {
      if !Ready(s.slots[i], ready) {
        assert Pending(s.slots, i + 1, ready) <= Pending(s.slots, i, ready);
        SubsetSize(Pending(s.slots, i + 1, ready), Pending(s.slots, i, ready));
        CountdownSkipsNobody(s, i + 1, ready, nready, script);
      } else {
        var service, rest := if script == [] then Handled([]) else script[0], if script == [] then [] else script[1..];
        var t := Serve(s, i, service);
        ServeShrinks(s, i, service, ready);
        PendingDrops(s, t, i, ready);
        if nready - 1 <= 0 {
          assert Pending(t.slots, i + 1, ready) == {};
          NothingPending(t, i + 1, ready, nready - 1, rest);
          assert [i] + [] == [i];
        } else {
          CountdownSkipsNobody(t, i + 1, ready, nready - 1, rest);
        }
      }
    }
  }

  lemma SubsetSize(a: set<int>, b: set<int>)
    requires a <= b
    ensures |a| <= |b|
  {
    assert b == a + (b - a);
  }

  /** A served slot takes its descriptor off what is pending. */
  lemma PendingDrops(s: World, t: World, i: nat, ready: set<int>)
    requires i < |s.slots| && Ready(s.slots[i], ready) && Distinct(s.slots, ready) && Shrinks(ready, s, t)
    ensures Distinct(t.slots, ready)
    ensures |Pending(t.slots, i + 1, ready)| < |Pending(s.slots, i, ready)|
  {
    var before, after := Pending(s.slots, i, ready), Pending(t.slots, i + 1, ready);
    forall j, k | 0 <= j < k < |t.slots| && Ready(t.slots[j], ready) && Ready(t.slots[k], ready)
      ensures t.slots[j].fd != t.slots[k].fd
    {
      assert Ready(s.slots[j], ready) && Ready(s.slots[k], ready);
    }
    forall fd | fd in after
      ensures fd in before && fd != s.slots[i].fd
    {
      var j :| i + 1 <= j < |t.slots| && Live(t.slots[j]) && t.slots[j].fd == fd;
      assert Ready(t.slots[j], ready) && Ready(s.slots[j], ready);
    }
    assert s.slots[i].fd in before;
    SubsetSize(after, before - {s.slots[i].fd});
  }

  lemma {:induction false} NothingPending(s: World, i: nat, ready: set<int>, nready: int, script: seq<Service>)
    requires i <= |s.slots| && Pending(s.slots, i, ready) == {}
    ensures RoundFrom(s, i, ready, nready, script, false) == (s, [])
    decreases |s.slots| - i
  {
    if i < |s.slots| {
      assert s.slots[i].fd !in Pending(s.slots, i, ready);
      assert Pending(s.slots, i + 1, ready) <= Pending(s.slots, i, ready);
      NothingPending(s, i + 1, ready, nready, script);
    }
  }

  ghost predicate Ascending(s: seq<nat>) {
    forall a, b :: 0 <= a < b < |s| ==> s[a] < s[b]
  }

  lemma NoneAscending()
    ensures Ascending([])
  {
  }

  lemma AscendingFrom(i: nat, s: seq<nat>)
    requires Ascending(s) && forall j :: j in s ==> i < j
    ensures Ascending([i] + s)
    ensures forall j :: j in [i] + s <==> j == i || j in s
  {
    assert forall b :: 0 < b < |[i] + s| ==> ([i] + s)[b] == s[b - 1] && s[b - 1] in s;
  }

  /** Each slot is served at most once, in slot order; and every ready one that is still there at the end has been served. */
  lemma {:induction false} EverySurvivorServed(s: World, i: nat, ready: set<int>, nready: int, script: seq<Service>)
    requires i <= |s.slots| && Distinct(s.slots, ready) && Undisturbing(script, ready)
    requires nready >= |Pending(s.slots, i, ready)|
    ensures var (t, served) := RoundFrom(s, i, ready, nready, script, true);
            Ascending(served)
            && (forall j :: j in served ==> i <= j < |s.slots| && Ready(s.slots[j], ready))
            && (forall j :: i <= j < |t.slots| && Ready(t.slots[j], ready) ==> j in served)
            && Shrinks(ready, s, t)
    decreases |s.slots| - i
  {
    CountdownSkipsNobody(s, i, ready, nready, script);
    EverySlotLookedAt(s, i, ready, nready, script);
  }

  /** The same of the round that does not count. */
  lemma {:induction false} EverySlotLookedAt(s: World, i: nat, ready: set<int>, nready: int, script: seq<Service>)
    requires i <= |s.slots| && Undisturbing(script, ready)
    ensures var (t, served) := RoundFrom(s, i, ready, nready, script, false);
            Ascending(served)
            && (forall j :: j in served ==> i <= j < |s.slots| && Ready(s.slots[j], ready))
            && (forall j :: i <= j < |t.slots| && Ready(t.slots[j], ready) ==> j in served)
            && Shrinks(ready, s, t)
    decreases |s.slots| - i
  {
    hide Ascending;
    if i == |s.slots| {
      NoneAscending();
    } else {
      if !Ready(s.slots[i], ready) {
        EverySlotLookedAt(s, i + 1, ready, nready, script);
      } else {
        var service, rest := if script == [] then Handled([]) else script[0], if script == [] then [] else script[1..];
        ServeShrinks(s, i, service, ready);
        var t := Serve(s, i, service);
        EverySlotLookedAt(t, i + 1, ready, nready - 1, rest);
        var later := RoundFrom(t, i + 1, ready, nready - 1, rest, false).1;
        assert forall j :: j in later ==> Ready(t.slots[j], ready) && Ready(s.slots[j], ready);
        AscendingFrom(i, later);
      }
    }
  }

  // ------------------------------------------------ what being served does

  function Tail(script: seq<Service>): seq<Service> {
    if script == [] then [] else script[1..]
  }

  /** The k-th service; a script that has run out handles everything without a call. */
  function Nth(script: seq<Service>, k: nat): Service {
    if k < |script| then script[k] else Handled([])
  }

  /** How many ready slots come before slot j, from slot i on. */
  function Turn(slots: seq<Slot>, i: nat, j: nat, ready: set<int>): nat
    requires i <= j <= |slots|
    decreases j - i
  {
    if i == j then 0 else Turn(slots, i + 1, j, ready) + if Ready(slots[i], ready) then 1 else 0
  }

  /** Slot j is a ready client, and the service whose turn it is is a failed receive. */
  predicate HangsUp(slots: seq<Slot>, i: nat, j: nat, ready: set<int>, script: seq<Service>)
    requires i <= j < |slots|
  {
    Ready(slots[j], ready) && slots[j].kind.Client? && Nth(script, Turn(slots, i, j, ready)).Failed?
  }

  lemma {:induction false} TurnLooksAhead(a: seq<Slot>, b: seq<Slot>, i: nat, j: nat, ready: set<int>)
    requires |a| == |b| && i <= j <= |a| && forall k :: i <= k < j ==> a[k] == b[k]
    ensures Turn(a, i, j, ready) == Turn(b, i, j, ready)
    decreases j - i
  {
    if i < j {
      TurnLooksAhead(a, b, i + 1, j, ready);
    }
  }

  /** The clients that hang up, in slot order from slot i on. */
  function Gone(slots: seq<Slot>, i: nat, ready: set<int>, script: seq<Service>): seq<Pointer>
    requires i <= |slots|
    decreases |slots| - i
  {
    if i == |slots| then []
    else (if Ready(slots[i], ready) && slots[i].kind.Client? && Nth(script, 0).Failed? && !slots[i].pointer.Null?
          then [slots[i].pointer] else [])
         + Gone(slots, i + 1, ready, if Ready(slots[i], ready) then Tail(script) else script)
  }

  lemma {:induction false} GoneLooksAhead(a: seq<Slot>, b: seq<Slot>, i: nat, ready: set<int>, script: seq<Service>)
    requires |a| == |b| && i <= |a| && forall k :: i <= k < |a| ==> a[k] == b[k]
    ensures Gone(a, i, ready, script) == Gone(b, i, ready, script)
    decreases |a| - i
  {
    hide Nth, Tail, Ready;
    if i < |a| {
      GoneLooksAhead(a, b, i + 1, ready, if Ready(a[i], ready) then Tail(script) else script);
    }
  }

  /** They are the clients in the slots that hang up. */
  lemma {:induction false} GoneAre(slots: seq<Slot>, i: nat, ready: set<int>, script: seq<Service>, ducq: Pointer)
    requires i <= |slots| && !ducq.Null?
    ensures ducq in Gone(slots, i, ready, script)
       <==> exists j :: i <= j < |slots| && HangsUp(slots, i, j, ready, script) && slots[j].pointer == ducq
    decreases |slots| - i
  {
    if i < |slots| {
      var rest := if Ready(slots[i], ready) then Tail(script) else script;
      GoneAre(slots, i + 1, ready, rest, ducq);
      assert Turn(slots, i, i, ready) == 0;
      assert forall j :: i < j < |slots| ==>
        (HangsUp(slots, i, j, ready, script) <==> HangsUp(slots, i + 1, j, ready, rest));
    }
  }

  /** Services that make no calls: commands that leave the table alone, and failed receives. */
  predicate Quiet(script: seq<Service>) {
    forall service :: service in script ==> CallsOf(service) == []
  }

  /** What a client that hangs up leaves in the table, and who was closed by it. */
  ghost predicate FreesHangUps(s: World, t: World, i: nat, ready: set<int>, script: seq<Service>) {
    && i <= |s.slots| == |t.slots|
    && (forall j :: 0 <= j < i ==> t.slots[j] == s.slots[j])
    && (forall j :: i <= j < |s.slots| ==>
          t.slots[j] == if HangsUp(s.slots, i, j, ready, script) then s.slots[j].(fd := -1) else s.slots[j])
  }

  /**
   When services make no calls, exactly the ready slots are served: a client whose
   receive failed is freed, and everything else stays as it is.
   */
  lemma {:induction false} QuietFrom(s: World, i: nat, ready: set<int>, nready: int, script: seq<Service>)
    requires i <= |s.slots| && Quiet(script)
    ensures var (t, served) := RoundFrom(s, i, ready, nready, script, false);
            FreesHangUps(s, t, i, ready, script)
            && (forall j :: j in served <==> i <= j < |s.slots| && Ready(s.slots[j], ready))
            && t.closed == s.closed + Gone(s.slots, i, ready, script) && t.accepted == s.accepted && t.lawful == s.lawful
    decreases |s.slots| - i
  {
    hide FreesHangUps, Gone, Quiet;
    if i == |s.slots| {
      NoneFreed(s, i, ready, script);
    } else if !Ready(s.slots[i], ready) {
      var t := RoundFrom(s, i + 1, ready, nready, script, false).0;
      QuietFrom(s, i + 1, ready, nready, script);
      FreedFromNext(s, s, t, i, ready, script);
      GoneNext(s, s, i, ready, script);
    } else {
      var u := Serve(s, i, Nth(script, 0));
      QuietServe(s, i, script);
      QuietFrom(u, i + 1, ready, nready - 1, Tail(script));
      var (t, later) := RoundFrom(u, i + 1, ready, nready - 1, Tail(script), false);
      FreedFromNext(s, u, t, i, ready, script);
      GoneNext(s, u, i, ready, script);
      assert forall j :: j in [i] + later <==> j == i || j in later;
    }
  }

  lemma NoneFreed(s: World, i: nat, ready: set<int>, script: seq<Service>)
    requires i == |s.slots|
    ensures FreesHangUps(s, s, i, ready, script) && s.closed == s.closed + Gone(s.slots, i, ready, script)
  {
  }

  lemma GoneNext(s: World, u: World, i: nat, ready: set<int>, script: seq<Service>)
    requires i < |s.slots|
    requires u == if Ready(s.slots[i], ready) && s.slots[i].kind.Client? && Nth(script, 0).Failed? then Free(s, i) else s
    ensures s.closed + Gone(s.slots, i, ready, script)
         == u.closed + Gone(u.slots, i + 1, ready, if Ready(s.slots[i], ready) then Tail(script) else script)
  {
    hide Nth, Tail, Gone;
    var rest := if Ready(s.slots[i], ready) then Tail(script) else script;
    GoneLooksAhead(s.slots, u.slots, i + 1, ready, rest);
    var later := Gone(s.slots, i + 1, ready, rest);
    GoneStep(s.slots, i, ready, script);
    assert s.closed + ([s.slots[i].pointer] + later) == s.closed + [s.slots[i].pointer] + later;
  }

  lemma GoneStep(slots: seq<Slot>, i: nat, ready: set<int>, script: seq<Service>)
    requires i < |slots|
    ensures var later := Gone(slots, i + 1, ready, if Ready(slots[i], ready) then Tail(script) else script);
            var hangsUp := Ready(slots[i], ready) && slots[i].kind.Client? && Nth(script, 0).Failed?;
            Gone(slots, i, ready, script) == if hangsUp && !slots[i].pointer.Null? then [slots[i].pointer] + later else later
  {
    hide Nth, Tail, Ready;
    var later := Gone(slots, i + 1, ready, if Ready(slots[i], ready) then Tail(script) else script);
    assert [] + later == later;
  }

  /** Serving slot i without a call. */
  lemma QuietServe(s: World, i: nat, script: seq<Service>)
    requires i < |s.slots| && Quiet(script)
    ensures Serve(s, i, Nth(script, 0)) == if s.slots[i].kind.Client? && Nth(script, 0).Failed? then Free(s, i) else s
    ensures Quiet(Tail(script))
  {
    assert Nth(script, 0) in script || Nth(script, 0) == Handled([]);
    assert CallsOf(Nth(script, 0)) == [];
  }

  lemma FreedFromNext(s: World, u: World, t: World, i: nat, ready: set<int>, script: seq<Service>)
    requires i < |s.slots|
    requires u == if Ready(s.slots[i], ready) && s.slots[i].kind.Client? && Nth(script, 0).Failed? then Free(s, i) else s
    requires FreesHangUps(u, t, i + 1, ready, if Ready(s.slots[i], ready) then Tail(script) else script)
    ensures FreesHangUps(s, t, i, ready, script)
  {
    var rest := if Ready(s.slots[i], ready) then Tail(script) else script;
    forall j | i < j < |s.slots|
      ensures HangsUp(s.slots, i, j, ready, script) <==> HangsUp(u.slots, i + 1, j, ready, rest)
    {
      TurnLooksAhead(s.slots, u.slots, i + 1, j, ready);
    }
  }

  /** The same of a round of the main loop, which counts. */
  lemma QuietRound(s: World, ready: set<int>, script: seq<Service>)
    requires Distinct(s.slots, ready) && Quiet(script)
    ensures var t := StepFrom(s, Rounds(ready, script));
            FreesHangUps(s, t, 0, ready, script)
            && t.closed == s.closed + Gone(s.slots, 0, ready, script) && t.accepted == s.accepted && t.lawful == s.lawful
    ensures var served := RoundFrom(s, 0, ready, |ready|, script, true).1;
            Ascending(served) && forall j :: j in served <==> 0 <= j < |s.slots| && Ready(s.slots[j], ready)
  {
    hide Distinct, Ascending, FreesHangUps, Quiet;
    QuietUndisturbing(script, ready);
    PendingIsReady(s.slots, ready);
    CountdownSkipsNobody(s, 0, ready, |ready|, script);
    EverySlotLookedAt(s, 0, ready, |ready|, script);
    QuietFrom(s, 0, ready, |ready|, script);
  }

  lemma QuietUndisturbing(script: seq<Service>, ready: set<int>)
    requires Quiet(script)
    ensures Undisturbing(script, ready)
  {
  }

  lemma PendingIsReady(slots: seq<Slot>, ready: set<int>)
    ensures |Pending(slots, 0, ready)| <= |ready|
  {
    SubsetSize(Pending(slots, 0, ready), ready);
  }

  /** Every ready client hangs up: all of them are freed, and nothing else changes. */
  lemma AllHangUp(s: World, ready: set<int>, script: seq<Service>)
    requires Distinct(s.slots, ready) && |script| >= |s.slots| && forall service :: service in script ==> service.Failed?
    ensures forall j :: 0 <= j < |s.slots| ==>
      StepFrom(s, Rounds(ready, script)).slots[j]
      == if Ready(s.slots[j], ready) && s.slots[j].kind.Client? then s.slots[j].(fd := -1) else s.slots[j]
  {
    hide Distinct;
    QuietRound(s, ready, script);
    forall j | 0 <= j < |s.slots|
      ensures HangsUp(s.slots, 0, j, ready, script) <==> Ready(s.slots[j], ready) && s.slots[j].kind.Client?
    {
      TurnBound(s.slots, 0, j, ready);
      assert Nth(script, Turn(s.slots, 0, j, ready)) in script;
    }
  }

  lemma {:induction false} TurnBound(slots: seq<Slot>, i: nat, j: nat, ready: set<int>)
    requires i <= j <= |slots|
    ensures Turn(slots, i, j, ready) <= j - i
    decreases j - i
  {
    if i < j {
      TurnBound(slots, i + 1, j, ready);
    }
  }

  /** With one descriptor ready, a round is what its slot's service is: all its calls, or the end of its client. */
  lemma OneReady(s: World, i: nat, service: Service)
    requires i < |s.slots| && Live(s.slots[i]) && forall j :: 0 <= j < |s.slots| && j != i ==> s.slots[j].fd != s.slots[i].fd
    ensures StepFrom(s, Rounds({s.slots[i].fd}, [service]))
         == match service
            case Handled(calls) => ExecAll(s, calls)
            case Failed => if s.slots[i].kind.Client? then Free(s, i) else s
  {
    OneReadyFrom(s, 0, i, service);
  }

  lemma {:induction false} OneReadyFrom(s: World, k: nat, i: nat, service: Service)
    requires k <= i < |s.slots| && Live(s.slots[i]) && forall j :: 0 <= j < |s.slots| && j != i ==> s.slots[j].fd != s.slots[i].fd
    ensures RoundFrom(s, k, {s.slots[i].fd}, 1, [service], true) == (Serve(s, i, service), [i])
    decreases i - k
  {
    if k < i {
      OneReadyFrom(s, k + 1, i, service);
    }
  }

  /** Slots that are still ready are the clients and servers they were, and nobody is closed less often. */
  ghost predicate Stays(ready: set<int>, ducq: Pointer, s: World, t: World) {
    && |s.slots| == |t.slots| && multiset(s.closed)[ducq] <= multiset(t.closed)[ducq]
    && forall j :: 0 <= j < |t.slots| && Ready(t.slots[j], ready) ==>
         t.slots[j].fd == s.slots[j].fd && t.slots[j].kind == s.slots[j].kind && t.slots[j].pointer == s.slots[j].pointer
  }

  lemma StaysInductive(ready: set<int>, ducq: Pointer)
    ensures Inductive((s, t) => Stays(ready, ducq, s, t), op => AddsElsewhere(ready, op))
  {
    forall s: World, op: Op | !op.Loop? && AddsElsewhere(ready, op)
      ensures Stays(ready, ducq, s, Exec(s, op))
    {
      match op
      case AddServer(fd, accept, ctx) =>
      case AddClient(fd, other) =>
      case Subscribe(other, route) =>
      case Delete(other) => FreeStays(ready, ducq, s, SlotOf(s.slots, other));
    }
    forall s: World, i: nat | i < |s.slots|
      ensures Stays(ready, ducq, s, Free(s, i))
    {
      FreeStays(ready, ducq, s, i);
    }
  }

  lemma FreeStays(ready: set<int>, ducq: Pointer, s: World, i: nat)
    ensures i < |s.slots| ==> Stays(ready, ducq, s, Free(s, i))
  {
  }

  lemma ServeStays(s: World, i: nat, service: Service, ready: set<int>, ducq: Pointer)
    requires i < |s.slots| && Undisturbing([service], ready)
    ensures Stays(ready, ducq, s, Serve(s, i, service))
  {
    var rel, good := (a: World, b: World) => Stays(ready, ducq, a, b), (o: Op) => AddsElsewhere(ready, o);
    assert Inductive(rel, good) by { StaysInductive(ready, ducq); }
    assert service in [service];
    RunWithin(s, CallsOf(service), rel, good);
  }

  /** Whatever other callbacks do in the round, a client whose receive fails is closed in it. */
  lemma {:induction false} HangUpCloses(s: World, i: nat, ready: set<int>, nready: int, script: seq<Service>, k: nat)
    requires i <= |s.slots| && Undisturbing(script, ready)
    requires var served := RoundFrom(s, i, ready, nready, script, false).1;
             k < |served| && served[k] < |s.slots| && Nth(script, k).Failed?
             && s.slots[served[k]].kind.Client? && !s.slots[served[k]].pointer.Null?
    ensures var (t, served) := RoundFrom(s, i, ready, nready, script, false);
            multiset(t.closed)[s.slots[served[k]].pointer] > multiset(s.closed)[s.slots[served[k]].pointer]
    decreases |s.slots| - i
  {
    var (t, served) := RoundFrom(s, i, ready, nready, script, false);
    var ducq := s.slots[served[k]].pointer;
    if !Ready(s.slots[i], ready) {
      HangUpCloses(s, i + 1, ready, nready, script, k);
    } else {
      var service, rest := if script == [] then Handled([]) else script[0], if script == [] then [] else script[1..];
      var u := Serve(s, i, service);
      ServeStays(s, i, service, ready, ducq);
      EverySlotLookedAt(u, i + 1, ready, nready - 1, rest);
      if k == 0 {
        ClosedNoLess(u, i + 1, ready, nready - 1, rest, ducq);
      } else {
        var later := RoundFrom(u, i + 1, ready, nready - 1, rest, false).1;
        assert later[k - 1] == served[k] && later[k - 1] in later;
        HangUpCloses(u, i + 1, ready, nready - 1, rest, k - 1);
      }
    }
  }

  /** The same of a round of the main loop. */
  lemma HangUpIsClosed(s: World, ready: set<int>, script: seq<Service>, k: nat)
    requires Distinct(s.slots, ready) && Undisturbing(script, ready)
    requires var served := RoundFrom(s, 0, ready, |ready|, script, true).1;
             k < |served| && served[k] < |s.slots| && Nth(script, k).Failed?
             && s.slots[served[k]].kind.Client? && !s.slots[served[k]].pointer.Null?
    ensures var ducq := s.slots[RoundFrom(s, 0, ready, |ready|, script, true).1[k]].pointer;
            multiset(StepFrom(s, Rounds(ready, script)).closed)[ducq] > multiset(s.closed)[ducq]
  {
    hide Distinct;
    PendingIsReady(s.slots, ready);
    CountdownSkipsNobody(s, 0, ready, |ready|, script);
    HangUpCloses(s, 0, ready, |ready|, script, k);
  }

  lemma {:induction false} ClosedNoLess(s: World, i: nat, ready: set<int>, nready: int, script: seq<Service>, ducq: Pointer)
    requires i <= |s.slots| && Undisturbing(script, ready)
    ensures multiset(s.closed)[ducq] <= multiset(RoundFrom(s, i, ready, nready, script, false).0.closed)[ducq]
    decreases |s.slots| - i
  {
    if i < |s.slots| {
      if !Ready(s.slots[i], ready) {
        ClosedNoLess(s, i + 1, ready, nready, script, ducq);
      } else {
        var service, rest := if script == [] then Handled([]) else script[0], if script == [] then [] else script[1..];
        ServeStays(s, i, service, ready, ducq);
        ClosedNoLess(Serve(s, i, service), i + 1, ready, nready - 1, rest, ducq);
      }
    }
  }

  // ------------------------------------------------------ a reactor's life

  /** What holds across calls holds across rounds. */
  lemma {:induction false} RoundWithin(s: World, i: nat, ready: set<int>, nready: int, script: seq<Service>,
                                       rel: (World, World) -> bool, good: Op -> bool)
    requires i <= |s.slots| && Inductive(rel, good) && AllServices(script, good)
    ensures rel(s, RoundFrom(s, i, ready, nready, script, true).0)
    decreases |s.slots| - i
  {
    if i < |s.slots| {
      if !Ready(s.slots[i], ready) {
        RoundWithin(s, i + 1, ready, nready, script, rel, good);
      } else {
        var service, rest := if script == [] then Handled([]) else script[0], if script == [] then [] else script[1..];
        RunWithin(s, CallsOf(service), rel, good);
        if nready - 1 > 0 {
          RoundWithin(Serve(s, i, service), i + 1, ready, nready - 1, rest, rel, good);
        }
      }
    }
  }

  /** Calls from outside, and rounds of the main loop. */
  datatype Step = Outside(op: Op) | Rounds(ready: set<int>, script: seq<Service>)

  function StepFrom(s: World, step: Step): (t: World)
    ensures |t.slots| == |s.slots|
  {
    match step
    case Outside(op) => Exec(s, op)
    case Rounds(ready, script) => RoundFrom(s, 0, ready, |ready|, script, true).0
  }

  function LifeFrom(s: World, steps: seq<Step>): (t: World)
    ensures |t.slots| == |s.slots|
  {
    if steps == [] then s else StepFrom(LifeFrom(s, steps[..|steps| - 1]), steps[|steps| - 1])
  }

  /** Everything that can happen to a new reactor. */
  function Life(steps: seq<Step>): World {
    LifeFrom(Initial(), steps)
  }

  ghost predicate StepIs(step: Step, good: Op -> bool) {
    match step
    case Outside(op) => AllCalls(op, good)
    case Rounds(_, script) => AllServices(script, good)
  }

  ghost predicate AllSteps(steps: seq<Step>, good: Op -> bool) {
    forall step :: step in steps ==> StepIs(step, good)
  }

  lemma {:induction false} LifeWithin(s: World, steps: seq<Step>, rel: (World, World) -> bool, good: Op -> bool)
    requires Inductive(rel, good) && AllSteps(steps, good)
    ensures rel(s, LifeFrom(s, steps))
  {
    if steps != [] {
      var n := |steps| - 1;
      LifeWithin(s, steps[..n], rel, good);
      var t, step := LifeFrom(s, steps[..n]), steps[n];
      assert StepIs(step, good);
      match step
      case Outside(op) => ExecWithin(t, op, rel, good);
      case Rounds(ready, script) => RoundWithin(t, 0, ready, |ready|, script, rel, good);
    }
  }

  /** Every table a reactor can have satisfies the invariant. */
  lemma LifeKeepsInv(steps: seq<Step>)
    requires Life(steps).lawful
    ensures Inv(Life(steps))
  {
    hide Inv;
    InitialInv();
    LifeFromKeepsInv(Initial(), steps);
  }

  lemma LifeFromKeepsInv(s: World, steps: seq<Step>)
    requires Inv(s) && LifeFrom(s, steps).lawful
    ensures Inv(LifeFrom(s, steps))
  {
    hide Inv;
    KeepsInvInductive();
    forall op: Op
      ensures AllCalls(op, AnyCall)
    {
      AnyTree(op);
    }
    LifeWithin(s, steps, KeepsInv, AnyCall);
  }

  /**
   However clients leave - by delete, by what a callback answers, by a failed
   receive, by the final sweep - each one taken in is closed and freed exactly as
   often as it was taken in; and before the sweep, all but the one in the table.
   */
  lemma ClosedExactlyOnce(steps: seq<Step>, ducq: Pointer)
    requires Life(steps).lawful && ducq.Object?
    ensures Balanced(Life(steps), ducq)
    ensures var end := FreeFrom(Life(steps), 0);
            multiset(end.closed)[ducq] == multiset(end.accepted)[ducq] && !InTable(end.slots, ducq)
  {
    LifeKeepsInv(steps);
    SweepClosesRest(Life(steps), ducq);
  }

  /** A subscription lasts through any life, until its client is closed or subscribed again. */
  lemma SubscriptionLasts(s: World, steps: seq<Step>, i: nat, ducq: Pointer)
    requires i < |s.slots| && Holds(s.slots[i], ducq) && ducq.Object?
    requires AllSteps(steps, o => NotResubscribed(ducq, o))
    ensures multiset(s.closed)[ducq] <= multiset(LifeFrom(s, steps).closed)[ducq]
    ensures multiset(s.closed)[ducq] == multiset(LifeFrom(s, steps).closed)[ducq] ==> LifeFrom(s, steps).slots[i] == s.slots[i]
  {
    var good := o => NotResubscribed(ducq, o);
    var rel := (a: World, b: World) => Undisturbed(i, ducq, a, b);
    assert Inductive(rel, good) by { UndisturbedInductive(i, ducq); }
    LifeWithin(s, steps, rel, good);
  }
}
