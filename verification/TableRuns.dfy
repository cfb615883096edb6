/** What holds of every table that calls and callbacks can reach. */
module TableRuns {
  import opened Table
  import Route

  // --------------------------------------------------------- the invariant

  /**
   A live slot comes before every other slot with the same word in it: freed
   slots keep their old client, and a new client may reuse its address.
   */
  ghost predicate AheadOfStale(slots: seq<Slot>) {
    forall i, j :: 0 <= i < |slots| && 0 <= j < |slots| && StaleCopy(slots, i, j) ==> i < j
  }

  /** Slot i is live, and slot j another one with the same client object in it. */
  ghost predicate StaleCopy(slots: seq<Slot>, i: nat, j: nat)
    requires i < |slots| && j < |slots|
  {
    i != j && LiveClient(slots[i]) && slots[i].pointer.Object? && slots[j].pointer == slots[i].pointer
  }

  ghost predicate KindsMatch(slots: seq<Slot>) {
    forall i :: 0 <= i < |slots| ==> (slots[i].kind.Server? <==> slots[i].pointer.Function?)
  }

  predicate InTable(slots: seq<Slot>, ducq: Pointer) {
    exists i :: 0 <= i < |slots| && Holds(slots[i], ducq)
  }

  /** A client taken in n times has been closed n times, or n - 1 times and is in the table. */
  ghost predicate Balanced(s: World, ducq: Pointer) {
    multiset(s.accepted)[ducq] == multiset(s.closed)[ducq] + if InTable(s.slots, ducq) then 1 else 0
  }

  ghost predicate Conserved(s: World) {
    forall ducq: Pointer :: ducq.Object? ==> Balanced(s, ducq)
  }

  ghost predicate Inv(s: World) {
    AheadOfStale(s.slots) && KindsMatch(s.slots) && Conserved(s)
  }

  // -------------------------------------------------- each call keeps it

  lemma FreeKeeps(s: World, i: nat)
    requires i < |s.slots| && Inv(s)
    ensures Inv(Free(s, i))
  {
    hide AheadOfStale, KindsMatch;
    var t := Free(s, i);
    FreeOrder(s, i);
    if Live(s.slots[i]) {
      forall ducq: Pointer | ducq.Object?
        ensures Balanced(t, ducq)
      {
        assert Balanced(s, ducq);
        FreeMembership(s, i, ducq);
      }
    }
  }

  lemma FreeOrder(s: World, i: nat)
    requires i < |s.slots| && AheadOfStale(s.slots) && KindsMatch(s.slots)
    ensures AheadOfStale(Free(s, i).slots) && KindsMatch(Free(s, i).slots)
  {
    var t := Free(s, i);
    forall j, k | 0 <= j < |t.slots| && 0 <= k < |t.slots| && StaleCopy(t.slots, j, k)
      ensures j < k
    {
      assert StaleCopy(s.slots, j, k);
    }
  }

  lemma OnlyOne(slots: seq<Slot>, i: nat, j: nat, ducq: Pointer)
    requires i < |slots| && j < |slots| && AheadOfStale(slots) && ducq.Object?
    ensures Holds(slots[i], ducq) && Holds(slots[j], ducq) ==> i == j
  {
    var here, there := StaleCopy(slots, i, j), StaleCopy(slots, j, i);
  }

  /** Freeing a live slot takes its own client out of the table, and no other. */
  lemma FreeMembership(s: World, i: nat, ducq: Pointer)
    requires i < |s.slots| && AheadOfStale(s.slots) && Live(s.slots[i]) && ducq.Object?
    ensures InTable(Free(s, i).slots, ducq) <==> InTable(s.slots, ducq) && !Holds(s.slots[i], ducq)
  {
    var t := Free(s, i);
    if InTable(s.slots, ducq) {
      var k :| 0 <= k < |s.slots| && Holds(s.slots[k], ducq);
      if k != i {
        assert Holds(t.slots[k], ducq);
      }
      OnlyOne(s.slots, i, k, ducq);
    }
    if InTable(t.slots, ducq) {
      var j :| 0 <= j < |t.slots| && Holds(t.slots[j], ducq);
      assert j != i && Holds(s.slots[j], ducq);
      OnlyOne(s.slots, i, j, ducq);
    }
  }

  /** First fit: whatever copy of a new client's address is left lies behind its slot. */
  lemma AddClientKeeps(s: World, fd: int, ducq: Pointer)
    requires Inv(s) && AddClientTo(s, fd, ducq).lawful
    ensures Inv(AddClientTo(s, fd, ducq))
  {
    var i, t := FirstFree(s.slots), AddClientTo(s, fd, ducq);
    if i < |s.slots| {
      forall j, k | 0 <= j < |t.slots| && 0 <= k < |t.slots| && StaleCopy(t.slots, j, k)
        ensures j < k
      {
        if j != i {
          assert k != i ==> StaleCopy(s.slots, j, k);
          assert ducq.Object? ==> !Holds(s.slots[j], ducq);
        } else {
          assert !Holds(s.slots[k], ducq);
        }
      }
      forall p: Pointer | p.Object?
        ensures Balanced(t, p)
      {
        assert Balanced(s, p);
        AddMembership(s, i, fd, ducq, p);
      }
    }
  }

  lemma AddMembership(s: World, i: nat, fd: int, ducq: Pointer, p: Pointer)
    requires i == FirstFree(s.slots) < |s.slots| && fd != -1
    ensures InTable(AddClientTo(s, fd, ducq).slots, p) <==> InTable(s.slots, p) || p == ducq
  {
    var t := AddClientTo(s, fd, ducq);
    if InTable(s.slots, p) {
      var k :| 0 <= k < |s.slots| && Holds(s.slots[k], p);
      assert Holds(t.slots[k], p);
    }
    assert Holds(t.slots[i], ducq);
  }

  lemma AddServerKeeps(s: World, fd: int, accept: nat, ctx: int)
    requires Inv(s)
    ensures Inv(AddServerTo(s, fd, accept, ctx))
  {
    var i, t := FirstFree(s.slots), AddServerTo(s, fd, accept, ctx);
    if i < |s.slots| {
      forall j, k | 0 <= j < |t.slots| && 0 <= k < |t.slots| && StaleCopy(t.slots, j, k)
        ensures j < k
      {
        assert StaleCopy(s.slots, j, k);
      }
      forall p: Pointer | p.Object?
        ensures Balanced(t, p)
      {
        assert Balanced(s, p);
        SameMembership(s.slots, t.slots, p);
      }
    }
  }

  lemma SameMembership(a: seq<Slot>, b: seq<Slot>, ducq: Pointer)
    requires |a| == |b| && forall i :: 0 <= i < |a| ==> (Holds(a[i], ducq) <==> Holds(b[i], ducq))
    ensures InTable(a, ducq) <==> InTable(b, ducq)
  {
    if InTable(a, ducq) {
      var i :| 0 <= i < |a| && Holds(a[i], ducq);
      assert Holds(b[i], ducq);
    }
  }

  lemma SubscribeKeeps(s: World, ducq: Pointer, route: Route.CString)
    requires Inv(s)
    ensures Inv(SubscribeTo(s, ducq, route))
  {
    hide FirstWith;
    var t := SubscribeTo(s, ducq, route);
    assert forall j :: 0 <= j < |t.slots| ==> t.slots[j] == s.slots[j].(route := t.slots[j].route);
    forall j, k | 0 <= j < |t.slots| && 0 <= k < |t.slots| && StaleCopy(t.slots, j, k)
      ensures j < k
    {
      assert StaleCopy(s.slots, j, k);
    }
    forall p: Pointer | p.Object?
      ensures Balanced(t, p)
    {
      assert Balanced(s, p);
      SameMembership(s.slots, t.slots, p);
    }
  }

  // -------------------------------------------- from single calls to runs

  /** Every call in the tree, at any depth, is good. */
  predicate AllCalls(op: Op, good: Op -> bool) {
    if op.Loop? then forall c :: c in op.script ==> forall o :: o in c.calls ==> AllCalls(o, good)
    else good(op)
  }

  /** A relation that chains, and that frees and good calls stay within. */
  ghost predicate Inductive(rel: (World, World) -> bool, good: Op -> bool) {
    && (forall s :: rel(s, s))
    && (forall s, t, u :: rel(s, t) && rel(t, u) ==> rel(s, u))
    && (forall s: World, i: nat :: i < |s.slots| ==> rel(s, Free(s, i)))
    && (forall s: World, op: Op :: !op.Loop? && good(op) ==> rel(s, Exec(s, op)))
  }

  /** Then whole runs stay within it too, whatever callbacks do inside loops inside callbacks. */
  lemma {:induction false} ExecWithin(s: World, op: Op, rel: (World, World) -> bool, good: Op -> bool)
    requires Inductive(rel, good) && AllCalls(op, good)
    ensures rel(s, Exec(s, op))
    decreases op, 0, 0
  {
    if op.Loop? {
      LoopWithin(s, 0, op.script, CONTINUE, rel, good);
    }
  }

  lemma {:induction false} RunWithin(s: World, ops: seq<Op>, rel: (World, World) -> bool, good: Op -> bool)
    requires Inductive(rel, good) && forall op :: op in ops ==> AllCalls(op, good)
    ensures rel(s, ExecAll(s, ops))
    decreases ops, 0, 0
  {
    if ops != [] {
      var n := |ops| - 1;
      RunWithin(s, ops[..n], rel, good);
      ExecWithin(ExecAll(s, ops[..n]), ops[n], rel, good);
    }
  }

  lemma {:induction false} VisitWithin(s: World, i: nat, callback: Callback, rel: (World, World) -> bool, good: Op -> bool)
    requires i < |s.slots| && Inductive(rel, good) && forall op :: op in callback.calls ==> AllCalls(op, good)
    ensures rel(s, Visit(s, i, callback))
    decreases callback, 0, 0
  {
    RunWithin(s, callback.calls, rel, good);
  }

  lemma {:induction false} LoopWithin(s: World, i: nat, script: seq<Callback>, last: Control,
                                      rel: (World, World) -> bool, good: Op -> bool)
    requires i <= |s.slots| && Inductive(rel, good)
    requires forall c :: c in script ==> forall op :: op in c.calls ==> AllCalls(op, good)
    ensures rel(s, LoopFrom(s, i, script, last).0)
    decreases script, 1, |s.slots| - i
  {
    if i < |s.slots| {
      if !Live(s.slots[i]) {
        LoopWithin(s, i + 1, script, last, rel, good);
      } else if s.slots[i].kind.Server? || script == [] {
        LoopWithin(s, i + 1, script, CONTINUE, rel, good);
      } else {
        VisitWithin(s, i, script[0], rel, good);
        if !script[0].control.break_ {
          LoopWithin(Visit(s, i, script[0]), i + 1, script[1..], script[0].control, rel, good);
        }
      }
    }
  }

  // ---------------------------------------------------------- all runs

  predicate AnyCall(op: Op) { true }

  lemma AnyTree(op: Op)
    ensures AllCalls(op, AnyCall)
  {
  }

  ghost predicate KeepsInv(s: World, t: World) {
    (t.lawful ==> s.lawful) && (Inv(s) && t.lawful ==> Inv(t))
  }

  lemma KeepsInvInductive()
    ensures Inductive(KeepsInv, AnyCall)
  {
    hide Inv;
    forall s: World, i: nat | i < |s.slots|
      ensures KeepsInv(s, Free(s, i))
    {
      if Inv(s) { FreeKeeps(s, i); }
    }
    forall s: World, op: Op | !op.Loop?
      ensures KeepsInv(s, Exec(s, op))
    {
      if Inv(s) && Exec(s, op).lawful {
        match op
        case AddServer(fd, accept, ctx) => AddServerKeeps(s, fd, accept, ctx);
        case AddClient(fd, ducq) => AddClientKeeps(s, fd, ducq);
        case Subscribe(ducq, route) => SubscribeKeeps(s, ducq, route);
        case Delete(ducq) =>
          if !ducq.Null? && SlotOf(s.slots, ducq) < |s.slots| { FreeKeeps(s, SlotOf(s.slots, ducq)); }
      }
    }
  }

  lemma InitialInv()
    ensures Inv(Initial())
  {
    forall p: Pointer | p.Object?
      ensures Balanced(Initial(), p)
    {
      assert !InTable(Initial().slots, p);
    }
  }

  /** Where an added client goes: the first free slot, with no route; or nowhere. */
  lemma ClientPlaced(s: World, fd: int, ducq: Pointer)
    ensures var i, t := FirstFree(s.slots), AddClientTo(s, fd, ducq);
            i <= |s.slots| && (forall k :: 0 <= k < i ==> Live(s.slots[k])) && t.closed == s.closed
            && if i == |s.slots| then t.slots == s.slots && t.accepted == s.accepted
               else !Live(s.slots[i]) && t.slots == s.slots[i := Slot(fd, Client, ducq, "", s.slots[i].ctx)]
                    && t.accepted == s.accepted + if ducq.Null? then [] else [ducq]
  {
  }

  lemma ServerPlaced(s: World, fd: int, accept: nat, ctx: int)
    ensures var i, t := FirstFree(s.slots), AddServerTo(s, fd, accept, ctx);
            i <= |s.slots| && (forall k :: 0 <= k < i ==> Live(s.slots[k])) && t.closed == s.closed && t.accepted == s.accepted
            && if i == |s.slots| then t.slots == s.slots
               else !Live(s.slots[i]) && t.slots == s.slots[i := Slot(fd, Server, Function(accept), s.slots[i].route, ctx)]
  {
  }

  /** One callback for each live client from slot i on, answering DELETE and BREAK for ducq only. */
  function DeleteScript(slots: seq<Slot>, i: nat, ducq: Pointer): seq<Callback>
    requires i <= |slots|
    decreases |slots| - i
  {
    if i == |slots| then [] else
    (if LiveClient(slots[i]) then [Callback([], Control(slots[i].pointer == ducq, slots[i].pointer == ducq))] else [])
    + DeleteScript(slots, i + 1, ducq)
  }

  /** Deleting is one of the reactor's loops: it frees the client's slot and stops there. */
  lemma {:induction false} DeleteLoopFrom(s: World, i: nat, j: nat, ducq: Pointer)
    requires i <= j <= |s.slots| && (forall k :: i <= k < j ==> !Holds(s.slots[k], ducq))
    requires j < |s.slots| ==> Holds(s.slots[j], ducq)
    ensures var (t, control) := LoopFrom(s, i, DeleteScript(s.slots, i, ducq), CONTINUE);
            t == (if j < |s.slots| then Free(s, j) else s) && (control.delete <==> j < |s.slots|)
    decreases |s.slots| - i
  {
    if i < |s.slots| {
      var script, rest := DeleteScript(s.slots, i, ducq), DeleteScript(s.slots, i + 1, ducq);
      if i < j {
        DeleteLoopFrom(s, i + 1, j, ducq);
      }
      assert [] + rest == rest;
      if LiveClient(s.slots[i]) {
        assert script[1..] == rest;
        assert ExecAll(s, []) == s;
      }
    }
  }

  lemma DeleteIsLoop(s: World, ducq: Pointer)
    requires !ducq.Null?
    ensures var (t, control) := LoopFrom(s, 0, DeleteScript(s.slots, 0, ducq), CONTINUE);
            t == DeleteFrom(s, ducq) && (control.delete <==> SlotOf(s.slots, ducq) < |s.slots|)
  {
    DeleteLoopFrom(s, 0, SlotOf(s.slots, ducq), ducq);
  }

  // -------------------------------------------------------- subscriptions

  /**
   Subscribing a client that is in the table changes the route of its own live
   slot and nothing else, although the search never looks at what is live.
   */
  lemma SubscribeFindsItsSlot(s: World, ducq: Pointer, route: Route.CString)
    requires Inv(s) && ducq.Object? && InTable(s.slots, ducq)
    ensures var i := SlotOf(s.slots, ducq);
            i < |s.slots| && Holds(s.slots[i], ducq) && FirstWith(s.slots, ducq) == i
            && SubscribeTo(s, ducq, route).slots == s.slots[i := s.slots[i].(route := route)]
  {
    var slots := s.slots;
    var k :| 0 <= k < |slots| && Holds(slots[k], ducq);
    var i, j := SlotOf(slots, ducq), FirstWith(slots, ducq);
    assert i <= k && j <= k && Holds(slots[i], ducq);
    var stale := StaleCopy(slots, i, j);
  }

  /** The address stands in no freed slot. */
  predicate NoStaleCopy(slots: seq<Slot>, ducq: Pointer) {
    forall j :: 0 <= j < |slots| ==> Live(slots[j]) || slots[j].pointer != ducq
  }

  /**
   When the answer of subscribe is truthful: for every client in the table, and for
   one that is not exactly when no freed slot has kept its address.
   */
  lemma SubscribeTruthful(s: World, ducq: Pointer)
    requires Inv(s) && ducq.Object?
    ensures (FirstWith(s.slots, ducq) < |s.slots| <==> InTable(s.slots, ducq))
       <==> InTable(s.slots, ducq) || NoStaleCopy(s.slots, ducq)
    ensures FirstWith(s.slots, ducq) < |s.slots| <==> InTable(s.slots, ducq) || !NoStaleCopy(s.slots, ducq)
  {
    hide AheadOfStale, Conserved;
    var slots, i := s.slots, FirstWith(s.slots, ducq);
    assert i < |slots| && !InTable(slots, ducq) ==> !Holds(slots[i], ducq);
  }

  /** A wrong answer harms nobody: whatever is live stays as it is, and so does everything but one freed slot's route. */
  lemma WrongAnswerHarmless(s: World, ducq: Pointer, route: Route.CString)
    requires Inv(s) && ducq.Object? && !InTable(s.slots, ducq)
    ensures var t := SubscribeTo(s, ducq, route);
            t.accepted == s.accepted && t.closed == s.closed && !InTable(t.slots, ducq)
            && forall j :: 0 <= j < |s.slots| ==>
                 t.slots[j] == s.slots[j]
                 || (!Live(s.slots[j]) && s.slots[j].pointer == ducq && t.slots[j] == s.slots[j].(route := route))
  {
    hide AheadOfStale, Conserved;
    var i := FirstWith(s.slots, ducq);
    assert i < |s.slots| ==> !Holds(s.slots[i], ducq);
    var t := SubscribeTo(s, ducq, route);
    SameMembership(s.slots, t.slots, ducq);
  }

  /** Right after a delete the answer is always wrong, whoever the client was: only reuse of the slot mends it. */
  lemma DeletedClientIsFound(s: World, ducq: Pointer)
    requires Inv(s) && ducq.Object? && InTable(s.slots, ducq)
    ensures var t := DeleteFrom(s, ducq);
            Inv(t) && !InTable(t.slots, ducq) && FirstWith(t.slots, ducq) == SlotOf(s.slots, ducq) < |t.slots|
  {
    SubscribeFindsItsSlot(s, ducq, "");
    var i, t := SlotOf(s.slots, ducq), DeleteFrom(s, ducq);
    FreeKeeps(s, i);
    FreeMembership(s, i, ducq);
    assert forall k :: 0 <= k < |s.slots| ==> t.slots[k].pointer == s.slots[k].pointer;
  }

  /** A client no longer in the table can still "subscribe": its stale slot is found and success reported. */
  lemma DeletedClientSubscribes(fd: int, a: nat, route: Route.CString)
    requires fd != -1
    ensures var ops := [AddClient(fd, Object(a)), Delete(Object(a))]; var s := ExecAll(Initial(), ops);
            s.lawful && !InTable(s.slots, Object(a)) && FirstWith(s.slots, Object(a)) == 0
            && SubscribeTo(s, Object(a), route).slots[0].route == route
  {
    var add, remove := AddClient(fd, Object(a)), Delete(Object(a));
    RunTwo(Initial(), add, remove);
    assert FirstFree(Initial().slots) == 0;
    var s := Exec(Initial(), add);
    assert Holds(s.slots[0], Object(a)) && SlotOf(s.slots, Object(a)) == 0;
    var t := Exec(s, remove);
    assert t == Free(s, 0) && t.slots[0].pointer == Object(a);
    assert forall k :: 0 < k < |t.slots| ==> t.slots[k] == EMPTY;
  }

  lemma RunTwo(s: World, first: Op, second: Op)
    ensures ExecAll(s, [first, second]) == Exec(Exec(s, first), second)
  {
    assert [first, second][..1] == [first] && [first][..0] == [];
    assert ExecAll(s, [first]) == Exec(ExecAll(s, []), first);
  }

  /** A subscription: not lost while its client is neither closed nor subscribed again. */
  ghost predicate Undisturbed(i: nat, ducq: Pointer, s: World, t: World) {
    && multiset(s.closed)[ducq] <= multiset(t.closed)[ducq]
    && (i < |s.slots| && Holds(s.slots[i], ducq) && multiset(s.closed)[ducq] == multiset(t.closed)[ducq]
        ==> i < |t.slots| && t.slots[i] == s.slots[i])
  }

  predicate NotResubscribed(ducq: Pointer, op: Op) {
    op.Subscribe? ==> op.ducq != ducq
  }

  lemma UndisturbedInductive(i: nat, ducq: Pointer)
    requires ducq.Object?
    ensures Inductive((s, t) => Undisturbed(i, ducq, s, t), op => NotResubscribed(ducq, op))
  {
    forall s: World, op: Op | !op.Loop? && NotResubscribed(ducq, op)
      ensures Undisturbed(i, ducq, s, Exec(s, op))
    {
      match op
      case AddServer(fd, accept, ctx) =>
      case AddClient(fd, other) =>
      case Subscribe(other, route) =>
      case Delete(other) => FreeUndisturbed(i, ducq, s, SlotOf(s.slots, other));
    }
    forall s: World, j: nat | j < |s.slots|
      ensures Undisturbed(i, ducq, s, Free(s, j))
    {
      FreeUndisturbed(i, ducq, s, j);
    }
  }

  lemma FreeUndisturbed(i: nat, ducq: Pointer, s: World, j: nat)
    requires ducq.Object?
    ensures j < |s.slots| ==> Undisturbed(i, ducq, s, Free(s, j))
  {
  }

  // ---------------------------------------------------- closed exactly once

  lemma {:induction false} FreeFromClosesRest(s: World, i: nat)
    requires i <= |s.slots| && Inv(s) && forall k :: 0 <= k < i ==> !Live(s.slots[k])
    ensures Inv(FreeFrom(s, i)) && forall k :: 0 <= k < |s.slots| ==> !Live(FreeFrom(s, i).slots[k])
    decreases |s.slots| - i
  {
    hide Inv;
    if i < |s.slots| {
      FreeKeeps(s, i);
      FreeFromClosesRest(Free(s, i), i + 1);
    }
  }

  /** The final sweep leaves every client closed as often as it was taken in. */
  lemma SweepClosesRest(s: World, ducq: Pointer)
    requires Inv(s) && ducq.Object?
    ensures var end := FreeFrom(s, 0);
            multiset(end.closed)[ducq] == multiset(end.accepted)[ducq] && !InTable(end.slots, ducq)
  {
    FreeFromClosesRest(s, 0);
    assert Balanced(FreeFrom(s, 0), ducq);
  }

  /**
   The deletion a callback asks for hits its own client exactly when the client
   is still in slot i after the calls the callback made; it closes nothing when
   the slot was emptied, and somebody else when it was refilled.
   */
  lemma VisitCloses(s: World, i: nat, callback: Callback, ducq: Pointer)
    requires i < |s.slots| && Inv(s) && Holds(s.slots[i], ducq) && ducq.Object?
    requires callback.control.delete && Visit(s, i, callback).lawful
    ensures var t, u := ExecAll(s, callback.calls), Visit(s, i, callback);
            u.closed == (if LiveClient(t.slots[i]) && !t.slots[i].pointer.Null? then t.closed + [t.slots[i].pointer] else t.closed)
            && Inv(u) && (InTable(u.slots, ducq) <==> InTable(t.slots, ducq) && !Holds(t.slots[i], ducq))
            && !Live(u.slots[i])
  {
    hide Inv;
    KeepsInvInductive();
    var t := ExecAll(s, callback.calls);
    forall op | op in callback.calls
      ensures AllCalls(op, AnyCall)
    {
      AnyTree(op);
    }
    RunWithin(s, callback.calls, KeepsInv, AnyCall);
    FreeKeeps(t, i);
    if Live(t.slots[i]) {
      assert AheadOfStale(t.slots) by { InvMeansOrder(t); }
      FreeMembership(t, i, ducq);
    }
  }

  lemma InvMeansOrder(s: World)
    requires Inv(s)
    ensures AheadOfStale(s.slots)
  {
  }

  /** The refilled case exists: a callback that replaces its client and then answers DELETE closes the newcomer. */
  lemma RefilledSlotLosesNewcomer(s: World, fd: int, a: nat, b: nat)
    requires |s.slots| > 0 && Inv(s) && s.lawful && Holds(s.slots[0], Object(a)) && fd != -1
    requires a != b && !InTable(s.slots, Object(b))
    ensures var callback := Callback([Delete(Object(a)), AddClient(fd, Object(b))], Control(true, false));
            Visit(s, 0, callback).lawful && Visit(s, 0, callback).closed == s.closed + [Object(a), Object(b)]
  {
    hide Inv;
    var remove, add := Delete(Object(a)), AddClient(fd, Object(b));
    RunTwo(s, remove, add);
    assert SlotOf(s.slots, Object(a)) == 0;
    var t := Exec(s, remove);
    assert t == Free(s, 0) && FirstFree(t.slots) == 0;
    assert forall k :: 0 <= k < |s.slots| ==> !Holds(s.slots[k], Object(b));
    assert SlotOf(t.slots, Object(b)) == |t.slots|;
  }
}
