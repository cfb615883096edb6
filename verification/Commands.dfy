/** The pub and sub commands on the table and the cache, as values. */
module Commands {
  import opened Basics
  import opened States
  import opened Route
  import opened MessageText
  import opened Table
  import opened TableRuns
  import opened Round
  import Decimal
  import opened LastMessages

  // ------------------------------------------------------------------ pub

  /** Whether a publication on route goes to this slot. */
  predicate Wants(slot: Slot, route: string) {
    LiveClient(slot) && RouteCmp(slot.route, route)
  }

  /**
   The publishing loop from slot i on: the table, the number of successful sends,
   and whom the message was sent to.  works[j] says whether a send to slot j succeeds.
   */
  function PublishFrom(s: World, i: nat, route: string, works: seq<bool>): (r: (World, nat, seq<Pointer>))
    requires i <= |s.slots| == |works|
    ensures |r.0.slots| == |s.slots|
    decreases |s.slots| - i
  {
    if i == |s.slots| then (s, 0, [])
    else if !Wants(s.slots[i], route) then PublishFrom(s, i + 1, route, works)
    else
      var rest := PublishFrom(if works[i] then s else Free(s, i), i + 1, route, works);
      (rest.0, rest.1 + if works[i] then 1 else 0, [s.slots[i].pointer] + rest.2)
  }

  /** That is: it is live, a client's, and the route is covered by the pattern it subscribed to. */
  lemma WantsMeans(slot: Slot, route: CString)
    ensures Wants(slot, route) <==> slot.fd != -1 && slot.kind.Client? && exists parts :: Covers(slot.route, route, parts)
  {
    MatchesExactly(slot.route, route);
  }

  /** The clients a publication is for, in slot order. */
  function Audience(slots: seq<Slot>, route: string): seq<Pointer> {
    if slots == [] then [] else
    (if Wants(slots[0], route) then [slots[0].pointer] else []) + Audience(slots[1..], route)
  }

  function CountWorking(slots: seq<Slot>, route: string, works: seq<bool>): nat
    requires |works| == |slots|
  {
    if slots == [] then 0 else
    (if Wants(slots[0], route) && works[0] then 1 else 0) + CountWorking(slots[1..], route, works[1..])
  }

  /** The clients that could not be sent to. */
  function Unreached(slots: seq<Slot>, route: string, works: seq<bool>): seq<Pointer>
    requires |works| == |slots|
  {
    if slots == [] then [] else
    (if Wants(slots[0], route) && !works[0] && !slots[0].pointer.Null? then [slots[0].pointer] else [])
    + Unreached(slots[1..], route, works[1..])
  }

  /** A slot after a publication: freed if the message was for it and could not be sent. */
  function SlotAfter(slot: Slot, route: string, works: bool): Slot {
    if Wants(slot, route) && !works then slot.(fd := -1) else slot
  }

  /**
   A publication is sent once, in slot order, to exactly the live clients whose
   route matches; it removes exactly those of them that could not be sent to.
   */
  lemma {:induction false} PublishReaches(s: World, i: nat, route: string, works: seq<bool>)
    requires i <= |s.slots| == |works|
    ensures var (t, count, sent) := PublishFrom(s, i, route, works);
            sent == Audience(s.slots[i..], route)
            && count == CountWorking(s.slots[i..], route, works[i..])
            && (forall j :: 0 <= j < i ==> t.slots[j] == s.slots[j])
            && (forall j :: i <= j < |s.slots| ==> t.slots[j] == SlotAfter(s.slots[j], route, works[j]))
            && t.accepted == s.accepted && t.lawful == s.lawful
    decreases |s.slots| - i
  {
    if i < |s.slots| {
      var u := if Wants(s.slots[i], route) && !works[i] then Free(s, i) else s;
      PublishReaches(u, i + 1, route, works);
      assert s.slots[i..][1..] == s.slots[i + 1..] == u.slots[i + 1..] && works[i..][1..] == works[i + 1..];
    }
  }

  lemma UnreachedNext(s: World, u: World, i: nat, route: string, works: seq<bool>)
    requires i < |s.slots| == |works| && u == if Wants(s.slots[i], route) && !works[i] then Free(s, i) else s
    ensures s.closed + Unreached(s.slots[i..], route, works[i..])
         == u.closed + Unreached(u.slots[i + 1..], route, works[i + 1..])
  {
    assert s.slots[i..][1..] == s.slots[i + 1..] == u.slots[i + 1..] && works[i..][1..] == works[i + 1..];
    var later := Unreached(s.slots[i + 1..], route, works[i + 1..]);
    assert s.closed + ([s.slots[i].pointer] + later) == s.closed + [s.slots[i].pointer] + later;
    assert [] + later == later;
  }

  lemma {:induction false} PublishCloses(s: World, i: nat, route: string, works: seq<bool>)
    requires i <= |s.slots| == |works|
    ensures PublishFrom(s, i, route, works).0.closed == s.closed + Unreached(s.slots[i..], route, works[i..])
    decreases |s.slots| - i
  {
    if i < |s.slots| {
      var u := if Wants(s.slots[i], route) && !works[i] then Free(s, i) else s;
      PublishCloses(u, i + 1, route, works);
      UnreachedNext(s, u, i, route, works);
    }
  }

  ghost function SentSlots(slots: seq<Slot>, route: string, works: seq<bool>): set<nat>
    requires |works| == |slots|
  {
    set j | 0 <= j < |slots| && Wants(slots[j], route) && works[j]
  }

  ghost function MeantSlots(slots: seq<Slot>, route: string): set<nat> {
    set j | 0 <= j < |slots| && Wants(slots[j], route)
  }

  /** The count is that of the slots sent to with success; all others sent to are removed. */
  lemma {:induction false} CountIsSends(slots: seq<Slot>, route: string, works: seq<bool>)
    requires |works| == |slots|
    ensures CountWorking(slots, route, works) == |SentSlots(slots, route, works)|
    ensures |Audience(slots, route)| == |MeantSlots(slots, route)|
  {
    if slots != [] {
      hide SentSlots, MeantSlots;
      var n := |slots| - 1;
      CountIsSends(slots[..n], route, works[..n]);
      CountLast(slots, route, works);
      SlotsLast(slots, route, works);
    }
  }

  lemma SlotsLast(slots: seq<Slot>, route: string, works: seq<bool>)
    requires |works| == |slots| > 0
    ensures var n := |slots| - 1; var sent := SentSlots(slots[..n], route, works[..n]);
            |SentSlots(slots, route, works)| == |sent| + (if Wants(slots[n], route) && works[n] then 1 else 0)
    ensures var n := |slots| - 1; var meant := MeantSlots(slots[..n], route);
            |MeantSlots(slots, route)| == |meant| + (if Wants(slots[n], route) then 1 else 0)
  {
    hide Wants;
    var n := |slots| - 1;
    assert SentSlots(slots, route, works)
        == SentSlots(slots[..n], route, works[..n]) + if Wants(slots[n], route) && works[n] then {n} else {};
    assert MeantSlots(slots, route) == MeantSlots(slots[..n], route) + if Wants(slots[n], route) then {n} else {};
  }

  lemma {:induction false} CountLast(slots: seq<Slot>, route: string, works: seq<bool>)
    requires |works| == |slots| > 0
    ensures var n, last := |slots| - 1, Wants(slots[|slots| - 1], route);
            var before := CountWorking(slots[..n], route, works[..n]);
            CountWorking(slots, route, works) == before + if last && works[n] then 1 else 0
    ensures var n, last := |slots| - 1, Wants(slots[|slots| - 1], route);
            |Audience(slots, route)| == |Audience(slots[..n], route)| + if last then 1 else 0
  {
    var n := |slots| - 1;
    if n > 0 {
      CountLast(slots[1..], route, works[1..]);
      assert slots[1..][..n - 1] == slots[..n][1..] && works[1..][..n - 1] == works[..n][1..];
    }
  }

  /** Everyone counted got the message, and everyone it was for was counted or removed. */
  lemma {:induction false} AudienceSplits(slots: seq<Slot>, route: string, works: seq<bool>)
    requires |works| == |slots|
    ensures CountWorking(slots, route, works) <= |Audience(slots, route)|
    ensures forall j :: 0 <= j < |slots| && Wants(slots[j], route) ==> slots[j].pointer in Audience(slots, route)
  {
    if slots != [] {
      AudienceSplits(slots[1..], route, works[1..]);
      assert forall j :: 1 <= j < |slots| ==> slots[j] == slots[1..][j - 1];
    }
  }

  /** Nobody is sent a publication twice, and in a reachable table exactly those are sent it whose slot wants it. */
  lemma SentOnce(s: World, route: string, ducq: Pointer)
    requires Inv(s) && ducq.Object?
    ensures multiset(Audience(s.slots, route))[ducq]
         == if exists i :: 0 <= i < |s.slots| && Holds(s.slots[i], ducq) && Wants(s.slots[i], route) then 1 else 0
  {
    hide Inv;
    InvMeansOrder(s);
    forall i, j | 0 <= i < |s.slots| && 0 <= j < |s.slots| && Holds(s.slots[i], ducq) && Holds(s.slots[j], ducq)
      ensures i == j
    {
      OnlyOne(s.slots, i, j, ducq);
    }
    OneWants(s.slots, route, ducq);
  }

  lemma {:induction false} OneWants(slots: seq<Slot>, route: string, ducq: Pointer)
    requires forall i, j :: 0 <= i < |slots| && 0 <= j < |slots| && Holds(slots[i], ducq) && Holds(slots[j], ducq) ==> i == j
    ensures multiset(Audience(slots, route))[ducq]
         == if exists i :: 0 <= i < |slots| && Holds(slots[i], ducq) && Wants(slots[i], route) then 1 else 0
  {
    if slots != [] {
      var rest := slots[1..];
      OneWants(rest, route, ducq);
      assert forall i :: 1 <= i < |slots| ==> slots[i] == rest[i - 1];
      if exists i :: 0 <= i < |rest| && Holds(rest[i], ducq) && Wants(rest[i], route) {
        var i :| 0 <= i < |rest| && Holds(rest[i], ducq) && Wants(rest[i], route);
        assert Holds(slots[i + 1], ducq) && Wants(slots[i + 1], route);
      }
    }
  }

  /** The callbacks _publish amounts to, one for each live client from slot i on. */
  function PublishScript(slots: seq<Slot>, i: nat, route: string, works: seq<bool>): seq<Callback>
    requires i <= |slots| == |works|
    decreases |slots| - i
  {
    if i == |slots| then [] else
    (if LiveClient(slots[i])
     then [Callback([], Control(RouteCmp(slots[i].route, route) && !works[i], false))] else [])
    + PublishScript(slots, i + 1, route, works)
  }

  /** Publishing is one of the reactor's loops, so what holds of all runs holds of it. */
  lemma {:induction false} PublishIsLoop(s: World, i: nat, route: string, works: seq<bool>, last: Control)
    requires i <= |s.slots| == |works|
    ensures PublishFrom(s, i, route, works).0 == LoopFrom(s, i, PublishScript(s.slots, i, route, works), last).0
    decreases |s.slots| - i
  {
    if i < |s.slots| {
      var script, rest := PublishScript(s.slots, i, route, works), PublishScript(s.slots, i + 1, route, works);
      assert [] + rest == rest;
      if !Live(s.slots[i]) {
        PublishIsLoop(s, i + 1, route, works, last);
      } else if s.slots[i].kind.Server? {
        PublishIsLoop(s, i + 1, route, works, CONTINUE);
      } else {
        assert script[1..] == rest;
        var t := Visit(s, i, script[0]);
        assert ExecAll(s, []) == s;
        assert t == if Wants(s.slots[i], route) && !works[i] then Free(s, i) else s;
        ScriptLooksAhead(s.slots, t.slots, i + 1, route, works);
        PublishIsLoop(t, i + 1, route, works, script[0].control);
      }
    }
  }

  lemma {:induction false} ScriptLooksAhead(a: seq<Slot>, b: seq<Slot>, i: nat, route: string, works: seq<bool>)
    requires i <= |a| == |b| == |works| && forall j :: i <= j < |a| ==> a[j] == b[j]
    ensures PublishScript(a, i, route, works) == PublishScript(b, i, route, works)
    decreases |a| - i
  {
    if i < |a| {
      ScriptLooksAhead(a, b, i + 1, route, works);
    }
  }

  /** What a pub command does: the table, the cache, the state returned, the count, and whom the message went to. */
  datatype PubResult = PubResult(table: World, cache: seq<Entry>, state: State, count: nat, sent: seq<Pointer>)

  /** ack is how sending the acknowledgement goes. */
  function Pub(s: World, cache: seq<Entry>, ducq: Pointer, buffer: string, ack: State, works: seq<bool>): PubResult
    requires |works| == |s.slots|
  {
    match ParseRoute(buffer)
    case None => PubResult(DeleteFrom(s, ducq), cache, EMSGINV, 0, [])
    case Some(route) =>
      var stored := Set(cache, route, buffer).0;
      if ack != OK then PubResult(DeleteFrom(s, ducq), stored, ack, 0, [])
      else
        var (t, count, sent) := PublishFrom(s, 0, route, works);
        PubResult(t, stored, OK, count, sent)
  }

  /** An acknowledged publication, taken whole: whom it reaches, whom it removes, what stays. */
  lemma PubAcknowledged(s: World, cache: seq<Entry>, ducq: Pointer, buffer: string, route: string, works: seq<bool>)
    requires |works| == |s.slots| && ParseRoute(buffer) == Some(route)
    ensures var r := Pub(s, cache, ducq, buffer, OK, works);
            r.state == OK && r.sent == Audience(s.slots, route) && r.count == CountWorking(s.slots, route, works)
            && (forall j :: 0 <= j < |s.slots| ==> r.table.slots[j] == SlotAfter(s.slots[j], route, works[j]))
            && r.table.closed == s.closed + Unreached(s.slots, route, works)
            && r.cache == Set(cache, route, buffer).0
  {
    PublishReaches(s, 0, route, works);
    PublishCloses(s, 0, route, works);
    assert s.slots[0..] == s.slots && works[0..] == works;
  }

  /** A client in the table is sent a publication exactly if the pattern it subscribed to covers the route. */
  lemma PubCovers(s: World, cache: seq<Entry>, ducq: Pointer, i: nat, publisher: Pointer,
                  buffer: string, route: CString, works: seq<bool>)
    requires Inv(s) && ducq.Object? && i < |s.slots| == |works| && Holds(s.slots[i], ducq) && ParseRoute(buffer) == Some(route)
    ensures ducq in Pub(s, cache, publisher, buffer, OK, works).sent <==> exists parts :: Covers(s.slots[i].route, route, parts)
  {
    hide Inv, Pub, Covers, Audience;
    PubAcknowledged(s, cache, publisher, buffer, route, works);
    SentOnce(s, route, ducq);
    WantsMeans(s.slots[i], route);
    InvMeansOrder(s);
    forall j | 0 <= j < |s.slots| && Holds(s.slots[j], ducq)
      ensures j == i
    {
      OnlyOne(s.slots, i, j, ducq);
    }
  }

  /** A publication without a route, or one that cannot be acknowledged, goes to nobody; its sender is deleted. */
  lemma PubRefused(s: World, cache: seq<Entry>, ducq: Pointer, buffer: string, ack: State, works: seq<bool>)
    requires |works| == |s.slots| && (ParseRoute(buffer) == None || ack != OK)
    requires Inv(s) && ducq.Object? && InTable(s.slots, ducq)
    ensures var r, i := Pub(s, cache, ducq, buffer, ack, works), SlotOf(s.slots, ducq);
            r.sent == [] && r.count == 0 && r.state == (if ParseRoute(buffer) == None then EMSGINV else ack)
            && i < |s.slots| && Holds(s.slots[i], ducq) && r.table.slots == s.slots[i := s.slots[i].(fd := -1)]
            && r.table.closed == s.closed + [ducq] && !InTable(r.table.slots, ducq)
            && (ParseRoute(buffer) == None ==> r.cache == cache)
  {
    hide Inv;
    SubscribeFindsItsSlot(s, ducq, "");
    FreedClient(s, SlotOf(s.slots, ducq), ducq);
  }

  // ------------------------------------------------------------------ sub

  lemma RouteIsText(buffer: CString)
    ensures ParseRoute(buffer).Some? ==> IsText(ParseRoute(buffer).value)
  {
  }

  datatype SubResult = SubResult(table: World, state: State, reply: string)

  /** Subscribing to a route; works is how sending the reply goes. */
  function SubTo(s: World, cache: seq<Entry>, ducq: Pointer, route: CString, last: bool, works: State): SubResult {
    var found := FirstWith(s.slots, ducq) < |s.slots|;
    var t := SubscribeTo(s, ducq, route);
    var reply := if !found then AckText(ENOTFOUND) else if last then Get(cache, route) else AckText(OK);
    SubResult(if works != OK then DeleteFrom(t, ducq) else t, if !found then ENOTFOUND else works, reply)
  }

  function Sub(s: World, cache: seq<Entry>, ducq: Pointer, buffer: CString, works: State): SubResult {
    RouteIsText(buffer);
    match ParseRoute(buffer)
    case None => SubResult(s, EMSGINV, AckText(EMSGINV))
    case Some(route) => SubTo(s, cache, ducq, route, ParsePayload(buffer) == Some("last"), works)
  }

  lemma SubCases(s: World, cache: seq<Entry>, ducq: Pointer, buffer: CString, works: State)
    ensures ParseRoute(buffer).None? ==> Sub(s, cache, ducq, buffer, works) == SubResult(s, EMSGINV, AckText(EMSGINV))
    ensures forall route: CString :: ParseRoute(buffer) == Some(route) ==>
      Sub(s, cache, ducq, buffer, works) == SubTo(s, cache, ducq, route, ParsePayload(buffer) == Some("last"), works)
  {
  }

  /** The cut that sub makes at the end of the route does not change whether the payload reads "last". */
  lemma CutKeepsLast(buffer: string, at: nat, end: nat)
    requires at < end < |buffer| && buffer[at] == ' ' && buffer[end] == '\n' && '\n' !in buffer[at..end]
    ensures ParsePayload(buffer) == Some("last")
       <==> '\n' !in buffer[..end] && buffer[end + 1..] == "last"
    ensures '\n' in buffer[..end] ==> buffer[StrChr(buffer, '\n').value + 1..end] != "last"
  {
    if '\n' !in buffer[..end] {
      FirstAt(buffer, '\n', end);
    } else {
      var j := StrChr(buffer, '\n').value;
      assert '\n' !in buffer[..j];
      assert j < end;
      assert buffer[..end] == buffer[..at] + buffer[at..end];
      assert '\n' in buffer[..at] && j < at;
      assert buffer[j + 1..end][at - j - 1] == ' ' && ' ' !in "last";
      assert buffer[j + 1..][end - j - 1] == '\n' && '\n' !in "last";
    }
  }

  // ----------------------------------------------------------- end to end

  /** A client that asks for the last message gets the latest one stored on its route, in full. */
  lemma SubLastReplies(s: World, stores: seq<Store>, ducq: Pointer, buffer: CString, route: string, works: State)
    requires ParseRoute(buffer) == Some(route) && ParsePayload(buffer) == Some("last")
    requires FirstWith(s.slots, ducq) < |s.slots|
    ensures var reply := Sub(s, After(stores), ducq, buffer, works).reply;
            reply == if Latest(stores, route).Some? then Latest(stores, route).value
                     else if |AsMap(After(stores))| < MAX_CHANNELS then "ACK" else "ACK\n_"
  {
    GetIsLatest(stores, route);
  }

  /** Every publication is one more store. */
  lemma PubStores(s: World, stores: seq<Store>, ducq: Pointer, buffer: string, route: string, ack: State, works: seq<bool>)
    requires |works| == |s.slots| && ParseRoute(buffer) == Some(route)
    ensures Pub(s, After(stores), ducq, buffer, ack, works).cache == After(stores + [Store(route, buffer)])
  {
    assert (stores + [Store(route, buffer)])[..|stores|] == stores;
  }

  /**
   A client in the table that sends sub gets its own slot's route changed, and
   nothing else; if it cannot be answered it is closed and its slot freed.
   */
  lemma SubOutcome(s: World, cache: seq<Entry>, ducq: Pointer, buffer: CString, route: CString, works: State)
    requires Inv(s) && ducq.Object? && InTable(s.slots, ducq) && ParseRoute(buffer) == Some(route)
    ensures var r, i := Sub(s, cache, ducq, buffer, works), SlotOf(s.slots, ducq);
            i < |s.slots| && Inv(r.table) && r.state == works
            && r.table.slots == s.slots[i := s.slots[i].(route := route, fd := if works == OK then s.slots[i].fd else -1)]
            && r.table.closed == s.closed + (if works == OK then [] else [ducq])
            && (InTable(r.table.slots, ducq) <==> works == OK)
  {
    hide Inv, Get, AckText, Free;
    SubscribeFindsItsSlot(s, ducq, route);
    SubscribeKeeps(s, ducq, route);
    var i, t := SlotOf(s.slots, ducq), SubscribeTo(s, ducq, route);
    assert Holds(t.slots[i], ducq);
    assert SlotOf(t.slots, ducq) == i by {
      SubscribeFindsItsSlot(t, ducq, route);
      assert AheadOfStale(t.slots) by { InvMeansOrder(t); }
      OnlyOne(t.slots, i, SlotOf(t.slots, ducq), ducq);
    }
    if works != OK {
      FreeKeeps(t, i);
      FreedClient(t, i, ducq);
    }
  }

  /** What a sub is answered, in words: an acknowledgement, unless the last message is asked for. */
  lemma SubAnswers(s: World, cache: seq<Entry>, ducq: Pointer, buffer: CString, works: State)
    ensures var r := Sub(s, cache, ducq, buffer, works);
            if ParseRoute(buffer) == None then r.reply == "NACK *\n" + "15" + "\n" + "message invalid" && r.state == EMSGINV && r.table == s
            else if forall j :: 0 <= j < |s.slots| ==> s.slots[j].pointer != ducq then
              r.reply == "NACK *\n" + "19" + "\n" + "connection not found" && r.state == ENOTFOUND
            else r.state == works && (ParsePayload(buffer) != Some("last") ==> r.reply == "ACK")
  {
    hide ParseRoute, ParsePayload, Get, DeleteFrom;
    AckSamples();
  }

  lemma AckSamples()
    ensures AckText(OK) == "ACK" && AckText(EMSGINV) == "NACK *\n" + "15" + "\n" + "message invalid"
    ensures AckText(ENOTFOUND) == "NACK *\n" + "19" + "\n" + "connection not found"
  {
    hide Decimal.Print;
    TwoDigits(15, 1, 5);
    TwoDigits(19, 1, 9);
  }

  lemma TwoDigits(n: nat, a: nat, b: nat)
    requires n == 10 * a + b && 0 < a < 10 && b < 10
    ensures Decimal.Print(n) == [Decimal.DigitChar(a), Decimal.DigitChar(b)]
  {
    assert n / 10 == a && n % 10 == b;
    assert Decimal.Print(a) == [Decimal.DigitChar(a)];
  }

  lemma FreedClient(t: World, i: nat, ducq: Pointer)
    requires i < |t.slots| && Inv(t) && ducq.Object? && Holds(t.slots[i], ducq)
    ensures Free(t, i).slots == t.slots[i := t.slots[i].(fd := -1)] && Free(t, i).closed == t.closed + [ducq]
    ensures !InTable(Free(t, i).slots, ducq)
  {
    FreeMembership(t, i, ducq);
  }

  /**
   A client that was told its sub went well is sent a later acknowledged
   publication exactly if the pattern covers the route it is published on, through
   whatever calls and rounds come in between, until it is closed or subscribed again.
   */
  lemma SubscriberReceives(before: seq<Step>, ducq: Pointer, request: CString, pattern: CString, later: seq<Step>,
                           cache: seq<Entry>, publisher: Pointer, buffer: string, route: CString, works: seq<bool>)
    requires Life(before).lawful && ducq.Object? && InTable(Life(before).slots, ducq)
    requires ParseRoute(request) == Some(pattern) && ParseRoute(buffer) == Some(route)
    requires AllSteps(later, o => NotResubscribed(ducq, o))
    requires var s := Sub(Life(before), cache, ducq, request, OK).table;
             multiset(LifeFrom(s, later).closed)[ducq] == multiset(s.closed)[ducq]
    requires |works| == MAX_CONNECTIONS
    ensures var s := LifeFrom(Sub(Life(before), cache, ducq, request, OK).table, later);
            |s.slots| == |works|
            && ((exists parts :: Covers(pattern, route, parts)) ==> ducq in Pub(s, cache, publisher, buffer, OK, works).sent)
            && (pattern == route ==> ducq in Pub(s, cache, publisher, buffer, OK, works).sent)
            && (s.lawful && ducq in Pub(s, cache, publisher, buffer, OK, works).sent ==> exists parts :: Covers(pattern, route, parts))
  {
    hide Pub, Sub, Inv, Covers;
    LifeKeepsInv(before);
    var s0 := Life(before);
    var i := SlotOf(s0.slots, ducq);
    var s1 := Sub(s0, cache, ducq, request, OK).table;
    SubOutcome(s0, cache, ducq, request, pattern, OK);
    assert Holds(s0.slots[i], ducq) by { SubscribeFindsItsSlot(s0, ducq, pattern); }
    Round.SubscriptionLasts(s1, later, i, ducq);
    var s2 := LifeFrom(s1, later);
    PubAcknowledged(s2, cache, publisher, buffer, route, works);
    AudienceSplits(s2.slots, route, works);
    WantsMeans(s2.slots[i], route);
    if s2.lawful {
      LifeFromKeepsInv(s1, later);
      PubCovers(s2, cache, ducq, i, publisher, buffer, route, works);
    }
    if pattern == route {
      MatchesItself(route);
      MatchesExactly(route, route);
    }
  }

  /** A client that was added and never subscribed is sent what is published on the empty route, and nothing else. */
  lemma NewcomerReceives(s: World, fd: int, ducq: Pointer, later: seq<Step>,
                         cache: seq<Entry>, publisher: Pointer, buffer: string, route: CString, works: seq<bool>)
    requires Inv(s) && AddClientTo(s, fd, ducq).lawful && ducq.Object? && FirstFree(s.slots) < |s.slots| == |works|
    requires ParseRoute(buffer) == Some(route) && AllSteps(later, o => NotResubscribed(ducq, o))
    requires var t := LifeFrom(AddClientTo(s, fd, ducq), later);
             t.lawful && multiset(t.closed)[ducq] == multiset(s.closed)[ducq]
    ensures ducq in Pub(LifeFrom(AddClientTo(s, fd, ducq), later), cache, publisher, buffer, OK, works).sent <==> route == ""
  {
    hide Pub, Inv, Covers;
    var i, s1 := FirstFree(s.slots), AddClientTo(s, fd, ducq);
    ClientPlaced(s, fd, ducq);
    AddClientKeeps(s, fd, ducq);
    Round.SubscriptionLasts(s1, later, i, ducq);
    LifeFromKeepsInv(s1, later);
    PubCovers(LifeFrom(s1, later), cache, ducq, i, publisher, buffer, route, works);
    MatchesExactly("", route);
  }
}
