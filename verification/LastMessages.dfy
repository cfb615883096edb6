/** The cache of last messages: an array of routes and texts, and the bounded map it stands for. */
module LastMessages {
  import opened States
  import opened Basics

  datatype Entry = Entry(route: string, msg: string)

  const MAX_CHANNELS: nat := 25

  /** Where a scan for a route stops: at the route, or at the first free entry. */
  function Place(es: seq<Entry>, route: string, i: nat): (j: nat)
    requires i <= |es|
    ensures i <= j <= |es|
    ensures forall k :: i <= k < j ==> es[k].route != "" && es[k].route != route
    ensures j < |es| ==> es[j].route == "" || es[j].route == route
    decreases |es| - i
  {
    if i == |es| || es[i].route == "" || es[i].route == route then i else Place(es, route, i + 1)
  }

  function Get(es: seq<Entry>, route: string): string {
    var i := Place(es, route, 0);
    if i == |es| then "ACK\n_" else if es[i].route == "" then "ACK" else es[i].msg
  }

  function Set(es: seq<Entry>, route: string, msg: string): (r: (seq<Entry>, State))
    ensures |r.0| == |es|
  {
    var i := Place(es, route, 0);
    if i == |es| then (es, EMAX) else (es[i := Entry(route, msg)], OK)
  }

  // ------------------------------------------------------------ refinement

  /** Occupied entries come first and have distinct routes. */
  ghost predicate Packed(es: seq<Entry>) {
    forall i, j :: 0 <= i < j < |es| && es[j].route != "" ==> es[i].route != "" && es[i].route != es[j].route
  }

  /** The routes stored, with their messages. */
  function AsMap(es: seq<Entry>): map<string, string> {
    if es == [] || es[0].route == "" then map[] else AsMap(es[1..])[es[0].route := es[0].msg]
  }

  lemma {:induction false} MapOfPacked(es: seq<Entry>, route: string)
    requires Packed(es)
    ensures var i := Place(es, route, 0);
            (route in AsMap(es) <==> i < |es| && es[i].route == route != "")
            && (route in AsMap(es) ==> AsMap(es)[route] == es[i].msg)
            && (route !in AsMap(es) ==> |AsMap(es)| == i)
  {
    if es != [] && es[0].route != "" {
      MapOfPacked(es[1..], route);
      PlaceInTail(es, route, 1);
      HeadIsNew(es);
    }
  }

  lemma {:induction false} PlaceInTail(es: seq<Entry>, route: string, i: nat)
    requires 1 <= i <= |es|
    ensures Place(es, route, i) == 1 + Place(es[1..], route, i - 1)
    decreases |es| - i
  {
    if i < |es| {
      PlaceInTail(es, route, i + 1);
    }
  }

  lemma {:induction false} HeadIsNew(es: seq<Entry>)
    requires es != [] && es[0].route != "" && Packed(es)
    ensures es[0].route !in AsMap(es[1..])
  {
    RoutesOfMap(es[1..], es[0].route);
  }

  lemma {:induction false} RoutesOfMap(es: seq<Entry>, route: string)
    requires forall i :: 0 <= i < |es| ==> es[i].route != route
    ensures route !in AsMap(es)
  {
    if es != [] {
      RoutesOfMap(es[1..], route);
    }
  }

  /** A look-up is a look-up in the map; the two defaults tell a full table from one with room. */
  lemma GetRefines(es: seq<Entry>, route: string)
    requires Packed(es)
    ensures Get(es, route) == if route in AsMap(es) then AsMap(es)[route]
                              else if |AsMap(es)| < |es| then "ACK" else "ACK\n_"
  {
    MapOfPacked(es, route);
  }

  /**
   A store is a store in the map, and fails exactly when that many other routes are
   there; on the empty route it reports success, if there is room, and stores nothing.
   */
  lemma SetRefines(es: seq<Entry>, route: string, msg: string)
    requires Packed(es)
    ensures var (t, state) := Set(es, route, msg);
            Packed(t)
            && (state == EMAX <==> route !in AsMap(es) && |AsMap(es)| == |es|)
            && (state == OK || state == EMAX)
            && AsMap(t) == if state == OK && route != "" then AsMap(es)[route := msg] else AsMap(es)
  {
    MapOfPacked(es, route);
    var i := Place(es, route, 0);
    if i < |es| {
      MapOfUpdate(es, i, Entry(route, msg));
    }
  }

  lemma {:induction false} MapOfUpdate(es: seq<Entry>, i: nat, e: Entry)
    requires i < |es| && Packed(es) && i == Place(es, e.route, 0)
    ensures AsMap(es[i := e]) == if e.route == "" then AsMap(es) else AsMap(es)[e.route := e.msg]
  {
    if i == 0 {
      assert es[i := e][1..] == es[1..];
      if es[0].route == "" {
        EmptyTail(es);
      }
    } else {
      PlaceInTail(es, e.route, 1);
      assert es[i := e][1..] == es[1..][i - 1 := e];
      MapOfUpdate(es[1..], i - 1, e);
    }
  }

  lemma EmptyTail(es: seq<Entry>)
    requires es != [] && es[0].route == "" && Packed(es)
    ensures AsMap(es[1..]) == map[]
  {
    assert |es| > 1 ==> es[1].route == "";
  }

  // ------------------------------------------------------------------- runs

  datatype Store = Store(route: string, msg: string)

  function Empty(): (es: seq<Entry>)
    ensures |es| == MAX_CHANNELS
  {
    seq(25, _ => Entry("", ""))
  }

  function After(stores: seq<Store>): (es: seq<Entry>)
    ensures |es| == MAX_CHANNELS
  {
    if stores == [] then Empty() else
    var last := stores[|stores| - 1];
    Set(After(stores[..|stores| - 1]), last.route, last.msg).0
  }

  /** The message of the latest store that succeeded on exactly this route; none is kept for the empty route. */
  function Latest(stores: seq<Store>, route: string): Option<string> {
    if stores == [] then None else
    var before, last := stores[..|stores| - 1], stores[|stores| - 1];
    if last.route == route != "" && Set(After(before), last.route, last.msg).1 == OK then Some(last.msg)
    else Latest(before, route)
  }

  /** After any stores, a look-up gives the latest one that succeeded on exactly that route, or else a default. */
  lemma {:induction false} GetIsLatest(stores: seq<Store>, route: string)
    ensures Packed(After(stores))
    ensures route in AsMap(After(stores)) <==> Latest(stores, route).Some?
    ensures Get(After(stores), route)
         == if Latest(stores, route).Some? then Latest(stores, route).value
            else if |AsMap(After(stores))| < MAX_CHANNELS then "ACK" else "ACK\n_"
  {
    hide Get, Set, Packed, AsMap;
    if stores == [] {
      NothingStored();
    } else {
      var n := |stores| - 1;
      GetIsLatest(stores[..n], route);
      SetRefines(After(stores[..n]), stores[n].route, stores[n].msg);
      GetRefines(After(stores[..n]), route);
    }
    GetRefines(After(stores), route);
  }

  lemma NothingStored()
    ensures Packed(Empty()) && AsMap(Empty()) == map[]
  {
  }
}
