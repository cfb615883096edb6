/**
 ducq_receive and ducq_listen: the client's receive loop, with its pings.  Its
 only memory of having pinged is that the message buffer begins with "PING".
 */
module Keepalive {
  import opened States
  import opened Basics
  import opened MessageText
  import opened Decimal
  import Stream
  import Tcp = TcpFraming

  const PING_TEXT: string := "PING _\nping"

  /** What ducq_recv does: a message, or a failure, and what that left in the buffer if it touched it. */
  datatype Incoming = Message(text: string) | Fails(state: State, left: Option<seq<char>>)

  /** One pass of the loop: what is received, how a send would go, and whether the callback says stop. */
  datatype Event = Event(recv: Incoming, sendState: State, stop: bool)

  /** What one pass reports, and what it tried to send. */
  datatype Item = Item(state: State, sent: Option<string>)

  predicate Fits(e: Event) {
    match e.recv
    case Message(text) => |text| < MSGSZ
    case Fails(state, left) => state != OK && (left.Some? ==> |left.value| == MSGSZ)
  }

  /** A text stored with its terminator. */
  function Fill(buffer: seq<char>, text: string): (r: seq<char>)
    requires |text| < |buffer|
    ensures |r| == |buffer|
  {
    text + [NUL] + buffer[|text| + 1..]
  }

  /** The buffer once ducq_recv has returned. */
  function Seen(buffer: seq<char>, e: Event): (r: seq<char>)
    requires |buffer| == MSGSZ && Fits(e)
    ensures |r| == |buffer|
  {
    match e.recv
    case Message(text) => Fill(buffer, text)
    case Fails(_, left) => if left.Some? then left.value else buffer
  }

  /** ducq_receive on a buffer of the full size. */
  function Receive(buffer: seq<char>, e: Event): (r: (Item, seq<char>))
    requires |buffer| == MSGSZ && Fits(e)
    ensures |r.1| == |buffer|
  {
    var b := Seen(buffer, e);
    match e.recv
    case Fails(state, _) =>
      if state != ETIMEOUT then (Item(state, None), b)
      else if StartsWith(b, "PING") then (Item(ETIMEOUT, None), b)
      else (Item(if e.sendState != OK then e.sendState else PROTOCOL, Some(PING_TEXT)), Fill(b, PING_TEXT))
    case Message(text) =>
      if StartsWith(b, "ACK") || StartsWith(b, "PARTS") || StartsWith(b, "END") then (Item(PROTOCOL, None), b)
      else if StartsWith(b, "NACK") then (Item(NACK, None), b)
      else if StartsWith(b, "PING") then
        var pong := b[1 := 'O'];
        (Item(if e.sendState != OK then e.sendState else PROTOCOL, Some(pong[..|text|])), pong)
      else if StartsWith(b, "PONG") then (Item(PROTOCOL, None), b)
      else (Item(OK, None), b)
  }

  // ------------------------------------------------------------------- runs

  predicate AllFit(events: seq<Event>) {
    forall e :: e in events ==> Fits(e)
  }

  /** The buffer listening starts with. */
  function Start(): (b: seq<char>)
    ensures |b| == MSGSZ
  {
    seq(256, _ => NUL)
  }

  /** The buffer after a run. */
  function BufferAfter(events: seq<Event>): (b: seq<char>)
    requires AllFit(events)
    ensures |b| == MSGSZ
  {
    if events == [] then Start() else Receive(BufferAfter(events[..|events| - 1]), events[|events| - 1]).1
  }

  /** What pass i reports. */
  function ItemAt(events: seq<Event>, i: nat): Item
    requires AllFit(events) && i < |events|
  {
    Receive(BufferAfter(events[..i]), events[i]).0
  }

  predicate TimesOut(e: Event) {
    e.recv.Fails? && e.recv.state == ETIMEOUT
  }

  /** A PING was attempted in pass j. */
  predicate PingsAt(events: seq<Event>, j: nat)
    requires AllFit(events) && j < |events|
  {
    ItemAt(events, j).sent == Some(PING_TEXT)
  }

  predicate SilentBetween(events: seq<Event>, j: nat, i: nat)
    requires i <= |events|
  {
    forall k :: j < k < i ==> !events[k].recv.Message?
  }

  /** Before pass i a PING was attempted and no message has come since. */
  ghost predicate Waiting(events: seq<Event>, i: nat)
    requires AllFit(events) && i <= |events|
  {
    exists j :: 0 <= j < i && PingsAt(events, j) && SilentBetween(events, j, i)
  }

  /** The buffer pass i's test for the four letters looks at. */
  function SeenAt(events: seq<Event>, i: nat): seq<char>
    requires AllFit(events) && i < |events|
  {
    Seen(BufferAfter(events[..i]), events[i])
  }

  /** No failed receive of the first n passes changes whether the buffer begins with PING. */
  ghost predicate LettersKept(events: seq<Event>, n: nat)
    requires AllFit(events) && n <= |events|
  {
    forall i :: 0 <= i < n && events[i].recv.Fails? ==>
      (StartsWith(SeenAt(events, i), "PING") <==> StartsWith(BufferAfter(events[..i]), "PING"))
  }

  /** In the first n passes, a failed receive finds the four letters exactly when a ping is unanswered. */
  ghost predicate LettersTell(events: seq<Event>, n: nat)
    requires AllFit(events) && n <= |events|
  {
    forall i :: 0 <= i < n && events[i].recv.Fails? ==> (StartsWith(SeenAt(events, i), "PING") <==> Waiting(events, i))
  }

  /** Before pass i a receive timed out, and no message has come since. */
  ghost predicate TimedOutInSilence(events: seq<Event>, i: nat)
    requires i <= |events|
  {
    exists k :: 0 <= k < i && TimesOut(events[k]) && SilentBetween(events, k, i)
  }

  /** In the first n passes, a receive that times out finds the four letters exactly if an earlier one did in the same silence. */
  ghost predicate LettersRight(events: seq<Event>, n: nat)
    requires AllFit(events) && n <= |events|
  {
    forall i :: 0 <= i < n && TimesOut(events[i]) ==>
      (StartsWith(SeenAt(events, i), "PING") <==> TimedOutInSilence(events, i))
  }

  /**
   Pass i reports a timeout, with nothing sent, exactly if its receive timed out
   while waiting for an answer to a ping, and pings exactly if it timed out otherwise.
   */
  ghost predicate ReportsRight(events: seq<Event>, i: nat)
    requires AllFit(events) && i < |events|
  {
    && (ItemAt(events, i) == Item(ETIMEOUT, None) <==> TimesOut(events[i]) && Waiting(events, i))
    && (PingsAt(events, i) <==> TimesOut(events[i]) && !Waiting(events, i))
  }

  // --------------------------------------------------------------- one pass

  /** No received message leaves a buffer that begins with PING; only the loop's own ping does. */
  lemma PassFacts(buffer: seq<char>, e: Event)
    requires |buffer| == MSGSZ && Fits(e)
    ensures var (item, b) := Receive(buffer, e); var seen := Seen(buffer, e);
            (e.recv.Message? ==> !StartsWith(b, "PING") && item.sent != Some(PING_TEXT))
            && (TimesOut(e) ==> StartsWith(b, "PING"))
            && (!e.recv.Message? && !TimesOut(e) ==> b == seen && item == Item(e.recv.state, None))
            && (TimesOut(e) && StartsWith(seen, "PING") ==> item == Item(ETIMEOUT, None))
            && (TimesOut(e) && !StartsWith(seen, "PING") ==> item.sent == Some(PING_TEXT))
            && (item.state == ETIMEOUT && item.sent == None ==> TimesOut(e) && StartsWith(seen, "PING"))
  {
    var seen := Seen(buffer, e);
    if TimesOut(e) {
      assert PING_TEXT[..4] == "PING" && Fill(seen, PING_TEXT)[..4] == PING_TEXT[..4];
    } else if e.recv.Message? {
      var text := e.recv.text;
      if StartsWith(seen, "PING") {
        PingIsWhole(buffer, text);
        PongIsNoPing(seen, |text|);
      }
    }
  }

  lemma PongIsNoPing(seen: seq<char>, n: nat)
    requires 4 <= n <= |seen|
    ensures !StartsWith(seen[1 := 'O'], "PING") && seen[1 := 'O'][..n] != PING_TEXT
  {
    var pong := seen[1 := 'O'];
    assert pong[..4][1] == 'O' && pong[..n][1] == 'O' && "PING"[1] == 'I' && PING_TEXT[1] == 'I';
  }

  /** A stored text begins as the buffer does, up to its terminator. */
  lemma StartOfFilled(buffer: seq<char>, text: string, prefix: string)
    requires |text| < |buffer| && NUL !in prefix
    ensures StartsWith(Fill(buffer, text), prefix) <==> StartsWith(text, prefix)
  {
    var b := Fill(buffer, text);
    if |prefix| <= |text| {
      assert b[..|prefix|] == text[..|prefix|];
    } else {
      assert b[|text|] == NUL && prefix[|text|] in prefix;
      Differs(b, prefix, |text|);
    }
  }

  lemma Differs(text: string, word: string, k: nat)
    requires k < |text| && k < |word| && text[k] != word[k]
    ensures !StartsWith(text, word)
  {
    assert |word| <= |text| ==> text[..|word|][k] == text[k];
  }

  lemma Begins(word: string, rest: string)
    ensures StartsWith(word + rest, word)
  {
  }

  lemma StartsOfFilled(buffer: seq<char>, text: string)
    requires |text| < |buffer|
    ensures StartsWith(Fill(buffer, text), "ACK") <==> StartsWith(text, "ACK")
    ensures StartsWith(Fill(buffer, text), "PARTS") <==> StartsWith(text, "PARTS")
    ensures StartsWith(Fill(buffer, text), "END") <==> StartsWith(text, "END")
    ensures StartsWith(Fill(buffer, text), "NACK") <==> StartsWith(text, "NACK")
    ensures StartsWith(Fill(buffer, text), "PING") <==> StartsWith(text, "PING")
    ensures StartsWith(Fill(buffer, text), "PONG") <==> StartsWith(text, "PONG")
  {
    hide StartsWith, Fill;
    StartOfFilled(buffer, text, "ACK");
    StartOfFilled(buffer, text, "PARTS");
    StartOfFilled(buffer, text, "END");
    StartOfFilled(buffer, text, "NACK");
    StartOfFilled(buffer, text, "PING");
    StartOfFilled(buffer, text, "PONG");
  }

  // ------------------------------------------------ what a message is taken for

  /** An acknowledgement, of any state and whatever the buffer held, is taken for what it says. */
  lemma AckReported(buffer: seq<char>, state: State, sendState: State, stop: bool)
    requires |buffer| == MSGSZ
    ensures |AckText(state)| < MSGSZ
    ensures Receive(buffer, Event(Message(AckText(state)), sendState, stop)).0
         == Item(if state == OK then PROTOCOL else NACK, None)
  {
    hide StartsWith, Fill;
    AckFits(state);
    var text := AckText(state);
    StartsOfFilled(buffer, text);
    AckStarts(state);
  }

  lemma AckStarts(state: State)
    ensures state == OK ==> StartsWith(AckText(state), "ACK")
    ensures state != OK ==> StartsWith(AckText(state), "NACK") && !StartsWith(AckText(state), "ACK")
                            && !StartsWith(AckText(state), "PARTS") && !StartsWith(AckText(state), "END")
  {
    hide Code, Decimal.Print, Text, StartsWith;
    if state == OK {
      Begins("ACK", "");
      assert "ACK" + "" == "ACK";
    } else {
      var number, words := Decimal.Print(Code(state)), Text(state);
      NackStarts(number, words);
    }
  }

  lemma NackStarts(number: string, words: string)
    ensures var text := "NACK *\n" + number + "\n" + words;
            StartsWith(text, "NACK") && !StartsWith(text, "ACK") && !StartsWith(text, "PARTS") && !StartsWith(text, "END")
  {
    hide StartsWith;
    var text := "NACK *\n" + number + "\n" + words;
    assert text == "NACK" + (" *\n" + number + "\n" + words);
    Begins("NACK", " *\n" + number + "\n" + words);
    Differs(text, "ACK", 0);
    Differs(text, "PARTS", 0);
    Differs(text, "END", 0);
  }

  /** A ping is answered by its own text with the second letter changed to O. */
  lemma PingReported(buffer: seq<char>, rest: string, sendState: State, stop: bool)
    requires |buffer| == MSGSZ && |rest| + 4 < MSGSZ
    ensures Receive(buffer, Event(Message("PING" + rest), sendState, stop)).0
         == Item(if sendState != OK then sendState else PROTOCOL, Some("PONG" + rest))
  {
    hide StartsWith;
    var text := "PING" + rest;
    StartsOfFilled(buffer, text);
    FirstLetters("PING", rest);
    assert Fill(buffer, text)[1 := 'O'][..|text|] == "PONG" + rest;
  }

  /** The other protocol messages are ignored, and everything else is the application's. */
  lemma OtherReported(buffer: seq<char>, text: string, sendState: State, stop: bool)
    requires |buffer| == MSGSZ && |text| < MSGSZ
    ensures StartsWith(text, "ACK") || StartsWith(text, "PARTS") || StartsWith(text, "END") || StartsWith(text, "PONG") ==>
              Receive(buffer, Event(Message(text), sendState, stop)).0 == Item(PROTOCOL, None)
    ensures !StartsWith(text, "ACK") && !StartsWith(text, "PARTS") && !StartsWith(text, "END") && !StartsWith(text, "NACK")
            && !StartsWith(text, "PING") && !StartsWith(text, "PONG") ==>
              Receive(buffer, Event(Message(text), sendState, stop)).0 == Item(OK, None)
  {
    hide StartsWith, Fill;
    StartsOfFilled(buffer, text);
    FirstDiffer(text);
  }

  lemma FirstLetters(word: string, rest: string)
    requires word == "PING"
    ensures StartsWith(word + rest, "PING") && !StartsWith(word + rest, "ACK") && !StartsWith(word + rest, "PARTS")
    ensures !StartsWith(word + rest, "END") && !StartsWith(word + rest, "NACK")
  {
    hide StartsWith;
    var text := word + rest;
    Begins(word, rest);
    Differs(text, "PARTS", 1);
    Differs(text, "ACK", 0);
    Differs(text, "END", 0);
    Differs(text, "NACK", 0);
  }

  /** A text that begins with PONG begins with none of the other words. */
  lemma FirstDiffer(text: string)
    ensures StartsWith(text, "PONG") ==> !StartsWith(text, "PING") && !StartsWith(text, "NACK")
  {
    if StartsWith(text, "PONG") {
      assert text[..4][1] == 'O';
      Differs(text, "PING", 1);
      Differs(text, "NACK", 1);
    }
  }

  /** A listener's callbacks: which one a message or a failure goes to, and whether it can end the loop. */
  lemma CallbackOf(ctx: Handlers, buffer: seq<char>, state: State, sendState: State)
    requires |buffer| == MSGSZ && |AckText(state)| < MSGSZ
    ensures var item := Receive(buffer, Event(Message(AckText(state)), sendState, true)).0;
            Stops(ctx, item.state, true) <==> if state == OK then ctx.onProtocol else ctx.onNack
    ensures Stops(ctx, OK, true) <==> ctx.onMessage
    ensures Code(state) >= Code(ERROR) ==> (Stops(ctx, state, true) <==> ctx.onError)
    ensures !Stops(ctx, state, false)
  {
    hide Receive, AckText;
    AckReported(buffer, state, sendState, true);
  }

  /** The loop's own ping is a message the parsers take apart. */
  lemma PingParses()
    ensures ParseCommand(PING_TEXT) == Some("PING") && ParseRoute(PING_TEXT) == Some("_") && ParsePayload(PING_TEXT) == Some("ping")
  {
    assert PING_TEXT == "PING" + " " + "_" + "\n" + Cut("ping", 4) && "ping"[..4] == "ping";
    ParseEmitted("PING", "_", "ping", 4);
  }

  /** A buffer that begins with PING after a message was stored got all four letters from the message. */
  lemma PingIsWhole(buffer: seq<char>, text: string)
    requires |text| < |buffer| && |buffer| == MSGSZ && StartsWith(Fill(buffer, text), "PING")
    ensures |text| >= 4
  {
    var b := Fill(buffer, text);
    assert b[..4] == "PING" && b[|text|] == NUL;
    assert b[0] == b[..4][0] && b[1] == b[..4][1] && b[2] == b[..4][2] && b[3] == b[..4][3];
  }

  // ------------------------------------------------------------------- runs

  lemma Prefix(events: seq<Event>, n: nat)
    requires AllFit(events) && n <= |events|
    ensures AllFit(events[..n])
    ensures forall i :: 0 <= i < n ==> events[..n][..i] == events[..i]
  {
  }

  lemma StartIsSilent()
    ensures !StartsWith(Start(), "PING")
  {
    assert Start()[..4][0] == NUL && "PING"[0] == 'P';
  }

  /** A ping, or a failed receive while waiting, is waiting; a message ends it. */
  lemma WaitingNext(events: seq<Event>, n: nat)
    requires AllFit(events) && n < |events|
    ensures Waiting(events, n + 1) <==> PingsAt(events, n) || (Waiting(events, n) && !events[n].recv.Message?)
  {
    hide PingsAt;
    var i := n + 1;
    if PingsAt(events, n) {
      assert SilentBetween(events, n, i);
    }
    if Waiting(events, i) {
      var j :| 0 <= j < i && PingsAt(events, j) && SilentBetween(events, j, i);
      assert j < n ==> SilentBetween(events, j, n) && !events[n].recv.Message?;
    }
    if Waiting(events, n) && !events[n].recv.Message? {
      var j :| 0 <= j < n && PingsAt(events, j) && SilentBetween(events, j, n);
      assert SilentBetween(events, j, i);
    }
  }

  /** One pass: what the buffer begins with afterwards. */
  lemma BufferNext(events: seq<Event>, n: nat)
    requires AllFit(events) && n < |events|
    ensures StartsWith(BufferAfter(events[..n + 1]), "PING")
       <==> TimesOut(events[n]) || (events[n].recv.Fails? && StartsWith(SeenAt(events, n), "PING"))
    ensures PingsAt(events, n) <==> TimesOut(events[n]) && !StartsWith(SeenAt(events, n), "PING")
  {
    hide Receive, StartsWith;
    Prefix(events, n + 1);
    assert events[..n + 1][..n] == events[..n] && events[..n + 1][n] == events[n];
    PassFacts(BufferAfter(events[..n]), events[n]);
  }

  /** While the letters are kept, they are exactly the memory of an unanswered ping. */
  lemma {:induction false} BufferRemembers(events: seq<Event>, i: nat)
    requires AllFit(events) && i <= |events| && LettersKept(events, i)
    ensures StartsWith(BufferAfter(events[..i]), "PING") <==> Waiting(events, i)
  {
    hide StartsWith, Start, Waiting, BufferAfter, PingsAt, SeenAt;
    if i == 0 {
      NothingAtStart(events);
    } else {
      BufferRemembers(events, i - 1);
      BufferNext(events, i - 1);
      WaitingNext(events, i - 1);
    }
  }

  lemma NothingAtStart(events: seq<Event>)
    requires AllFit(events)
    ensures !StartsWith(BufferAfter(events[..0]), "PING") && !Waiting(events, 0)
  {
    StartIsSilent();
  }

  /** The memory is right in every pass exactly when no failed receive touches the letters. */
  lemma {:induction false} LettersTellExactly(events: seq<Event>, n: nat)
    requires AllFit(events) && n <= |events|
    ensures LettersTell(events, n) <==> LettersKept(events, n)
  {
    hide StartsWith, Waiting, BufferAfter, SeenAt;
    if n > 0 {
      LettersTellExactly(events, n - 1);
      if LettersKept(events, n - 1) {
        BufferRemembers(events, n - 1);
      }
    }
  }

  /** A pass is right if, when it times out, the letters it finds tell whether it is waiting. */
  lemma RightByLetters(events: seq<Event>, i: nat)
    requires AllFit(events) && i < |events|
    ensures ReportsRight(events, i) <==> (TimesOut(events[i]) ==> (StartsWith(SeenAt(events, i), "PING") <==> Waiting(events, i)))
  {
    hide Waiting, Receive, StartsWith, BufferAfter;
    PassFacts(BufferAfter(events[..i]), events[i]);
  }

  lemma SilenceNext(events: seq<Event>, n: nat)
    requires n < |events|
    ensures TimedOutInSilence(events, n + 1) <==> TimesOut(events[n]) || (TimedOutInSilence(events, n) && !events[n].recv.Message?)
  {
    var i := n + 1;
    if TimesOut(events[n]) {
      assert SilentBetween(events, n, i);
    }
    if TimedOutInSilence(events, i) {
      var k :| 0 <= k < i && TimesOut(events[k]) && SilentBetween(events, k, i);
      assert k < n ==> SilentBetween(events, k, n) && !events[n].recv.Message?;
    }
    if TimedOutInSilence(events, n) && !events[n].recv.Message? {
      var k :| 0 <= k < n && TimesOut(events[k]) && SilentBetween(events, k, n);
      assert SilentBetween(events, k, i);
    }
  }

  /** Every pass is right exactly if every receive that times out finds the letters exactly if an earlier one did in the same silence. */
  lemma {:induction false} TimeoutsAndPings(events: seq<Event>, n: nat)
    requires AllFit(events) && n <= |events|
    ensures (forall i :: 0 <= i < n ==> ReportsRight(events, i)) <==> LettersRight(events, n)
    ensures LettersRight(events, n) ==> (Waiting(events, n) <==> TimedOutInSilence(events, n))
  {
    hide Waiting, TimedOutInSilence, StartsWith, SeenAt, PingsAt, ReportsRight;
    if n == 0 {
      NothingAtStart(events);
      assert !TimedOutInSilence(events, 0) by { NoSilenceAtStart(events); }
    } else {
      var i := n - 1;
      TimeoutsAndPings(events, i);
      RightByLetters(events, i);
      WaitingNext(events, i);
      SilenceNext(events, i);
      BufferNext(events, i);
    }
  }

  lemma NoSilenceAtStart(events: seq<Event>)
    ensures !TimedOutInSilence(events, 0)
  {
  }

  /** Then a message was received between any two pings. */
  lemma MessageBetweenPings(events: seq<Event>, j: nat, i: nat)
    requires AllFit(events) && j < i < |events| && PingsAt(events, j) && PingsAt(events, i) && LettersRight(events, i + 1)
    ensures exists k :: j < k < i && events[k].recv.Message?
  {
    TimeoutsAndPings(events, i + 1);
    assert ReportsRight(events, i);
    assert !SilentBetween(events, j, i);
  }

  /** Failures that leave the buffer alone leave every pass right. */
  lemma UntouchedIsRight(events: seq<Event>, n: nat)
    requires AllFit(events) && n <= |events|
    requires forall i :: 0 <= i < n && events[i].recv.Fails? ==> events[i].recv.left == None
    ensures forall i :: 0 <= i < n ==> ReportsRight(events, i)
  {
    hide Waiting, StartsWith, BufferAfter, ReportsRight;
    LettersTellExactly(events, n);
    forall i | 0 <= i < n
      ensures ReportsRight(events, i)
    {
      RightByLetters(events, i);
    }
  }

  // ------------------------------------------------------- failures over TCP

  /**
   What a failed receive over TCP leaves in front, for every buffer and wherever
   it stops: the letters, exactly if it took nothing and they were there, or if the
   payload reaches past the digits and supplies the first of them, the old buffer the rest.
   */
  lemma TcpLetters(buffer: seq<char>, input: string, taken: nat)
    requires |buffer| == MSGSZ && taken <= |input|
    requires DigitRun(input) < MSGSZ - 1 && (taken > DigitRun(input) ==> input[DigitRun(input)] == '\n')
    ensures var d := DigitRun(input); var t := taken - d - 1;
            StartsWith(Tcp.BufferLeft(buffer, input, taken), "PING") <==>
            if taken == 0 then StartsWith(buffer, "PING")
            else t > Stream.Min(d, 3)
                 && var m := Stream.Min(t, 4);
                    input[d + 1..taken][..m] == "PING"[..m] && buffer[m..4] == "PING"[m..]
  {
    hide Tcp.BufferLeft, DigitRun, StartsWith, Agrees;
    var d, left := DigitRun(input), Tcp.BufferLeft(buffer, input, taken);
    FourLetters(left);
    if taken == 0 {
      Tcp.NothingTaken(buffer, input);
    } else if taken - d - 1 <= Stream.Min(d, 3) {
      LettersLost(buffer, input, d, taken);
    } else {
      LettersFromPayload(buffer, input, d, taken);
    }
  }

  lemma LettersLost(buffer: seq<char>, input: string, d: nat, taken: nat)
    requires d == DigitRun(input) < |buffer| == MSGSZ && 0 < taken <= |input| && taken <= d + 1 + Stream.Min(d, 3)
    requires taken > d ==> input[d] == '\n'
    ensures !Agrees(Tcp.BufferLeft(buffer, input, taken), 0, 4)
  {
    hide Tcp.BufferLeft, DigitRun;
    var k := if taken <= d then 0 else taken - d - 1;
    Tcp.LeftAt(buffer, input, d, taken, k);
    NoLetter(Tcp.BufferLeft(buffer, input, taken)[k]);
  }

  lemma MinFacts(t: nat, d: nat)
    ensures Stream.Min(t, 4) <= 4 && Stream.Min(t, 4) <= t
    ensures t > Stream.Min(d, 3) && Stream.Min(t, 4) < 4 ==> Stream.Min(t, 4) == t > d
  {
  }

  lemma LettersFromPayload(buffer: seq<char>, input: string, d: nat, taken: nat)
    requires d == DigitRun(input) < |buffer| == MSGSZ && taken <= |input| && taken > d + 1 + Stream.Min(d, 3) && input[d] == '\n'
    ensures var m := Stream.Min(taken - d - 1, 4);
            (Agrees(Tcp.BufferLeft(buffer, input, taken), 0, 4) <==>
             input[d + 1..taken][..m] == "PING"[..m] && buffer[m..4] == "PING"[m..])
  {
    hide Tcp.BufferLeft, DigitRun, Stream.Min, Agrees;
    var left, m, payload := Tcp.BufferLeft(buffer, input, taken), Stream.Min(taken - d - 1, 4), input[d + 1..taken];
    MinFacts(|payload|, d);
    FrontAgrees(payload, m);
    BackAgrees(buffer, m);
    forall k | 0 <= k < 4
      ensures left[k] == if k < m then payload[k] else buffer[k]
    {
      Tcp.LeftAt(buffer, input, d, taken, k);
    }
    AgreesInParts(left, payload, buffer, m);
  }

  lemma AgreesInParts(s: seq<char>, front: seq<char>, back: seq<char>, m: nat)
    requires m <= 4 && m <= |front| && |s| >= 4 && |back| >= 4
    requires forall k :: 0 <= k < 4 ==> s[k] == if k < m then front[k] else back[k]
    ensures Agrees(s, 0, 4) <==> Agrees(front, 0, m) && Agrees(back, m, 4)
  {
  }

  /** s has the letters of PING from one index to the next. */
  predicate Agrees(s: seq<char>, from: nat, to: nat)
    requires to <= |s| && to <= 4
  {
    forall k :: from <= k < to ==> s[k] == "PING"[k]
  }

  lemma FourLetters(s: seq<char>)
    requires |s| >= 4
    ensures StartsWith(s, "PING") <==> Agrees(s, 0, 4)
  {
    FrontAgrees(s, 4);
    assert "PING"[..4] == "PING";
  }

  lemma NoLetter(c: char)
    ensures IsDigit(c) || c == NUL ==> c !in "PING" && forall k :: 0 <= k < 4 ==> c != "PING"[k]
  {
  }

  lemma FrontAgrees(s: seq<char>, m: nat)
    requires m <= |s| && m <= 4
    ensures s[..m] == "PING"[..m] <==> Agrees(s, 0, m)
  {
    assert forall k :: 0 <= k < m ==> s[..m][k] == s[k] && "PING"[..m][k] == "PING"[k];
  }

  lemma BackAgrees(s: seq<char>, m: nat)
    requires |s| >= 4 && m <= 4
    ensures s[m..4] == "PING"[m..] <==> Agrees(s, m, 4)
  {
    assert forall k :: m <= k < 4 ==> s[m..4][k - m] == s[k] && "PING"[m..][k - m] == "PING"[k];
  }

  /** So a ping that was sent is remembered exactly if the receive took nothing, or if the payload starts with the letters too. */
  lemma TcpFailure(buffer: seq<char>, input: string, taken: nat)
    requires |buffer| == MSGSZ && taken <= |input| && StartsWith(buffer, "PING")
    requires DigitRun(input) < MSGSZ - 1 && (taken > DigitRun(input) ==> input[DigitRun(input)] == '\n')
    ensures var d := DigitRun(input); var t := taken - d - 1;
            StartsWith(Tcp.BufferLeft(buffer, input, taken), "PING") <==>
            taken == 0 || (t > Stream.Min(d, 3)
                           && var m := Stream.Min(t, 4); input[d + 1..taken][..m] == "PING"[..m])
  {
    hide Tcp.BufferLeft, DigitRun;
    TcpLetters(buffer, input, taken);
    assert forall m: nat :: m <= 4 ==> buffer[m..4] == buffer[..4][m..];
  }

  /** One that was never sent is remembered, where the old buffer has no fourth letter, exactly if the payload supplies all four. */
  lemma TcpForgery(buffer: seq<char>, input: string, taken: nat)
    requires |buffer| == MSGSZ && taken <= |input| && buffer[3] != 'G'
    requires DigitRun(input) < MSGSZ - 1 && (taken > DigitRun(input) ==> input[DigitRun(input)] == '\n')
    ensures var d := DigitRun(input);
            StartsWith(Tcp.BufferLeft(buffer, input, taken), "PING") <==>
            taken - d - 1 >= 4 && input[d + 1..taken][..4] == "PING"
  {
    hide Tcp.BufferLeft, DigitRun, StartsWith;
    TcpLetters(buffer, input, taken);
    FourLetters(buffer);
    var t := taken - DigitRun(input) - 1;
    if t >= 4 {
      assert "PING"[..4] == "PING" && "PING"[4..] == "" && buffer[4..4] == "";
    } else if t >= 0 {
      BackAgrees(buffer, t);
    }
  }

  /** Letters lost: the next timeout pings again, though nothing was received. */
  lemma SecondPing(left: seq<char>)
    requires |left| == MSGSZ && !StartsWith(left, "PING")
    ensures var events := [Event(Fails(ETIMEOUT, None), OK, false), Event(Fails(ETIMEOUT, Some(left)), OK, false)];
            AllFit(events) && PingsAt(events, 0) && PingsAt(events, 1) && !LettersRight(events, 2)
  {
    var events := [Event(Fails(ETIMEOUT, None), OK, false), Event(Fails(ETIMEOUT, Some(left)), OK, false)];
    assert AllFit(events);
    StartIsSilent();
    BufferNext(events, 0);
    BufferNext(events, 1);
    assert events[..0] == [];
    assert StartsWith(BufferAfter(events[..1]), "PING");
    assert SeenAt(events, 1) == left;
    assert SilentBetween(events, 0, 1) && TimesOut(events[0]);
    assert TimedOutInSilence(events, 1);
  }

  /** Letters forged: a timeout is reported, though no ping was ever attempted. */
  lemma TimeoutWithoutPing(left: seq<char>)
    requires |left| == MSGSZ && StartsWith(left, "PING")
    ensures var events := [Event(Fails(ETIMEOUT, Some(left)), OK, false)];
            AllFit(events) && ItemAt(events, 0) == Item(ETIMEOUT, None) && !Waiting(events, 0) && !LettersRight(events, 1)
  {
    var events := [Event(Fails(ETIMEOUT, Some(left)), OK, false)];
    assert AllFit(events);
    assert SeenAt(events, 0) == left;
    assert !TimedOutInSilence(events, 0);
  }

  /** Such a receive: a message "PING and more" cut by a would-block behind its fourth letter. */
  lemma ForgedByPayload()
    ensures StartsWith(Tcp.BufferLeft(Start(), "11\nPING", 7), "PING")
  {
    hide Tcp.BufferLeft;
    var input := "11\nPING";
    RunIs(input, 2);
    TcpForgery(Start(), input, 7);
    assert input[3..7] == "PING" && "PING"[..4] == "PING";
  }

  // ------------------------------------------------------------------- code

  /** Which callbacks the listener was given. */
  datatype Handlers = Handlers(onMessage: bool, onProtocol: bool, onNack: bool, onError: bool)

  /** Writes a text and its terminator into the buffer. */
  method Store(msg: array<char>, text: string)
    requires |text| < msg.Length
    modifies msg
    ensures msg[..] == Fill(old(msg[..]), text)
  {
    var i := 0;
    while i < |text|
      invariant 0 <= i <= |text|
      invariant forall k :: 0 <= k < i ==> msg[k] == text[k]
      invariant forall k :: i <= k < msg.Length ==> msg[k] == old(msg[k])
    {
      msg[i] := text[i];
      i := i + 1;
    }
    msg[|text|] := NUL;
  }

  /** What a failed receive left behind. */
  method Overwrite(msg: array<char>, left: seq<char>)
    requires |left| == msg.Length
    modifies msg
    ensures msg[..] == left
  {
    forall i | 0 <= i < msg.Length {
      msg[i] := left[i];
    }
  }

  method DucqReceive(msg: array<char>, e: Event) returns (state: State, sent: Option<string>)
    requires msg.Length == MSGSZ && Fits(e)
    modifies msg
    ensures (Item(state, sent), msg[..]) == Receive(old(msg[..]), e)
  {
    sent := None;
    if e.recv.Fails? {
      if e.recv.left.Some? {
        Overwrite(msg, e.recv.left.value);
      }
      if e.recv.state == ETIMEOUT {
        if StartsWith(msg[..], "PING") {
          return ETIMEOUT, None;
        }
        Store(msg, PING_TEXT);
        sent := Some(PING_TEXT);
        return if e.sendState != OK then e.sendState else PROTOCOL, sent;
      }
      return e.recv.state, None;
    }
    Store(msg, e.recv.text);
    if StartsWith(msg[..], "ACK") {
      return PROTOCOL, None;
    }
    if StartsWith(msg[..], "PARTS") {
      return PROTOCOL, None;
    }
    if StartsWith(msg[..], "END") {
      return PROTOCOL, None;
    }
    if StartsWith(msg[..], "NACK") {
      return NACK, None;
    }
    if StartsWith(msg[..], "PING") {
      msg[1] := 'O';
      sent := Some(msg[..|e.recv.text|]);
      return if e.sendState != OK then e.sendState else PROTOCOL, sent;
    }
    if StartsWith(msg[..], "PONG") {
      return PROTOCOL, None;
    }
    return OK, None;
  }

  /** A pass ends the loop when its state has a callback and that says stop. */
  predicate Stops(ctx: Handlers, state: State, stop: bool) {
    stop && if Code(state) >= Code(ERROR) then ctx.onError
            else if state == OK then ctx.onMessage
            else if state == PROTOCOL then ctx.onProtocol
            else ctx.onNack
  }

  lemma FirstPass(events: seq<Event>)
    requires AllFit(events)
    ensures BufferAfter(events[..0]) == Start()
  {
  }

  lemma NextPass(events: seq<Event>, n: nat, before: seq<char>, item: Item, after: seq<char>)
    requires AllFit(events) && n < |events| && before == BufferAfter(events[..n])
    requires (item, after) == Receive(before, events[n])
    ensures item == ItemAt(events, n) && after == BufferAfter(events[..n + 1])
  {
    assert events[..n + 1][..n] == events[..n];
  }

  /** The loop over the events there are, with callbacks that leave the buffer alone; what each pass reported. */
  method DucqListen(events: seq<Event>, ctx: Handlers) returns (state: State, trace: seq<Item>)
    requires AllFit(events)
    ensures |trace| <= |events|
    ensures forall i :: 0 <= i < |trace| ==> trace[i] == ItemAt(events, i)
    ensures forall i :: 0 <= i < |trace| - 1 ==> !Stops(ctx, trace[i].state, events[i].stop)
    ensures |trace| < |events| ==> trace != [] && Stops(ctx, trace[|trace| - 1].state, events[|trace| - 1].stop)
    ensures state == if trace == [] then OK else trace[|trace| - 1].state
  {
    hide Receive, ItemAt, BufferAfter, Code;
    var msg := new char[256](_ => NUL);
    FirstPass(events);
    assert msg[..] == Start();
    state, trace := OK, [];
    while |trace| < |events|
      invariant |trace| <= |events| && msg.Length == MSGSZ
      invariant forall i :: 0 <= i < |trace| ==> trace[i] == ItemAt(events, i)
      invariant forall i :: 0 <= i < |trace| ==> !Stops(ctx, trace[i].state, events[i].stop)
      invariant msg[..] == BufferAfter(events[..|trace|])
      invariant state == if trace == [] then OK else trace[|trace| - 1].state
      decreases |events| - |trace|
    {
      ghost var n := |trace|;
      ghost var before := msg[..];
      var e := events[|trace|];
      var sent;
      state, sent := DucqReceive(msg, e);
      NextPass(events, n, before, Item(state, sent), msg[..]);
      trace := trace + [Item(state, sent)];
      if Code(state) >= Code(ERROR) {
        if !ctx.onError {
          continue;
        }
        if e.stop {
          break;
        }
        continue;
      }
      var callback := if state == OK then ctx.onMessage else if state == PROTOCOL then ctx.onProtocol else ctx.onNack;
      if !callback {
        continue;
      }
      if e.stop {
        break;
      }
    }
  }
}
