/** Message text: printed by ducq_emit and ducq_send_ack, read by the parsers of ducq.c. */
module MessageText {
  import opened States
  import opened Basics
  import opened Decimal
  import opened Route

  // ------------------------------------------------------------- printing

  /** What "%.*s" prints of a text. */
  function Cut(text: string, size: nat): string {
    text[..if size <= |text| then size else |text|]
  }

  /** The "%s %s\n%.*s" print; None stands for the "too big" state. */
  function Emit(command: string, route: string, payload: string, size: nat): (msg: Option<string>) {
    var text := command + " " + route + "\n" + Cut(payload, size);
    if |text| >= MSGSZ then None else Some(text)
  }

  function AckText(state: State): string {
    if state == OK then "ACK" else "NACK *\n" + Print(Code(state)) + "\n" + Text(state)
  }

  /** The 128-byte buffer holds every acknowledgement whole. */
  lemma AckFits(state: State)
    ensures |AckText(state)| < 128
  {
    hide Print;
    assert Power10(2) == 100;
    PrintBound(Code(state), 2);
  }

  // -------------------------------------------------- parsing by strchr

  /** The index strchr finds. */
  function StrChr(s: string, c: char): (at: Option<nat>)
    ensures at.None? <==> c !in s
    ensures at.Some? ==> at.value < |s| && s[at.value] == c && c !in s[..at.value]
  {
    var k := Skip(s, c);
    assert s == s[..k] + s[k..];
    if k == |s| then None else Some(k)
  }

  /** The text before the first space. */
  function ParseCommand(msg: string): Option<string> {
    match StrChr(msg, ' ')
    case Some(end) => Some(msg[..end])
    case None => None
  }

  /** The text between the first space and the next newline. */
  function ParseRoute(msg: string): Option<string> {
    match StrChr(msg, ' ')
    case None => None
    case Some(at) =>
      match StrChr(msg[at + 1..], '\n')
      case Some(end) => Some(msg[at + 1..at + 1 + end])
      case None => None
  }

  /** The text behind the first newline. */
  function ParsePayload(msg: string): Option<string> {
    match StrChr(msg, '\n')
    case Some(at) => Some(msg[at + 1..])
    case None => None
  }

  /** What is printed is read back: command, route, and as much of the payload as was asked for. */
  lemma ParseEmitted(command: string, route: string, payload: string, size: nat)
    requires ' ' !in command && '\n' !in command && '\n' !in route
    ensures var msg, sent := Emit(command, route, payload, size), Cut(payload, size);
            (msg.None? <==> |command| + |route| + |sent| + 2 >= MSGSZ)
            && (msg.Some? ==> ParseCommand(msg.value) == Some(command) && ParseRoute(msg.value) == Some(route)
                              && ParsePayload(msg.value) == Some(sent))
  {
    hide StrChr, ParsePayload, Cut;
    var sent := Cut(payload, size);
    var msg := command + " " + route + "\n" + sent;
    PayloadBehind(command + " " + route, sent);
    var n := |command|;
    assert msg[..n] == command && msg[n + 1..] == route + "\n" + sent;
    FirstAt(msg, ' ', n);
    assert msg[n + 1..][..|route|] == route;
    FirstAt(msg[n + 1..], '\n', |route|);
    assert msg[n + 1..n + 1 + |route|] == route;
  }

  lemma FirstAt(s: string, c: char, k: nat)
    requires k < |s| && s[k] == c && c !in s[..k]
    ensures StrChr(s, c) == Some(k)
  {
    SkipTo(s, c, k);
  }

  // --------------------------------------------------- acknowledgements

  predicate IsSpace(c: char) {
    c == ' ' || '\t' <= c <= '\r'
  }

  /** strtol in base ten: white space, a sign, digits. */
  function Strtol(s: string): int {
    if s == "" then 0
    else if IsSpace(s[0]) then Strtol(s[1..])
    else if s[0] == '-' then 0 - Atoi(s[1..])
    else if s[0] == '+' then Atoi(s[1..])
    else Atoi(s)
  }

  predicate StartsWith(s: string, prefix: string) {
    |prefix| <= |s| && s[..|prefix|] == prefix
  }

  /** ducq_ack_to_state, as the number it returns. */
  function AckToState(msg: string): int {
    if StartsWith(msg, "ACK") then Code(OK) else
    match ParsePayload(msg)
    case None => Code(EMSGINV)
    case Some(payload) => if Strtol(payload) == 0 then Code(EMSGINV) else Strtol(payload)
  }

  /** Every state survives being sent as an acknowledgement. */
  lemma AckRoundTrip(state: State)
    ensures AckToState(AckText(state)) == Code(state)
  {
    if state == OK {
      assert "ACK"[..3] == "ACK";
    } else {
      assert Code(state) != 0;
      NackNumber(Code(state), Text(state));
    }
  }

  lemma NackNumber(n: nat, text: string)
    requires n != 0
    ensures AckToState("NACK *\n" + Print(n) + "\n" + text) == n
  {
    hide Print, Atoi, Strtol, ParsePayload;
    var rest := Print(n) + ("\n" + text);
    var msg := "NACK *\n" + Print(n) + "\n" + text;
    assert msg == "NACK *" + "\n" + rest;
    assert msg[0] != "ACK"[0];
    PayloadBehind("NACK *", rest);
    AtoiPrint(n, "\n" + text);
    StrtolOfDigits(rest);
  }

  lemma PayloadBehind(before: string, payload: string)
    requires '\n' !in before
    ensures ParsePayload(before + "\n" + payload) == Some(payload)
  {
    hide StrChr;
    var msg := before + "\n" + payload;
    assert msg[..|before|] == before && msg[|before| + 1..] == payload;
    FirstAt(msg, '\n', |before|);
  }

  lemma StrtolOfDigits(s: string)
    requires s != "" && IsDigit(s[0])
    ensures Strtol(s) == Atoi(s)
  {
  }

  // ---------------------------------------------------- parsing by strtok

  datatype Msg = Msg(command: Option<string>, route: Option<string>, payload: Option<string>)

  function DropLeading(s: string, c: char): (t: string)
    ensures t == "" || t[0] != c
  {
    if s != "" && s[0] == c then DropLeading(s[1..], c) else s
  }

  /** One strtok call on the text still to be read: the token, and the text left for the next call. */
  function Token(s: string, delimiter: Option<char>): (Option<string>, string) {
    var t := if delimiter.Some? then DropLeading(s, delimiter.value) else s;
    if t == "" then (None, "") else
    var k := if delimiter.Some? then Skip(t, delimiter.value) else |t|;
    (Some(t[..k]), if k < |t| then t[k + 1..] else "")
  }

  /** ducq_parse_msg on a whole message text. */
  function Parsed(msg: string): Msg {
    var (command, afterCommand) := Token(msg, Some(' '));
    var (route, afterRoute) := Token(afterCommand, Some('\n'));
    Msg(command, route, Token(afterRoute, None).0)
  }

  /** What the strchr parsers make of it. */
  function Read3(msg: string): Msg {
    Msg(ParseCommand(msg), ParseRoute(msg), ParsePayload(msg))
  }

  /** "command route\npayload" with nothing empty, and the first newline behind the route. */
  predicate Regular(msg: string) {
    match StrChr(msg, ' ')
    case None => false
    case Some(at) =>
      0 < at && '\n' !in msg[..at] &&
      match StrChr(msg[at + 1..], '\n')
      case None => false
      case Some(end) => 0 < end && at + end + 2 < |msg|
  }

  /** The two ways of parsing agree on regular messages, on "command ", and on nothing else but the empty text. */
  lemma ParsersAgree(msg: string)
    ensures Parsed(msg) == Read3(msg)
       <==> Regular(msg) || msg == ""
            || (|msg| > 1 && StrChr(msg, ' ') == Some(|msg| - 1) && '\n' !in msg)
  {
    hide Parsed, Read3, Regular;
    if msg == "" || msg[0] == ' ' || StrChr(msg, ' ').None? {
      AgreeWithoutCommand(msg);
    } else {
      AgreeWithCommand(msg, StrChr(msg, ' ').value);
    }
  }

  lemma AgreeWithoutCommand(msg: string)
    requires msg == "" || msg[0] == ' ' || StrChr(msg, ' ').None?
    ensures !Regular(msg) && (Parsed(msg) == Read3(msg) <==> msg == "")
  {
    hide ParseRoute, ParsePayload;
    if msg == "" {
      assert Parsed(msg) == Msg(None, None, None);
      assert ParseRoute(msg) == None && ParsePayload(msg) == None by { NoneInEmpty(); }
    } else if msg[0] == ' ' {
      FirstAt(msg, ' ', 0);
      var t := DropLeading(msg, ' ');
      assert t == "" || Skip(t, ' ') > 0;
    }
  }

  lemma NoneInEmpty()
    ensures ParseRoute("") == None && ParsePayload("") == None && ParseCommand("") == None
  {
  }

  lemma AgreeWithCommand(msg: string, at: nat)
    requires 0 < at && StrChr(msg, ' ') == Some(at)
    ensures Parsed(msg) == Read3(msg)
       <==> Regular(msg) || (|msg| > 1 && StrChr(msg, ' ') == Some(|msg| - 1) && '\n' !in msg)
  {
    hide ParsePayload, StrChr, Skip, Parsed;
    var after := msg[at + 1..];
    ParsedBehindCommand(msg, at);
    if after == "" {
      NoPayload(msg);
      NoneInEmpty();
    } else if StrChr(after, '\n').Some? {
      var end := StrChr(after, '\n').value;
      assert msg[at + 1..at + 1 + end] == after[..end];
      StrChrFacts(after, '\n');
      if end > 0 {
        PayloadAfterRoute(msg, at, end);
        NoPayload(msg);
        assert ParseRoute(msg) == Some(after[..end]);
        assert Read3(msg) == Msg(Some(msg[..at]), Some(after[..end]), ParsePayload(msg));
        assert Regular(msg) <==> '\n' !in msg[..at] && after[end + 1..] != "";
      } else {
        assert ParseRoute(msg) == Some(after[..end]) && after[..end] == "";
      }
    }
  }

  lemma StrChrFacts(s: string, c: char)
    ensures var at := StrChr(s, c); at.Some? ==> at.value < |s| && s[at.value] == c && c !in s[..at.value]
  {
  }

  /** What the strtok calls find once the command is there. */
  lemma ParsedBehindCommand(msg: string, at: nat)
    requires 0 < at && StrChr(msg, ' ') == Some(at)
    ensures var after, p := msg[at + 1..], Parsed(msg);
            p.command == Some(msg[..at])
            && (after == "" ==> p.route == None && p.payload == None)
            && (after != "" && StrChr(after, '\n').None? ==> p.route.Some?)
            && (p.route != Some(""))
            && (StrChr(after, '\n').Some? && StrChr(after, '\n').value > 0 ==>
                  var end := StrChr(after, '\n').value;
                  p.route == Some(after[..end])
                  && p.payload == if after[end + 1..] == "" then None else Some(after[end + 1..]))
  {
    hide StrChr, Skip;
    var after := msg[at + 1..];
    StrChrIsSkip(msg, ' ');
    StrChrIsSkip(after, '\n');
    assert msg[0] in msg[..at] && DropLeading(msg, ' ') == msg;
    assert Token(msg, Some(' ')) == (Some(msg[..at]), after);
    RouteTokenNotEmpty(after);
    if '\n' !in after {
      assert DropLeading(after, '\n') == after;
    } else if StrChr(after, '\n').value > 0 {
      var end := StrChr(after, '\n').value;
      assert after[0] in after[..end] && DropLeading(after, '\n') == after;
      var left := after[end + 1..];
      assert Token(after, Some('\n')) == (Some(after[..end]), left) && left[..|left|] == left;
    }
  }

  lemma StrChrIsSkip(s: string, c: char)
    ensures StrChr(s, c) == if c in s then Some(Skip(s, c)) else None
    ensures c !in s ==> Skip(s, c) == |s|
  {
    if c !in s {
      SkipTo(s, c, |s|);
    }
  }

  lemma NoPayload(msg: string)
    ensures ParsePayload(msg).None? <==> '\n' !in msg
  {
  }

  lemma RouteTokenNotEmpty(s: string)
    ensures Token(s, Some('\n')).0 != Some("")
  {
  }

  /** The payload is what follows the route, unless a newline in the command comes first. */
  lemma PayloadAfterRoute(msg: string, at: nat, end: nat)
    requires at + end + 1 < |msg| && msg[at] == ' ' && msg[at + 1 + end] == '\n'
    requires '\n' !in msg[at + 1..][..end]
    ensures ParsePayload(msg) == Some(msg[at + 1..][end + 1..]) <==> '\n' !in msg[..at]
  {
    var k := at + 1 + end;
    assert msg[..k] == msg[..at] + " " + msg[at + 1..][..end];
    assert msg[k + 1..] == msg[at + 1..][end + 1..];
    if '\n' !in msg[..at] {
      FirstAt(msg, '\n', k);
    } else {
      var j := StrChr(msg, '\n').value;
      assert '\n' in msg[..k] && '\n' !in msg[..j];
      assert j < k;
    }
  }

  // ------------------------------------------------- strtok in its buffer

  /** The C string at index at of the buffer is t. */
  ghost predicate IsCStr(buf: array<char>, at: nat, t: string)
    reads buf
  {
    at + |t| < buf.Length && buf[at + |t|] == NUL && NUL !in t && forall k :: 0 <= k < |t| ==> buf[at + k] == t[k]
  }

  /** A pointer into the buffer, or NULL, stands for this text. */
  ghost predicate Points(buf: array<char>, pointer: Option<nat>, text: Option<string>)
    reads buf
  {
    (pointer.Some? <==> text.Some?) && (text.Some? ==> IsCStr(buf, pointer.value, text.value))
  }

  /** The leading delimiters. */
  method SkipLeading(buf: array<char>, at: nat, delimiter: char, ghost t: string) returns (p: nat)
    requires IsCStr(buf, at, t) && delimiter != NUL
    ensures at <= p && IsCStr(buf, p, DropLeading(t, delimiter))
  {
    p := at;
    ghost var u := t;
    while buf[p] == delimiter
      invariant at <= p && IsCStr(buf, p, u) && DropLeading(u, delimiter) == DropLeading(t, delimiter)
      decreases buf.Length - p
    {
      u := u[1..];
      p := p + 1;
    }
  }

  /** The end of the token: the next delimiter, or the end of the string. */
  method FindEnd(buf: array<char>, at: nat, delimiter: Option<char>, ghost u: string) returns (p: nat)
    requires IsCStr(buf, at, u)
    ensures p == at + if delimiter.Some? then Skip(u, delimiter.value) else |u|
    ensures p <= at + |u| < buf.Length && (buf[p] == NUL <==> p == at + |u|)
  {
    p := at;
    ghost var i := 0;
    while buf[p] != NUL && !(delimiter.Some? && buf[p] == delimiter.value)
      invariant i <= |u| && p == at + i
      invariant delimiter.Some? ==> delimiter.value !in u[..i]
      decreases |u| - i
    {
      assert u[..i + 1] == u[..i] + [u[i]];
      i := i + 1;
      p := p + 1;
    }
    assert i < |u| ==> buf[at + i] == u[i] && u[i] in u;
    if delimiter.Some? {
      SkipTo(u, delimiter.value, i);
    }
  }

  /** One strtok call: it cuts the token off by overwriting the delimiter behind it. */
  method Strtok(buf: array<char>, at: nat, delimiter: Option<char>, ghost t: string)
    returns (token: Option<nat>, next: nat)
    requires IsCStr(buf, at, t) && delimiter != Some(NUL)
    modifies buf
    ensures Points(buf, token, Token(t, delimiter).0) && IsCStr(buf, next, Token(t, delimiter).1)
    ensures token.Some? ==> at <= token.value && token.value + |Token(t, delimiter).0.value| <= next
    ensures at <= next && forall k :: 0 <= k < buf.Length && (k < at || old(buf[k]) == NUL) ==> buf[k] == old(buf[k])
  {
    hide Skip, DropLeading, Token, IsCStr;
    var p := at;
    ghost var u := if delimiter.Some? then DropLeading(t, delimiter.value) else t;
    if delimiter.Some? {
      p := SkipLeading(buf, at, delimiter.value, t);
    }
    TokenIs(t, delimiter, u);
    CStrFacts(buf, p, u);
    if buf[p] == NUL {
      return None, p;
    }
    token := Some(p);
    p := FindEnd(buf, p, delimiter, u);
    ghost var i := p - token.value;
    CutNul(u, i);
    if buf[p] == NUL {
      CStrFacts(buf, token.value, u);
      return token, p;
    }
    CutAt(buf, p, u, i);
    next := p + 1;
  }

  lemma CStrFacts(buf: array<char>, at: nat, u: string)
    requires IsCStr(buf, at, u)
    ensures at + |u| < buf.Length && NUL !in u && (buf[at] == NUL <==> u == "")
    ensures IsCStr(buf, at + |u|, "")
  {
    assert u != "" ==> buf[at] == u[0] && u[0] in u;
  }

  /** A NUL written into a C string makes two of it. */
  method CutAt(buf: array<char>, p: nat, ghost u: string, ghost i: nat)
    requires i < |u| && i <= p && IsCStr(buf, p - i, u)
    modifies buf
    ensures IsCStr(buf, p - i, u[..i]) && IsCStr(buf, p + 1, u[i + 1..])
    ensures forall k :: 0 <= k < buf.Length && k != p ==> buf[k] == old(buf[k])
  {
    CutNul(u, i);
    buf[p] := NUL;
  }

  /** A token, once the leading delimiters are gone. */
  lemma TokenIs(t: string, delimiter: Option<char>, u: string)
    requires u == if delimiter.Some? then DropLeading(t, delimiter.value) else t
    ensures u == "" ==> Token(t, delimiter) == (None, "")
    ensures var k := if delimiter.Some? then Skip(u, delimiter.value) else |u|;
            u != "" ==> k <= |u| && Token(t, delimiter) == (Some(u[..k]), if k < |u| then u[k + 1..] else "")
  {
  }

  lemma CutNul(u: string, i: nat)
    requires i <= |u| && NUL !in u
    ensures NUL !in u[..i] && (i < |u| ==> NUL !in u[i + 1..]) && (i == |u| ==> u[..i] == u)
  {
  }

  /** The three calls in order leave command, route and payload as C strings in the buffer. */
  method DucqParseMsg(message: array<char>, ghost t: string)
    returns (command: Option<nat>, route: Option<nat>, payload: Option<nat>)
    requires IsCStr(message, 0, t)
    modifies message
    ensures Points(message, command, Parsed(t).command)
    ensures Points(message, route, Parsed(t).route)
    ensures Points(message, payload, Parsed(t).payload)
  {
    hide Token, Skip, DropLeading;
    var next;
    ghost var (first, afterCommand) := Token(t, Some(' '));
    ghost var (second, afterRoute) := Token(afterCommand, Some('\n'));
    command, next := Strtok(message, 0, Some(' '), t);
    route, next := Strtok(message, next, Some('\n'), afterCommand);
    payload, next := Strtok(message, next, None, afterRoute);
  }

  /** strchr on a C string in a buffer. */
  method FindChar(buf: array<char>, at: nat, c: char, ghost t: string) returns (r: Option<nat>)
    requires IsCStr(buf, at, t) && c != NUL
    ensures r == if c in t then Some(at + StrChr(t, c).value) else None
    ensures r.Some? ==> at <= r.value < at + |t| && buf[r.value] == c && c !in t[..r.value - at]
  {
    hide StrChr;
    var p := FindEnd(buf, at, Some(c), t);
    StrChrIsSkip(t, c);
    StrChrFacts(t, c);
    if buf[p] == NUL {
      return None;
    }
    return Some(p);
  }

  /** strcmp with a text, against zero. */
  method EqualTo(buf: array<char>, at: nat, s: string, ghost t: string) returns (equal: bool)
    requires IsCStr(buf, at, t) && IsText(s)
    ensures equal <==> t == s
  {
    var i := 0;
    while i < |s| && buf[at + i] == s[i]
      invariant i <= |s| && i <= |t| && t[..i] == s[..i]
    {
      assert s[i] in s;
      i := i + 1;
    }
    assert i < |t| ==> t[i] in t;
    return i == |s| && buf[at + i] == NUL;
  }

  /** ducq_parse_route in the buffer: where the route starts and ends. */
  method FindRoute(buf: array<char>, ghost t: string) returns (start: nat, end: Option<nat>)
    requires IsCStr(buf, 0, t)
    ensures end.None? <==> ParseRoute(t).None?
    ensures end.Some? ==> 0 < start <= end.value < |t| && t[start - 1] == ' ' && t[end.value] == '\n'
                          && '\n' !in t[start - 1..end.value] && ParseRoute(t) == Some(t[start..end.value])
  {
    hide StrChr, Skip, ParseRoute;
    StrChrIsSkip(t, ' ');
    StrChrFacts(t, ' ');
    var space := Some(0);
    if buf[0] != ' ' {
      space := FindChar(buf, 0, ' ', t);
    } else {
      FirstAt(t, ' ', 0);
    }
    if space.None? {
      RouteOf(t);
      return 0, None;
    }
    start := space.value + 1;
    ghost var rest := t[start..];
    CutNul(t, space.value);
    end := FindChar(buf, start, '\n', rest);
    StrChrIsSkip(rest, '\n');
    RouteOf(t);
  }

  /** ParseRoute, by positions. */
  lemma RouteOf(t: string)
    ensures ' ' !in t ==> ParseRoute(t).None?
    ensures ' ' in t ==>
              var at := StrChr(t, ' ').value; var rest := t[at + 1..];
              t[at] == ' '
              && ('\n' !in rest ==> ParseRoute(t).None?)
              && ('\n' in rest ==>
                    var end := at + 1 + StrChr(rest, '\n').value;
                    end < |t| && t[end] == '\n' && '\n' !in t[at..end] && ParseRoute(t) == Some(t[at + 1..end]))
  {
    hide StrChr, Skip;
    if ' ' in t {
      var at := StrChr(t, ' ').value;
      var rest := t[at + 1..];
      if '\n' in rest {
        var end := StrChr(rest, '\n').value;
        assert t[at..at + 1 + end] == [' '] + rest[..end];
      }
    }
  }
}
