/** The ducq_state enumeration, its numbers, and the texts sent with them. */
module States {

  datatype State =
    | OK | PROTOCOL | NACK | ERROR | ENULL | ESTDC | EMEMFAIL | EFILE | ECOMMLAYER | ECONNECT | ECONNCLOSED
    | EWRITE | EREAD | ECLOSE | ETIMEOUT | EMSGINV | EMSGSIZE | ENOCMD | EACK | ENOTFOUND | ENOIMPL | EMAX
    | ELUA | UNKNOWN

  function Code(s: State): (n: int)
    ensures 0 <= n <= 23
  {
    match s
    case OK => 0 case PROTOCOL => 1 case NACK => 2 case ERROR => 3 case ENULL => 4 case ESTDC => 5
    case EMEMFAIL => 6 case EFILE => 7 case ECOMMLAYER => 8 case ECONNECT => 9 case ECONNCLOSED => 10
    case EWRITE => 11 case EREAD => 12 case ECLOSE => 13 case ETIMEOUT => 14 case EMSGINV => 15
    case EMSGSIZE => 16 case ENOCMD => 17 case EACK => 18 case ENOTFOUND => 19 case ENOIMPL => 20
    case EMAX => 21 case ELUA => 22 case UNKNOWN => 23
  }

  /** The state with this number. */
  function FromCode(n: int): (s: State)
    requires 0 <= n <= 23
    ensures Code(s) == n
  {
    if n < 12 then
      if n < 6 then
        if n == 0 then OK else if n == 1 then PROTOCOL else if n == 2 then NACK else if n == 3 then ERROR
        else if n == 4 then ENULL else ESTDC
      else
        if n == 6 then EMEMFAIL else if n == 7 then EFILE else if n == 8 then ECOMMLAYER else if n == 9 then ECONNECT
        else if n == 10 then ECONNCLOSED else EWRITE
    else if n < 18 then
      if n == 12 then EREAD else if n == 13 then ECLOSE else if n == 14 then ETIMEOUT else if n == 15 then EMSGINV
      else if n == 16 then EMSGSIZE else ENOCMD
    else
      if n == 18 then EACK else if n == 19 then ENOTFOUND else if n == 20 then ENOIMPL else if n == 21 then EMAX
      else if n == 22 then ELUA else UNKNOWN
  }

  lemma FromOwnCode(s: State)
    ensures FromCode(Code(s)) == s
  {
  }

  function Text(s: State): string {
    match s
    case OK => "ok"
    case PROTOCOL => "protocol-layer message (not an error)"
    case NACK => "received NACK from server"
    case ERROR => "error"
    case ENULL => "null parameter"
    case ESTDC => "std c lib error"
    case EMEMFAIL => "os memory allocation failed"
    case EFILE => "os file io error"
    case ECOMMLAYER => "os communication layer error"
    case ECONNECT => "could not connect to server"
    case ECONNCLOSED => "connection closed"
    case EWRITE => "communication write error"
    case EREAD => "communication read error"
    case ECLOSE => "error closing connection"
    case ETIMEOUT => "timeout"
    case EMSGINV => "message invalid"
    case EMSGSIZE => "message too big"
    case ENOCMD => "command unknown"
    case EACK => "no ack received"
    case ENOTFOUND => "connection not found"
    case ENOIMPL => "not implemented yet"
    case EMAX => "collection reached maximum count"
    case ELUA => "lua error"
    case UNKNOWN => "unknown error"
  }
}
