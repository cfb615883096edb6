/** What several modules share. */
module Basics {

  /** An optional value: a pointer that may be NULL, a mask that may be absent. */
  datatype Option<+T> = None | Some(value: T)

  const NUL: char := 0 as char

  /** The size of message buffers. */
  const MSGSZ: nat := 256

  function Concat<T>(parts: seq<seq<T>>): seq<T> {
    if parts == [] then [] else parts[0] + Concat(parts[1..])
  }

  lemma {:induction false} ConcatLast<T>(parts: seq<seq<T>>)
    requires parts != []
    ensures Concat(parts) == Concat(parts[..|parts| - 1]) + parts[|parts| - 1]
  {
    var n := |parts| - 1;
    if n == 0 {
      assert parts == [parts[0]] && parts[1..] == [];
    } else {
      assert parts[..n][1..] == parts[1..][..n - 1];
      ConcatLast(parts[1..]);
    }
  }
}
