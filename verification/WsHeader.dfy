/**
 The 14-byte WebSocket header buffer of inet_ws.c, and the header of sections 5.2
 and 5.3 of RFC 6455 it is to hold.  The mask sits right behind the length field,
 so it moves whenever the length changes its class.  Multi-byte loads and stores
 are those of a little-endian host.
 */
module WsHeader {
  import opened Bytes
  import opened Basics

  const HEADER_SIZE: nat := 14
  const MAX_LEN: nat := 0xFFFF_FFFF_FFFF_FFFF

  type Header = h: seq<byte> | |h| == 14 witness seq(14, _ => 0)
  type Mask = m: seq<byte> | |m| == 4 witness [0, 0, 0, 0]

  // ---------------------------------------------------------- RFC 6455, 5.2

  /** The smallest of the three length classes that holds n. */
  function LengthField(n: nat): (f: nat)
    ensures f <= 127
  {
    if n <= 125 then n else if n <= 0xFFFF then 126 else 127
  }

  function ExtendedLength(n: nat): seq<byte> {
    if n <= 125 then [] else if n <= 0xFFFF then BigEndian(n, 2) else BigEndian(n, 8)
  }

  /** The header of a frame: FIN and opcode, MASK and length, extended length, masking key. */
  function Encoded(first: byte, n: nat, mask: Option<Mask>): seq<byte>
    requires n <= MAX_LEN
  {
    [first, LengthField(n) + if mask.Some? then 0x80 else 0] + ExtendedLength(n)
    + if mask.Some? then mask.value else []
  }

  // ------------------------------------------------- reading a header buffer

  function Field(h: seq<byte>): (f: nat)
    requires |h| >= 2
    ensures f <= 127
  {
    h[1] % 0x80
  }

  predicate IsMasked(h: seq<byte>)
    requires |h| >= 2
  {
    h[1] >= 0x80
  }

  /** Where the mask starts. */
  function MaskAt(h: seq<byte>): (at: nat)
    requires |h| >= 2
    ensures at == 2 || at == 4 || at == 10
  {
    if Field(h) == 127 then 10 else if Field(h) == 126 then 4 else 2
  }

  function HdrLen(h: seq<byte>): (n: nat)
    requires |h| >= 2
    ensures 2 <= n <= 14
  {
    MaskAt(h) + if IsMasked(h) then 4 else 0
  }

  function GetLen(h: seq<byte>): nat
    requires |h| >= MaskAtLeast(h)
  {
    if Field(h) == 126 then FromBigEndian(h[2..4])
    else if Field(h) == 127 then FromBigEndian(h[2..10])
    else Field(h)
  }

  function MaskAtLeast(h: seq<byte>): nat {
    if |h| < 2 then 2 else MaskAt(h)
  }

  function GetMask(h: Header): (m: Mask) {
    h[MaskAt(h)..MaskAt(h) + 4]
  }

  // ------------------------------------------------ writing a header buffer

  function Put(h: seq<byte>, at: nat, s: seq<byte>): (r: seq<byte>)
    requires at + |s| <= |h|
    ensures |r| == |h|
  {
    h[..at] + s + h[at + |s|..]
  }

  /** Marks h as masked and puts the mask in its place. */
  function SetMask(h: Header, mask: Mask): Header {
    var marked := h[1 := Field(h) + 0x80];
    Put(marked, MaskAt(h), mask)
  }

  /** Stores the length and clears the mark. */
  function SetLenOnly(h: Header, n: nat): Header
    requires n <= MAX_LEN
  {
    Put(h[1 := LengthField(n)], 2, ExtendedLength(n))
  }

  /** ws_set_len: a mask that was there moves along. */
  function SetLen(h: Header, n: nat): Header
    requires n <= MAX_LEN
  {
    if IsMasked(h) then SetMask(SetLenOnly(h, n), GetMask(h)) else SetLenOnly(h, n)
  }

  function Unmark(h: Header): Header {
    h[1 := Field(h)]
  }

  // -------------------------------------------------------------- encoding

  /** The buffer starts with the standard's header for these values. */
  ghost predicate Encodes(h: Header, n: nat, mask: Option<Mask>)
    requires n <= MAX_LEN
  {
    var e := Encoded(h[0], n, mask);
    HdrLen(h) == |e| && h[..|e|] == e
  }

  /** The mask a buffer carries, if any. */
  function MaskOf(h: Header): Option<Mask> {
    if IsMasked(h) then Some(GetMask(h)) else None
  }

  /** What a buffer encodes is what is read back. */
  lemma EncodedIsRead(h: Header, n: nat, mask: Option<Mask>)
    requires n <= MAX_LEN && Encodes(h, n, mask)
    ensures GetLen(h) == n && MaskOf(h) == mask
    ensures HdrLen(h) == |Encoded(h[0], n, mask)|
  {
    hide BigEndian, FromBigEndian;
    var e := Encoded(h[0], n, mask);
    Within(h, e, 1, 2);
    assert h[1] == h[1..2][0] == e[1..2][0];
    Powers();
    if 125 < n <= 0xFFFF {
      Within(h, e, 2, 4);
      assert e[2..4] == BigEndian(n, 2);
      BigEndianValue(n, 2);
    } else if n > 0xFFFF {
      Within(h, e, 2, 10);
      assert e[2..10] == BigEndian(n, 8);
      BigEndianValue(n, 8);
    }
    if mask.Some? {
      Within(h, e, |e| - 4, |e|);
      assert e[|e| - 4..] == mask.value;
    }
  }

  lemma Within(h: seq<byte>, e: seq<byte>, from: nat, to: nat)
    requires |e| <= |h| && h[..|e|] == e && from <= to <= |e|
    ensures h[from..to] == e[from..to]
  {
    forall k | from <= k < to
      ensures h[k] == e[k]
    {
      assert h[k] == h[..|e|][k];
    }
  }

  /** Any buffer whatever holds the new length after ws_set_len, with the mask it had, at its new place. */
  lemma SetLenEncodes(h: Header, n: nat)
    requires n <= MAX_LEN
    ensures Encodes(SetLen(h, n), n, MaskOf(h)) && SetLen(h, n)[0] == h[0]
  {
    hide Encodes, SetLenOnly, SetMask;
    UnmaskedEncodes(h, n);
    if IsMasked(h) {
      SetMaskEncodes(SetLenOnly(h, n), n, None, GetMask(h));
    }
  }

  lemma UnmaskedEncodes(h: Header, n: nat)
    requires n <= MAX_LEN
    ensures Encodes(SetLenOnly(h, n), n, None) && SetLenOnly(h, n)[0] == h[0]
  {
    hide BigEndian;
  }

  /** Masking keeps the length. */
  lemma SetMaskEncodes(h: Header, n: nat, had: Option<Mask>, mask: Mask)
    requires n <= MAX_LEN && Encodes(h, n, had)
    ensures Encodes(SetMask(h, mask), n, Some(mask)) && SetMask(h, mask)[0] == h[0]
  {
    hide BigEndian;
  }

  lemma UnmarkEncodes(h: Header, n: nat, had: Option<Mask>)
    requires n <= MAX_LEN && Encodes(h, n, had)
    ensures Encodes(Unmark(h), n, None) && Unmark(h)[0] == h[0]
  {
    hide BigEndian;
  }

  /** No header that reads as the same length, with or without a mask as this one, is shorter. */
  lemma EncodingIsMinimal(first: byte, n: nat, mask: Option<Mask>, h: Header)
    requires n <= MAX_LEN && GetLen(h) == n && (IsMasked(h) <==> mask.Some?)
    ensures |Encoded(first, n, mask)| <= HdrLen(h)
  {
    hide BigEndian;
    Powers();
    if Field(h) == 126 {
      hide FromBigEndian;
      BigEndianInverse(h[2..4]);
    }
  }

  // ------------------------------------------------ any sequence of setters

  datatype Setting = LenIs(n: nat) | MaskIs(m: Mask)

  predicate Storable(ops: seq<Setting>) {
    forall op :: op in ops && op.LenIs? ==> op.n <= MAX_LEN
  }

  function Apply(h: Header, ops: seq<Setting>): Header
    requires Storable(ops)
  {
    if ops == [] then h else
    var before, last := Apply(h, ops[..|ops| - 1]), ops[|ops| - 1];
    match last
    case LenIs(n) => SetLen(before, n)
    case MaskIs(m) => SetMask(before, m)
  }

  function LastLen(ops: seq<Setting>): (n: nat)
    requires Storable(ops)
    ensures n <= MAX_LEN
  {
    if ops == [] then 0 else
    var last := ops[|ops| - 1];
    if last.LenIs? then last.n else LastLen(ops[..|ops| - 1])
  }

  function LastMask(ops: seq<Setting>): Option<Mask> {
    if ops == [] then None else
    var last := ops[|ops| - 1];
    if last.MaskIs? then Some(last.m) else LastMask(ops[..|ops| - 1])
  }

  /** A zeroed header always starts with the standard's encoding of the last length and the last mask set. */
  lemma {:induction false} SettersCompose(ops: seq<Setting>)
    requires Storable(ops)
    ensures var h := Apply(seq(14, _ => 0), ops);
            h[0] == 0 && Encodes(h, LastLen(ops), LastMask(ops))
            && GetLen(h) == LastLen(ops) && MaskOf(h) == LastMask(ops)
            && HdrLen(h) == |Encoded(0, LastLen(ops), LastMask(ops))|
  {
    var h := Apply(seq(14, _ => 0), ops);
    if ops == [] {
      assert h[..2] == [0, 0];
    } else {
      hide Encodes, GetLen, HdrLen, MaskOf;
      var n := |ops| - 1;
      SettersCompose(ops[..n]);
      var before := Apply(seq(14, _ => 0), ops[..n]);
      match ops[n]
      case LenIs(k) => SetLenEncodes(before, k);
      case MaskIs(m) => SetMaskEncodes(before, LastLen(ops[..n]), LastMask(ops[..n]), m);
    }
    EncodedIsRead(h, LastLen(ops), LastMask(ops));
  }

  // ------------------------------------------------------------------ code

  /** A multi-byte store. */
  method Store(hdr: array<byte>, at: nat, s: seq<byte>)
    requires at + |s| <= hdr.Length
    modifies hdr
    ensures hdr[..] == Put(old(hdr[..]), at, s)
  {
    var i := 0;
    while i < |s|
      invariant 0 <= i <= |s|
      invariant forall k :: 0 <= k < i ==> hdr[at + k] == s[k]
      invariant forall k :: 0 <= k < at || at + i <= k < hdr.Length ==> hdr[k] == old(hdr[k])
    {
      hdr[at + i] := s[i];
      i := i + 1;
    }
  }

  /** Swaps the two bytes of x; the result is stored the way the network has x. */
  method WsReorder16(x: nat) returns (res: nat)
    requires x <= 0xFFFF
    ensures res <= 0xFFFF && LittleEndian(res, 2) == BigEndian(x, 2)
  {
    var ptr := new byte[2];
    Store(ptr, 0, LittleEndian(x, 2));
    var tmp := ptr[0];
    ptr[0] := ptr[1];
    ptr[1] := tmp;
    res := FromLittleEndian(ptr[..]);
    Powers();
    FromLittleEndianBound(ptr[..]);
    forall i | 0 <= i < 2
      ensures ptr[i] == BigEndian(x, 2)[i]
    {
      LittleIsReversedBig(x, 2, 1 - i);
    }
    assert ptr[..] == BigEndian(x, 2);
  }

  /** Reverses the eight bytes of x, pair by pair. */
  method WsReorder64(x: nat) returns (res: nat)
    requires x <= MAX_LEN
    ensures res <= MAX_LEN && LittleEndian(res, 8) == BigEndian(x, 8)
  {
    hide LittleEndian, BigEndian, FromLittleEndian, Put;
    ghost var bytes := LittleEndian(x, 8);
    var ptr := new byte[8];
    PutAll(ptr[..], bytes);
    Store(ptr, 0, LittleEndian(x, 8));
    assert forall k :: 0 <= k < 8 ==> ptr[k] == ptr[..][k] == bytes[k];
    var i := 0;
    while i < 4
      invariant 0 <= i <= 4
      invariant forall k :: 0 <= k < i ==> ptr[k] == bytes[7 - k] && ptr[7 - k] == bytes[k]
      invariant forall k :: i <= k < 8 - i ==> ptr[k] == bytes[k]
    {
      var tmp := ptr[i];
      ptr[i] := ptr[7 - i];
      ptr[7 - i] := tmp;
      i := i + 1;
    }
    res := FromLittleEndian(ptr[..]);
    Powers();
    FromLittleEndianBound(ptr[..]);
    forall k | 0 <= k < 8
      ensures ptr[k] == BigEndian(x, 8)[k]
    {
      LittleIsReversedBig(x, 8, 7 - k);
    }
    assert ptr[..] == BigEndian(x, 8);
  }

  lemma PutAll(b: seq<byte>, s: seq<byte>)
    requires |b| == |s|
    ensures Put(b, 0, s) == s
  {
  }

  /** Reading: the load is little-endian, the reordering makes it the number the network bytes stand for. */
  method WsGetLen(hdr: array<byte>) returns (len: nat)
    requires hdr.Length >= HEADER_SIZE
    ensures len == GetLen(hdr[..14])
  {
    ghost var h := hdr[..14];
    var field := hdr[1] % 0x80;
    if field == 126 {
      LoadedBound(hdr[2..4]);
      len := WsReorder16(FromLittleEndian(hdr[2..4]));
      assert h[2..4] == hdr[2..4];
      Reordered(hdr[2..4], len);
    } else if field == 127 {
      LoadedBound(hdr[2..10]);
      len := WsReorder64(FromLittleEndian(hdr[2..10]));
      assert h[2..10] == hdr[2..10];
      Reordered(hdr[2..10], len);
    } else {
      len := field;
    }
  }

  lemma LoadedBound(s: seq<byte>)
    ensures |s| == 2 ==> FromLittleEndian(s) <= 0xFFFF
    ensures |s| == 8 ==> FromLittleEndian(s) <= MAX_LEN
  {
    Powers();
    FromLittleEndianBound(s);
  }

  /** A reordered load is the big-endian value. */
  lemma Reordered(s: seq<byte>, len: nat)
    requires LittleEndian(len, |s|) == BigEndian(FromLittleEndian(s), |s|) && len < Power256(|s|)
    ensures len == FromBigEndian(s)
  {
    var k := |s|;
    FromLittleEndianBound(s);
    forall i | 0 <= i < k
      ensures BigEndian(len, k)[i] == s[i]
    {
      LittleIsReversedBig(len, k, k - 1 - i);
      LittleIsReversedBig(FromLittleEndian(s), k, i);
    }
    assert BigEndian(len, k) == s;
    BigEndianValue(len, k);
  }

  /** Where the mask is, as an index into the buffer. */
  method WsGetMsk(hdr: array<byte>) returns (at: nat)
    requires hdr.Length >= HEADER_SIZE
    ensures at == MaskAt(hdr[..14]) && hdr[at..at + 4] == GetMask(hdr[..14])
  {
    var len := hdr[1] % 0x80;
    at := 2;
    if len == 127 {
      at := at + 8;
    } else if len == 126 {
      at := at + 2;
    }
  }

  method WsSetMsk(hdr: array<byte>, mask: Mask)
    requires hdr.Length >= HEADER_SIZE
    modifies hdr
    ensures hdr[..14] == SetMask(old(hdr[..14]), mask) && hdr[14..] == old(hdr[14..])
  {
    hide Put;
    ghost var h := hdr[..];
    if hdr[1] < 0x80 {
      hdr[1] := hdr[1] + 0x80;
    }
    ghost var marked := hdr[..];
    assert marked[..14] == h[..14][1 := Field(h[..14]) + 0x80] && marked[14..] == h[14..];
    var at := WsGetMsk(hdr);
    Store(hdr, at, mask);
    PutInFront(marked, at, mask, 14);
    assert hdr[..14] == hdr[..][..14] && hdr[14..] == hdr[..][14..];
  }

  lemma PutInFront(b: seq<byte>, at: nat, s: seq<byte>, n: nat)
    requires at + |s| <= n <= |b|
    ensures Put(b, at, s)[..n] == Put(b[..n], at, s) && Put(b, at, s)[n..] == b[n..]
  {
  }

  lemma PutNothing(b: seq<byte>, at: nat)
    requires at <= |b|
    ensures Put(b, at, []) == b
  {
  }

  method WsSetLen(hdr: array<byte>, len: nat)
    requires hdr.Length >= HEADER_SIZE && len <= MAX_LEN
    modifies hdr
    ensures hdr[..14] == SetLen(old(hdr[..14]), len) && hdr[14..] == old(hdr[14..])
  {
    hide BigEndian, LittleEndian, Put;
    var isMasked := hdr[1] >= 0x80;
    var at := WsGetMsk(hdr);
    var mask := hdr[at..at + 4];
    ghost var h, behind, field: byte := hdr[..14], hdr[14..], LengthField(len);
    ghost var marked := hdr[..][1 := field];
    assert marked[..14] == h[1 := field] && marked[14..] == behind;
    PutInFront(marked, 2, ExtendedLength(len), 14);
    if len > 0xFFFF {
      hdr[1] := 127;
      assert hdr[..] == marked;
      var x := WsReorder64(len);
      Store(hdr, 2, LittleEndian(x, 8));
    } else if len > 125 {
      hdr[1] := 126;
      assert hdr[..] == marked;
      var x := WsReorder16(len);
      Store(hdr, 2, LittleEndian(x, 2));
    } else {
      hdr[1] := len;
      assert hdr[..] == marked;
      PutNothing(marked, 2);
    }
    assert hdr[..14] == hdr[..][..14] == SetLenOnly(h, len) && hdr[14..] == hdr[..][14..] == behind;
    if isMasked {
      WsSetMsk(hdr, mask);
    }
  }

  method WsGetHdrLen(hdr: array<byte>) returns (len: nat)
    requires hdr.Length >= HEADER_SIZE
    ensures len == HdrLen(hdr[..14])
  {
    len := 2;
    if hdr[1] % 0x80 == 126 {
      len := len + 2;
    } else if hdr[1] % 0x80 == 127 {
      len := len + 8;
    }
    if hdr[1] >= 0x80 {
      len := len + 4;
    }
  }

  // --------------------------------------------------------------- masking

  /** Section 5.3: octet i of the payload is combined with octet i mod 4 of the key. */
  function Masked(mask: Mask, s: seq<byte>): (t: seq<byte>)
    ensures |t| == |s|
  {
    seq(|s|, i requires 0 <= i < |s| => XorByte(s[i], mask[i % 4]))
  }

  /** Masking twice with the same key gives the payload back. */
  lemma MaskedTwice(mask: Mask, s: seq<byte>)
    ensures Masked(mask, Masked(mask, s)) == s
  {
    hide XorByte;
    forall i | 0 <= i < |s|
      ensures Masked(mask, Masked(mask, s))[i] == s[i]
    {
      XorTwice(s[i], mask[i % 4]);
    }
  }

  method WsMaskMessage(mask: Mask, buf: array<byte>, at: nat, len: nat)
    requires at + len <= buf.Length
    modifies buf
    ensures buf[..] == Put(old(buf[..]), at, Masked(mask, old(buf[at..at + len])))
  {
    hide XorByte;
    ghost var s := buf[at..at + len];
    var i := 0;
    while i < len
      invariant 0 <= i <= len
      invariant forall k :: 0 <= k < i ==> buf[at + k] == XorByte(s[k], mask[k % 4])
      invariant forall k :: 0 <= k < at || at + i <= k < buf.Length ==> buf[k] == old(buf[k])
    {
      assert buf[at + i] == s[i];
      buf[at + i] := XorByte(buf[at + i], mask[i % 4]);
      i := i + 1;
    }
    assert buf[at..at + len] == Masked(mask, s);
  }
}
