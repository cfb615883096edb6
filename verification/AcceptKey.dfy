/** The handshake answer of section 4.2.2 of RFC 6455: base64 of the SHA-1 of key and GUID. */
module AcceptKey {
  import opened Bytes
  import opened Basics
  import Sha1Spec
  import Sha1
  import Base64

  datatype WsError =
    | WsOk
    | WsBase64Null
    | WsBase64OutLen
    | WsSha1Null
    | WsSha1InLen
    | WsSha1State
    | WsNullParam
    | WsInLen

  const WS_GUID: string := "258EAFA5-E914-47DA-" + "95CA-C5AB0DC85B11"
  const BUFFER_SIZE: nat := 60

  function Sha1ErrToWsErr(code: int): WsError {
    if code == 1 then WsSha1Null else if code == 2 then WsSha1InLen else if code == 3 then WsSha1State else WsOk
  }

  function Base64ErrToWsErr(code: int): WsError {
    if code == -1 then WsBase64Null else if code == -2 then WsBase64OutLen else WsOk
  }

  predicate IsBytes(s: string) {
    forall i :: 0 <= i < |s| ==> s[i] as int < 0x100
  }

  function ToBytes(s: string): (b: seq<byte>)
    requires IsBytes(s)
    ensures |b| == |s|
  {
    seq(|s|, i requires 0 <= i < |s| => s[i] as int)
  }

  lemma GuidFacts()
    ensures |WS_GUID| == 36 && IsBytes(WS_GUID)
  {
  }

  /** What the server must answer to a key. */
  function Accept(key: string): (answer: string)
    requires IsBytes(key)
  {
    GuidFacts();
    Base64.Encode(Sha1Spec.Digest(ToBytes(key + WS_GUID)))
  }

  /** A client can take the digest back out of the answer and compare it with its own. */
  lemma AcceptCarriesDigest(key: string)
    requires IsBytes(key)
    ensures IsBytes(key + WS_GUID)
    ensures |Accept(key)| == 28 && Base64.Decode(Accept(key)) == Sha1Spec.Digest(ToBytes(key + WS_GUID))
  {
    hide Sha1Spec.Digest, Base64.Encode;
    GuidFacts();
    var d := Sha1Spec.Digest(ToBytes(key + WS_GUID));
    Base64.DecodeEncode(d);
    Base64.EncodeLength(d);
  }

  /** The "%s%s" print of key and GUID; only its length matters when it does not fit. */
  method PrintKey(key: string, buffer: array<byte>) returns (n: nat)
    requires IsBytes(key) && IsBytes(key + WS_GUID) && buffer.Length == 62
    modifies buffer
    ensures n == |key| + 36
    ensures n == BUFFER_SIZE ==> buffer[..BUFFER_SIZE] == ToBytes(key + WS_GUID)
  {
    GuidFacts();
    var text := key + WS_GUID;
    n := |text|;
    var i := 0;
    while i < n && i < 61
      invariant 0 <= i <= n && i <= 61
      invariant forall k :: 0 <= k < i ==> buffer[k] == text[k] as int
    {
      buffer[i] := text[i] as int;
      i := i + 1;
    }
    buffer[i] := 0;
  }

  /** Reset, one Input, Result: the sha1 section. */
  method HashBuffer(buffer: array<byte>, sha1Result: array<byte>) returns (code: int)
    requires buffer.Length >= BUFFER_SIZE && sha1Result.Length == 20 && buffer != sha1Result
    modifies sha1Result
    ensures code == 0 && sha1Result[..] == Sha1Spec.Digest(buffer[..BUFFER_SIZE])
  {
    hide Sha1Spec.Digest, Sha1Spec.Chain, Sha1Spec.Pad, Sha1.Context.Counts, Sha1.Context.Absorbed, Sha1.Context.HashWords;
    ghost var text := buffer[..BUFFER_SIZE];
    var sha1 := new Sha1.Context();
    code := sha1.Reset();
    if code != 0 {
      return;
    }
    code := sha1.Input(buffer, BUFFER_SIZE);
    if code != 0 {
      return;
    }
    assert [] + text == text;
    code := sha1.Result(sha1Result);
    assert sha1Result[20..] == [];
  }

  method WsMakeAcceptKey(clientKey: Option<string>, result: array?<char>, len: nat) returns (error: WsError)
    requires clientKey.Some? ==> IsBytes(clientKey.value)
    requires len < 0x8000_0000 && (result != null ==> len <= result.Length)
    modifies result
    ensures error == WsNullParam <==> clientKey.None? || result == null
    ensures clientKey.Some? && result != null ==>
              error == if |clientKey.value| != 24 then WsInLen else if len < 29 then WsBase64OutLen else WsOk
    ensures error == WsOk ==> result[..] == Accept(clientKey.value) + [0 as char] + old(result[29..])
    ensures error != WsOk && result != null ==> result[..] == old(result[..])
  {
    hide Sha1Spec.Digest, Base64.Encode;
    if clientKey.None? || result == null {
      return WsNullParam;
    }
    GuidFacts();
    var buffer := new byte[62](_ => 0);
    var n := PrintKey(clientKey.value, buffer);
    if n != BUFFER_SIZE {
      return WsInLen;
    }
    var sha1Result := new byte[20](_ => 0);
    var code := HashBuffer(buffer, sha1Result);
    if code != 0 {
      return Sha1ErrToWsErr(code);
    }
    assert sha1Result[..20] == sha1Result[..];
    Base64.EncodeLength(sha1Result[..20]);
    code := Base64.Base64Encode(sha1Result, 20, result, len);
    if code != 0 {
      return Base64ErrToWsErr(code);
    }
    return WsOk;
  }
}
