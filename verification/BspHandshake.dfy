/** The two inbound BSP v2 handshake messages, each of one fixed length. */
module BspHandshake {
  import opened Results
  import opened Bytes
  import opened BspWire

  const LEN_CLIENT_HELLO: int := 64
  const LEN_CLIENT_AUTH: int := 32
  const MAGIC: seq<u8> := [0x42, 0x53, 0x50, 0x32]
  const VERSION_MAJOR: u8 := 2
  const VERSION_MINOR: u8 := 0

  datatype ClientHello = ClientHello(chainCounter: u64, clientNonce: Bytes32, keySelector: Bytes16)

  datatype ClientAuth = ClientAuth(clientConfirm: Bytes32)

  /** The checked preamble: magic, both versions, reserved, in that order. */
  function PreambleFault(bytes: seq<u8>): (fault: Option<BspError>)
    requires |bytes| >= 8
  {
    if bytes[..4] != MAGIC then Some(BadMagic) else
    if bytes[4] != VERSION_MAJOR then Some(UnsupportedVersionMajor) else
    if bytes[5] != VERSION_MINOR then Some(UnsupportedVersionMinor) else
    if U16Be(bytes[6..8]) != 0 then Some(ReservedFieldNonZero) else None
  }

  function HelloOf(bytes: seq<u8>): (r: Result<ClientHello, BspError>) {
    if |bytes| != LEN_CLIENT_HELLO then Err(ClientHelloLengthMismatch) else
    match PreambleFault(bytes)
    case Some(fault) => Err(fault)
    case None => Ok(ClientHello(U64Be(bytes[8..16]), bytes[16..48], bytes[48..64]))
  }

  function AuthOf(bytes: seq<u8>): (r: Result<ClientAuth, BspError>) {
    if |bytes| != LEN_CLIENT_AUTH then Err(ClientAuthLengthMismatch) else Ok(ClientAuth(bytes))
  }

  method CheckPreamble(reader: FieldReader) returns (r: Result<(), BspError>)
    requires reader.Valid() && |reader.Rest()| == LEN_CLIENT_HELLO
    modifies reader
    ensures reader.Valid()
    ensures r == match PreambleFault(old(reader.Rest())) case Some(fault) => Err(fault) case None => Ok(())
    ensures r.Ok? ==> reader.Rest() == old(reader.Rest())[8..]
  {
    hide U16Be;
    ghost var bytes := reader.Rest();
    var magic := reader.Take(4);
    if magic.value != MAGIC {
      return Err(BadMagic);
    }
    var major := reader.TakeU8();
    if major.value != VERSION_MAJOR {
      return Err(UnsupportedVersionMajor);
    }
    var minor := reader.TakeU8();
    if minor.value != VERSION_MINOR {
      return Err(UnsupportedVersionMinor);
    }
    var reserved := reader.TakeU16();
    assert bytes[4..][1..][1..] == bytes[6..] && bytes[6..][..2] == bytes[6..8] && bytes[6..][2..] == bytes[8..];
    if reserved.value != 0 {
      return Err(ReservedFieldNonZero);
    }
    return Ok(());
  }

  method DecodeHello(bytes: Slice) returns (r: Result<ClientHello, BspError>)
    ensures r == HelloOf(bytes)
  {
    hide U16Be, U64Be, PreambleFault;
    if |bytes| != LEN_CLIENT_HELLO {
      return Err(ClientHelloLengthMismatch);
    }
    var reader := new FieldReader(bytes);
    var _ :- CheckPreamble(reader);
    var chainCounter := reader.TakeU64();
    var clientNonce := reader.Take(32);
    var keySelector := reader.Take(16);
    assert bytes[8..][..8] == bytes[8..16] && bytes[8..][8..] == bytes[16..];
    assert bytes[16..][..32] == bytes[16..48] && bytes[16..][32..] == bytes[48..];
    assert bytes[48..][..16] == bytes[48..64];
    return Ok(ClientHello(chainCounter.value, clientNonce.value, keySelector.value));
  }

  method DecodeAuth(bytes: Slice) returns (r: Result<ClientAuth, BspError>)
    ensures r == AuthOf(bytes)
  {
    if |bytes| != LEN_CLIENT_AUTH {
      return Err(ClientAuthLengthMismatch);
    }
    var reader := new FieldReader(bytes);
    var clientConfirm := reader.Take(32);
    assert bytes[..32] == bytes;
    return Ok(ClientAuth(clientConfirm.value));
  }

  function HelloBytes(hello: ClientHello): (bytes: seq<u8>)
    ensures |bytes| == LEN_CLIENT_HELLO
  {
    MAGIC + [VERSION_MAJOR, VERSION_MINOR] + BeBytes(0, 2) + BeBytes(hello.chainCounter, 8)
    + hello.clientNonce + hello.keySelector
  }

  /** Exactly one byte string decodes to each hello. */
  lemma HelloCanonical(bytes: seq<u8>, hello: ClientHello)
    ensures HelloOf(bytes) == Ok(hello) <==> bytes == HelloBytes(hello)
  {
    hide U16Be, U64Be, BeBytes;
    U64BeBytes(hello.chainCounter);
    U16BeBytes(0);
    var s := HelloBytes(hello);
    assert s[..4] == MAGIC && s[6..8] == BeBytes(0, 2) && s[8..16] == BeBytes(hello.chainCounter, 8);
    assert s[16..48] == hello.clientNonce && s[48..64] == hello.keySelector;
    if HelloOf(bytes) == Ok(hello) {
      assert bytes == bytes[..4] + [bytes[4], bytes[5]] + bytes[6..8] + bytes[8..16] + bytes[16..48] + bytes[48..64];
    }
  }
}
