/** The wire format of src/packet.c: three fixed layouts, their printers and their parsers. */
module Wire {
  import opened Words
  import opened LittleEndian
  import opened Errors

  const INIT_LEN: nat := 148
  const RESP_LEN: nat := 92
  const HEADER_LEN: nat := 16
  const TAG_LEN: nat := 16
  const DATA_MIN_LEN: nat := 32
  const MAX_PAYLOAD: nat := 1440
  const DATA_MAX_LEN: nat := 1472

  const TYPE_INIT: byte := 1
  const TYPE_RESP: byte := 2
  const TYPE_DATA: byte := 3
  const TYPE_KEEPALIVE: byte := 4

  type Bytes16 = s: Bytes | |s| == 16 witness Zeros(16)
  type Bytes28 = s: Bytes | |s| == 28 witness Zeros(28)
  type Bytes32 = s: Bytes | |s| == 32 witness Zeros(32)
  type Bytes48 = s: Bytes | |s| == 48 witness Zeros(48)

  datatype InitMsg = InitMsg(
    sender: u32, ephemeral: Bytes32, encStatic: Bytes48, encTimestamp: Bytes28, mac1: Bytes16, mac2: Bytes16)

  datatype RespMsg = RespMsg(
    sender: u32, receiver: u32, ephemeral: Bytes32, encNothing: Bytes16, mac1: Bytes16, mac2: Bytes16)

  datatype DataMsg = DataMsg(receiver: u32, counter: u64, ciphertext: Bytes, tag: Bytes16)

  datatype PacketType = Invalid | HandshakeInit | HandshakeResp | Data | Keepalive

  function PeekType(buf: Bytes): PacketType {
    if |buf| < 1 then Invalid
    else if buf[0] == TYPE_INIT then HandshakeInit
    else if buf[0] == TYPE_RESP then HandshakeResp
    else if buf[0] == TYPE_DATA then Data
    else if buf[0] == TYPE_KEEPALIVE then Keepalive
    else Invalid
  }

  // ---- the layouts, as byte strings ----

  function InitBytes(m: InitMsg): (b: Bytes)
    ensures |b| == INIT_LEN
  {
    [TYPE_INIT, 0, 0, 0] + LE32(m.sender) + m.ephemeral + m.encStatic + m.encTimestamp + m.mac1 + m.mac2
  }

  function RespBytes(m: RespMsg): (b: Bytes)
    ensures |b| == RESP_LEN
  {
    [TYPE_RESP, 0, 0, 0] + LE32(m.sender) + LE32(m.receiver) + m.ephemeral + m.encNothing + m.mac1 + m.mac2
  }

  function DataType(payload: nat): byte {
    if payload == 0 then TYPE_KEEPALIVE else TYPE_DATA
  }

  function DataBytes(m: DataMsg): (b: Bytes)
    ensures |b| == DATA_MIN_LEN + |m.ciphertext|
  {
    [DataType(|m.ciphertext|), 0, 0, 0] + LE32(m.receiver) + LE64(m.counter) + m.ciphertext + m.tag
  }

  // ---- the parsers ----

  function ParseInit(buf: Bytes): Result<InitMsg> {
    if |buf| != INIT_LEN then Err(EBADMSG)
    else if buf[0] != TYPE_INIT then Err(EBADMSG)
    else Ok(InitMsg(Read32(buf[4..8]), buf[8..40], buf[40..88], buf[88..116], buf[116..132], buf[132..148]))
  }

  function ParseResp(buf: Bytes): Result<RespMsg> {
    if |buf| != RESP_LEN then Err(EBADMSG)
    else if buf[0] != TYPE_RESP then Err(EBADMSG)
    else Ok(RespMsg(Read32(buf[4..8]), Read32(buf[8..12]), buf[12..44], buf[44..60], buf[60..76], buf[76..92]))
  }

  function ParseData(buf: Bytes): Result<DataMsg> {
    if |buf| < DATA_MIN_LEN then Err(EBADMSG)
    else if |buf| > DATA_MAX_LEN then Err(EMSGSIZE)
    else if buf[0] != TYPE_DATA && buf[0] != TYPE_KEEPALIVE then Err(EBADMSG)
    else Ok(DataMsg(Read32(buf[4..8]), Read64(buf[8..16]), buf[16..|buf| - 16], buf[|buf| - 16..]))
  }

  // ---- round trips ----

  /** Where everything is in an initiation: type 1, three zeros, and the fields. */
  lemma InitFields(m: InitMsg)
    ensures var b := InitBytes(m);
      && |b| == 148 && b[..4] == [1, 0, 0, 0] && PeekType(b) == HandshakeInit
      && b[4..8] == LE32(m.sender) && b[8..40] == m.ephemeral && b[40..88] == m.encStatic
      && b[88..116] == m.encTimestamp && b[116..132] == m.mac1 && b[132..148] == m.mac2
  {}

  lemma InitRoundTrip(m: InitMsg)
    ensures ParseInit(InitBytes(m)) == Ok(m)
  {
    InitFields(m);
    RoundTrip32(m.sender);
  }

  /** The same for a response, type 2. */
  lemma RespFields(m: RespMsg)
    ensures var b := RespBytes(m);
      && |b| == 92 && b[..4] == [2, 0, 0, 0] && PeekType(b) == HandshakeResp
      && b[4..8] == LE32(m.sender) && b[8..12] == LE32(m.receiver) && b[12..44] == m.ephemeral
      && b[44..60] == m.encNothing && b[60..76] == m.mac1 && b[76..92] == m.mac2
  {}

  lemma RespRoundTrip(m: RespMsg)
    ensures ParseResp(RespBytes(m)) == Ok(m)
  {
    RespFields(m);
    RoundTrip32(m.sender);
    RoundTrip32(m.receiver);
  }

  /** And for data, type 3, or 4 without a payload. */
  lemma DataFields(m: DataMsg)
    ensures var b := DataBytes(m);
      && |b| == 32 + |m.ciphertext| && b[..4] == [if m.ciphertext == [] then 4 else 3, 0, 0, 0]
      && PeekType(b) == (if m.ciphertext == [] then Keepalive else Data)
      && b[4..8] == LE32(m.receiver) && b[8..16] == LE64(m.counter)
      && b[16..|b| - 16] == m.ciphertext && b[|b| - 16..] == m.tag
  {}

  /** The data printer also prints payloads above 1440 bytes, which no parser accepts: the round
      trip holds exactly up to that length. */
  lemma DataRoundTrip(m: DataMsg)
    ensures ParseData(DataBytes(m)) == Ok(m) <==> |m.ciphertext| <= 1440
    ensures |m.ciphertext| > 1440 ==> ParseData(DataBytes(m)) == Err(EMSGSIZE)
  {
    DataFields(m);
    RoundTrip32(m.receiver);
    RoundTrip64(m.counter);
  }

  /** What the parsers ignore: the three reserved bytes. */
  function ZeroReserved(buf: Bytes): Bytes
    requires |buf| >= 4
  {
    [buf[0], 0, 0, 0] + buf[4..]
  }

  lemma InitPieces(buf: Bytes)
    requires |buf| == INIT_LEN
    ensures [buf[0], 0, 0, 0] + buf[4..8] + buf[8..40] + buf[40..88] + buf[88..116] + buf[116..132] + buf[132..148]
            == ZeroReserved(buf)
  {}

  lemma RespPieces(buf: Bytes)
    requires |buf| == RESP_LEN
    ensures [buf[0], 0, 0, 0] + buf[4..8] + buf[8..12] + buf[12..44] + buf[44..60] + buf[60..76] + buf[76..92]
            == ZeroReserved(buf)
  {}

  lemma DataPieces(buf: Bytes, t: byte)
    requires |buf| >= DATA_MIN_LEN
    ensures [t, 0, 0, 0] + buf[4..8] + buf[8..16] + buf[16..|buf| - 16] + buf[|buf| - 16..]
            == ZeroReserved(buf)[0 := t]
  {}

  lemma InitReprint(buf: Bytes)
    ensures ParseInit(buf).Ok? ==> InitBytes(ParseInit(buf).value) == ZeroReserved(buf)
    ensures ParseInit(buf).Ok? <==> |buf| == 148 && buf[0] == 1
    ensures ParseInit(buf).Ok? ==> PeekType(buf) == HandshakeInit
  {
    if ParseInit(buf).Ok? { InitPieces(buf); }
  }

  lemma RespReprint(buf: Bytes)
    ensures ParseResp(buf).Ok? ==> RespBytes(ParseResp(buf).value) == ZeroReserved(buf)
    ensures ParseResp(buf).Ok? <==> |buf| == 92 && buf[0] == 2
    ensures ParseResp(buf).Ok? ==> PeekType(buf) == HandshakeResp
  {
    if ParseResp(buf).Ok? { RespPieces(buf); }
  }

  /** Reprinting an accepted data packet zeroes the reserved bytes and replaces the type byte by
      the one its payload length calls for. */
  lemma DataReprint(buf: Bytes)
    ensures ParseData(buf).Ok? ==>
      DataBytes(ParseData(buf).value) == ZeroReserved(buf)[0 := DataType(|buf| - DATA_MIN_LEN)]
    ensures ParseData(buf).Ok? <==>
      32 <= |buf| <= 1472 && (buf[0] == 3 || buf[0] == 4)
    ensures ParseData(buf).Ok? ==> PeekType(buf) == Data || PeekType(buf) == Keepalive
  {
    if ParseData(buf).Ok? { DataPieces(buf, DataType(|buf| - DATA_MIN_LEN)); }
  }

  // ---- the printers, writing into the caller's buffer ----

  method SerializeInit(buf: array<byte>, m: InitMsg) returns (r: Result<nat>)
    modifies buf
    ensures buf.Length < INIT_LEN ==> r == Err(EINVAL) && buf[..] == old(buf[..])
    ensures buf.Length >= INIT_LEN ==> r == Ok(INIT_LEN) && buf[..] == InitBytes(m) + old(buf[INIT_LEN..])
  {
    if buf.Length < INIT_LEN { return Err(EINVAL); }
    CopyInto(buf, 0, Zeros(INIT_LEN));
    buf[0] := TYPE_INIT;
    assert buf[..4] == [TYPE_INIT, 0, 0, 0] && buf[INIT_LEN..] == old(buf[INIT_LEN..]);
    Le32Write(buf, 4, m.sender);
    ghost var done := [TYPE_INIT, 0, 0, 0] + LE32(m.sender);
    assert buf[..8] == done && buf[INIT_LEN..] == old(buf[INIT_LEN..]);
    Extend(buf, 8, m.ephemeral, done, INIT_LEN);
    done := done + m.ephemeral;
    Extend(buf, 40, m.encStatic, done, INIT_LEN);
    done := done + m.encStatic;
    Extend(buf, 88, m.encTimestamp, done, INIT_LEN);
    done := done + m.encTimestamp;
    Extend(buf, 116, m.mac1, done, INIT_LEN);
    done := done + m.mac1;
    Extend(buf, 132, m.mac2, done, INIT_LEN);
    assert buf[..] == buf[..INIT_LEN] + buf[INIT_LEN..];
    return Ok(INIT_LEN);
  }

  method SerializeResp(buf: array<byte>, m: RespMsg) returns (r: Result<nat>)
    modifies buf
    ensures buf.Length < RESP_LEN ==> r == Err(EINVAL) && buf[..] == old(buf[..])
    ensures buf.Length >= RESP_LEN ==> r == Ok(RESP_LEN) && buf[..] == RespBytes(m) + old(buf[RESP_LEN..])
  {
    if buf.Length < RESP_LEN { return Err(EINVAL); }
    CopyInto(buf, 0, Zeros(RESP_LEN));
    buf[0] := TYPE_RESP;
    assert buf[..4] == [TYPE_RESP, 0, 0, 0] && buf[RESP_LEN..] == old(buf[RESP_LEN..]);
    Le32Write(buf, 4, m.sender);
    ghost var done := [TYPE_RESP, 0, 0, 0] + LE32(m.sender);
    assert buf[..8] == done && buf[RESP_LEN..] == old(buf[RESP_LEN..]);
    Le32Write(buf, 8, m.receiver);
    assert buf[..12] == done + LE32(m.receiver) && buf[RESP_LEN..] == old(buf[RESP_LEN..]);
    done := done + LE32(m.receiver);
    Extend(buf, 12, m.ephemeral, done, RESP_LEN);
    done := done + m.ephemeral;
    Extend(buf, 44, m.encNothing, done, RESP_LEN);
    done := done + m.encNothing;
    Extend(buf, 60, m.mac1, done, RESP_LEN);
    done := done + m.mac1;
    Extend(buf, 76, m.mac2, done, RESP_LEN);
    assert buf[..] == buf[..RESP_LEN] + buf[RESP_LEN..];
    return Ok(RESP_LEN);
  }

  method DataHeader(buf: array<byte>, t: byte, receiver: u32, counter: u64)
    requires buf.Length >= HEADER_LEN
    modifies buf
    ensures buf[..HEADER_LEN] == [t, 0, 0, 0] + LE32(receiver) + LE64(counter)
    ensures buf[HEADER_LEN..] == old(buf[HEADER_LEN..])
  {
    CopyInto(buf, 0, Zeros(HEADER_LEN));
    buf[0] := t;
    assert buf[..4] == [t, 0, 0, 0] && buf[HEADER_LEN..] == old(buf[HEADER_LEN..]);
    Le32Write(buf, 4, receiver);
    assert buf[..8] == [t, 0, 0, 0] + LE32(receiver) && buf[HEADER_LEN..] == old(buf[HEADER_LEN..]);
    Le64Write(buf, 8, counter);
  }

  method SerializeData(buf: array<byte>, m: DataMsg) returns (r: Result<nat>)
    modifies buf
    ensures var total := DATA_MIN_LEN + |m.ciphertext|;
      if buf.Length < total then r == Err(ENOSPC) && buf[..] == old(buf[..])
      else r == Ok(total) && buf[..total] == DataBytes(m) && buf[total..] == old(buf[total..])
  {
    var total := HEADER_LEN + |m.ciphertext| + TAG_LEN;
    if buf.Length < total { return Err(ENOSPC); }
    DataHeader(buf, if |m.ciphertext| == 0 then TYPE_KEEPALIVE else TYPE_DATA, m.receiver, m.counter);
    ghost var header := buf[..HEADER_LEN];
    assert buf[total..] == buf[HEADER_LEN..][total - HEADER_LEN..];
    assert old(buf[total..]) == old(buf[HEADER_LEN..])[total - HEADER_LEN..];
    Payload(buf, m.ciphertext, header, total);
    Extend(buf, HEADER_LEN + |m.ciphertext|, m.tag, header + m.ciphertext, total);
    return Ok(total);
  }

  /** A keepalive has no payload to copy. */
  method Payload(buf: array<byte>, ciphertext: Bytes, ghost done: Bytes, ghost rest: nat)
    requires HEADER_LEN + |ciphertext| <= rest <= buf.Length && buf[..HEADER_LEN] == done
    modifies buf
    ensures buf[..HEADER_LEN + |ciphertext|] == done + ciphertext
    ensures buf[rest..] == old(buf[rest..])
  {
    if |ciphertext| > 0 {
      Extend(buf, HEADER_LEN, ciphertext, done, rest);
    }
  }

  /** One more field after the `at` bytes already printed; bytes from `rest` on are left alone. */
  method Extend(buf: array<byte>, at: nat, s: Bytes, ghost done: Bytes, ghost rest: nat)
    requires at + |s| <= rest <= buf.Length
    requires buf[..at] == done
    modifies buf
    ensures buf[..at + |s|] == done + s
    ensures buf[rest..] == old(buf[rest..])
  {
    CopyInto(buf, at, s);
    assert buf[..at + |s|] == old(buf[..at]) + s;
    assert buf[rest..] == buf[at + |s|..][rest - at - |s|..];
    assert old(buf[rest..]) == old(buf[at + |s|..])[rest - at - |s|..];
  }
}
