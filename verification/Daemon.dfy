/** The event loop of src/main.c as a state machine.  Its events are a datagram and a packet read
    from the TUN device; clock, randomness and source endpoint come with the event, and what the
    daemon writes, issues, commits and encrypts is appended to a trace. */
module Daemon {
  import opened Words
  import opened LittleEndian
  import opened Errors
  import opened Wire
  import opened Peers
  import Replay
  import Handshake

  const BUFFER_SIZE: nat := 2048

  /** The primitives: the handshake suite on byte strings, and the AEAD of the data path, given a
      key, a 12-byte nonce and no additional data. */
  datatype Primitives = Primitives(
    suite: Handshake.Suite<Bytes>,
    encrypt: (Bytes, Bytes, Bytes) -> Option<(Bytes, Bytes)>,
    decrypt: (Bytes, Bytes, Bytes, Bytes) -> Option<Bytes>)

  /** The lengths the C prototypes fix: 32-byte keys, 12-byte stamps, 16-byte tags, stream
      encryption. */
  ghost predicate Sized(c: Primitives) {
    && (forall x :: |c.suite.pub(x)| == 32)
    && (forall k, ad, m :: |c.suite.seal(k, ad, m)| == |m| + 16)
    && |c.suite.empty| == 0
    && (forall sec, nsec :: |c.suite.stamp(sec, nsec)| == 12)
    && (forall k, fs :: |c.suite.mac(k, fs)| == 16)
    && (forall k, n, m :: c.encrypt(k, n, m).Some? ==>
      |c.encrypt(k, n, m).value.0| == |m| && |c.encrypt(k, n, m).value.1| == 16)
    && (forall k, n, ct, tag :: c.decrypt(k, n, ct, tag).Some? ==> |c.decrypt(k, n, ct, tag).value| == |ct|)
  }

  function NullSuite(): Handshake.Suite<Bytes> {
    Handshake.Suite([], [], (h, d) => h, (k, m) => k, [], t => t, [], x => Zeros(32), (p, x) => None,
                    (k, ad, m) => m + Zeros(16), (k, ad, m) => None, (sec, nsec) => Zeros(12), t => 0,
                    (k, fs) => Zeros(16))
  }

  function NullPrimitives(): Primitives {
    Primitives(NullSuite(), (k, n, m) => None, (k, n, ct, tag) => None)
  }

  lemma NullIsSized()
    ensures Sized(NullPrimitives())
  {}

  type Crypto = c: Primitives | Sized(c) ghost witness (NullIsSized(); NullPrimitives())

  datatype Config = Config(crypto: Crypto, hostPriv: Bytes, hostPub: Bytes, tunOpen: bool)

  /** `issued` is a history variable: how many times `next` has been incremented. */
  datatype State = State(peers: seq<Peer>, next: u32, issued: nat)

  datatype Event =
    | Datagram(src: Endpoint, bytes: Bytes, ephemeral: Bytes, now: int)
    | FromTun(packet: Bytes)

  /** The encryption a data packet comes from. */
  datatype Origin = Origin(serial: nat, counter: u64)

  datatype Effect =
    | TunWrite(serial: nat, peer: nat, packet: Bytes)
    | UdpSend(dest: Endpoint, datagram: Bytes, origin: Option<Origin>)
    | Issued(serial: nat, index: u32)
    | Committed(serial: nat, index: u32, counter: u64)
    | Encrypted(serial: nat, counter: u64)

  datatype Outcome = Outcome(state: State, effects: seq<Effect>)

  /** Four bytes put together, most significant first. */
  function BE32(a: byte, b: byte, c: byte, d: byte): (v: u32)
    ensures IsBE([a, b, c, d], v)
  {
    BE32Bytes(a, b, c, d);
    0x100_0000 * (a as int) + 0x1_0000 * (b as int) + 0x100 * (c as int) + d as int
  }

  lemma BE32Bytes(a: byte, b: byte, c: byte, d: byte)
    ensures IsBE([a, b, c, d], 0x100_0000 * (a as int) + 0x1_0000 * (b as int) + 0x100 * (c as int) + d as int)
  {
    var v: int := 0x100_0000 * (a as int) + 0x1_0000 * (b as int) + 0x100 * (c as int) + d as int;
    assert Pow256(0) == 1 && Pow256(1) == 0x100 && Pow256(2) == 0x1_0000 && Pow256(3) == 0x100_0000;
    assert v / 0x100_0000 == a && v / 0x1_0000 == 0x100 * a + b && v / 0x100 == 0x1_0000 * a + 0x100 * b + c;
  }

  /** The source address of an IPv4 header. */
  function SourceIp(packet: Bytes): (ip: u32)
    requires |packet| >= 20
    ensures IsBE(packet[12..16], ip)
  {
    assert packet[12..16] == [packet[12], packet[13], packet[14], packet[15]];
    BE32(packet[12], packet[13], packet[14], packet[15])
  }

  /** The destination address of an IPv4 header. */
  function DestIp(packet: Bytes): (ip: u32)
    requires |packet| >= 20
    ensures IsBE(packet[16..20], ip)
  {
    assert packet[16..20] == [packet[16], packet[17], packet[18], packet[19]];
    BE32(packet[16], packet[17], packet[18], packet[19])
  }

  function Directory(peers: seq<Peer>): seq<Handshake.Known<Bytes>> {
    seq(|peers|, i requires 0 <= i < |peers| => Handshake.Known(peers[i].publicKey, peers[i].lastHandshake))
  }

  function FromWire(m: InitMsg): Handshake.Initiation<Bytes> {
    Handshake.Initiation(m.sender, m.ephemeral, m.encStatic, m.encTimestamp, m.mac1)
  }

  /** The response built in reply to an accepted initiation, with its session keys. */
  function Reply(cfg: Config, e: Bytes, m: InitMsg, theirStatic: Bytes, index: u32, acc: Handshake.Accepted<Bytes>)
    : Result<(RespMsg, Handshake.Keys<Bytes>)>
  {
    var r := Handshake.ResponseFor(cfg.crypto.suite, e, m.ephemeral, theirStatic, index, m.sender, acc.chainingKey,
                                   acc.hash);
    if r.Err? then Err(r.error)
    else
      var (msg, keys) := r.value;
      Ok((RespMsg(msg.sender, msg.receiver, msg.ephemeral, msg.encNothing, msg.mac1, Zeros(16)), keys))
  }

  // ---- which datagrams are accepted ----

  datatype InitCase = InitCase(m: InitMsg, acc: Handshake.Accepted<Bytes>)

  /** An initiation that parses and passes every handshake check. */
  function AcceptedInit(cfg: Config, st: State, bytes: Bytes): (r: Option<InitCase>)
    ensures r.Some? ==> r.value.acc.peer < |st.peers|
    ensures r.Some? ==> PeekType(bytes) == HandshakeInit
  {
    var m := ParseInit(bytes);
    if m.Err? then None
    else
      var acc := Handshake.Consumed(cfg.crypto.suite, FromWire(m.value), cfg.hostPriv, cfg.hostPub,
                                    Directory(st.peers));
      if acc.Err? then None else Some(InitCase(m.value, acc.value))
  }

  datatype DataCase = DataCase(m: DataMsg, slot: Slot, plain: Bytes)

  /** A data packet that parses, names a session, passes its replay check and authenticates. */
  function AcceptedData(cfg: Config, st: State, bytes: Bytes): (r: Option<DataCase>)
    ensures r.Some? ==> FindSession(st.peers, r.value.m.receiver) == Some(r.value.slot)
    ensures r.Some? ==> HasSlot(st.peers, r.value.slot)
    ensures r.Some? ==> Replay.Admits(At(st.peers, r.value.slot).filter, r.value.m.counter)
    ensures r.Some? ==> |r.value.plain| == |r.value.m.ciphertext|
  {
    var m := ParseData(bytes);
    if m.Err? then None
    else
      var slot := FindSession(st.peers, m.value.receiver);
      if slot.None? then None
      else
        var s := At(st.peers, slot.value);
        if !Replay.Admits(s.filter, m.value.counter) then None
        else
          var plain := cfg.crypto.decrypt(s.recvKey, Nonce(m.value.counter), m.value.ciphertext, m.value.tag);
          if plain.None? then None else Some(DataCase(m.value, slot.value, plain.value))
  }

  // ---- the step function ----

  /** An index is used up even when no response can be built. */
  function OnInit(cfg: Config, st: State, src: Endpoint, e: Bytes, now: int, c: InitCase): Outcome
    requires c.acc.peer < |st.peers|
  {
    var p := c.acc.peer;
    var reply := Reply(cfg, e, c.m, st.peers[p].publicKey, st.next, c.acc);
    var st' := st.(next := Succ32(st.next), issued := st.issued + 1);
    if reply.Err? then Outcome(st', [Issued(st.issued, st.next)])
    else
      var (msg, keys) := reply.value;
      var peer := Rotate(st.peers[p], st.next, c.m.sender, keys.send, keys.recv, now, st.issued).(endpoint := src);
      Outcome(st'.(peers := st.peers[p := peer]), [Issued(st.issued, st.next), UdpSend(src, RespBytes(msg), None)])
  }

  /** The counter is committed and the endpoint follows before the source address is looked at. */
  function OnData(cfg: Config, st: State, src: Endpoint, c: DataCase): Outcome
    requires HasSlot(st.peers, c.slot) && |c.plain| == |c.m.ciphertext|
  {
    var s := At(st.peers, c.slot);
    var peers := Put(st.peers, c.slot, s.(filter := Replay.Commit(s.filter, c.m.counter)));
    var peers' := peers[c.slot.peer := peers[c.slot.peer].(endpoint := src)];
    Outcome(st.(peers := peers'),
            [Committed(s.serial, s.localIndex, c.m.counter)]
            + if |c.plain| >= 20 && cfg.tunOpen && Allows(peers'[c.slot.peer], SourceIp(c.plain))
              then [TunWrite(s.serial, c.slot.peer, c.plain)] else [])
  }

  /** The peer a TUN packet goes to, if it goes anywhere. */
  function Route(cfg: Config, st: State, packet: Bytes): (r: Option<nat>)
    ensures r.Some? ==> r.value < |st.peers| && st.peers[r.value].current.state == Established
  {
    if !cfg.tunOpen || |packet| < 20 then None
    else
      var p := FindByDest(st.peers, DestIp(packet));
      if p.Some? && st.peers[p.value].current.state == Established then p else None
  }

  /** The counter is used up even when encryption fails or the packet is too long to send. */
  function OnTun(cfg: Config, st: State, packet: Bytes, p: nat): Outcome
    requires p < |st.peers|
  {
    var s := st.peers[p].current;
    var counter := s.sendingCounter;
    var s' := s.(sendingCounter := Succ64(counter));
    var sealed := cfg.crypto.encrypt(s.sendKey, Nonce(counter), packet);
    Outcome(st.(peers := Put(st.peers, Slot(p, true), s')),
            [Encrypted(s.serial, counter)]
            + if sealed.Some? && DATA_MIN_LEN + |packet| <= BUFFER_SIZE
              then [UdpSend(st.peers[p].endpoint,
                            DataBytes(DataMsg(s.peerIndex, counter, sealed.value.0, sealed.value.1)),
                            Some(Origin(s.serial, counter)))]
              else [])
  }

  predicate Rejected(cfg: Config, st: State, ev: Event) {
    match ev
    case Datagram(_, bytes, _, _) => AcceptedInit(cfg, st, bytes).None? && AcceptedData(cfg, st, bytes).None?
    case FromTun(packet) => Route(cfg, st, packet).None?
  }

  function Step(cfg: Config, st: State, ev: Event): Outcome {
    match ev
    case Datagram(src, bytes, e, now) =>
      var init := AcceptedInit(cfg, st, bytes);
      if init.Some? then OnInit(cfg, st, src, e, now, init.value)
      else
        var data := AcceptedData(cfg, st, bytes);
        if data.Some? then OnData(cfg, st, src, data.value) else Outcome(st, [])
    case FromTun(packet) =>
      var p := Route(cfg, st, packet);
      if p.Some? then OnTun(cfg, st, packet, p.value) else Outcome(st, [])
  }

  lemma RejectedIdle(cfg: Config, st: State, ev: Event)
    requires Rejected(cfg, st, ev)
    ensures Step(cfg, st, ev) == Outcome(st, [])
  {}

  /** The last state of a run, and its trace. */
  function Run(cfg: Config, st: State, evs: seq<Event>): Outcome {
    if evs == [] then Outcome(st, [])
    else
      var before := Run(cfg, st, evs[..|evs| - 1]);
      var last := Step(cfg, before.state, evs[|evs| - 1]);
      Outcome(last.state, before.effects + last.effects)
  }
}
