/** The loop of src/main.c step by step, on the peer table updated in place, proved to do what the
    step function of module Daemon says. */
module EventLoop {
  import opened Words
  import opened LittleEndian
  import opened Errors
  import opened Wire
  import opened Peers
  import opened Daemon
  import Replay
  import Handshake

  /** The fields of a response have the sizes its wire layout needs. */
  lemma ResponseSizes(c: Crypto, e: Bytes, ephemeral: Bytes, theirStatic: Bytes, i: u32, j: u32, ck: Bytes, h: Bytes)
    ensures
      var r := Handshake.ResponseFor(c.suite, e, ephemeral, theirStatic, i, j, ck, h);
      r.Ok? ==> |r.value.0.ephemeral| == 32 && |r.value.0.encNothing| == 16 && |r.value.0.mac1| == 16
  {}

  class VpnDaemon {
    const cfg: Config
    const table: PeerTable
    var issued: nat
    var trace: seq<Effect>

    ghost function View(): State
      reads this, table
    {
      State(table.peers, table.nextLocalIndex, issued)
    }

    constructor (cfg: Config, table: PeerTable)
      ensures this.cfg == cfg && this.table == table && issued == 0 && trace == []
    {
      this.cfg := cfg;
      this.table := table;
      issued := 0;
      trace := [];
    }

    /** Runs through the events in order. */
    method Poll(events: seq<Event>)
      modifies this, table
      ensures View() == Run(cfg, old(View()), events).state
      ensures trace == old(trace) + Run(cfg, old(View()), events).effects
    {
      hide Step;
      assert events[..0] == [];
      for i := 0 to |events|
        invariant View() == Run(cfg, old(View()), events[..i]).state
        invariant trace == old(trace) + Run(cfg, old(View()), events[..i]).effects
      {
        assert events[..i + 1][..i] == events[..i];
        match events[i] {
          case Datagram(src, bytes, e, now) => OnUdp(src, bytes, e, now);
          case FromTun(packet) => OnTunReadable(packet);
        }
      }
      assert events[..|events|] == events;
    }

    method OnUdp(src: Endpoint, bytes: Bytes, e: Bytes, now: int)
      modifies this, table
      ensures View() == Step(cfg, old(View()), Datagram(src, bytes, e, now)).state
      ensures trace == old(trace) + Step(cfg, old(View()), Datagram(src, bytes, e, now)).effects
    {
      InitReprint(bytes);
      DataReprint(bytes);
      var ptype := PeekType(bytes);
      if ptype == HandshakeInit {
        OnHandshakeInit(src, bytes, e, now);
      } else if ptype == Data || ptype == Keepalive {
        OnTransport(src, bytes);
      }
    }

    method OnHandshakeInit(src: Endpoint, bytes: Bytes, e: Bytes, now: int)
      modifies this, table
      ensures
        var c := AcceptedInit(cfg, old(View()), bytes);
        var out := if c.Some? then OnInit(cfg, old(View()), src, e, now, c.value) else Outcome(old(View()), []);
        View() == out.state && trace == old(trace) + out.effects
    {
      var parsed := ParseInit(bytes);
      if parsed.Err? { return; }
      var m := parsed.value;
      var acc := Handshake.ConsumeInitiation(cfg.crypto.suite, FromWire(m), cfg.hostPriv, cfg.hostPub,
                                             Directory(table.peers));
      if acc.Err? { return; }
      hide Handshake.Consumed;
      Respond(src, e, now, m, acc.value);
    }

    /** The table's search by key is the lookup an initiation is checked with. */
    method FindByStatic(key: Bytes) returns (r: Option<nat>)
      ensures r == Handshake.Find(Directory(table.peers), key)
    {
      r := table.FindByPubkey(key);
      var known := Directory(table.peers);
      assert forall i | 0 <= i < |known| :: known[i].publicKey == table.peers[i].publicKey;
    }

    /** The branch taken by an accepted initiation. */
    method Respond(src: Endpoint, e: Bytes, now: int, m: InitMsg, acc: Handshake.Accepted<Bytes>)
      requires acc.peer < |table.peers|
      modifies this, table
      ensures
        var out := OnInit(cfg, old(View()), src, e, now, InitCase(m, acc));
        View() == out.state && trace == old(trace) + out.effects
    {
      var serial := issued;
      var myIndex := table.IssueIndex();
      issued := issued + 1;
      trace := trace + [Issued(serial, myIndex)];
      var r := Handshake.CreateResponse(cfg.crypto.suite, e, m.ephemeral, table.peers[acc.peer].publicKey, myIndex,
                                        m.sender, acc.chainingKey, acc.hash);
      ResponseSizes(cfg.crypto, e, m.ephemeral, table.peers[acc.peer].publicKey, myIndex, m.sender, acc.chainingKey,
                    acc.hash);
      hide Handshake.ResponseFor, RespBytes, Sized;
      if r.Ok? {
        var (msg, keys) := r.value;
        var resp := new byte[RESP_LEN](i => 0);
        var wire := RespMsg(msg.sender, msg.receiver, msg.ephemeral, msg.encNothing, msg.mac1, Zeros(16));
        var len := SerializeResp(resp, wire);
        assert resp[..] == RespBytes(wire);
        table.InitSession(acc.peer, myIndex, m.sender, keys.send, keys.recv, now, serial);
        var roamed := table.UpdateEndpoint(acc.peer, src);
        trace := trace + [UdpSend(src, resp[..], None)];
      }
    }

    method OnTransport(src: Endpoint, bytes: Bytes)
      modifies this, table
      ensures
        var c := AcceptedData(cfg, old(View()), bytes);
        var out := if c.Some? then OnData(cfg, old(View()), src, c.value) else Outcome(old(View()), []);
        View() == out.state && trace == old(trace) + out.effects
    {
      hide ParseData, Nonce;
      var parsed := ParseData(bytes);
      if parsed.Err? { return; }
      var m := parsed.value;
      var found := table.FindByIndex(m.receiver);
      if found.None? { return; }
      var slot := found.value;
      var session := At(table.peers, slot);
      if !Replay.Admits(session.filter, m.counter) { return; }
      var plain := cfg.crypto.decrypt(session.recvKey, Nonce(m.counter), m.ciphertext, m.tag);
      if plain.None? { return; }
      table.peers := Put(table.peers, slot, session.(filter := Replay.Commit(session.filter, m.counter)));
      var roamed := table.UpdateEndpoint(slot.peer, src);
      trace := trace + [Committed(session.serial, session.localIndex, m.counter)];
      if |m.ciphertext| >= 20 && cfg.tunOpen {
        var ok := table.AllowsSourceIp(slot.peer, SourceIp(plain.value));
        if ok { trace := trace + [TunWrite(session.serial, slot.peer, plain.value)]; }
      }
    }

    method OnTunReadable(packet: Bytes)
      modifies this, table
      ensures View() == Step(cfg, old(View()), FromTun(packet)).state
      ensures trace == old(trace) + Step(cfg, old(View()), FromTun(packet)).effects
    {
      if !cfg.tunOpen || |packet| < 20 { return; }
      var p := table.FindByDestIp(DestIp(packet));
      if p.None? || table.peers[p.value].current.state != Established { return; }
      var session := table.peers[p.value].current;
      var counter := session.sendingCounter;
      table.peers := Put(table.peers, Slot(p.value, true), session.(sendingCounter := Succ64(counter)));
      trace := trace + [Encrypted(session.serial, counter)];
      var sealed := cfg.crypto.encrypt(session.sendKey, Nonce(counter), packet);
      if sealed.Some? {
        var net := new byte[BUFFER_SIZE](i => 0);
        var len := SerializeData(net, DataMsg(session.peerIndex, counter, sealed.value.0, sealed.value.1));
        if len.Ok? {
          trace := trace + [UdpSend(table.peers[p.value].endpoint, net[..len.value],
                                    Some(Origin(session.serial, counter)))];
        }
      }
    }
  }
}
