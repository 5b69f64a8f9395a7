/** Rejected events leave no mark on a run, and what reaches the TUN device is authorised. */
module Erasure {
  import opened Words
  import opened LittleEndian
  import opened Errors
  import opened Wire
  import opened Peers
  import opened Daemon
  import opened DaemonRuns
  import Replay
  import Routing

  /** The events that were not rejected in the state in which they arrived. */
  function Kept(cfg: Config, st: State, evs: seq<Event>): seq<Event> {
    if evs == [] then []
    else
      var init := evs[..|evs| - 1];
      Kept(cfg, st, init) + if Rejected(cfg, Run(cfg, st, init).state, evs[|evs| - 1]) then [] else [evs[|evs| - 1]]
  }

  lemma RunSnoc(cfg: Config, st: State, evs: seq<Event>, ev: Event)
    ensures
      var before := Run(cfg, st, evs);
      var last := Step(cfg, before.state, ev);
      Run(cfg, st, evs + [ev]) == Outcome(last.state, before.effects + last.effects)
  {
    assert (evs + [ev])[..|evs|] == evs;
  }

  /** Deleting every rejected event leaves the final state and the whole trace unchanged. */
  lemma {:induction false} RejectedAreErasable(cfg: Config, st: State, evs: seq<Event>)
    ensures Run(cfg, st, Kept(cfg, st, evs)) == Run(cfg, st, evs)
  {
    hide Step, Rejected;
    if evs != [] {
      var init, ev := evs[..|evs| - 1], evs[|evs| - 1];
      RejectedAreErasable(cfg, st, init);
      var before := Run(cfg, st, init);
      if Rejected(cfg, before.state, ev) {
        RejectedIdle(cfg, before.state, ev);
        assert Kept(cfg, st, evs) == Kept(cfg, st, init);
        assert before.effects + [] == before.effects;
      } else {
        RunSnoc(cfg, st, Kept(cfg, st, init), ev);
      }
    }
  }

  /** Nothing else is erasable: in a reachable state an event is rejected exactly when it leaves
      the state as it was. */
  lemma IdleIffRejected(cfg: Config, st: State, trace: seq<Effect>, ev: Event)
    requires Inv(st, trace)
    ensures Step(cfg, st, ev).state == st <==> Rejected(cfg, st, ev)
  {
    if !Rejected(cfg, st, ev) {
      match ev
      case Datagram(src, bytes, e, now) =>
        if AcceptedInit(cfg, st, bytes).None? {
          CommitIsVisible(cfg, st, trace, src, AcceptedData(cfg, st, bytes).value);
        }
      case FromTun(packet) =>
        var p := Route(cfg, st, packet).value;
        assert Step(cfg, st, ev).state.peers[p].current.sendingCounter != st.peers[p].current.sendingCounter;
    }
  }

  lemma CommitIsVisible(cfg: Config, st: State, trace: seq<Effect>, src: Endpoint, c: DataCase)
    requires Inv(st, trace) && Live(st.peers, c.slot) && |c.plain| == |c.m.ciphertext|
    requires Replay.Admits(At(st.peers, c.slot).filter, c.m.counter)
    ensures OnData(cfg, st, src, c).state != st
  {
    var s := At(st.peers, c.slot);
    Replay.CommitChanges(s.filter, Counters(trace, s.serial), c.m.counter);
    assert At(OnData(cfg, st, src, c).state.peers, c.slot).filter != s.filter;
  }

  /** Handshake responses and datagrams of unknown type are always rejected. */
  lemma OtherTypesRejected(cfg: Config, st: State, src: Endpoint, bytes: Bytes, e: Bytes, now: int)
    requires PeekType(bytes) == HandshakeResp || PeekType(bytes) == Invalid
    ensures Rejected(cfg, st, Datagram(src, bytes, e, now))
  {
    InitReprint(bytes);
    DataReprint(bytes);
  }

  // ---- AllowedIPs ----

  /** A TUN write comes from a datagram that authenticated under a session of peer `p`, and its
      source address is among that peer's AllowedIPs. */
  lemma TunWriteIsAuthorised(cfg: Config, st: State, ev: Event, serial: nat, p: nat, packet: Bytes)
    requires TunWrite(serial, p, packet) in Step(cfg, st, ev).effects
    ensures p < |st.peers| && |packet| >= 20 && Allows(st.peers[p], SourceIp(packet))
    ensures ev.Datagram? && AcceptedData(cfg, st, ev.bytes).Some?
    ensures
      var c := AcceptedData(cfg, st, ev.bytes).value;
      var s := At(st.peers, c.slot);
      && c.slot.peer == p && s.state == Established && s.serial == serial
      && cfg.crypto.decrypt(s.recvKey, Nonce(c.m.counter), c.m.ciphertext, c.m.tag) == Some(packet)
  {
    hide Replay.Commit, Replay.Admits, RespBytes, DataBytes, Reply, ParseInit, ParseData, Sized, Nonce;
  }

  /** Runs never change who a peer is or what it may send. */
  ghost predicate SamePolicy(peers: seq<Peer>, peers': seq<Peer>) {
    && |peers'| == |peers|
    && forall i | 0 <= i < |peers| :: peers'[i].publicKey == peers[i].publicKey && peers'[i].allowed == peers[i].allowed
  }

  lemma {:induction false} PolicyKept(cfg: Config, st: State, evs: seq<Event>)
    ensures SamePolicy(st.peers, Run(cfg, st, evs).state.peers)
  {
    hide Step;
    if evs != [] {
      PolicyKept(cfg, st, evs[..|evs| - 1]);
      StepKeepsPolicy(cfg, Run(cfg, st, evs[..|evs| - 1]).state, evs[|evs| - 1]);
    }
  }

  lemma StepKeepsPolicy(cfg: Config, st: State, ev: Event)
    ensures SamePolicy(st.peers, Step(cfg, st, ev).state.peers)
  {
    hide Replay.Commit, RespBytes, DataBytes, Reply;
  }

  /** Over every run, each packet written to TUN is at least an IPv4 header long, and the address in
      its bytes 12 to 15 is one its peer was configured with. */
  lemma {:induction false} RunWritesAuthorised(cfg: Config, st: State, evs: seq<Event>, serial: nat, p: nat,
                                               packet: Bytes)
    requires TunWrite(serial, p, packet) in Run(cfg, st, evs).effects
    ensures p < |st.peers| && |packet| >= 20 && Allows(st.peers[p], SourceIp(packet))
    ensures exists a: u32 :: IsBE(packet[12..16], a) && Allows(st.peers[p], a)
  {
    hide Step;
    var init, ev := evs[..|evs| - 1], evs[|evs| - 1];
    if TunWrite(serial, p, packet) in Run(cfg, st, init).effects {
      RunWritesAuthorised(cfg, st, init, serial, p, packet);
    } else {
      TunWriteIsAuthorised(cfg, Run(cfg, st, init).state, ev, serial, p, packet);
      PolicyKept(cfg, st, init);
    }
  }

  /** With the blocks a table is configured with, that is: the address in bytes 12 to 15, most
      significant first, lies in the interval of one of them. */
  lemma RunWritesInBlocks(cfg: Config, st: State, evs: seq<Event>, serial: nat, p: nat, packet: Bytes)
    requires Registered(st.peers) && TunWrite(serial, p, packet) in Run(cfg, st, evs).effects
    ensures p < |st.peers| && |packet| >= 20
    ensures exists a: u32 :: IsBE(packet[12..16], a) && InBlocks(st.peers[p], a)
  {
    RunWritesAuthorised(cfg, st, evs, serial, p, packet);
    AllowsIsInBlocks(st.peers, p, SourceIp(packet));
  }

  /** The address lies in the interval of a block configured for the peer. */
  ghost predicate InBlocks(p: Peer, a: u32) {
    exists c | c in p.allowed :: c.prefix <= 32 && Routing.InBlock(c, a)
  }

  lemma AllowsIsInBlocks(peers: seq<Peer>, p: nat, a: u32)
    requires Registered(peers) && p < |peers|
    ensures Allows(peers[p], a) <==> InBlocks(peers[p], a)
  {
    forall c | c in peers[p].allowed ensures Routing.Match(c, a) <==> c.prefix <= 32 && Routing.InBlock(c, a) {
      Routing.MatchIsInterval(c, a);
    }
  }

  /** Where a packet read from TUN goes: to the first peer with a block around the address in its
      bytes 16 to 19, if that peer has a session; otherwise nothing happens. */
  lemma TunGoesByDestination(cfg: Config, st: State, packet: Bytes, a: u32, p: nat)
    requires Registered(st.peers) && |packet| >= 20 && IsBE(packet[16..20], a)
    ensures
      var goes := p < |st.peers| && InBlocks(st.peers[p], a)
                  && forall q | 0 <= q < p :: !InBlocks(st.peers[q], a);
      var out := Step(cfg, st, FromTun(packet));
      && (goes && cfg.tunOpen && st.peers[p].current.state == Established ==>
        var s := st.peers[p].current;
        |out.effects| > 0 && out.effects[0] == Encrypted(s.serial, s.sendingCounter))
      && (goes && !(cfg.tunOpen && st.peers[p].current.state == Established) ==> out == Outcome(st, []))
      && ((forall q | 0 <= q < |st.peers| :: !InBlocks(st.peers[q], a)) ==> out == Outcome(st, []))
  {
    hide DataBytes, Nonce, IsBE, InBlocks, Registered, Allows, Sized;
    BEUnique(packet[16..20], a, DestIp(packet));
    forall q | 0 <= q < |st.peers| ensures Allows(st.peers[q], a) <==> InBlocks(st.peers[q], a) {
      AllowsIsInBlocks(st.peers, q, a);
    }
  }
}
