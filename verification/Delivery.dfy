/** Delivery from one daemon to another over a network that drops, duplicates, reorders and injects,
    while both daemons go on with everything else they do. */
module Delivery {
  import opened Words
  import opened LittleEndian
  import opened Errors
  import opened Wire
  import opened Peers
  import opened Daemon
  import opened DaemonRuns
  import opened Sessions
  import opened Erasure
  import Replay
  import H = Handshake

  /** What encryption produced decrypts to what was encrypted, and encryption does not fail. */
  ghost predicate Decrypts(c: Crypto) {
    forall k, n, m :: c.encrypt(k, n, m).Some?
      && c.decrypt(k, n, c.encrypt(k, n, m).value.0, c.encrypt(k, n, m).value.1) == Some(m)
  }

  /** The datagram that carries `packet` under `key` to the session `index` with this counter. */
  function Carrier(c: Crypto, key: Bytes, index: u32, counter: u64, packet: Bytes): Bytes {
    match c.encrypt(key, Nonce(counter), packet)
    case None => []
    case Some((ct, tag)) => DataBytes(DataMsg(index, counter, ct, tag))
  }

  // ---- the sender ----

  /** The packet an event puts on the session, if any. */
  function Routed(cfg: Config, st: State, ev: Event, serial: nat): Option<Bytes> {
    if ev.FromTun? && Route(cfg, st, ev.packet).Some?
       && st.peers[Route(cfg, st, ev.packet).value].current.serial == serial
    then Some(ev.packet) else None
  }

  /** All packets a run puts on the session, in order. */
  function RoutedAll(cfg: Config, st: State, evs: seq<Event>, serial: nat): seq<Bytes> {
    if evs == [] then []
    else
      var init := evs[..|evs| - 1];
      var m := Routed(cfg, Run(cfg, st, init).state, evs[|evs| - 1], serial);
      RoutedAll(cfg, st, init, serial) + if m.Some? then [m.value] else []
  }

  /** `d` went out as the session's data packet number `c`. */
  ghost predicate SentOn(effects: seq<Effect>, serial: nat, c: u64, d: Bytes) {
    exists e :: e in effects && e.UdpSend? && e.origin == Some(Origin(serial, c)) && e.datagram == d
  }

  lemma SentOnConcat(a: seq<Effect>, b: seq<Effect>, serial: nat, c: u64, d: Bytes)
    ensures SentOn(a + b, serial, c, d) <==> SentOn(a, serial, c, d) || SentOn(b, serial, c, d)
  {
    if SentOn(a, serial, c, d) {
      var e :| e in a && e.UdpSend? && e.origin == Some(Origin(serial, c)) && e.datagram == d;
      assert e in a + b;
    }
    if SentOn(b, serial, c, d) {
      var e :| e in b && e.UdpSend? && e.origin == Some(Origin(serial, c)) && e.datagram == d;
      assert e in a + b;
    }
  }

  /** The packet is short enough for the daemon's buffer. */
  predicate Fits(packet: Bytes) {
    32 + |packet| <= 2048
  }

  /** Data packets `first`, `first + 1`, ... carry these packets, but for those that do not fit. */
  predicate Carried(c: Crypto, id: Identity, first: u64, packets: seq<Bytes>, n: u64, d: Bytes) {
    && first <= n < first + |packets|
    && Fits(packets[n - first])
    && d == Carrier(c, id.sendKey, id.peerIndex, n, packets[n - first])
  }

  /** What one event does on the session. */
  lemma StepSends(cfg: Config, st: State, trace: seq<Effect>, ev: Event, id: Identity, n: u64, d: Bytes)
    requires Inv(st, trace) && Consistent(st, id) && Decrypts(cfg.crypto)
    ensures
      var m, counter := Routed(cfg, st, ev, id.serial), SentCounter(trace, id.serial);
      && (SentOn(Step(cfg, st, ev).effects, id.serial, n, d)
          <==> m.Some? && Fits(m.value) && n == counter
               && d == Carrier(cfg.crypto, id.sendKey, id.peerIndex, counter, m.value))
      && SentCounter(trace + Step(cfg, st, ev).effects, id.serial) == (if m.Some? then Succ64(counter) else counter)
  {
    if ev.FromTun? {
      if Route(cfg, st, ev.packet).None? {
        assert trace + [] == trace;
      } else {
        TunSends(cfg, st, trace, ev.packet, id, n, d);
      }
    } else {
      DatagramSends(cfg, st, trace, ev, id.serial, n, d);
    }
  }

  lemma DatagramSends(cfg: Config, st: State, trace: seq<Effect>, ev: Event, serial: nat, n: u64, d: Bytes)
    requires ev.Datagram?
    ensures !SentOn(Step(cfg, st, ev).effects, serial, n, d)
    ensures SentCounter(trace + Step(cfg, st, ev).effects, serial) == SentCounter(trace, serial)
  {
    hide Replay.Commit, Replay.Admits, RespBytes, DataBytes, Reply, ParseInit, ParseData, Sized, Nonce, SentCounter;
    var effects := Step(cfg, st, ev).effects;
    assert forall e | e in effects :: !e.Encrypted?;
    SentCounterKept(trace, effects, serial);
  }

  lemma {:induction false} SentCounterKept(trace: seq<Effect>, effects: seq<Effect>, serial: nat)
    requires forall e | e in effects :: !IsEncryption(e, serial)
    ensures SentCounter(trace + effects, serial) == SentCounter(trace, serial)
  {
    if effects == [] {
      assert trace + effects == trace;
    } else {
      var init := effects[..|effects| - 1];
      SentCounterKept(trace, init, serial);
      assert (trace + effects)[..|trace + effects| - 1] == trace + init;
    }
  }

  lemma TunSends(cfg: Config, st: State, trace: seq<Effect>, packet: Bytes, id: Identity, n: u64, d: Bytes)
    requires Inv(st, trace) && Consistent(st, id) && Decrypts(cfg.crypto) && Route(cfg, st, packet).Some?
    ensures
      var ev := FromTun(packet);
      var m, counter := Routed(cfg, st, ev, id.serial), SentCounter(trace, id.serial);
      && (SentOn(Step(cfg, st, ev).effects, id.serial, n, d)
          <==> m.Some? && Fits(m.value) && n == counter
               && d == Carrier(cfg.crypto, id.sendKey, id.peerIndex, counter, m.value))
      && SentCounter(trace + Step(cfg, st, ev).effects, id.serial) == (if m.Some? then Succ64(counter) else counter)
  {
    hide DataBytes, Nonce, SentCounter, TraceOk, FindByDest;
    var p := Route(cfg, st, packet).value;
    var s, effects := st.peers[p].current, Step(cfg, st, FromTun(packet)).effects;
    assert Live(st.peers, Slot(p, true));
    LiveIsOk(st, trace, Slot(p, true));
    SentCounterAppend(trace, effects[0], id.serial);
    SentCounterKept(trace + [effects[0]], effects[1..], id.serial);
    assert trace + effects == trace + [effects[0]] + effects[1..];
    if s.serial == id.serial { assert Stands(st, Slot(p, true), id.serial); }
    SentFirst(effects, id.serial, n, d);
  }

  /** Of an encryption and what may follow it, only the second is a datagram. */
  lemma SentFirst(effects: seq<Effect>, serial: nat, n: u64, d: Bytes)
    requires 1 <= |effects| <= 2 && effects[0].Encrypted? && (|effects| == 2 ==> effects[1].UdpSend?)
    ensures SentOn(effects, serial, n, d)
      <==> |effects| == 2 && effects[1].origin == Some(Origin(serial, n)) && effects[1].datagram == d
  {}

  /** Over every run of the sender, whatever else it receives, sends, answers or rotates: the
      datagrams of the session are exactly the carriers of the packets put on it, numbered on from
      where the session stood. */
  lemma {:induction false} SenderEmits(cfg: Config, st: State, trace: seq<Effect>, evs: seq<Event>, id: Identity,
                                       n: u64, d: Bytes)
    requires Inv(st, trace) && Consistent(st, id) && Decrypts(cfg.crypto)
    requires SentCounter(trace, id.serial) + |RoutedAll(cfg, st, evs, id.serial)| <= TWO64
    ensures
      var out, first, packets := Run(cfg, st, evs), SentCounter(trace, id.serial), RoutedAll(cfg, st, evs, id.serial);
      && (SentOn(out.effects, id.serial, n, d) <==> Carried(cfg.crypto, id, first, packets, n, d))
      && (first + |packets| < TWO64 ==> SentCounter(trace + out.effects, id.serial) == first + |packets|)
    decreases |evs|
  {
    hide Step, Inv, Consistent, Decrypts, SentCounter, SentOn, Routed, Carrier, Fits;
    var first := SentCounter(trace, id.serial);
    if evs == [] {
      NothingSent(id.serial, n, d);
      assert trace + [] == trace;
    } else {
      var init, ev := evs[..|evs| - 1], evs[|evs| - 1];
      SenderEmits(cfg, st, trace, init, id, n, d);
      var before := Run(cfg, st, init);
      RunKeepsFrom(cfg, st, trace, init);
      RunKeepsIdentity(cfg, st, init, id);
      StepSends(cfg, before.state, trace + before.effects, ev, id, n, d);
      var last := Step(cfg, before.state, ev);
      SentOnConcat(before.effects, last.effects, id.serial, n, d);
      assert trace + before.effects + last.effects == trace + (before.effects + last.effects);
    }
  }

  lemma NothingSent(serial: nat, n: u64, d: Bytes)
    ensures !SentOn([], serial, n, d)
  {}

  // ---- the receiver ----

  /** The packets the session has put on the TUN device, in order. */
  function WritesOf(effects: seq<Effect>, serial: nat): seq<Bytes> {
    if effects == [] then []
    else
      var last := effects[|effects| - 1];
      WritesOf(effects[..|effects| - 1], serial) + if last.TunWrite? && last.serial == serial then [last.packet] else []
  }

  lemma {:induction false} WritesConcat(a: seq<Effect>, b: seq<Effect>, serial: nat)
    ensures WritesOf(a + b, serial) == WritesOf(a, serial) + WritesOf(b, serial)
  {
    if b == [] {
      assert a + b == a;
    } else {
      WritesConcat(a, b[..|b| - 1], serial);
      assert (a + b)[..|a + b| - 1] == a + b[..|b| - 1];
    }
  }

  lemma CountersConcat(a: seq<Effect>, b: seq<Effect>, serial: nat)
    ensures Counters(a + b, serial) == Counters(a, serial) + Counters(b, serial)
  {
    assert forall e :: e in a + b <==> e in a || e in b;
  }

  /** A carrier is looked up, checked and decrypted as the sender meant it. */
  lemma CarrierAccepted(cfg: Config, st: State, trace: seq<Effect>, at: Slot, c: u64, packet: Bytes)
    requires Decrypts(cfg.crypto) && Inv(st, trace) && st.issued <= TWO32 && |packet| <= 1440
    requires Live(st.peers, at) && At(st.peers, at).localIndex != 0
    ensures
      var s := At(st.peers, at);
      var bytes := Carrier(cfg.crypto, s.recvKey, s.localIndex, c, packet);
      var r := AcceptedData(cfg, st, bytes);
      && AcceptedInit(cfg, st, bytes).None?
      && (r.Some? <==> Replay.Acceptable(Counters(trace, s.serial), c))
      && (r.Some? ==> r.value.slot == at && r.value.m.counter == c && r.value.plain == packet)
  {
    hide Inv, DataBytes, Nonce, Replay.Admits, Replay.Acceptable, FindSession, H.Consumed;
    LookupFinds(st, trace, at);
    LiveIsOk(st, trace, at);
    var s := At(st.peers, at);
    var (ct, tag) := cfg.crypto.encrypt(s.recvKey, Nonce(c), packet).value;
    var m := DataMsg(s.localIndex, c, ct, tag);
    DataRoundTrip(m);
    DataReprint(DataBytes(m));
    InitReprint(DataBytes(m));
    Replay.AdmitsDecides(s.filter, Counters(trace, s.serial), c);
  }

  /** The packet passes the source check of the peer. */
  predicate Passes(cfg: Config, p: Peer, packet: Bytes) {
    cfg.tunOpen && |packet| >= 20 && Allows(p, SourceIp(packet))
  }

  /** What a carrier does at the receiver: it is committed once, and written if its source may be
      used by the peer. */
  lemma CarrierArrives(cfg: Config, st: State, trace: seq<Effect>, at: Slot, c: u64, packet: Bytes, ev: Event)
    requires Decrypts(cfg.crypto) && Inv(st, trace) && st.issued <= TWO32 && |packet| <= 1440
    requires Live(st.peers, at) && At(st.peers, at).localIndex != 0 && ev.Datagram?
    requires ev.bytes == Carrier(cfg.crypto, At(st.peers, at).recvKey, At(st.peers, at).localIndex, c, packet)
    ensures
      var serial, out := At(st.peers, at).serial, Step(cfg, st, ev);
      if Replay.Acceptable(Counters(trace, serial), c)
      then Counters(out.effects, serial) == {c}
        && WritesOf(out.effects, serial) == (if Passes(cfg, st.peers[at.peer], packet) then [packet] else [])
      else Rejected(cfg, st, ev)
  {
    hide Inv, Carrier, AcceptedData, AcceptedInit, Replay.Acceptable, Replay.Commit;
    CarrierAccepted(cfg, st, trace, at, c, packet);
    var s := At(st.peers, at);
    if Replay.Acceptable(Counters(trace, s.serial), c) {
      var d := AcceptedData(cfg, st, ev.bytes).value;
      var out := OnData(cfg, st, ev.src, d);
      assert Step(cfg, st, ev) == out;
      OneCommit(out.effects, s.serial, s.localIndex, c, at.peer, packet);
    }
  }

  lemma OneCommit(effects: seq<Effect>, serial: nat, index: u32, c: u64, p: nat, packet: Bytes)
    requires effects == [Committed(serial, index, c)]
      || effects == [Committed(serial, index, c), TunWrite(serial, p, packet)]
    ensures Counters(effects, serial) == {c}
    ensures WritesOf(effects, serial) == if |effects| == 2 then [packet] else []
  {
    assert effects[0] in effects;
    assert effects[..1] == [effects[0]];
    assert WritesOf([effects[0]], serial) == WritesOf([], serial) + [];
  }

  lemma WriteFollowsCommit(cfg: Config, st: State, ev: Event, e: Effect)
    requires e in Step(cfg, st, ev).effects && e.TunWrite?
    ensures Counters(Step(cfg, st, ev).effects, e.serial) != {}
  {
    hide Replay.Commit, Replay.Admits, RespBytes, DataBytes, Reply, ParseInit, ParseData, Sized, Nonce;
    var effects := Step(cfg, st, ev).effects;
    assert effects[0].Committed? && effects[0].serial == e.serial && effects[0] in effects;
    assert effects[0].counter in Counters(effects, e.serial);
  }

  /** A session that commits nothing writes nothing. */
  lemma NoCommitNoWrite(cfg: Config, st: State, ev: Event, serial: nat)
    requires Counters(Step(cfg, st, ev).effects, serial) == {}
    ensures WritesOf(Step(cfg, st, ev).effects, serial) == []
  {
    hide Step, WritesOf, Counters;
    var effects := Step(cfg, st, ev).effects;
    forall e | e in effects && e.TunWrite? ensures e.serial != serial { WriteFollowsCommit(cfg, st, ev, e); }
    NoWrites(effects, serial);
  }

  lemma {:induction false} NoWrites(effects: seq<Effect>, serial: nat)
    requires forall e | e in effects && e.TunWrite? :: e.serial != serial
    ensures WritesOf(effects, serial) == []
  {
    if effects != [] { NoWrites(effects[..|effects| - 1], serial); }
  }

  // ---- the network ----

  /** Event `ev` is a copy of the carrier with this counter, arriving while the session is in the
      table; or it is anything at all that commits nothing on the session. */
  ghost predicate Arrives(cfg: Config, st: State, id: Identity, packets: map<u64, Bytes>, mark: Option<u64>,
                          ev: Event)
  {
    match mark
    case None => Counters(Step(cfg, st, ev).effects, id.serial) == {}
    case Some(c) =>
      && c in packets && ev.Datagram? && Present(st, id.serial)
      && ev.bytes == Carrier(cfg.crypto, id.recvKey, id.localIndex, c, packets[c])
  }

  /** The counters delivered for a sequence of arrivals: those acceptable after `base` and the ones
      delivered before. */
  ghost function Delivered(base: set<u64>, labels: seq<Option<u64>>): seq<u64> {
    if labels == [] then []
    else
      var before, last := Delivered(base, labels[..|labels| - 1]), labels[|labels| - 1];
      if last.Some? && Replay.Acceptable(base + Replay.Counters(before), last.value)
      then before + [last.value] else before
  }

  /** The packets of these counters that pass the source check. */
  function Passing(cfg: Config, p: Peer, packets: map<u64, Bytes>, cs: seq<u64>): seq<Bytes>
    requires forall c | c in cs :: c in packets
  {
    if cs == [] then []
    else
      var m := packets[cs[|cs| - 1]];
      Passing(cfg, p, packets, cs[..|cs| - 1]) + if Passes(cfg, p, m) then [m] else []
  }

  lemma PassingAppend(cfg: Config, p: Peer, packets: map<u64, Bytes>, cs: seq<u64>, c: u64)
    requires c in packets && forall d | d in cs :: d in packets
    ensures Passing(cfg, p, packets, cs + [c])
         == Passing(cfg, p, packets, cs) + if Passes(cfg, p, packets[c]) then [packets[c]] else []
  {
    assert (cs + [c])[..|cs|] == cs;
  }

  lemma PassesSame(cfg: Config, p: Peer, q: Peer, packet: Bytes)
    requires p.allowed == q.allowed
    ensures Passes(cfg, p, packet) <==> Passes(cfg, q, packet)
  {}

  /** What holds after a sequence of arrivals. */
  ghost predicate Received(cfg: Config, p: Peer, trace: seq<Effect>, out: Outcome, serial: nat,
                           packets: map<u64, Bytes>, ds: seq<u64>)
  {
    && (forall c | c in ds :: c in packets)
    && WritesOf(out.effects, serial) == Passing(cfg, p, packets, ds)
    && Counters(trace + out.effects, serial) == Counters(trace, serial) + Replay.Counters(ds)
  }

  lemma OneArrival(cfg: Config, p: Peer, trace: seq<Effect>, before: Outcome, id: Identity, packets: map<u64, Bytes>,
                   ds: seq<u64>, mark: Option<u64>, ev: Event)
    requires Decrypts(cfg.crypto) && Inv(before.state, trace + before.effects) && before.state.issued <= TWO32
    requires Consistent(before.state, id) && id.localIndex != 0
    requires forall c | c in packets :: |packets[c]| <= 1440
    requires id.peer < |before.state.peers| && before.state.peers[id.peer].allowed == p.allowed
    requires Received(cfg, p, trace, before, id.serial, packets, ds)
    requires Arrives(cfg, before.state, id, packets, mark, ev)
    ensures
      var last := Step(cfg, before.state, ev);
      Received(cfg, p, trace, Outcome(last.state, before.effects + last.effects), id.serial, packets,
               if mark.Some? && Replay.Acceptable(Counters(trace, id.serial) + Replay.Counters(ds), mark.value)
               then ds + [mark.value] else ds)
  {
    hide Step, Inv, Carrier, WritesOf, Passes, Passing, Rejected, Replay.Acceptable, Counters;
    var last := Step(cfg, before.state, ev);
    WritesConcat(before.effects, last.effects, id.serial);
    CountersConcat(trace + before.effects, last.effects, id.serial);
    assert trace + before.effects + last.effects == trace + (before.effects + last.effects);
    if mark.None? {
      NoCommitNoWrite(cfg, before.state, ev, id.serial);
    } else {
      var at :| Stands(before.state, at, id.serial);
      var c := mark.value;
      CarrierArrives(cfg, before.state, trace + before.effects, at, c, packets[c], ev);
      if Replay.Acceptable(Counters(trace, id.serial) + Replay.Counters(ds), c) {
        PassesSame(cfg, p, before.state.peers[id.peer], packets[c]);
        PassingAppend(cfg, p, packets, ds, c);
        assert Replay.Counters(ds + [c]) == Replay.Counters(ds) + {c};
        assert Counters(trace, id.serial) + Replay.Counters(ds) + {c} ==
               Counters(trace, id.serial) + (Replay.Counters(ds) + {c});
      } else {
        RejectedIdle(cfg, before.state, ev);
        NothingHappened(before.effects, id.serial);
      }
    }
  }

  lemma NothingHappened(effects: seq<Effect>, serial: nat)
    ensures WritesOf([], serial) == [] && Counters([], serial) == {}
  {}

  lemma NothingReceived(cfg: Config, p: Peer, trace: seq<Effect>, st: State, serial: nat, packets: map<u64, Bytes>)
    ensures Received(cfg, p, trace, Outcome(st, []), serial, packets, [])
  {
    assert trace + [] == trace;
    assert Replay.Counters([]) == {};
  }

  /** The exact TUN output of a session, for every run of the receiver in which it commits nothing but
      carriers, whatever else arrives, is sent or is rotated, and from any committed set on. */
  lemma {:induction false} ReceiverDelivers(cfg: Config, st: State, trace: seq<Effect>, id: Identity,
                                            packets: map<u64, Bytes>, labels: seq<Option<u64>>, evs: seq<Event>)
    requires Decrypts(cfg.crypto) && Inv(st, trace) && Consistent(st, id) && id.localIndex != 0 && id.peer < |st.peers|
    requires |labels| == |evs| && Run(cfg, st, evs).state.issued <= TWO32
    requires forall c | c in packets :: |packets[c]| <= 1440
    requires forall j | 0 <= j < |evs| :: Arrives(cfg, Run(cfg, st, evs[..j]).state, id, packets, labels[j], evs[j])
    ensures Received(cfg, st.peers[id.peer], trace, Run(cfg, st, evs), id.serial, packets,
                     Delivered(Counters(trace, id.serial), labels))
    decreases |evs|
  {
    hide Step, Received, Arrives, Decrypts, Inv, Consistent, Counters, Replay.Acceptable;
    if evs == [] {
      NothingReceived(cfg, st.peers[id.peer], trace, st, id.serial, packets);
    } else {
      var n := |evs| - 1;
      forall j | 0 <= j < n
        ensures Arrives(cfg, Run(cfg, st, evs[..n][..j]).state, id, packets, labels[..n][j], evs[..n][j])
      {
        assert evs[..n][..j] == evs[..j];
      }
      RunIssues(cfg, st, evs, n);
      ReceiverDelivers(cfg, st, trace, id, packets, labels[..n], evs[..n]);
      RunKeepsFrom(cfg, st, trace, evs[..n]);
      RunKeepsIdentity(cfg, st, evs[..n], id);
      PolicyKept(cfg, st, evs[..n]);
      OneArrival(cfg, st.peers[id.peer], trace, Run(cfg, st, evs[..n]), id, packets,
                 Delivered(Counters(trace, id.serial), labels[..n]), labels[n], evs[n]);
    }
  }

  // ---- exactly once ----

  function Arrived(labels: seq<Option<u64>>): set<u64> {
    set l | l in labels && l.Some? :: l.value
  }

  lemma ArrivedAppend(labels: seq<Option<u64>>)
    requires labels != []
    ensures var init, last := labels[..|labels| - 1], labels[|labels| - 1];
      Arrived(labels) == Arrived(init) + if last.Some? then {last.value} else {}
  {
    var init, last := labels[..|labels| - 1], labels[|labels| - 1];
    assert labels == init + [last];
  }

  /** A counter that arrives now and has neither arrived nor been committed before. */
  predicate ArrivesFirst(base: set<u64>, before: seq<Option<u64>>, mark: Option<u64>) {
    mark.Some? && mark.value !in base + Arrived(before)
  }

  /** It is less than 2048 behind every counter committed or arrived before. */
  predicate InTime(base: set<u64>, before: seq<Option<u64>>, c: u64) {
    forall d | d in base + Arrived(before) :: d < c + 2048
  }

  /** Each new counter at its first arrival, in arrival order. */
  function FirstArrivals(base: set<u64>, labels: seq<Option<u64>>): seq<u64> {
    if labels == [] then []
    else
      var init, last := labels[..|labels| - 1], labels[|labels| - 1];
      FirstArrivals(base, init) + if ArrivesFirst(base, init, last) then [last.value] else []
  }

  /** Those of them that come in time. */
  function InTimeArrivals(base: set<u64>, labels: seq<Option<u64>>): seq<u64> {
    if labels == [] then []
    else
      var init, last := labels[..|labels| - 1], labels[|labels| - 1];
      InTimeArrivals(base, init)
      + if ArrivesFirst(base, init, last) && InTime(base, init, last.value) then [last.value] else []
  }

  /** All of them come in time. */
  ghost predicate Timely(base: set<u64>, labels: seq<Option<u64>>) {
    forall j | 0 <= j < |labels| && ArrivesFirst(base, labels[..j], labels[j]) ::
      InTime(base, labels[..j], labels[j].value)
  }

  lemma {:induction false} MaxExists(s: set<u64>) returns (m: u64)
    requires s != {}
    ensures Replay.IsMax(m, s)
  {
    var x :| x in s;
    if s == {x} {
      m := x;
    } else {
      var rest := s - {x};
      assert s == rest + {x};
      m := MaxExists(rest);
      if x > m { m := x; }
      forall c | c in s ensures c <= m { if c != x { assert c in rest; } }
    }
  }

  /** Acceptable means new, and less than 2048 behind everything. */
  lemma AcceptableIs(seen: set<u64>, c: u64)
    ensures Replay.Acceptable(seen, c) <==> c !in seen && forall d | d in seen :: d < c + 2048
  {
    if seen != {} {
      var m := MaxExists(seen);
      assert forall m': u64 :: Replay.IsMax(m', seen) ==> m' == m;
    }
  }

  /** Whatever arrived is delivered, or so far behind a delivered counter that it never will be. */
  ghost predicate Covers(delivered: set<u64>, arrived: set<u64>) {
    && delivered <= arrived
    && forall c | c in arrived && c !in delivered :: exists d :: d in delivered && d >= c + 2048
  }

  lemma {:induction false} DeliveredCovers(base: set<u64>, labels: seq<Option<u64>>)
    ensures Covers(base + Replay.Counters(Delivered(base, labels)), base + Arrived(labels))
    decreases |labels|
  {
    hide Replay.Acceptable;
    if labels == [] {
      assert Replay.Counters([]) == {} && Arrived([]) == {};
    } else {
      var init, last := labels[..|labels| - 1], labels[|labels| - 1];
      DeliveredCovers(base, init);
      ArrivedAppend(labels);
      var ds := Delivered(base, init);
      if last.Some? {
        assert Replay.Counters(ds + [last.value]) == Replay.Counters(ds) + {last.value};
        AcceptableIs(base + Replay.Counters(ds), last.value);
      }
    }
  }

  /** A counter is acceptable after what was delivered exactly when it is new and in time. */
  lemma AcceptableIsInTime(base: set<u64>, before: seq<Option<u64>>, c: u64)
    ensures Replay.Acceptable(base + Replay.Counters(Delivered(base, before)), c)
      <==> ArrivesFirst(base, before, Some(c)) && InTime(base, before, c)
  {
    hide Replay.Acceptable, Delivered;
    DeliveredCovers(base, before);
    var delivered, arrived := base + Replay.Counters(Delivered(base, before)), base + Arrived(before);
    AcceptableIs(delivered, c);
    if forall d | d in delivered :: d < c + 2048 {
      forall d | d in arrived ensures d < c + 2048 {
        if d !in delivered {
          var e :| e in delivered && e >= d + 2048;
        }
      }
    }
  }

  /** What is delivered are exactly the first arrivals that come in time. */
  lemma {:induction false} DeliveredIsInTime(base: set<u64>, labels: seq<Option<u64>>)
    ensures Delivered(base, labels) == InTimeArrivals(base, labels)
    decreases |labels|
  {
    hide Replay.Acceptable, ArrivesFirst, InTime;
    if labels != [] {
      var init, last := labels[..|labels| - 1], labels[|labels| - 1];
      DeliveredIsInTime(base, init);
      if last.Some? { AcceptableIsInTime(base, init, last.value); } else { NoneIsNotFirst(base, init); }
    }
  }

  lemma NoneIsNotFirst(base: set<u64>, before: seq<Option<u64>>)
    ensures !ArrivesFirst(base, before, None)
  {}

  lemma {:induction false} FirstArrivalsAre(base: set<u64>, labels: seq<Option<u64>>)
    ensures Replay.Counters(FirstArrivals(base, labels)) == Arrived(labels) - base
    ensures forall i, j | 0 <= i < j < |FirstArrivals(base, labels)| ::
      FirstArrivals(base, labels)[i] != FirstArrivals(base, labels)[j]
    decreases |labels|
  {
    if labels != [] {
      var init, last := labels[..|labels| - 1], labels[|labels| - 1];
      FirstArrivalsAre(base, init);
      ArrivedAppend(labels);
      var fs := FirstArrivals(base, init);
      assert forall c :: c in Replay.Counters(fs) <==> c in fs;
      if ArrivesFirst(base, init, last) {
        assert Replay.Counters(fs + [last.value]) == Replay.Counters(fs) + {last.value};
        assert Arrived(labels) - base == Arrived(init) - base + {last.value};
      } else {
        assert fs + [] == fs && Arrived(labels) - base == Arrived(init) - base;
      }
    }
  }

  lemma TimelySoFar(base: set<u64>, labels: seq<Option<u64>>)
    requires labels != []
    ensures var init, last := labels[..|labels| - 1], labels[|labels| - 1];
      Timely(base, labels) <==>
        Timely(base, init) && (ArrivesFirst(base, init, last) ==> InTime(base, init, last.value))
  {
    hide ArrivesFirst, InTime;
    var n := |labels| - 1;
    assert forall j | 0 <= j < n :: labels[..n][..j] == labels[..j] && labels[..n][j] == labels[j];
  }

  lemma {:induction false} TimelyMeansAll(base: set<u64>, labels: seq<Option<u64>>)
    ensures |InTimeArrivals(base, labels)| <= |FirstArrivals(base, labels)|
    ensures InTimeArrivals(base, labels) == FirstArrivals(base, labels) <==> Timely(base, labels)
    decreases |labels|
  {
    hide Timely, ArrivesFirst, InTime;
    if labels == [] {
      NothingIsTimely(base);
    } else {
      var init, last := labels[..|labels| - 1], labels[|labels| - 1];
      TimelyMeansAll(base, init);
      TimelySoFar(base, labels);
      var a, b := InTimeArrivals(base, init), FirstArrivals(base, init);
      assert a + [] == a && b + [] == b;
      if last.Some? { AppendSame(a, b, last.value); } else { NoneIsNotFirst(base, init); }
    }
  }

  lemma AppendSame(a: seq<u64>, b: seq<u64>, c: u64)
    ensures a + [c] == b + [c] <==> a == b
  {
    if a + [c] == b + [c] { assert a == (a + [c])[..|a|] && b == (b + [c])[..|b|]; }
  }

  lemma NothingIsTimely(base: set<u64>)
    ensures Timely(base, [])
  {}

  /** Every packet that arrives is delivered at its first arrival, and only then, exactly when every
      first arrival comes in time. */
  lemma TimelyIsExactlyOnce(base: set<u64>, labels: seq<Option<u64>>)
    ensures Delivered(base, labels) == FirstArrivals(base, labels) <==> Timely(base, labels)
  {
    DeliveredIsInTime(base, labels);
    TimelyMeansAll(base, labels);
  }

  // ---- from end to end ----

  /** The packets by number, as far as the receiver's parser takes them. */
  function Numbered(packets: seq<Bytes>, first: nat): map<u64, Bytes> {
    map c: u64 | first <= c < first + |packets| && |PacketOf(packets, first, c)| <= 1440 ::
      PacketOf(packets, first, c)
  }

  function PacketOf(packets: seq<Bytes>, first: nat, c: nat): Bytes
    requires first <= c < first + |packets|
  {
    packets[c - first]
  }

  /** Event `j` at the receiver is a copy of the datagram the sender's session sent with counter
      `labels[j]`, arriving while the receiver's session is in the table; or it is anything at all that
      commits nothing on the receiver's session. */
  ghost predicate FromNetwork(sent: seq<Effect>, from: nat, packets: map<u64, Bytes>, receiver: Config, st: State,
                              to: nat, labels: seq<Option<u64>>, evs: seq<Event>)
  {
    && |labels| == |evs|
    && forall j | 0 <= j < |evs| ::
      match labels[j]
      case None => Counters(Step(receiver, Run(receiver, st, evs[..j]).state, evs[j]).effects, to) == {}
      case Some(c) =>
        && c in packets && evs[j].Datagram? && SentOn(sent, from, c, evs[j].bytes)
        && Present(Run(receiver, st, evs[..j]).state, to)
  }

  /** A daemon at some point of a run, and one of its sessions. */
  datatype End = End(cfg: Config, st: State, trace: seq<Effect>, id: Identity)

  ghost predicate IsEnd(e: End) {
    Inv(e.st, e.trace) && Consistent(e.st, e.id) && Decrypts(e.cfg.crypto) && e.id.peer < |e.st.peers|
  }

  /** What one session encrypts is what the other decrypts. */
  ghost predicate Crosswise(a: End, b: End) {
    a.cfg.crypto == b.cfg.crypto && a.id.sendKey == b.id.recvKey && a.id.peerIndex == b.id.localIndex != 0
  }

  lemma CopiesAreCarriers(a: End, evsA: seq<Event>, b: End, labels: seq<Option<u64>>, evsB: seq<Event>)
    requires IsEnd(a) && IsEnd(b) && Crosswise(a, b)
    requires SentCounter(a.trace, a.id.serial) + |RoutedAll(a.cfg, a.st, evsA, a.id.serial)| <= TWO64
    requires
      var packets := Numbered(RoutedAll(a.cfg, a.st, evsA, a.id.serial), SentCounter(a.trace, a.id.serial));
      FromNetwork(Run(a.cfg, a.st, evsA).effects, a.id.serial, packets, b.cfg, b.st, b.id.serial, labels, evsB)
    ensures
      var packets := Numbered(RoutedAll(a.cfg, a.st, evsA, a.id.serial), SentCounter(a.trace, a.id.serial));
      forall j | 0 <= j < |evsB| :: Arrives(b.cfg, Run(b.cfg, b.st, evsB[..j]).state, b.id, packets, labels[j], evsB[j])
  {
    hide Run, Step, RoutedAll, SentCounter, SentOn, Inv, Consistent, Decrypts, Carrier, Counters, Present;
    var packets := Numbered(RoutedAll(a.cfg, a.st, evsA, a.id.serial), SentCounter(a.trace, a.id.serial));
    forall j | 0 <= j < |evsB|
      ensures Arrives(b.cfg, Run(b.cfg, b.st, evsB[..j]).state, b.id, packets, labels[j], evsB[j])
    {
      if labels[j].Some? { SenderEmits(a.cfg, a.st, a.trace, evsA, a.id, labels[j].value, evsB[j].bytes); }
    }
  }

  /** From the sender's TUN device to the receiver's, with crosswise key and index, in the middle of
      whatever else both daemons do: the receiver's session writes exactly the packets whose first
      arrival is in time, each once, byte for byte, but for those its peer may not send. */
  lemma EndToEnd(a: End, evsA: seq<Event>, b: End, labels: seq<Option<u64>>, evsB: seq<Event>)
    requires IsEnd(a) && IsEnd(b) && Crosswise(a, b)
    requires SentCounter(a.trace, a.id.serial) + |RoutedAll(a.cfg, a.st, evsA, a.id.serial)| <= TWO64
    requires Run(b.cfg, b.st, evsB).state.issued <= TWO32
    requires
      var packets := Numbered(RoutedAll(a.cfg, a.st, evsA, a.id.serial), SentCounter(a.trace, a.id.serial));
      FromNetwork(Run(a.cfg, a.st, evsA).effects, a.id.serial, packets, b.cfg, b.st, b.id.serial, labels, evsB)
    ensures
      var packets := Numbered(RoutedAll(a.cfg, a.st, evsA, a.id.serial), SentCounter(a.trace, a.id.serial));
      var base := Counters(b.trace, b.id.serial);
      var ds := InTimeArrivals(base, labels);
      && (forall c | c in ds :: c in packets)
      && WritesOf(Run(b.cfg, b.st, evsB).effects, b.id.serial) == Passing(b.cfg, b.st.peers[b.id.peer], packets, ds)
      && (ds == FirstArrivals(base, labels) <==> Timely(base, labels))
  {
    hide Run, Step, RoutedAll, SentCounter, Inv, Consistent, Decrypts, FromNetwork, Arrives, InTimeArrivals,
      FirstArrivals, Timely;
    var packets := Numbered(RoutedAll(a.cfg, a.st, evsA, a.id.serial), SentCounter(a.trace, a.id.serial));
    CopiesAreCarriers(a, evsA, b, labels, evsB);
    SameLength(a, evsA, b, labels, evsB, packets);
    ReceiverDelivers(b.cfg, b.st, b.trace, b.id, packets, labels, evsB);
    var base := Counters(b.trace, b.id.serial);
    DeliveredIsInTime(base, labels);
    TimelyMeansAll(base, labels);
  }

  lemma SameLength(a: End, evsA: seq<Event>, b: End, labels: seq<Option<u64>>, evsB: seq<Event>, 
                   packets: map<u64, Bytes>)
    requires FromNetwork(Run(a.cfg, a.st, evsA).effects, a.id.serial, packets, b.cfg, b.st, b.id.serial, labels, evsB)
    ensures |labels| == |evsB|
  {}
}
