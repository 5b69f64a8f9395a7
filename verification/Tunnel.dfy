/** The whole tunnel: an initiator that follows src/handshake.c and the daemon of src/main.c, from
    the first datagram of the handshake to the packets on the daemon's TUN device. */
module Tunnel {
  import opened Words
  import opened LittleEndian
  import opened Errors
  import opened Wire
  import opened Peers
  import opened Daemon
  import opened DaemonRuns
  import opened Delivery
  import opened Erasure
  import opened Sessions
  import opened Freshness
  import Replay
  import H = Handshake

  /** The fields of an initiation have the sizes its wire layout needs. */
  lemma InitiationSizes(c: Crypto, e: Bytes, si: Bytes, theirPub: Bytes, index: u32, sec: u64, nsec: u32)
    ensures var r := H.InitiationFor(c.suite, e, si, c.suite.pub(si), theirPub, index, sec, nsec);
      r.Ok? ==>
        var m := r.value.0;
        |m.ephemeral| == 32 && |m.encStatic| == 48 && |m.encTimestamp| == 28 && |m.mac1| == 16
  {}

  /** `packet_serialize_handshake_init` of what the initiator computed; MAC2 is left zero. */
  function InitDatagram(m: H.Initiation<Bytes>): Bytes
    requires |m.ephemeral| == 32 && |m.encStatic| == 48 && |m.encTimestamp| == 28 && |m.mac1| == 16
  {
    InitBytes(InitMsg(m.sender, m.ephemeral, m.encStatic, m.encTimestamp, m.mac1, Zeros(16)))
  }

  /** `handshake_consume_response` from the datagram on. */
  function ReadResponse(c: Crypto, datagram: Bytes, si: Bytes, st: H.InitState<Bytes>): Result<(u32, H.Keys<Bytes>)> {
    var r := ParseResp(datagram);
    if r.Err? then Err(r.error)
    else
      var m := r.value;
      H.ResponseConsumed(c.suite, H.Response(m.sender, m.receiver, m.ephemeral, m.encNothing, m.mac1), si, st)
  }

  /** An initiator's side of one handshake. */
  datatype Initiator = Initiator(ephemeral: Bytes, private: Bytes, index: u32, sec: u64, nsec: u32)

  function Begin(cfg: Config, i: Initiator): Result<(H.Initiation<Bytes>, H.InitState<Bytes>)> {
    H.InitiationFor(cfg.crypto.suite, i.ephemeral, i.private, cfg.crypto.suite.pub(i.private), cfg.hostPub, i.index,
                    i.sec, i.nsec)
  }

  /** The daemon knows this initiator as peer `p` and its stamp is newer than the last handshake. */
  predicate Expects(cfg: Config, st: State, i: Initiator, p: nat) {
    && p < |st.peers|
    && H.Find(Directory(st.peers), cfg.crypto.suite.pub(i.private)) == Some(p)
    && H.FreshTime(st.peers[p].lastHandshake, i.sec)
  }

  ghost predicate Honest(cfg: Config) {
    H.Lawful(cfg.crypto.suite) && cfg.hostPub == cfg.crypto.suite.pub(cfg.hostPriv)
  }

  function Opening(cfg: Config, i: Initiator): Bytes {
    var r := Begin(cfg, i);
    InitiationSizes(cfg.crypto, i.ephemeral, i.private, cfg.hostPub, i.index, i.sec, i.nsec);
    if r.Err? then [] else InitDatagram(r.value.0)
  }

  /** The initiation survives the wire. */
  lemma OpeningAccepted(cfg: Config, st: State, i: Initiator, p: nat)
    requires Honest(cfg) && Expects(cfg, st, i, p)
    ensures Begin(cfg, i).Ok?
    ensures
      var (m, hs) := Begin(cfg, i).value;
      var r := AcceptedInit(cfg, st, Opening(cfg, i));
      && r.Some? && r.value.acc == H.Accepted(p, hs.chainingKey, hs.hash)
      && r.value.m.ephemeral == m.ephemeral && r.value.m.sender == i.index
  {
    hide InitBytes, ParseInit, H.InitiationFor, H.Consumed, Sized;
    var s := cfg.crypto.suite;
    H.InitiationAccepted(s, i.ephemeral, i.private, cfg.hostPriv, i.index, i.sec, i.nsec, Directory(st.peers));
    InitiationSizes(cfg.crypto, i.ephemeral, i.private, cfg.hostPub, i.index, i.sec, i.nsec);
    var (m, hs) := Begin(cfg, i).value;
    SenderIsIndex(cfg, i);
    InitRoundTrip(InitMsg(m.sender, m.ephemeral, m.encStatic, m.encTimestamp, m.mac1, Zeros(16)));
    assert FromWire(InitMsg(m.sender, m.ephemeral, m.encStatic, m.encTimestamp, m.mac1, Zeros(16))) == m;
  }

  lemma SenderIsIndex(cfg: Config, i: Initiator)
    requires Begin(cfg, i).Ok?
    ensures var (m, hs) := Begin(cfg, i).value;
      && m.sender == i.index && m.ephemeral == cfg.crypto.suite.pub(i.ephemeral)
      && hs.ephemeralPrivate == i.ephemeral && hs.localIndex == i.index
  {}

  /** The session a handshake has set up: established, unused, and crosswise with these keys. */
  predicate Matches(s: Session, localIndex: u32, peerIndex: u32, keys: H.Keys<Bytes>) {
    && s.state == Established && s.localIndex == localIndex && s.peerIndex == peerIndex
    && s.sendKey == keys.recv && s.recvKey == keys.send
    && s.sendingCounter == 0 && s.filter == Replay.Fresh()
  }

  /** The daemon's answer to an honest initiation, read by the initiator, gives it the daemon's
      index and keys that are those of the new session crosswise. */
  lemma DaemonAnswers(cfg: Config, st: State, src: Endpoint, i: Initiator, p: nat, er: Bytes, now: int)
    requires Honest(cfg) && Expects(cfg, st, i, p)
    ensures Begin(cfg, i).Ok?
    ensures
      var out := Step(cfg, st, Datagram(src, Opening(cfg, i), er, now));
      && |out.effects| == 2 && out.effects[0] == Issued(st.issued, st.next)
      && out.effects[1].UdpSend? && out.effects[1].dest == src
      && p < |out.state.peers| == |st.peers| && out.state.peers[p].current.serial == st.issued
      && (forall q | 0 <= q < |st.peers| && q != p :: out.state.peers[q] == st.peers[q])
      && var r := ReadResponse(cfg.crypto, out.effects[1].datagram, i.private, Begin(cfg, i).value.1);
      r.Ok? && r.value.0 == st.next && Matches(out.state.peers[p].current, st.next, i.index, r.value.1)
  {
    hide InitBytes, RespBytes, ParseResp, Opening, AcceptedInit, H.InitiationFor, H.ResponseFor, H.ResponseConsumed,
      Sized;
    OpeningAccepted(cfg, st, i, p);
    SenderIsIndex(cfg, i);
    var s := cfg.crypto.suite;
    var hs := Begin(cfg, i).value.1;
    assert st.peers[p].publicKey == s.pub(i.private);
    H.ResponseCompletes(s, i.ephemeral, i.private, er, i.index, st.next, hs);
    var (m, keys) := H.ResponseFor(s, er, s.pub(i.ephemeral), s.pub(i.private), st.next, i.index, hs.chainingKey,
                                   hs.hash).value;
    AnswerSurvives(cfg.crypto, er, s.pub(i.ephemeral), s.pub(i.private), st.next, i.index, hs.chainingKey, hs.hash);
  }

  /** The response survives the wire. */
  lemma AnswerSurvives(c: Crypto, er: Bytes, ephemeral: Bytes, theirStatic: Bytes, myIndex: u32, theirIndex: u32,
                       ck: Bytes, h: Bytes)
    requires H.ResponseFor(c.suite, er, ephemeral, theirStatic, myIndex, theirIndex, ck, h).Ok?
    ensures
      var m := H.ResponseFor(c.suite, er, ephemeral, theirStatic, myIndex, theirIndex, ck, h).value.0;
      && |m.ephemeral| == 32 && |m.encNothing| == 16 && |m.mac1| == 16
      && var wire := RespMsg(m.sender, m.receiver, m.ephemeral, m.encNothing, m.mac1, Zeros(16));
      ParseResp(RespBytes(wire)) == Ok(wire)
  {
    var m := H.ResponseFor(c.suite, er, ephemeral, theirStatic, myIndex, theirIndex, ck, h).value.0;
    hide RespBytes, ParseResp;
    RespRoundTrip(RespMsg(m.sender, m.receiver, m.ephemeral, m.encNothing, m.mac1, Zeros(16)));
  }

  // ---- handshake, then traffic ----

  /** One handshake with a running daemon: what happened before, and what arrives. */
  datatype Opened = Opened(before: seq<Event>, src: Endpoint, initiator: Initiator, peer: nat, ephemeral: Bytes,
                           now: int)

  function Before(cfg: Config, st0: State, h: Opened): State {
    Run(cfg, st0, h.before).state
  }

  function Answer(cfg: Config, st0: State, h: Opened): Outcome {
    Step(cfg, Before(cfg, st0, h), Datagram(h.src, Opening(cfg, h.initiator), h.ephemeral, h.now))
  }

  /** The daemon runs from its configuration, has not run out of indices, and expects the initiator. */
  ghost predicate Opens(cfg: Config, st0: State, h: Opened) {
    && Initial(st0) && Honest(cfg)
    && Expects(cfg, Before(cfg, st0, h), h.initiator, h.peer) && Before(cfg, st0, h).issued + 1 < TWO32
  }

  /** What the initiator reads from the answer: the daemon's index and its own keys. */
  function Learned(cfg: Config, st0: State, h: Opened): (r: (u32, H.Keys<Bytes>))
    requires Opens(cfg, st0, h)
  {
    DaemonAnswers(cfg, Before(cfg, st0, h), h.src, h.initiator, h.peer, h.ephemeral, h.now);
    ReadResponse(cfg.crypto, Answer(cfg, st0, h).effects[1].datagram, h.initiator.private,
                 Begin(cfg, h.initiator).value.1).value
  }

  /** All that has happened up to the answer. */
  function History(cfg: Config, st0: State, h: Opened): seq<Effect> {
    Run(cfg, st0, h.before).effects + Answer(cfg, st0, h).effects
  }

  /** The new session, in the words of the initiator. */
  function NewSession(cfg: Config, st0: State, h: Opened): Identity
    requires Opens(cfg, st0, h)
  {
    var (index, keys) := Learned(cfg, st0, h);
    Identity(Before(cfg, st0, h).issued, h.peer, index, h.initiator.index, keys.recv, keys.send)
  }

  /** After the handshake the daemon finds the new session, and only it, under the index the
      initiator learned; it is unused and has the initiator's keys crosswise. */
  lemma SessionOpens(cfg: Config, st0: State, h: Opened)
    requires Opens(cfg, st0, h)
    ensures
      var st, trace, id := Answer(cfg, st0, h).state, History(cfg, st0, h), NewSession(cfg, st0, h);
      && Inv(st, trace) && Stands(st, Slot(h.peer, true), id.serial) && Consistent(st, id)
      && id.localIndex != 0 && FindSession(st.peers, id.localIndex) == Some(Slot(h.peer, true))
      && Counters(trace, id.serial) == {} && SentCounter(trace, id.serial) == 0
      && SamePolicy(Before(cfg, st0, h).peers, st.peers)
  {
    hide Step, Opening, Inv, Sized, ReadResponse, SentCounter, Counters;
    var before := Before(cfg, st0, h);
    var ev := Datagram(h.src, Opening(cfg, h.initiator), h.ephemeral, h.now);
    DaemonAnswers(cfg, before, h.src, h.initiator, h.peer, h.ephemeral, h.now);
    RunSnoc(cfg, st0, h.before, ev);
    RunKeeps(cfg, st0, h.before + [ev]);
    IndexIsNotZero(cfg, st0, h.before);
    StepIssues(cfg, before, ev);
    StepKeepsPolicy(cfg, before, ev);
    var st, trace, at := Answer(cfg, st0, h).state, History(cfg, st0, h), Slot(h.peer, true);
    LookupFinds(st, trace, at);
    ConsistentAt(st, trace, at);
    LiveIsOk(st, trace, at);
    Replay.NotUntouched(At(st.peers, at).filter, Counters(trace, before.issued));
  }

  lemma IndexIsNotZero(cfg: Config, st0: State, evs: seq<Event>)
    requires Initial(st0) && Run(cfg, st0, evs).state.issued + 1 < TWO32
    ensures Run(cfg, st0, evs).state.next != 0
  {
    hide Run, Inv;
    RunKeeps(cfg, st0, evs);
    NextIsIndex(Run(cfg, st0, evs).state, Run(cfg, st0, evs).effects);
  }

  lemma NextIsIndex(st: State, trace: seq<Effect>)
    requires Inv(st, trace)
    ensures st.next == IndexOf(st.issued)
  {
    hide TraceOk, SessionOk;
  }

  /** The initiator's packets, once the handshake is over: whatever else the daemon and the network do,
      as long as the session commits nothing but carriers, it writes exactly the packets whose first
      arrival is in time, each once.  No key or index is assumed to match; the handshake made them
      match. */
  lemma TunnelDelivers(cfg: Config, st0: State, h: Opened, packets: map<u64, Bytes>, labels: seq<Option<u64>>,
                       evs: seq<Event>)
    requires Opens(cfg, st0, h) && Decrypts(cfg.crypto) && |labels| == |evs|
    requires Run(cfg, Answer(cfg, st0, h).state, evs).state.issued <= TWO32
    requires forall c | c in packets :: |packets[c]| <= 1440
    requires forall j | 0 <= j < |evs| ::
      Arrives(cfg, Run(cfg, Answer(cfg, st0, h).state, evs[..j]).state, NewSession(cfg, st0, h), packets, labels[j],
              evs[j])
    ensures
      var st, serial, ds := Answer(cfg, st0, h).state, Before(cfg, st0, h).issued, InTimeArrivals({}, labels);
      && h.peer < |st.peers| && (forall c | c in ds :: c in packets)
      && WritesOf(Run(cfg, st, evs).effects, serial) == Passing(cfg, st.peers[h.peer], packets, ds)
      && (ds == FirstArrivals({}, labels) <==> Timely({}, labels))
  {
    hide Step, Run, Answer, History, Arrives, Learned, Inv, Consistent, InTimeArrivals, FirstArrivals, Timely, Counters;
    SessionOpens(cfg, st0, h);
    var st, trace, id := Answer(cfg, st0, h).state, History(cfg, st0, h), NewSession(cfg, st0, h);
    ReceiverDelivers(cfg, st, trace, id, packets, labels, evs);
    DeliveredIsInTime({}, labels);
    TimelyMeansAll({}, labels);
  }

  /** And back: over every run from the answer on, the data packets of the session are exactly those
      put on it from the daemon's TUN device, numbered from 0, under the key the initiator decrypts
      with, for the index the initiator chose. */
  lemma TunnelAnswers(cfg: Config, st0: State, h: Opened, evs: seq<Event>, n: u64, d: Bytes)
    requires Opens(cfg, st0, h) && Decrypts(cfg.crypto)
    requires |RoutedAll(cfg, Answer(cfg, st0, h).state, evs, Before(cfg, st0, h).issued)| <= TWO64
    ensures
      var st, id := Answer(cfg, st0, h).state, NewSession(cfg, st0, h);
      SentOn(Run(cfg, st, evs).effects, id.serial, n, d)
      <==> Carried(cfg.crypto, id, 0, RoutedAll(cfg, st, evs, id.serial), n, d)
  {
    hide Step, Run, Answer, History, Learned, Inv, Consistent, SentOn, Carried, RoutedAll, SentCounter;
    SessionOpens(cfg, st0, h);
    SenderEmits(cfg, Answer(cfg, st0, h).state, History(cfg, st0, h), evs, NewSession(cfg, st0, h), n, d);
  }

  /** The bytes of the answer: type 2, the new index, the initiator's index, and no second MAC. */
  lemma AnswerLayout(cfg: Config, st: State, ev: Event)
    requires Answered(cfg, st, ev)
    ensures
      var c, out := AcceptedInit(cfg, st, ev.bytes).value, Step(cfg, st, ev);
      && out.effects[1].UdpSend? && var d := out.effects[1].datagram;
      && |d| == 92 && d[..4] == [2, 0, 0, 0] && d[4..8] == LE32(st.next) && d[8..12] == LE32(c.m.sender)
      && d[76..92] == Zeros(16) && c.acc.peer < |st.peers|
      && var r := H.ResponseFor(cfg.crypto.suite, ev.ephemeral, c.m.ephemeral, st.peers[c.acc.peer].publicKey, st.next,
                                c.m.sender, c.acc.chainingKey, c.acc.hash);
      r.Ok? && d[12..44] == r.value.0.ephemeral && d[44..60] == r.value.0.encNothing && d[60..76] == r.value.0.mac1
  {
    hide AcceptedInit, RespBytes, H.ResponseFor, Sized;
    var c := AcceptedInit(cfg, st, ev.bytes).value;
    var reply := Reply(cfg, ev.ephemeral, c.m, st.peers[c.acc.peer].publicKey, st.next, c.acc);
    ReplyIndices(cfg, ev.ephemeral, c.m, st.peers[c.acc.peer].publicKey, st.next, c.acc);
    RespFields(reply.value.0);
  }

  lemma ReplyIndices(cfg: Config, e: Bytes, m: InitMsg, theirStatic: Bytes, index: u32, acc: H.Accepted<Bytes>)
    ensures
      var r := Reply(cfg, e, m, theirStatic, index, acc);
      r.Ok? ==> r.value.0.sender == index && r.value.0.receiver == m.sender
  {}

  // ---- a second copy ----

  /** After it was answered the daemon still expects the same initiation exactly when its stamp is
      newer than the time, on the daemon's clock, of the answer. */
  lemma StillExpected(cfg: Config, st: State, src: Endpoint, i: Initiator, p: nat, er: Bytes, now: int)
    requires Honest(cfg) && Expects(cfg, st, i, p)
    ensures
      var ev := Datagram(src, Opening(cfg, i), er, now);
      var after := Step(cfg, st, ev).state;
      && Answered(cfg, st, ev) && AcceptedInit(cfg, st, ev.bytes).value.acc.peer == p
      && (Expects(cfg, after, i, p) <==> H.FreshTime(now, i.sec))
  {
    hide AcceptedInit, Step, Opening, H.Find, H.FreshTime, Matches, Sized, H.Lawful, Begin, Honest;
    var ev := Datagram(src, Opening(cfg, i), er, now);
    OpeningAccepted(cfg, st, i, p);
    DaemonAnswers(cfg, st, src, i, p, er, now);
    AnsweredAt(cfg, st, ev);
    StepKeepsPolicy(cfg, st, ev);
    SameFind(st, Step(cfg, st, ev).state, cfg.crypto.suite.pub(i.private));
  }

  /** So an honest initiation whose clock is ahead opens a session every time it arrives: after three
      copies the first session has left the table. */
  lemma CopiesReplace(cfg: Config, st: State, src: Endpoint, i: Initiator, p: nat, er: Bytes, now: int)
    requires Honest(cfg) && Expects(cfg, st, i, p) && H.FreshTime(now, i.sec)
    ensures
      var ev := Datagram(src, Opening(cfg, i), er, now);
      var out := Run(cfg, st, [ev, ev, ev]).state;
      && p < |out.peers| && out.issued == st.issued + 3
      && out.peers[p].current.serial == st.issued + 2 && out.peers[p].previous.serial == st.issued + 1
  {
    hide AcceptedInit, Step, Run, Opening, H.FreshTime, Expects, Honest;
    var ev := Datagram(src, Opening(cfg, i), er, now);
    var one := Step(cfg, st, ev).state;
    var two := Step(cfg, one, ev).state;
    StillExpected(cfg, st, src, i, p, er, now);
    StillExpected(cfg, one, src, i, p, er, now);
    StillExpected(cfg, two, src, i, p, er, now);
    AnsweredAt(cfg, st, ev);
    AnsweredAt(cfg, one, ev);
    AnsweredAt(cfg, two, ev);
    RunOne(cfg, st, ev);
    RunSnoc(cfg, st, [ev], ev);
    RunSnoc(cfg, st, [ev, ev], ev);
    assert [ev] + [ev] == [ev, ev] && [ev, ev] + [ev] == [ev, ev, ev];
  }
}
