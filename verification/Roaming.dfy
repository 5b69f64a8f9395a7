/** Roaming: where the daemon believes a peer to be, and where it sends. */
module Roaming {
  import opened LittleEndian
  import opened Errors
  import opened Wire
  import opened Peers
  import opened Daemon
  import opened Erasure
  import Replay

  /** The peer an event authenticates, if any: its handshake was answered or its data accepted. */
  function Authenticates(cfg: Config, st: State, ev: Event): (p: Option<nat>)
    ensures p.Some? ==> p.value < |st.peers| && ev.Datagram?
  {
    match ev
    case FromTun(_) => None
    case Datagram(_, bytes, e, _) =>
      var init := AcceptedInit(cfg, st, bytes);
      if init.Some? then
        var acc := init.value.acc;
        if Reply(cfg, e, init.value.m, st.peers[acc.peer].publicKey, st.next, acc).Ok? then Some(acc.peer) else None
      else
        var data := AcceptedData(cfg, st, bytes);
        if data.Some? then Some(data.value.slot.peer) else None
  }

  lemma StepRoams(cfg: Config, st: State, ev: Event, i: nat)
    requires i < |st.peers|
    ensures |Step(cfg, st, ev).state.peers| == |st.peers|
    ensures Step(cfg, st, ev).state.peers[i].endpoint
         == if Authenticates(cfg, st, ev) == Some(i) then ev.src else st.peers[i].endpoint
  {
    hide Replay.Commit, Replay.Admits, RespBytes, DataBytes, Reply, ParseInit, ParseData, Sized, Nonce;
  }

  /** The source of the last event that authenticated peer `i`, or its configured endpoint. */
  function LastSeen(cfg: Config, st: State, evs: seq<Event>, i: nat): Endpoint
    requires i < |st.peers|
  {
    if evs == [] then st.peers[i].endpoint
    else
      var init, ev := evs[..|evs| - 1], evs[|evs| - 1];
      if Authenticates(cfg, Run(cfg, st, init).state, ev) == Some(i) then ev.src else LastSeen(cfg, st, init, i)
  }

  /** After every run, each peer's endpoint is where it was last heard from with authentication:
      no other datagram ever moves it. */
  lemma {:induction false} EndpointFollows(cfg: Config, st: State, evs: seq<Event>, i: nat)
    requires i < |st.peers|
    ensures |Run(cfg, st, evs).state.peers| == |st.peers|
    ensures Run(cfg, st, evs).state.peers[i].endpoint == LastSeen(cfg, st, evs, i)
  {
    hide Step, Authenticates;
    if evs != [] {
      EndpointFollows(cfg, st, evs[..|evs| - 1], i);
      StepRoams(cfg, Run(cfg, st, evs[..|evs| - 1]).state, evs[|evs| - 1], i);
    }
  }

  /** Every datagram sent is a response to the source of an initiation that was answered, or goes
      to where the routed peer was last seen. */
  lemma SendsGoToLastSeen(cfg: Config, st: State, evs: seq<Event>, ev: Event, dest: Endpoint, datagram: Bytes,
                          origin: Option<Origin>)
    requires UdpSend(dest, datagram, origin) in Step(cfg, Run(cfg, st, evs).state, ev).effects
    ensures
      var now := Run(cfg, st, evs).state;
      match ev
      case Datagram(src, _, _, _) => dest == src && Authenticates(cfg, now, ev).Some?
      case FromTun(packet) =>
        var p := Route(cfg, now, packet);
        p.Some? && p.value < |st.peers| && dest == LastSeen(cfg, st, evs, p.value)
  {
    hide Replay.Commit, Replay.Admits, RespBytes, DataBytes, Reply, ParseInit, ParseData, Sized, Nonce, Run;
    PolicyKept(cfg, st, evs);
    var now := Run(cfg, st, evs).state;
    if ev.FromTun? { EndpointFollows(cfg, st, evs, Route(cfg, now, ev.packet).value); }
  }
}
