/** What a session is called, wherever in the table it stands. */
module Sessions {
  import opened Words
  import opened LittleEndian
  import opened Wire
  import opened Peers
  import opened Daemon
  import opened DaemonRuns
  import Replay

  /** What never changes about a session. */
  datatype Identity = Identity(serial: nat, peer: nat, localIndex: u32, peerIndex: u32, sendKey: Bytes, recvKey: Bytes)

  function IdentityAt(st: State, a: Slot): Identity
    requires HasSlot(st.peers, a)
  {
    var s := At(st.peers, a);
    Identity(s.serial, a.peer, s.localIndex, s.peerIndex, s.sendKey, s.recvKey)
  }

  predicate Stands(st: State, a: Slot, serial: nat) {
    Live(st.peers, a) && At(st.peers, a).serial == serial
  }

  /** The session is in the table, as the current or the previous one. */
  ghost predicate Present(st: State, serial: nat) {
    exists a :: Stands(st, a, serial)
  }

  /** Wherever the session stands, it is who it was. */
  ghost predicate Consistent(st: State, id: Identity) {
    id.serial < st.issued && forall a | Stands(st, a, id.serial) :: IdentityAt(st, a) == id
  }

  lemma ConsistentAt(st: State, trace: seq<Effect>, a: Slot)
    requires Inv(st, trace) && Live(st.peers, a)
    ensures Consistent(st, IdentityAt(st, a))
  {
    hide TraceOk;
    assert SessionOk(At(st.peers, a), a.current, st.issued, trace);
  }

  lemma StepIssues(cfg: Config, st: State, ev: Event)
    ensures st.issued <= Step(cfg, st, ev).state.issued <= st.issued + 1
  {
    hide Replay.Commit, Replay.Admits, RespBytes, DataBytes, Reply, ParseInit, ParseData, Sized, Nonce;
  }

  lemma {:induction false} RunIssues(cfg: Config, st: State, evs: seq<Event>, n: nat)
    requires n <= |evs|
    ensures Run(cfg, st, evs[..n]).state.issued <= Run(cfg, st, evs).state.issued
    decreases |evs|
  {
    hide Step;
    if n < |evs| {
      var init := evs[..|evs| - 1];
      RunIssues(cfg, st, init, n);
      assert init[..n] == evs[..n];
      StepIssues(cfg, Run(cfg, st, init).state, evs[|evs| - 1]);
    } else {
      assert evs[..n] == evs;
    }
  }

  /** A session moves from current to previous, but never changes keys, indices or peer. */
  lemma StepKeepsIdentity(cfg: Config, st: State, ev: Event, id: Identity)
    requires Consistent(st, id)
    ensures Consistent(Step(cfg, st, ev).state, id)
  {
    hide Replay.Commit, Replay.Admits, RespBytes, DataBytes, Reply, ParseInit, ParseData, Sized, Nonce;
    StepIssues(cfg, st, ev);
    var st' := Step(cfg, st, ev).state;
    forall a | Stands(st', a, id.serial) ensures IdentityAt(st', a) == id {
      var b := CameFrom(cfg, st, ev, a);
      assert Stands(st, b, id.serial);
    }
  }

  /** Where a session that is not new stood before. */
  lemma CameFrom(cfg: Config, st: State, ev: Event, a: Slot) returns (b: Slot)
    requires Live(Step(cfg, st, ev).state.peers, a) && At(Step(cfg, st, ev).state.peers, a).serial != st.issued
    ensures Live(st.peers, b) && IdentityAt(st, b) == IdentityAt(Step(cfg, st, ev).state, a)
  {
    hide Replay.Commit, Replay.Admits, RespBytes, DataBytes, Reply, ParseInit, ParseData, Sized, Nonce;
    b := a;
    if ev.Datagram? && AcceptedInit(cfg, st, ev.bytes).Some? {
      var p := AcceptedInit(cfg, st, ev.bytes).value.acc.peer;
      if a == Slot(p, false) && st.peers[p].current.state == Established && Step(cfg, st, ev).state.peers != st.peers {
        b := Slot(p, true);
      }
    }
  }

  lemma {:induction false} RunKeepsIdentity(cfg: Config, st: State, evs: seq<Event>, id: Identity)
    requires Consistent(st, id)
    ensures Consistent(Run(cfg, st, evs).state, id)
  {
    hide Step, Consistent;
    if evs != [] {
      RunKeepsIdentity(cfg, st, evs[..|evs| - 1], id);
      StepKeepsIdentity(cfg, Run(cfg, st, evs[..|evs| - 1]).state, evs[|evs| - 1], id);
    }
  }
}
