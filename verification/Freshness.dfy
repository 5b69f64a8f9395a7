/** When the daemon takes an initiation it has taken before.  An initiation carries the initiator's
    clock, and is compared with the time on the daemon's clock of the last handshake with that peer. */
module Freshness {
  import opened Words
  import opened LittleEndian
  import opened Errors
  import opened Wire
  import opened Peers
  import opened Daemon
  import opened Erasure
  import Replay
  import H = Handshake

  /** What an initiation datagram says, if it can be read. */
  function Says(cfg: Config, bytes: Bytes): Option<(Bytes, u64)> {
    var m := ParseInit(bytes);
    if m.Err? then None else H.Claims(cfg.crypto.suite, FromWire(m.value), cfg.hostPriv, cfg.hostPub)
  }

  lemma AcceptedIff(cfg: Config, st: State, bytes: Bytes)
    ensures
      var r, c := AcceptedInit(cfg, st, bytes), Says(cfg, bytes);
      && (r.Some? <==> c.Some? && H.Find(Directory(st.peers), c.value.0).Some?
                       && H.FreshTime(st.peers[H.Find(Directory(st.peers), c.value.0).value].lastHandshake, c.value.1))
      && (r.Some? ==> H.Find(Directory(st.peers), c.value.0) == Some(r.value.acc.peer))
  {
    hide H.Consumed, H.Claims, ParseInit, Sized;
    var m := ParseInit(bytes);
    if m.Ok? { H.ConsumedIff(cfg.crypto.suite, FromWire(m.value), cfg.hostPriv, cfg.hostPub, Directory(st.peers)); }
  }

  lemma SameFind(st: State, st': State, key: Bytes)
    requires SamePolicy(st.peers, st'.peers)
    ensures H.Find(Directory(st'.peers), key) == H.Find(Directory(st.peers), key)
  {
    var a, b := H.Find(Directory(st.peers), key), H.Find(Directory(st'.peers), key);
    assert forall i | 0 <= i < |st.peers| :: Directory(st'.peers)[i].publicKey == Directory(st.peers)[i].publicKey;
  }

  /** In every later state of a run, a copy of an accepted initiation is accepted, for the same peer,
      exactly when that peer's last handshake is 0 or before its stamp. */
  lemma LaterCopy(cfg: Config, st: State, evs: seq<Event>, bytes: Bytes)
    requires AcceptedInit(cfg, st, bytes).Some?
    ensures
      var p, later := AcceptedInit(cfg, st, bytes).value.acc.peer, Run(cfg, st, evs).state;
      && Says(cfg, bytes).Some? && p < |later.peers|
      && var r := AcceptedInit(cfg, later, bytes);
      && (r.Some? <==>
        later.peers[p].lastHandshake == 0 || later.peers[p].lastHandshake < H.AsTime(Says(cfg, bytes).value.1))
      && (r.Some? ==> r.value.acc.peer == p)
  {
    hide AcceptedInit, Says, Run, H.Find, H.AsTime;
    PolicyKept(cfg, st, evs);
    var later := Run(cfg, st, evs).state;
    AcceptedIff(cfg, st, bytes);
    AcceptedIff(cfg, later, bytes);
    SameFind(st, later, Says(cfg, bytes).value.0);
  }

  /** The initiation was answered. */
  predicate Answered(cfg: Config, st: State, ev: Event) {
    ev.Datagram? && AcceptedInit(cfg, st, ev.bytes).Some? && |Step(cfg, st, ev).effects| == 2
  }

  lemma AnsweredAt(cfg: Config, st: State, ev: Event)
    requires Answered(cfg, st, ev)
    ensures
      var p, after := AcceptedInit(cfg, st, ev.bytes).value.acc.peer, Step(cfg, st, ev).state;
      && p < |after.peers| && after.peers[p].lastHandshake == ev.now
      && after.issued == st.issued + 1 && after.peers[p].current.serial == st.issued
      && after.peers[p].current.state == Established
      && (st.peers[p].current.state == Established ==> after.peers[p].previous == st.peers[p].current)
  {
    hide AcceptedInit, RespBytes, Reply;
  }

  /** Right after it was answered, a copy is accepted again exactly when the initiator's clock was
      ahead of the daemon's. */
  lemma CopyAtOnce(cfg: Config, st: State, ev: Event)
    requires Answered(cfg, st, ev) && ev.now > 0
    ensures
      var after := Step(cfg, st, ev).state;
      && Says(cfg, ev.bytes).Some?
      && (AcceptedInit(cfg, after, ev.bytes).Some? <==> H.AsTime(Says(cfg, ev.bytes).value.1) > ev.now)
  {
    hide AcceptedInit, Step, Says, H.AsTime;
    AnsweredAt(cfg, st, ev);
    LaterCopy(cfg, st, [ev], ev.bytes);
    RunOne(cfg, st, ev);
  }

  lemma RunOne(cfg: Config, st: State, ev: Event)
    ensures Run(cfg, st, [ev]).state == Step(cfg, st, ev).state
  {
    hide Step;
    RunSnoc(cfg, st, [], ev);
    assert [] + [ev] == [ev];
  }

  /** All clock readings are at least `t`. */
  ghost predicate ClockFrom(evs: seq<Event>, t: int) {
    forall j | 0 <= j < |evs| && evs[j].Datagram? :: evs[j].now >= t
  }

  lemma StepClock(cfg: Config, st: State, ev: Event, p: nat, t: int)
    requires p < |st.peers| && st.peers[p].lastHandshake >= t && (ev.Datagram? ==> ev.now >= t)
    ensures p < |Step(cfg, st, ev).state.peers| && Step(cfg, st, ev).state.peers[p].lastHandshake >= t
  {
    hide Replay.Commit, Replay.Admits, RespBytes, DataBytes, Reply, ParseInit, ParseData, Sized, Nonce;
  }

  lemma {:induction false} RunClock(cfg: Config, st: State, evs: seq<Event>, p: nat, t: int)
    requires p < |st.peers| && st.peers[p].lastHandshake >= t && ClockFrom(evs, t)
    ensures p < |Run(cfg, st, evs).state.peers| && Run(cfg, st, evs).state.peers[p].lastHandshake >= t
    decreases |evs|
  {
    hide Step;
    if evs != [] {
      RunClock(cfg, st, evs[..|evs| - 1], p, t);
      StepClock(cfg, Run(cfg, st, evs[..|evs| - 1]).state, evs[|evs| - 1], p, t);
    }
  }

  /** With clocks that do not run backwards, an initiation whose stamp was not ahead when it was
      answered is never accepted again, in any run. */
  lemma NeverAgain(cfg: Config, st: State, ev: Event, evs: seq<Event>)
    requires Answered(cfg, st, ev) && ev.now > 0 && ClockFrom(evs, ev.now)
    requires Says(cfg, ev.bytes).Some? && H.AsTime(Says(cfg, ev.bytes).value.1) <= ev.now
    ensures AcceptedInit(cfg, Run(cfg, Step(cfg, st, ev).state, evs).state, ev.bytes).None?
  {
    hide AcceptedInit, Step, Run, Says, H.AsTime, ClockFrom, H.Find;
    var p, after := AcceptedInit(cfg, st, ev.bytes).value.acc.peer, Step(cfg, st, ev).state;
    AnsweredAt(cfg, st, ev);
    RunClock(cfg, after, evs, p, ev.now);
    var later := Run(cfg, after, evs).state;
    RunOne(cfg, st, ev);
    PolicyKept(cfg, st, [ev]);
    PolicyKept(cfg, after, evs);
    AcceptedIff(cfg, st, ev.bytes);
    AcceptedIff(cfg, later, ev.bytes);
    SameFind(st, later, Says(cfg, ev.bytes).value.0);
  }
}
