/** What every run of the daemon keeps, and what follows for indices, counters and nonces. */
module DaemonRuns {
  import opened Words
  import opened LittleEndian
  import opened Errors
  import opened Peers
  import opened Daemon
  import Replay

  // ---- reading a trace ----

  /** The counters committed so far on the session `serial`. */
  function Counters(trace: seq<Effect>, serial: nat): set<u64> {
    set e | e in trace && e.Committed? && e.serial == serial :: e.counter
  }

  /** How many encryptions the session `serial` has done. */
  function Encryptions(trace: seq<Effect>, serial: nat): nat {
    if trace == [] then 0
    else Encryptions(trace[..|trace| - 1], serial) + if IsEncryption(trace[|trace| - 1], serial) then 1 else 0
  }

  /** The sending counter after those encryptions: it starts at 0 and wraps at 2^64. */
  function SentCounter(trace: seq<Effect>, serial: nat): u64 {
    if trace == [] then 0
    else
      var before := SentCounter(trace[..|trace| - 1], serial);
      if IsEncryption(trace[|trace| - 1], serial) then Succ64(before) else before
  }

  predicate IsEncryption(e: Effect, serial: nat) {
    e.Encrypted? && e.serial == serial
  }

  predicate NamesSession(e: Effect) {
    e.Issued? || e.Committed? || e.Encrypted?
  }

  /** The index issued to session `serial`: the generator starts at 1 and wraps at 2^32. */
  function IndexOf(serial: nat): u32 {
    (serial + 1) % TWO32
  }

  lemma CountersAppend(trace: seq<Effect>, e: Effect, serial: nat)
    ensures Counters(trace + [e], serial)
         == Counters(trace, serial) + if e.Committed? && e.serial == serial then {e.counter} else {}
  {
    assert e in trace + [e];
    assert forall x :: x in trace + [e] <==> x in trace || x == e;
  }

  lemma SentCounterAppend(trace: seq<Effect>, e: Effect, serial: nat)
    ensures SentCounter(trace + [e], serial)
         == if IsEncryption(e, serial) then Succ64(SentCounter(trace, serial)) else SentCounter(trace, serial)
  {
    assert (trace + [e])[..|trace|] == trace;
  }

  lemma {:induction false} SentCounterUnused(trace: seq<Effect>, serial: nat)
    requires forall e | e in trace :: !IsEncryption(e, serial)
    ensures SentCounter(trace, serial) == 0
  {
    if trace != [] { SentCounterUnused(trace[..|trace| - 1], serial); }
  }

  lemma {:induction false} SentCounterCounts(trace: seq<Effect>, serial: nat)
    ensures SentCounter(trace, serial) == Encryptions(trace, serial) % TWO64
  {
    if trace != [] {
      var n := Encryptions(trace[..|trace| - 1], serial);
      SentCounterCounts(trace[..|trace| - 1], serial);
      ModSucc(n);
    }
  }

  lemma ModSucc(n: nat)
    ensures Succ64(n % TWO64) == (n + 1) % TWO64
  {}

  // ---- the invariant ----

  /** The trace is consistent with `issued` sessions having been named. */
  ghost predicate TraceOk(issued: nat, trace: seq<Effect>) {
    && (forall e | e in trace && NamesSession(e) :: e.serial < issued)
    && (forall e | e in trace && (e.Issued? || e.Committed?) :: e.index == IndexOf(e.serial))
    && (forall k: nat | k < issued :: Issued(k, IndexOf(k)) in trace)
    && (forall i, j | 0 <= i < j < |trace| && trace[i].Issued? && trace[j].Issued? ::
        trace[i].serial != trace[j].serial)
    && (forall i, j | 0 <= i < j < |trace| && trace[i].Committed? && trace[j].Committed?
        && trace[i].serial == trace[j].serial ::
      trace[i].counter != trace[j].counter)
    && (forall i | 0 <= i < |trace| && trace[i].Encrypted? ::
      trace[i].counter == SentCounter(trace[..i], trace[i].serial))
  }

  predicate Live(peers: seq<Peer>, a: Slot) {
    HasSlot(peers, a) && At(peers, a).state == Established
  }

  /** What is known of a session in the table: its number, its index, that its filter is the
      window onto what it committed, and that a current session's counter counts its encryptions. */
  ghost predicate SessionOk(s: Session, current: bool, issued: nat, trace: seq<Effect>) {
    && s.serial < issued
    && s.localIndex == IndexOf(s.serial)
    && Replay.Represents(s.filter, Counters(trace, s.serial))
    && (current ==> s.sendingCounter == SentCounter(trace, s.serial))
  }

  ghost predicate Inv(st: State, trace: seq<Effect>) {
    && st.next == IndexOf(st.issued)
    && TraceOk(st.issued, trace)
    && (forall a | Live(st.peers, a) :: SessionOk(At(st.peers, a), a.current, st.issued, trace))
    && (forall a, b | Live(st.peers, a) && Live(st.peers, b) && At(st.peers, a).serial == At(st.peers, b).serial ::
        a == b)
  }

  /** The table as configured, before the first event. */
  ghost predicate Initial(st: State) {
    && st.next == 1 && st.issued == 0
    && forall p | p in st.peers :: p.current == Blank() && p.previous == Blank()
  }

  // ---- one more effect ----

  lemma AppendIO(issued: nat, trace: seq<Effect>, e: Effect)
    requires TraceOk(issued, trace) && !NamesSession(e)
    ensures TraceOk(issued, trace + [e])
  {
    hide IndexOf, SentCounter;
    Prefixes(trace, e);
  }

  lemma Prefixes(trace: seq<Effect>, e: Effect)
    ensures forall i | 0 <= i <= |trace| :: (trace + [e])[..i] == trace[..i]
    ensures trace[..|trace|] == trace
    ensures forall x :: x in trace + [e] <==> x in trace || x == e
  {
    assert (trace + [e])[|trace|] == e;
  }

  lemma AppendIssued(issued: nat, trace: seq<Effect>)
    requires TraceOk(issued, trace)
    ensures TraceOk(issued + 1, trace + [Issued(issued, IndexOf(issued))])
  {
    hide IndexOf, SentCounter;
    Prefixes(trace, Issued(issued, IndexOf(issued)));
  }

  lemma AppendCommitted(issued: nat, trace: seq<Effect>, serial: nat, c: u64)
    requires TraceOk(issued, trace) && serial < issued && c !in Counters(trace, serial)
    ensures TraceOk(issued, trace + [Committed(serial, IndexOf(serial), c)])
  {
    hide IndexOf, SentCounter;
    Prefixes(trace, Committed(serial, IndexOf(serial), c));
  }

  lemma AppendEncrypted(issued: nat, trace: seq<Effect>, serial: nat)
    requires TraceOk(issued, trace) && serial < issued
    ensures TraceOk(issued, trace + [Encrypted(serial, SentCounter(trace, serial))])
  {
    hide IndexOf, SentCounter;
    Prefixes(trace, Encrypted(serial, SentCounter(trace, serial)));
  }

  /** Appending an effect that is neither a commit nor an encryption of `s` leaves `s` as it is. */
  lemma SessionKept(s: Session, current: bool, issued: nat, trace: seq<Effect>, e: Effect)
    requires SessionOk(s, current, issued, trace)
    requires (e.Committed? || (e.Encrypted? && current)) ==> e.serial != s.serial
    ensures SessionOk(s, current, issued, trace + [e])
    ensures SessionOk(s, false, issued, trace + [e])
  {
    CountersAppend(trace, e, s.serial);
    SentCounterAppend(trace, e, s.serial);
    assert Counters(trace, s.serial) + {} == Counters(trace, s.serial);
  }

  // ---- every step keeps the invariant ----

  lemma IOKeeps(st: State, trace: seq<Effect>, e: Effect)
    requires Inv(st, trace) && !NamesSession(e)
    ensures Inv(st, trace + [e])
  {
    AppendIO(st.issued, trace, e);
    forall a | Live(st.peers, a) ensures SessionOk(At(st.peers, a), a.current, st.issued, trace + [e]) {
      SessionKept(At(st.peers, a), a.current, st.issued, trace, e);
    }
  }

  lemma IssueKeeps(st: State, trace: seq<Effect>)
    requires Inv(st, trace)
    ensures Inv(st.(next := Succ32(st.next), issued := st.issued + 1), trace + [Issued(st.issued, st.next)])
  {
    var e := Issued(st.issued, st.next);
    AppendIssued(st.issued, trace);
    forall a | Live(st.peers, a) ensures SessionOk(At(st.peers, a), a.current, st.issued + 1, trace + [e]) {
      SessionKept(At(st.peers, a), a.current, st.issued, trace, e);
    }
  }

  /** A session nobody has used yet is fresh in every respect. */
  lemma UnusedSession(issued: nat, trace: seq<Effect>, serial: nat)
    requires forall e | e in trace && (e.Committed? || e.Encrypted?) :: e.serial != serial
    ensures Counters(trace, serial) == {} && SentCounter(trace, serial) == 0
  {
    SentCounterUnused(trace, serial);
  }

  lemma RotateKeeps(st: State, trace: seq<Effect>, p: nat, q: Peer)
    requires Inv(st, trace) && p < |st.peers| && q.current.state == Established
    requires q.previous ==
             if st.peers[p].current.state == Established then st.peers[p].current else st.peers[p].previous
    requires q.current.serial < st.issued && q.current.localIndex == IndexOf(q.current.serial)
    requires q.current.filter == Replay.Fresh() && q.current.sendingCounter == 0
    requires forall e | e in trace && (e.Committed? || e.Encrypted?) :: e.serial != q.current.serial
    requires forall a | Live(st.peers, a) :: At(st.peers, a).serial != q.current.serial
    ensures Inv(st.(peers := st.peers[p := q]), trace)
  {
    var peers := st.peers[p := q];
    UnusedSession(st.issued, trace, q.current.serial);
    var source := if st.peers[p].current.state == Established then Slot(p, true) else Slot(p, false);
    forall a | Live(peers, a) ensures SessionOk(At(peers, a), a.current, st.issued, trace) {
      if a == Slot(p, false) {
        assert Live(st.peers, source);
      } else if a.peer != p {
        assert Live(st.peers, a);
      }
    }
    forall a, b | Live(peers, a) && Live(peers, b) && At(peers, a).serial == At(peers, b).serial ensures a == b {
      Origin(st.peers, p, q, a);
      Origin(st.peers, p, q, b);
    }
  }

  /** After a rotation, a live session is the new one or stood in a slot of the old table. */
  lemma Origin(peers: seq<Peer>, p: nat, q: Peer, a: Slot)
    requires p < |peers| && Live(peers[p := q], a)
    requires q.previous == if peers[p].current.state == Established then peers[p].current else peers[p].previous
    ensures
      || a == Slot(p, true)
      || (a.peer != p && Live(peers, a) && At(peers, a) == At(peers[p := q], a))
      || (a == Slot(p, false) && exists cur: bool ::
          Live(peers, Slot(p, cur)) && At(peers, Slot(p, cur)) == At(peers[p := q], a))
  {
    if a == Slot(p, false) {
      assert Live(peers, Slot(p, peers[p].current.state == Established));
    } else if a.peer == p {
      assert a == Slot(p, true);
    }
  }

  lemma InitKeeps(cfg: Config, st: State, trace: seq<Effect>, src: Endpoint, e: Bytes, now: int, c: InitCase)
    requires Inv(st, trace) && c.acc.peer < |st.peers|
    ensures Inv(OnInit(cfg, st, src, e, now, c).state, trace + OnInit(cfg, st, src, e, now, c).effects)
  {
    var out := OnInit(cfg, st, src, e, now, c);
    var issue := Issued(st.issued, st.next);
    var st1, trace1 := st.(next := Succ32(st.next), issued := st.issued + 1), trace + [issue];
    IssueKeeps(st, trace);
    Prefixes(trace, issue);
    if |out.effects| == 2 {
      var p := c.acc.peer;
      RotateKeeps(st1, trace1, p, out.state.peers[p]);
      IOKeeps(out.state, trace1, out.effects[1]);
      assert trace + out.effects == trace1 + [out.effects[1]];
    }
  }

  /** One session of the table moves on, and one effect of that session is recorded. */
  lemma SessionMoves(st: State, peers: seq<Peer>, at: Slot, trace: seq<Effect>, e: Effect)
    requires Inv(st, trace) && Live(st.peers, at) && OnlySlotChanged(st.peers, peers, at)
    requires (e.Committed? || e.Encrypted?) && e.serial == At(st.peers, at).serial
    requires TraceOk(st.issued, trace + [e])
    requires SessionOk(At(peers, at), at.current, st.issued, trace + [e])
    ensures Inv(st.(peers := peers), trace + [e])
  {
    forall a | Live(peers, a) ensures SessionOk(At(peers, a), a.current, st.issued, trace + [e]) {
      SlotAfterPut(st.peers, peers, at, a);
      if a != at { SessionKept(At(st.peers, a), a.current, st.issued, trace, e); }
    }
    SerialsKept(st.peers, peers, at);
  }

  lemma DataKeeps(cfg: Config, st: State, trace: seq<Effect>, src: Endpoint, c: DataCase)
    requires Inv(st, trace) && Live(st.peers, c.slot) && |c.plain| == |c.m.ciphertext|
    requires Replay.Admits(At(st.peers, c.slot).filter, c.m.counter)
    ensures Inv(OnData(cfg, st, src, c).state, trace + OnData(cfg, st, src, c).effects)
  {
    var out := OnData(cfg, st, src, c);
    var s := At(st.peers, c.slot);
    var e := Committed(s.serial, s.localIndex, c.m.counter);
    CommitMoves(s, c.slot.current, st.issued, trace, c.m.counter);
    PutChangesOnly(st.peers, c.slot, s.(filter := Replay.Commit(s.filter, c.m.counter)), src);
    SessionMoves(st, out.state.peers, c.slot, trace, e);
    TailKeeps(out, trace, e);
  }

  lemma CommitMoves(s: Session, current: bool, issued: nat, trace: seq<Effect>, c: u64)
    requires TraceOk(issued, trace) && SessionOk(s, current, issued, trace) && Replay.Admits(s.filter, c)
    ensures TraceOk(issued, trace + [Committed(s.serial, s.localIndex, c)])
    ensures SessionOk(s.(filter := Replay.Commit(s.filter, c)), current, issued,
                      trace + [Committed(s.serial, s.localIndex, c)])
  {
    var e := Committed(s.serial, s.localIndex, c);
    Replay.AdmitsDecides(s.filter, Counters(trace, s.serial), c);
    Replay.CommitAdds(s.filter, Counters(trace, s.serial), c);
    AppendCommitted(issued, trace, s.serial, c);
    CountersAppend(trace, e, s.serial);
    SentCounterAppend(trace, e, s.serial);
  }

  lemma EncryptMoves(s: Session, issued: nat, trace: seq<Effect>)
    requires TraceOk(issued, trace) && SessionOk(s, true, issued, trace)
    ensures TraceOk(issued, trace + [Encrypted(s.serial, s.sendingCounter)])
    ensures SessionOk(s.(sendingCounter := Succ64(s.sendingCounter)), true, issued,
                      trace + [Encrypted(s.serial, s.sendingCounter)])
  {
    var e := Encrypted(s.serial, s.sendingCounter);
    AppendEncrypted(issued, trace, s.serial);
    CountersAppend(trace, e, s.serial);
    SentCounterAppend(trace, e, s.serial);
    assert Counters(trace, s.serial) + {} == Counters(trace, s.serial);
  }

  /** The second effect of a step, if there is one, is plain output. */
  lemma TailKeeps(out: Outcome, trace: seq<Effect>, e: Effect)
    requires Inv(out.state, trace + [e])
    requires out.effects == [e] || (|out.effects| == 2 && out.effects[0] == e && !NamesSession(out.effects[1]))
    ensures Inv(out.state, trace + out.effects)
  {
    if |out.effects| == 2 {
      IOKeeps(out.state, trace + [e], out.effects[1]);
      assert trace + out.effects == trace + [e] + [out.effects[1]];
    }
  }

  /** `after` is `before` with the session at `at` and some endpoint changed. */
  ghost predicate OnlySlotChanged(before: seq<Peer>, after: seq<Peer>, at: Slot) {
    && |after| == |before|
    && HasSlot(before, at)
    && (forall a | HasSlot(before, a) && a != at :: At(after, a) == At(before, a))
    && At(after, at).state == At(before, at).state && At(after, at).serial == At(before, at).serial
  }

  lemma PutChangesOnly(peers: seq<Peer>, at: Slot, s: Session, endpoint: Endpoint)
    requires HasSlot(peers, at) && s.state == At(peers, at).state && s.serial == At(peers, at).serial
    ensures OnlySlotChanged(peers, Put(peers, at, s), at) && At(Put(peers, at, s), at) == s
    ensures
      var peers' := Put(peers, at, s)[at.peer := Put(peers, at, s)[at.peer].(endpoint := endpoint)];
      OnlySlotChanged(peers, peers', at) && At(peers', at) == s
  {}

  lemma SlotAfterPut(before: seq<Peer>, after: seq<Peer>, at: Slot, a: Slot)
    requires OnlySlotChanged(before, after, at)
    ensures Live(after, a) <==> Live(before, a)
    ensures HasSlot(before, a) && a != at ==> At(after, a) == At(before, a)
  {}

  lemma SerialsKept(before: seq<Peer>, after: seq<Peer>, at: Slot)
    requires OnlySlotChanged(before, after, at)
    requires forall a, b | Live(before, a) && Live(before, b) && At(before, a).serial == At(before, b).serial :: a == b
    ensures forall a, b | Live(after, a) && Live(after, b) && At(after, a).serial == At(after, b).serial :: a == b
  {
    forall a, b | Live(after, a) && Live(after, b) && At(after, a).serial == At(after, b).serial ensures a == b {
      SlotAfterPut(before, after, at, a);
      SlotAfterPut(before, after, at, b);
    }
  }

  lemma LiveIsOk(st: State, trace: seq<Effect>, a: Slot)
    requires Inv(st, trace) && Live(st.peers, a)
    ensures TraceOk(st.issued, trace) && SessionOk(At(st.peers, a), a.current, st.issued, trace)
  {}

  /** An encryption by the current session of peer `p`, whatever is then done with the result. */
  lemma TunKeeps(st: State, trace: seq<Effect>, p: nat, out: Outcome)
    requires Inv(st, trace) && p < |st.peers| && st.peers[p].current.state == Established
    requires
      var s := st.peers[p].current;
      && out.state == st.(peers := Put(st.peers, Slot(p, true), s.(sendingCounter := Succ64(s.sendingCounter))))
      && 1 <= |out.effects| <= 2 && out.effects[0] == Encrypted(s.serial, s.sendingCounter)
      && (|out.effects| == 2 ==> out.effects[1].UdpSend?)
    ensures Inv(out.state, trace + out.effects)
  {
    hide Inv, SessionOk, TraceOk, OnlySlotChanged;
    var at := Slot(p, true);
    LiveIsOk(st, trace, at);
    var s := At(st.peers, at);
    EncryptMoves(s, st.issued, trace);
    PutChangesOnly(st.peers, at, s.(sendingCounter := Succ64(s.sendingCounter)), st.peers[p].endpoint);
    SessionMoves(st, out.state.peers, at, trace, Encrypted(s.serial, s.sendingCounter));
    TailKeeps(out, trace, Encrypted(s.serial, s.sendingCounter));
  }

  lemma StepKeeps(cfg: Config, st: State, trace: seq<Effect>, ev: Event)
    requires Inv(st, trace)
    ensures Inv(Step(cfg, st, ev).state, trace + Step(cfg, st, ev).effects)
  {
    if Rejected(cfg, st, ev) {
      assert trace + [] == trace;
    } else {
      match ev
      case Datagram(src, bytes, e, now) =>
        var init := AcceptedInit(cfg, st, bytes);
        if init.Some? {
          InitKeeps(cfg, st, trace, src, e, now, init.value);
        } else {
          DataKeeps(cfg, st, trace, src, AcceptedData(cfg, st, bytes).value);
        }
      case FromTun(packet) =>
        TunKeeps(st, trace, Route(cfg, st, packet).value, Step(cfg, st, ev));
    }
  }

  /** Every run from a state that satisfies the invariant keeps it. */
  lemma {:induction false} RunKeepsFrom(cfg: Config, st: State, trace: seq<Effect>, evs: seq<Event>)
    requires Inv(st, trace)
    ensures Inv(Run(cfg, st, evs).state, trace + Run(cfg, st, evs).effects)
  {
    hide Step, Inv;
    if evs == [] {
      assert trace + [] == trace;
    } else {
      RunKeepsFrom(cfg, st, trace, evs[..|evs| - 1]);
      var before := Run(cfg, st, evs[..|evs| - 1]);
      var last := Step(cfg, before.state, evs[|evs| - 1]);
      StepKeeps(cfg, before.state, trace + before.effects, evs[|evs| - 1]);
      assert trace + before.effects + last.effects == trace + (before.effects + last.effects);
    }
  }

  lemma InitialKeeps(st: State)
    requires Initial(st)
    ensures Inv(st, [])
  {
    forall a ensures !Live(st.peers, a) {
      if HasSlot(st.peers, a) { assert st.peers[a.peer] in st.peers; }
    }
  }

  lemma RunKeeps(cfg: Config, st: State, evs: seq<Event>)
    requires Initial(st)
    ensures Inv(Run(cfg, st, evs).state, Run(cfg, st, evs).effects)
  {
    hide Inv, Run;
    InitialKeeps(st);
    RunKeepsFrom(cfg, st, [], evs);
    assert [] + Run(cfg, st, evs).effects == Run(cfg, st, evs).effects;
  }

  // ---- consequences for every run ----

  lemma IndexCollision(s: nat, t: nat)
    ensures s < t < TWO32 ==> IndexOf(s) != IndexOf(t)
    ensures IndexOf(TWO32) == IndexOf(0)
  {}

  ghost predicate IndicesDiffer(trace: seq<Effect>) {
    forall i, j | 0 <= i < j < |trace| && trace[i].Issued? && trace[j].Issued? :: trace[i].index != trace[j].index
  }

  lemma IndicesBeforeWrap(issued: nat, trace: seq<Effect>)
    requires TraceOk(issued, trace) && issued <= TWO32
    ensures IndicesDiffer(trace)
  {
    hide IndexOf, SentCounter;
    forall i, j | 0 <= i < j < |trace| && trace[i].Issued? && trace[j].Issued?
      ensures trace[i].index != trace[j].index
    {
      assert trace[i] in trace && trace[j] in trace;
      IndexCollision(trace[i].serial, trace[j].serial);
      IndexCollision(trace[j].serial, trace[i].serial);
    }
  }

  lemma IndicesAfterWrap(issued: nat, trace: seq<Effect>)
    requires TraceOk(issued, trace) && issued > TWO32
    ensures !IndicesDiffer(trace)
  {
    hide IndexOf, SentCounter;
    IndexCollision(0, TWO32);
    assert Issued(0, IndexOf(0)) in trace && Issued(TWO32, IndexOf(TWO32)) in trace;
    var i :| 0 <= i < |trace| && trace[i] == Issued(0, IndexOf(0));
    var j :| 0 <= j < |trace| && trace[j] == Issued(TWO32, IndexOf(TWO32));
    assert trace[i].index == trace[j].index && i != j;
  }

  /** Issued indices are pairwise different exactly as long as at most 2^32 have been issued. */
  lemma IndicesRepeatOnlyAfterWrap(cfg: Config, st: State, evs: seq<Event>)
    requires Initial(st)
    ensures IndicesDiffer(Run(cfg, st, evs).effects) <==> Run(cfg, st, evs).state.issued <= TWO32
  {
    hide Run, TraceOk, IndicesDiffer;
    RunKeeps(cfg, st, evs);
    var out := Run(cfg, st, evs);
    if out.state.issued <= TWO32 {
      IndicesBeforeWrap(out.state.issued, out.effects);
    } else {
      IndicesAfterWrap(out.state.issued, out.effects);
    }
  }

  /** Two sessions that answer to the same index are the same, within 2^32 issued indices. */
  lemma LookupFinds(st: State, trace: seq<Effect>, a: Slot)
    requires Inv(st, trace) && st.issued <= TWO32 && Live(st.peers, a) && At(st.peers, a).localIndex != 0
    ensures FindSession(st.peers, At(st.peers, a).localIndex) == Some(a)
  {
    hide IndexOf, TraceOk;
    var b := FindSession(st.peers, At(st.peers, a).localIndex).value;
    assert Live(st.peers, b);
    IndexCollision(At(st.peers, a).serial, At(st.peers, b).serial);
    IndexCollision(At(st.peers, b).serial, At(st.peers, a).serial);
  }

  /** Within 2^32 issued indices, the lookup finds the only session that answers to an index. */
  lemma LookupIsUnique(cfg: Config, st: State, evs: seq<Event>, a: Slot, index: u32)
    requires Initial(st) && Run(cfg, st, evs).state.issued <= TWO32
    requires HasSlot(Run(cfg, st, evs).state.peers, a) && Answers(Run(cfg, st, evs).state.peers, a, index)
    ensures index != 0 ==> FindSession(Run(cfg, st, evs).state.peers, index) == Some(a)
  {
    hide Run, Inv;
    RunKeeps(cfg, st, evs);
    if index != 0 { LookupFinds(Run(cfg, st, evs).state, Run(cfg, st, evs).effects, a); }
  }

  /** Within 2^32 issued indices, no (local index, counter) pair is committed twice: not on a
      current session, not after it became the previous one, not after it was dropped. */
  lemma NoPairCommittedTwice(cfg: Config, st: State, evs: seq<Event>, i: nat, j: nat)
    requires Initial(st) && Run(cfg, st, evs).state.issued <= TWO32
    requires
      var trace := Run(cfg, st, evs).effects;
      i < j < |trace| && trace[i].Committed? && trace[j].Committed? && trace[i].index == trace[j].index
    ensures Run(cfg, st, evs).effects[i].counter != Run(cfg, st, evs).effects[j].counter
  {
    RunKeeps(cfg, st, evs);
    var trace := Run(cfg, st, evs).effects;
    assert trace[i] in trace && trace[j] in trace;
    IndexCollision(trace[i].serial, trace[j].serial);
    IndexCollision(trace[j].serial, trace[i].serial);
  }

  lemma {:induction false} EncryptionsGrow(trace: seq<Effect>, serial: nat, i: nat, j: nat)
    requires i < j <= |trace| && IsEncryption(trace[i], serial)
    ensures Encryptions(trace[..i], serial) < Encryptions(trace[..j], serial)
    decreases j
  {
    assert trace[..j][..j - 1] == trace[..j - 1];
    if i < j - 1 { EncryptionsGrow(trace, serial, i, j - 1); }
  }

  lemma {:induction false} NthEncryption(trace: seq<Effect>, serial: nat, n: nat) returns (i: nat)
    requires n < Encryptions(trace, serial)
    ensures i < |trace| && IsEncryption(trace[i], serial) && Encryptions(trace[..i], serial) == n
  {
    var last := |trace| - 1;
    if IsEncryption(trace[last], serial) && Encryptions(trace[..last], serial) == n {
      i := last;
    } else {
      i := NthEncryption(trace[..last], serial, n);
      assert trace[..last][..i] == trace[..i];
    }
  }

  lemma CounterRepeatsOnlyAfterWrap(issued: nat, trace: seq<Effect>, serial: nat)
    requires TraceOk(issued, trace)
    ensures
      (forall i, j | 0 <= i < j < |trace| && IsEncryption(trace[i], serial) && IsEncryption(trace[j], serial) ::
         trace[i].counter != trace[j].counter)
      <==> Encryptions(trace, serial) <= TWO64
  {
    if Encryptions(trace, serial) > TWO64 {
      var i := NthEncryption(trace, serial, 0);
      var j := NthEncryption(trace, serial, TWO64);
      SentCounterCounts(trace[..i], serial);
      SentCounterCounts(trace[..j], serial);
      assert trace[i].counter == trace[j].counter && i != j;
    } else {
      forall i, j | 0 <= i < j < |trace| && IsEncryption(trace[i], serial) && IsEncryption(trace[j], serial)
        ensures trace[i].counter != trace[j].counter
      {
        SmallCounter(issued, trace, serial, i);
        SmallCounter(issued, trace, serial, j);
        EncryptionsGrow(trace, serial, i, j);
      }
    }
  }

  lemma SmallCounter(issued: nat, trace: seq<Effect>, serial: nat, i: nat)
    requires TraceOk(issued, trace) && Encryptions(trace, serial) <= TWO64
    requires i < |trace| && IsEncryption(trace[i], serial)
    ensures trace[i].counter == Encryptions(trace[..i], serial)
  {
    CounterIsSent(issued, trace, i);
    hide TraceOk;
    EncryptionsGrow(trace, serial, i, |trace|);
    assert trace[..|trace|] == trace;
    SentCounterCounts(trace[..i], serial);
    ModUnique(Encryptions(trace[..i], serial), TWO64, 0, Encryptions(trace[..i], serial));
  }

  lemma CounterIsSent(issued: nat, trace: seq<Effect>, i: nat)
    requires TraceOk(issued, trace) && i < |trace| && trace[i].Encrypted?
    ensures trace[i].counter == SentCounter(trace[..i], trace[i].serial)
  {}

  lemma NoncesDiffer()
    ensures forall c: u64, d: u64 :: Nonce(c) == Nonce(d) <==> c == d
  {
    forall c: u64, d: u64 ensures Nonce(c) == Nonce(d) <==> c == d { NonceInjective(c, d); }
  }

  /** A session never uses a nonce twice exactly as long as it does at most 2^64 encryptions,
      failed ones and ones too long to send included. */
  lemma NonceRepeatsOnlyAfterWrap(cfg: Config, st: State, evs: seq<Event>, serial: nat)
    requires Initial(st)
    ensures
      var trace := Run(cfg, st, evs).effects;
      (forall i, j | 0 <= i < j < |trace| && IsEncryption(trace[i], serial) && IsEncryption(trace[j], serial) ::
         Nonce(trace[i].counter) != Nonce(trace[j].counter))
      <==> Encryptions(trace, serial) <= TWO64
  {
    RunKeeps(cfg, st, evs);
    CounterRepeatsOnlyAfterWrap(Run(cfg, st, evs).state.issued, Run(cfg, st, evs).effects, serial);
    NoncesDiffer();
  }
}
