/** The peer table of src/peer.c: peers, their current and previous sessions, and the lookups. */
module Peers {
  import opened Words
  import opened LittleEndian
  import opened Errors
  import Routing
  import Replay

  const MAX_PEERS: nat := 256
  const MAX_CIDRS: nat := 64
  const NAME_LEN: nat := 64

  /** A network address, used only for equality and as a destination. */
  datatype Endpoint = Endpoint(id: nat)

  datatype SessionState = NoSession | Handshaking | Established | Rekeying

  /** `vpn_session_t` without the time stamps nothing reads.  `serial` is a history variable: the
      number of indices issued before this session's, which identifies the session for ever. */
  datatype Session = Session(
    localIndex: u32, peerIndex: u32, state: SessionState, sendKey: Bytes, recvKey: Bytes,
    sendingCounter: u64, filter: Replay.Filter, serial: nat)

  datatype Peer = Peer(
    name: string, publicKey: Bytes, endpoint: Endpoint, allowed: seq<Routing.Cidr>,
    current: Session, previous: Session, lastHandshake: int)

  /** A name cut to fit its buffer with a final zero. */
  function CutName(name: string): (cut: string)
    ensures cut <= name && |cut| == if |name| < 64 then |name| else 63
  {
    if |name| < NAME_LEN then name else name[..NAME_LEN - 1]
  }

  function Blank(): Session {
    Session(0, 0, NoSession, [], [], 0, Replay.Fresh(), 0)
  }

  /** Where a session sits: in the current or the previous position of a peer. */
  datatype Slot = Slot(peer: nat, current: bool)

  predicate HasSlot(peers: seq<Peer>, a: Slot) {
    a.peer < |peers|
  }

  function At(peers: seq<Peer>, a: Slot): Session
    requires HasSlot(peers, a)
  {
    if a.current then peers[a.peer].current else peers[a.peer].previous
  }

  function Put(peers: seq<Peer>, a: Slot, s: Session): (peers': seq<Peer>)
    requires HasSlot(peers, a)
    ensures |peers'| == |peers|
  {
    peers[a.peer := if a.current then peers[a.peer].(current := s) else peers[a.peer].(previous := s)]
  }

  predicate Answers(peers: seq<Peer>, a: Slot, index: u32)
    requires HasSlot(peers, a)
  {
    At(peers, a).state == Established && At(peers, a).localIndex == index
  }

  // ---- lookups ----

  predicate Allows(p: Peer, ip: u32) {
    exists c | c in p.allowed :: Routing.Match(c, ip)
  }

  /** The first session in table order, current before previous, that answers to `index`. */
  function FindSession(peers: seq<Peer>, index: u32): (r: Option<Slot>)
    ensures r.Some? ==> index != 0 && HasSlot(peers, r.value) && Answers(peers, r.value, index)
    ensures r.None? && index != 0 ==> forall a | HasSlot(peers, a) :: !Answers(peers, a, index)
  {
    if index == 0 then None else FindSessionFrom(peers, index, 0)
  }

  function FindSessionFrom(peers: seq<Peer>, index: u32, from: nat): (r: Option<Slot>)
    requires from <= |peers|
    ensures r.Some? ==> from <= r.value.peer < |peers| && Answers(peers, r.value, index)
    ensures r.Some? ==> forall a | HasSlot(peers, a) && from <= a.peer < r.value.peer :: !Answers(peers, a, index)
    ensures r.Some? && !r.value.current ==> !Answers(peers, Slot(r.value.peer, true), index)
    ensures r.None? ==> forall a | HasSlot(peers, a) && from <= a.peer :: !Answers(peers, a, index)
    decreases |peers| - from
  {
    if from == |peers| then None
    else if Answers(peers, Slot(from, true), index) then Some(Slot(from, true))
    else if Answers(peers, Slot(from, false), index) then Some(Slot(from, false))
    else
      assert forall a | HasSlot(peers, a) && a.peer == from :: a == Slot(from, true) || a == Slot(from, false);
      FindSessionFrom(peers, index, from + 1)
  }

  /** The first peer in table order whose AllowedIPs contain the address. */
  function FindByDest(peers: seq<Peer>, ip: u32): (r: Option<nat>)
    ensures r.Some? ==> r.value < |peers| && Allows(peers[r.value], ip)
    ensures r.Some? ==> forall i | 0 <= i < r.value :: !Allows(peers[i], ip)
    ensures r.None? ==> forall i | 0 <= i < |peers| :: !Allows(peers[i], ip)
  {
    FindByDestFrom(peers, ip, 0)
  }

  function FindByDestFrom(peers: seq<Peer>, ip: u32, from: nat): (r: Option<nat>)
    requires from <= |peers|
    ensures r.Some? ==> from <= r.value < |peers| && Allows(peers[r.value], ip)
    ensures r.Some? ==> forall i | from <= i < r.value :: !Allows(peers[i], ip)
    ensures r.None? ==> forall i | from <= i < |peers| :: !Allows(peers[i], ip)
    decreases |peers| - from
  {
    if from == |peers| then None
    else if Allows(peers[from], ip) then Some(from)
    else FindByDestFrom(peers, ip, from + 1)
  }

  // ---- session rotation ----

  /** `peer_init_session`: an established session is kept as the previous one. */
  function Rotate(p: Peer, localIndex: u32, peerIndex: u32, sendKey: Bytes, recvKey: Bytes, now: int,
                  serial: nat): Peer
  {
    p.(previous := if p.current.state == Established then p.current else p.previous,
       current := Session(localIndex, peerIndex, Established, sendKey, recvKey, 0, Replay.Fresh(), serial),
       lastHandshake := now)
  }

  /** Keys are pairwise different, the table's capacity is respected and all blocks are well formed. */
  ghost predicate Registered(peers: seq<Peer>) {
    && |peers| <= MAX_PEERS
    && (forall i, j | 0 <= i < j < |peers| :: peers[i].publicKey != peers[j].publicKey)
    && (forall i | 0 <= i < |peers| :: |peers[i].allowed| <= MAX_CIDRS)
    && (forall i, c | 0 <= i < |peers| && c in peers[i].allowed :: Routing.Wellformed(c))
  }

  // ---- the table updated in place ----

  class PeerTable {
    var peers: seq<Peer>
    var nextLocalIndex: u32

    constructor ()
      ensures peers == [] && nextLocalIndex == 1 && Registered(peers)
    {
      peers := [];
      nextLocalIndex := 1;
    }

    /** Refused when the table is full or the key is already there; otherwise a blank peer is appended. */
    method Add(name: string, publicKey: Bytes, endpoint: Endpoint) returns (added: bool)
      requires Registered(peers)
      modifies this`peers
      ensures Registered(peers)
      ensures added <==> |old(peers)| < 256 && forall p | p in old(peers) :: p.publicKey != publicKey
      ensures peers ==
              if added then old(peers) + [Peer(CutName(name), publicKey, endpoint, [], Blank(), Blank(), 0)]
              else old(peers)
    {
      if |peers| >= MAX_PEERS { return false; }
      for i := 0 to |peers|
        invariant peers == old(peers)
        invariant forall j | 0 <= j < i :: peers[j].publicKey != publicKey
      {
        if peers[i].publicKey == publicKey { return false; }
      }
      peers := peers + [Peer(CutName(name), publicKey, endpoint, [], Blank(), Blank(), 0)];
      return true;
    }

    /** Appends a block to a peer's AllowedIPs unless the list is full or the block does not parse. */
    method AddAllowedIp(i: nat, ip: u32, prefix: int) returns (r: Result<()>)
      requires Registered(peers) && i < |peers|
      modifies this`peers
      ensures Registered(peers)
      ensures r ==
              if |old(peers[i].allowed)| >= 64 then Err(ENOSPC)
              else if 0 <= prefix <= 32 then Ok(()) else Err(EINVAL)
      ensures r.Err? ==> peers == old(peers)
      ensures |peers| == |old(peers)| && forall j | 0 <= j < |peers| && j != i :: peers[j] == old(peers[j])
      ensures r.Ok? ==> forall a: u32 ::
        Allows(peers[i], a) <==> Allows(old(peers[i]), a) || a / Pow2(32 - prefix) == ip / Pow2(32 - prefix)
      ensures r.Ok? ==> peers[i] == old(peers[i]).(allowed := peers[i].allowed)
    {
      if |peers[i].allowed| >= MAX_CIDRS { return Err(ENOSPC); }
      var cidr := Routing.Parse(ip, prefix);
      if cidr.Err? { return Err(cidr.error); }
      ghost var before := peers[i];
      peers := peers[i := peers[i].(allowed := peers[i].allowed + [cidr.value])];
      forall a: u32
        ensures Allows(peers[i], a) <==> Allows(before, a) || a / Pow2(32 - prefix) == ip / Pow2(32 - prefix)
      {
        AllowsAppended(before, cidr.value, a);
      }
      return Ok(());
    }

    method AllowsSourceIp(i: nat, ip: u32) returns (ok: bool)
      requires i < |peers|
      ensures ok <==> Allows(peers[i], ip)
    {
      var allowed := peers[i].allowed;
      for k := 0 to |allowed|
        invariant forall j | 0 <= j < k :: !Routing.Match(allowed[j], ip)
      {
        if Routing.Match(allowed[k], ip) { return true; }
      }
      return false;
    }

    method FindByPubkey(key: Bytes) returns (r: Option<nat>)
      ensures r.Some? ==> r.value < |peers| && peers[r.value].publicKey == key
      ensures r.Some? ==> forall i | 0 <= i < r.value :: peers[i].publicKey != key
      ensures r.None? ==> forall p | p in peers :: p.publicKey != key
    {
      for i := 0 to |peers|
        invariant forall j | 0 <= j < i :: peers[j].publicKey != key
      {
        if peers[i].publicKey == key { return Some(i); }
      }
      return None;
    }

    method FindByIndex(index: u32) returns (r: Option<Slot>)
      ensures r == FindSession(peers, index)
    {
      if index == 0 { return None; }
      for i := 0 to |peers|
        invariant FindSession(peers, index) == FindSessionFrom(peers, index, i)
      {
        var p := peers[i];
        if p.current.state == Established && p.current.localIndex == index { return Some(Slot(i, true)); }
        if p.previous.state == Established && p.previous.localIndex == index { return Some(Slot(i, false)); }
      }
      return None;
    }

    method FindByDestIp(ip: u32) returns (r: Option<nat>)
      ensures r == FindByDest(peers, ip)
    {
      for i := 0 to |peers|
        invariant FindByDest(peers, ip) == FindByDestFrom(peers, ip, i)
      {
        var ok := AllowsSourceIp(i, ip);
        if ok { return Some(i); }
      }
      return None;
    }

    method UpdateEndpoint(i: nat, endpoint: Endpoint) returns (roamed: bool)
      requires i < |peers|
      modifies this`peers
      ensures roamed <==> old(peers[i].endpoint) != endpoint
      ensures peers == old(peers)[i := old(peers)[i].(endpoint := endpoint)]
    {
      roamed := peers[i].endpoint != endpoint;
      if roamed { peers := peers[i := peers[i].(endpoint := endpoint)]; }
    }

    method DestroySession(a: Slot)
      requires HasSlot(peers, a)
      modifies this`peers
      ensures peers == if old(At(peers, a)).state == NoSession then old(peers) else Put(old(peers), a, Blank())
    {
      if At(peers, a).state != NoSession { peers := Put(peers, a, Blank()); }
    }

    method InitSession(i: nat, localIndex: u32, peerIndex: u32, sendKey: Bytes, recvKey: Bytes, now: int, serial: nat)
      requires i < |peers|
      modifies this`peers
      ensures peers == old(peers)[i := Rotate(old(peers)[i], localIndex, peerIndex, sendKey, recvKey, now, serial)]
      ensures peers[i].previous ==
              if old(peers[i].current.state) == Established then old(peers[i].current) else old(peers[i].previous)
      ensures
        var s := peers[i].current;
        && s.state == Established && s.localIndex == localIndex && s.peerIndex == peerIndex && s.serial == serial
        && s.sendKey == sendKey && s.recvKey == recvKey && s.sendingCounter == 0
        && (forall c: u64 :: Replay.Admits(s.filter, c)) && peers[i].lastHandshake == now
    {
      if peers[i].current.state == Established {
        DestroySession(Slot(i, false));
        peers := peers[i := peers[i].(previous := peers[i].current)];
      }
      peers := peers[i := peers[i].(current := Blank())];
      var s := peers[i].current;
      s := s.(localIndex := localIndex, peerIndex := peerIndex, state := Established, serial := serial);
      s := s.(sendKey := sendKey, recvKey := recvKey, sendingCounter := 0, filter := Replay.Fresh());
      peers := peers[i := peers[i].(current := s, lastHandshake := now)];
    }

    /** `next_local_index++` in 32-bit arithmetic. */
    method IssueIndex() returns (index: u32)
      modifies this`nextLocalIndex
      ensures index == old(nextLocalIndex) && nextLocalIndex == Succ32(old(nextLocalIndex))
    {
      index := nextLocalIndex;
      nextLocalIndex := Succ32(nextLocalIndex);
    }
  }

  lemma AllowsAppended(p: Peer, c: Routing.Cidr, ip: u32)
    ensures Allows(p.(allowed := p.allowed + [c]), ip) <==> Allows(p, ip) || Routing.Match(c, ip)
  {
    assert c in p.allowed + [c];
    assert forall d :: d in p.allowed + [c] <==> d in p.allowed || d == c;
  }
}
