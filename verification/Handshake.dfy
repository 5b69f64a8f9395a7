/** The Noise-IK-style handshake of src/handshake.c, for any cipher suite.

    `B` is the type of the values the handshake moves around: keys, digests, ciphertexts.  The
    primitives are the fields of a `Suite`; what is assumed about them is written out in `Lawful`
    (an honest run decrypts) and `Ideal` (nothing collides, only sealed values open), and the
    module SymbolicSuite has a suite that satisfies both. */
module Handshake {
  import opened Words
  import opened Errors

  datatype Suite<!B(!new)> = Suite(
    protocolHash: B,            // hash of the protocol identifier
    labelHash: B,               // hash of the protocol label
    mix: (B, B) -> B,           // hash of digest || data
    keyed: (B, B) -> B,         // keyed hash (key, message)
    one: B,                     // the message 0x01
    two: B -> B,                // t || 0x02
    empty: B,
    pub: B -> B,                // private key to public key
    dh: (B, B) -> Option<B>,    // (their public key, my private key)
    seal: (B, B, B) -> B,       // (key, additional data, plaintext), counter 0
    open: (B, B, B) -> Option<B>,
    stamp: (u64, u32) -> B,     // seconds and nanoseconds
    seconds: B -> u64,
    mac: (B, seq<B>) -> B)      // MAC1 over the listed fields; never checked by a receiver

  ghost predicate Lawful<B(!new)>(s: Suite<B>) {
    && (forall x, y :: s.dh(s.pub(x), y).Some? && s.dh(s.pub(x), y) == s.dh(s.pub(y), x))
    && (forall k, ad, m :: s.open(k, ad, s.seal(k, ad, m)) == Some(m))
    && (forall sec, nsec :: s.seconds(s.stamp(sec, nsec)) == sec)
  }

  ghost predicate Ideal<B(!new)>(s: Suite<B>) {
    && (forall h, d, h', d' :: s.mix(h, d) == s.mix(h', d') ==> h == h' && d == d')
    && (forall k, m, k', m' :: s.keyed(k, m) == s.keyed(k', m') ==> k == k' && m == m')
    && (forall k, ad, m, k', ad', m' :: s.seal(k, ad, m) == s.seal(k', ad', m') ==> k == k' && ad == ad' && m == m')
    && (forall k, ad, c :: s.open(k, ad, c).Some? ==> c == s.seal(k, ad, s.open(k, ad, c).value))
  }

  // ---- the key schedule and the transcript hash, as folds ----

  /** First output of vpn_kdf1 and of vpn_kdf2: the next chaining key. */
  function Next<B(!new)>(s: Suite<B>, c: B, x: B): B {
    s.keyed(s.keyed(c, x), s.one)
  }

  /** Second output of vpn_kdf2. */
  function Second<B(!new)>(s: Suite<B>, c: B, x: B): B {
    s.keyed(s.keyed(c, x), s.two(Next(s, c, x)))
  }

  /** The chaining key after mixing in `inputs`, starting from the protocol hash. */
  function Chain<B(!new)>(s: Suite<B>, inputs: seq<B>): B {
    ChainFrom(s, s.protocolHash, inputs)
  }

  function ChainFrom<B(!new)>(s: Suite<B>, c: B, inputs: seq<B>): B {
    if inputs == [] then c else Next(s, ChainFrom(s, c, inputs[..|inputs| - 1]), inputs[|inputs| - 1])
  }

  /** The transcript hash after mixing in `items`, starting from the label hash. */
  function Transcript<B(!new)>(s: Suite<B>, items: seq<B>): B {
    TranscriptFrom(s, s.labelHash, items)
  }

  function TranscriptFrom<B(!new)>(s: Suite<B>, h: B, items: seq<B>): B {
    if items == [] then h else s.mix(TranscriptFrom(s, h, items[..|items| - 1]), items[|items| - 1])
  }

  // ---- messages and state ----

  datatype Initiation<B> = Initiation(sender: u32, ephemeral: B, encStatic: B, encTimestamp: B, mac1: B)

  datatype Response<B> = Response(sender: u32, receiver: u32, ephemeral: B, encNothing: B, mac1: B)

  /** `handshake_init_state_t`. */
  datatype InitState<B> = InitState(ephemeralPrivate: B, chainingKey: B, hash: B, localIndex: u32, timestamp: u64)

  /** What the responder knows about a peer when an initiation arrives. */
  datatype Known<B> = Known(publicKey: B, lastHandshake: int)

  datatype Accepted<B> = Accepted(peer: nat, chainingKey: B, hash: B)

  datatype Keys<B> = Keys(send: B, recv: B)

  // ---- the four operations, in terms of chains and transcripts ----

  function InitiationFor<B(!new)>(s: Suite<B>, e: B, myPriv: B, myPub: B, theirPub: B, localIndex: u32, sec: u64,
                                  nsec: u32)
    : Result<(Initiation<B>, InitState<B>)>
  {
    var dh1, dh2 := s.dh(theirPub, e), s.dh(theirPub, myPriv);
    if dh1.None? || dh2.None? then Err(EFAULT)
    else
      var E := s.pub(e);
      var encStatic := s.seal(Second(s, Chain(s, [E]), dh1.value), Transcript(s, [theirPub, E]), myPub);
      var encTimestamp := s.seal(Second(s, Chain(s, [E, dh1.value]), dh2.value),
                                 Transcript(s, [theirPub, E, encStatic]), s.stamp(sec, nsec));
      Ok((Initiation(localIndex, E, encStatic, encTimestamp, s.mac(theirPub, [E, encStatic, encTimestamp])),
          InitState(e, Chain(s, [E, dh1.value, dh2.value]), Transcript(s, [theirPub, E, encStatic, encTimestamp]),
                    localIndex, sec)))
  }

  /** `(time_t)sec`: values from 2^63 on come out negative. */
  function AsTime(sec: u64): (t: int)
    ensures -0x8000_0000_0000_0000 <= t < 0x8000_0000_0000_0000 && (t == sec || t == sec - TWO64)
  {
    if sec < TWO64 / 2 then sec else sec - TWO64
  }

  predicate FreshTime(k: int, sec: u64) {
    k == 0 || AsTime(sec) > k
  }

  /** The first known peer with this key, or None. */
  function Find<B(==)>(known: seq<Known<B>>, key: B): (p: Option<nat>)
    ensures p.Some? ==> p.value < |known| && known[p.value].publicKey == key
    ensures p.Some? ==> forall i | 0 <= i < p.value :: known[i].publicKey != key
    ensures p.None? ==> forall i | 0 <= i < |known| :: known[i].publicKey != key
  {
    FindFrom(known, key, 0)
  }

  function FindFrom<B(==)>(known: seq<Known<B>>, key: B, from: nat): (p: Option<nat>)
    requires from <= |known|
    ensures p.Some? ==> from <= p.value < |known| && known[p.value].publicKey == key
    ensures p.Some? ==> forall i | from <= i < p.value :: known[i].publicKey != key
    ensures p.None? ==> forall i | from <= i < |known| :: known[i].publicKey != key
    decreases |known| - from
  {
    if from == |known| then None
    else if known[from].publicKey == key then Some(from)
    else FindFrom(known, key, from + 1)
  }

  function Consumed<B(!new,==)>(s: Suite<B>, m: Initiation<B>, myPriv: B, myPub: B, known: seq<Known<B>>)
    : (r: Result<Accepted<B>>)
    ensures r.Ok? ==> r.value.peer < |known|
  {
    var E := m.ephemeral;
    var dh1 := s.dh(E, myPriv);
    if dh1.None? then Err(EBADMSG)
    else
      var theirStatic := s.open(Second(s, Chain(s, [E]), dh1.value), Transcript(s, [myPub, E]), m.encStatic);
      if theirStatic.None? then Err(EBADMSG)
      else
        var peer := Find(known, theirStatic.value);
        if peer.None? then Err(EACCES)
        else
          var dh2 := s.dh(theirStatic.value, myPriv);
          if dh2.None? then Err(EBADMSG)
          else
            var timestamp := s.open(Second(s, Chain(s, [E, dh1.value]), dh2.value),
                                    Transcript(s, [myPub, E, m.encStatic]), m.encTimestamp);
            if timestamp.None? then Err(EBADMSG)
            else if !FreshTime(known[peer.value].lastHandshake, s.seconds(timestamp.value)) then Err(EBADMSG)
            else Ok(Accepted(peer.value, Chain(s, [E, dh1.value, dh2.value]),
                             Transcript(s, [myPub, E, m.encStatic, m.encTimestamp])))
  }

  function ResponseFor<B(!new)>(s: Suite<B>, e: B, theirEphemeral: B, theirStatic: B, myIndex: u32, theirIndex: u32,
                                c: B, h: B)
    : Result<(Response<B>, Keys<B>)>
  {
    var dh1, dh2 := s.dh(theirEphemeral, e), s.dh(theirStatic, e);
    if dh1.None? || dh2.None? then Err(EFAULT)
    else
      var E := s.pub(e);
      var encNothing := s.seal(Second(s, ChainFrom(s, c, [E, dh1.value]), dh2.value), TranscriptFrom(s, h, [E]),
                               s.empty);
      var final := ChainFrom(s, c, [E, dh1.value, dh2.value]);
      Ok((Response(myIndex, theirIndex, E, encNothing, s.mac(theirStatic, [E, encNothing])),
          Keys(Next(s, final, s.empty), Second(s, final, s.empty))))
  }

  function ResponseConsumed<B(!new,==)>(s: Suite<B>, m: Response<B>, myPriv: B, st: InitState<B>)
    : Result<(u32, Keys<B>)>
  {
    var dh1, dh2 := s.dh(m.ephemeral, st.ephemeralPrivate), s.dh(m.ephemeral, myPriv);
    if m.receiver != st.localIndex || dh1.None? || dh2.None? then Err(EBADMSG)
    else if s.open(Second(s, ChainFrom(s, st.chainingKey, [m.ephemeral, dh1.value]), dh2.value),
                   TranscriptFrom(s, st.hash, [m.ephemeral]), m.encNothing).None? then Err(EBADMSG)
    else
      var final := ChainFrom(s, st.chainingKey, [m.ephemeral, dh1.value, dh2.value]);
      Ok((m.sender, Keys(Second(s, final, s.empty), Next(s, final, s.empty))))
  }

  // ---- unfolding short chains ----

  lemma ChainSteps<B(!new)>(s: Suite<B>, c: B, x: B, y: B, z: B)
    ensures ChainFrom(s, c, [x]) == Next(s, c, x)
    ensures ChainFrom(s, c, [x, y]) == Next(s, ChainFrom(s, c, [x]), y)
    ensures ChainFrom(s, c, [x, y, z]) == Next(s, ChainFrom(s, c, [x, y]), z)
  {
    assert [x][..0] == [] && [x, y][..1] == [x] && [x, y, z][..2] == [x, y];
  }

  lemma TranscriptSteps<B(!new)>(s: Suite<B>, h: B, w: B, x: B, y: B, z: B)
    ensures TranscriptFrom(s, h, [w]) == s.mix(h, w)
    ensures TranscriptFrom(s, h, [w, x]) == s.mix(TranscriptFrom(s, h, [w]), x)
    ensures TranscriptFrom(s, h, [w, x, y]) == s.mix(TranscriptFrom(s, h, [w, x]), y)
    ensures TranscriptFrom(s, h, [w, x, y, z]) == s.mix(TranscriptFrom(s, h, [w, x, y]), z)
  {
    assert [w][..0] == [] && [w, x][..1] == [w] && [w, x, y][..2] == [w, x] && [w, x, y, z][..3] == [w, x, y];
  }

  // ---- the four operations, step by step ----

  method CreateInitiation<B(!new)>(s: Suite<B>, e: B, myPriv: B, myPub: B, theirPub: B, localIndex: u32, sec: u64,
                                   nsec: u32)
    returns (r: Result<(Initiation<B>, InitState<B>)>)
    ensures r == InitiationFor(s, e, myPriv, myPub, theirPub, localIndex, sec, nsec)
  {
    var ephemeral := s.pub(e);
    var c, h := s.protocolHash, s.labelHash;
    h := s.mix(h, theirPub);
    h := s.mix(h, ephemeral);
    c := Next(s, c, ephemeral);
    var dh1 := s.dh(theirPub, e);
    if dh1.None? { return Err(EFAULT); }
    var kappa1;
    c, kappa1 := Next(s, c, dh1.value), Second(s, c, dh1.value);
    var encStatic := s.seal(kappa1, h, myPub);
    h := s.mix(h, encStatic);
    var dh2 := s.dh(theirPub, myPriv);
    if dh2.None? { return Err(EFAULT); }
    var kappa2;
    c, kappa2 := Next(s, c, dh2.value), Second(s, c, dh2.value);
    var encTimestamp := s.seal(kappa2, h, s.stamp(sec, nsec));
    h := s.mix(h, encTimestamp);
    var mac1 := s.mac(theirPub, [ephemeral, encStatic, encTimestamp]);
    ChainSteps(s, s.protocolHash, ephemeral, dh1.value, dh2.value);
    TranscriptSteps(s, s.labelHash, theirPub, ephemeral, encStatic, encTimestamp);
    return Ok((Initiation(localIndex, ephemeral, encStatic, encTimestamp, mac1), InitState(e, c, h, localIndex, sec)));
  }

  method ConsumeInitiation<B(!new,==)>(s: Suite<B>, m: Initiation<B>, myPriv: B, myPub: B, known: seq<Known<B>>)
    returns (r: Result<Accepted<B>>)
    ensures r == Consumed(s, m, myPriv, myPub, known)
  {
    var c, h := s.protocolHash, s.labelHash;
    h := s.mix(h, myPub);
    h := s.mix(h, m.ephemeral);
    c := Next(s, c, m.ephemeral);
    var dh1 := s.dh(m.ephemeral, myPriv);
    if dh1.None? { return Err(EBADMSG); }
    var kappa1;
    c, kappa1 := Next(s, c, dh1.value), Second(s, c, dh1.value);
    ChainSteps(s, s.protocolHash, m.ephemeral, dh1.value, dh1.value);
    TranscriptSteps(s, s.labelHash, myPub, m.ephemeral, m.encStatic, m.encTimestamp);
    var theirStatic := s.open(kappa1, h, m.encStatic);
    if theirStatic.None? { return Err(EBADMSG); }
    var peer := Find(known, theirStatic.value);
    if peer.None? { return Err(EACCES); }
    h := s.mix(h, m.encStatic);
    var dh2 := s.dh(theirStatic.value, myPriv);
    if dh2.None? { return Err(EBADMSG); }
    var kappa2;
    c, kappa2 := Next(s, c, dh2.value), Second(s, c, dh2.value);
    ChainSteps(s, s.protocolHash, m.ephemeral, dh1.value, dh2.value);
    var timestamp := s.open(kappa2, h, m.encTimestamp);
    if timestamp.None? { return Err(EBADMSG); }
    var last := known[peer.value].lastHandshake;
    if last != 0 && AsTime(s.seconds(timestamp.value)) <= last { return Err(EBADMSG); }
    h := s.mix(h, m.encTimestamp);
    return Ok(Accepted(peer.value, c, h));
  }

  method CreateResponse<B(!new)>(s: Suite<B>, e: B, theirEphemeral: B, theirStatic: B, myIndex: u32, theirIndex: u32,
                                 chainingKey: B, hash: B)
    returns (r: Result<(Response<B>, Keys<B>)>)
    ensures r == ResponseFor(s, e, theirEphemeral, theirStatic, myIndex, theirIndex, chainingKey, hash)
  {
    var ephemeral := s.pub(e);
    var c, h := chainingKey, hash;
    h := s.mix(h, ephemeral);
    c := Next(s, c, ephemeral);
    var dh1 := s.dh(theirEphemeral, e);
    if dh1.None? { return Err(EFAULT); }
    c := Next(s, c, dh1.value);
    var dh2 := s.dh(theirStatic, e);
    if dh2.None? { return Err(EFAULT); }
    var kappa;
    c, kappa := Next(s, c, dh2.value), Second(s, c, dh2.value);
    var encNothing := s.seal(kappa, h, s.empty);
    h := s.mix(h, encNothing);
    var mac1 := s.mac(theirStatic, [ephemeral, encNothing]);
    ChainSteps(s, chainingKey, ephemeral, dh1.value, dh2.value);
    TranscriptSteps(s, hash, ephemeral, encNothing, h, h);
    return Ok((Response(myIndex, theirIndex, ephemeral, encNothing, mac1),
               Keys(Next(s, c, s.empty), Second(s, c, s.empty))));
  }

  method ConsumeResponse<B(!new,==)>(s: Suite<B>, m: Response<B>, myPriv: B, st: InitState<B>)
    returns (r: Result<(u32, Keys<B>)>)
    ensures r == ResponseConsumed(s, m, myPriv, st)
  {
    if m.receiver != st.localIndex { return Err(EBADMSG); }
    var c, h := st.chainingKey, st.hash;
    h := s.mix(h, m.ephemeral);
    c := Next(s, c, m.ephemeral);
    var dh1 := s.dh(m.ephemeral, st.ephemeralPrivate);
    if dh1.None? { return Err(EBADMSG); }
    c := Next(s, c, dh1.value);
    var dh2 := s.dh(m.ephemeral, myPriv);
    if dh2.None? { return Err(EBADMSG); }
    var kappa;
    c, kappa := Next(s, c, dh2.value), Second(s, c, dh2.value);
    ChainSteps(s, st.chainingKey, m.ephemeral, dh1.value, dh2.value);
    TranscriptSteps(s, st.hash, m.ephemeral, m.encNothing, h, h);
    if s.open(kappa, h, m.encNothing).None? { return Err(EBADMSG); }
    h := s.mix(h, m.encNothing);
    var keySend, keyRecv := Next(s, c, s.empty), Second(s, c, s.empty);
    return Ok((m.sender, Keys(keyRecv, keySend)));
  }

  // ---- completeness ----

  /** The responder accepts an unmodified initiation exactly when it knows the initiator and the
      timestamp is newer than that peer's last handshake, and then holds the initiator's state. */
  lemma InitiationAccepted<B(!new)>(s: Suite<B>, e: B, si: B, sr: B, index: u32, sec: u64, nsec: u32,
                                    known: seq<Known<B>>)
    requires Lawful(s)
    ensures InitiationFor(s, e, si, s.pub(si), s.pub(sr), index, sec, nsec).Ok?
    ensures
      var (m, st) := InitiationFor(s, e, si, s.pub(si), s.pub(sr), index, sec, nsec).value;
      var r := Consumed(s, m, sr, s.pub(sr), known);
      var p := Find(known, s.pub(si));
      && (r.Ok? <==> p.Some? && FreshTime(known[p.value].lastHandshake, sec))
      && (r.Ok? ==> r.value == Accepted(p.value, st.chainingKey, st.hash))
      && (p.None? <==> r == Err(EACCES))
  {
    assert s.dh(s.pub(sr), e) == s.dh(s.pub(e), sr);
    assert s.dh(s.pub(sr), si) == s.dh(s.pub(si), sr);
    var (m, st) := InitiationFor(s, e, si, s.pub(si), s.pub(sr), index, sec, nsec).value;
    var dh1, dh2 := s.dh(s.pub(e), sr).value, s.dh(s.pub(si), sr).value;
    assert s.open(Second(s, Chain(s, [m.ephemeral]), dh1), Transcript(s, [s.pub(sr), m.ephemeral]), m.encStatic)
           == Some(s.pub(si));
    assert s.open(Second(s, Chain(s, [m.ephemeral, dh1]), dh2),
                  Transcript(s, [s.pub(sr), m.ephemeral, m.encStatic]), m.encTimestamp) == Some(s.stamp(sec, nsec));
  }

  /** The initiator accepts the unmodified response and both ends hold the same keys crosswise. */
  lemma ResponseCompletes<B(!new)>(s: Suite<B>, e: B, si: B, er: B, indexI: u32, indexR: u32, st: InitState<B>)
    requires Lawful(s) && st.ephemeralPrivate == e && st.localIndex == indexI
    ensures ResponseFor(s, er, s.pub(e), s.pub(si), indexR, indexI, st.chainingKey, st.hash).Ok?
    ensures
      var (m, keys) := ResponseFor(s, er, s.pub(e), s.pub(si), indexR, indexI, st.chainingKey, st.hash).value;
      ResponseConsumed(s, m, si, st) == Ok((indexR, Keys(keys.recv, keys.send)))
  {
    assert s.dh(s.pub(e), er) == s.dh(s.pub(er), e);
    assert s.dh(s.pub(si), er) == s.dh(s.pub(er), si);
  }

  /** A whole unmodified handshake. */
  lemma HandshakeCompletes<B(!new)>(s: Suite<B>, e: B, si: B, sr: B, er: B, indexI: u32, indexR: u32,
                                       sec: u64, nsec: u32, known: seq<Known<B>>)
    requires Lawful(s)
    requires var p := Find(known, s.pub(si)); p.Some? && FreshTime(known[p.value].lastHandshake, sec)
    ensures
      var init := InitiationFor(s, e, si, s.pub(si), s.pub(sr), indexI, sec, nsec);
      && init.Ok?
      && var (m, st) := init.value;
      var acc := Consumed(s, m, sr, s.pub(sr), known);
      && acc.Ok? && known[acc.value.peer].publicKey == s.pub(si)
      && acc.value.chainingKey == st.chainingKey && acc.value.hash == st.hash
      && var resp := ResponseFor(s, er, m.ephemeral, known[acc.value.peer].publicKey, indexR, m.sender,
                                 acc.value.chainingKey, acc.value.hash);
      && resp.Ok?
      && ResponseConsumed(s, resp.value.0, si, st) == Ok((indexR, Keys(resp.value.1.recv, resp.value.1.send)))
  {
    InitiationAccepted(s, e, si, sr, indexI, sec, nsec, known);
    var (m, st) := InitiationFor(s, e, si, s.pub(si), s.pub(sr), indexI, sec, nsec).value;
    ResponseCompletes(s, e, si, er, indexI, indexR, st);
  }

  // ---- freshness ----

  /** What an initiation that decrypts says: the initiator's key and its clock, in seconds. */
  function Claims<B(!new)>(s: Suite<B>, m: Initiation<B>, myPriv: B, myPub: B): Option<(B, u64)> {
    var dh1 := s.dh(m.ephemeral, myPriv);
    if dh1.None? then None
    else
      var key := s.open(Second(s, Chain(s, [m.ephemeral]), dh1.value), Transcript(s, [myPub, m.ephemeral]),
                        m.encStatic);
      if key.None? || s.dh(key.value, myPriv).None? then None
      else
        var timestamp := s.open(Second(s, Chain(s, [m.ephemeral, dh1.value]), s.dh(key.value, myPriv).value),
                                Transcript(s, [myPub, m.ephemeral, m.encStatic]), m.encTimestamp);
        if timestamp.None? then None else Some((key.value, s.seconds(timestamp.value)))
  }

  /** Apart from what the initiation itself says, acceptance depends on the peer's last handshake. */
  lemma ConsumedIff<B(!new)>(s: Suite<B>, m: Initiation<B>, myPriv: B, myPub: B, known: seq<Known<B>>)
    ensures
      var r, c := Consumed(s, m, myPriv, myPub, known), Claims(s, m, myPriv, myPub);
      && (r.Ok? <==> c.Some? && Find(known, c.value.0).Some?
                     && FreshTime(known[Find(known, c.value.0).value].lastHandshake, c.value.1))
      && (r.Ok? ==> Find(known, c.value.0) == Some(r.value.peer))
  {}

  // ---- agreement ----

  /** Equal chaining keys after one step come from equal keys and equal inputs. */
  lemma NextInjective<B(!new)>(s: Suite<B>, c: B, x: B, c': B, x': B)
    requires Ideal(s)
    ensures Next(s, c, x) == Next(s, c', x') ==> c == c' && x == x'
    ensures Second(s, c, x) == Second(s, c', x') ==> c == c' && x == x'
  {}

  lemma {:induction false} ChainInjective<B(!new)>(s: Suite<B>, c: B, xs: seq<B>, c': B, xs': seq<B>)
    requires Ideal(s) && |xs| == |xs'|
    ensures ChainFrom(s, c, xs) == ChainFrom(s, c', xs') ==> c == c' && xs == xs'
  {
    if xs != [] && ChainFrom(s, c, xs) == ChainFrom(s, c', xs') {
      var n := |xs| - 1;
      NextInjective(s, ChainFrom(s, c, xs[..n]), xs[n], ChainFrom(s, c', xs'[..n]), xs'[n]);
      ChainInjective(s, c, xs[..n], c', xs'[..n]);
      assert xs == xs[..n] + [xs[n]] && xs' == xs'[..n] + [xs'[n]];
    }
  }

  lemma {:induction false} TranscriptInjective<B(!new)>(s: Suite<B>, h: B, xs: seq<B>, h': B, xs': seq<B>)
    requires Ideal(s) && |xs| == |xs'|
    ensures TranscriptFrom(s, h, xs) == TranscriptFrom(s, h', xs') ==> h == h' && xs == xs'
  {
    if xs != [] && TranscriptFrom(s, h, xs) == TranscriptFrom(s, h', xs') {
      var n := |xs| - 1;
      TranscriptInjective(s, h, xs[..n], h', xs'[..n]);
      assert xs == xs[..n] + [xs[n]] && xs' == xs'[..n] + [xs'[n]];
    }
  }

  /** If an initiator accepts a response whose tag some responder call produced, on whatever
      inputs, then that call used the initiator's chaining key and transcript, the response
      carries that call's ephemeral, and the two sides hold the same keys crosswise. */
  lemma ResponseAgreement<B(!new)>(s: Suite<B>, m: Response<B>, myPriv: B, st: InitState<B>,
                                      er: B, theirEphemeral: B, theirStatic: B, myIndex: u32, theirIndex: u32, c: B,
                                      h: B)
    requires Ideal(s)
    requires ResponseConsumed(s, m, myPriv, st).Ok?
    requires var r := ResponseFor(s, er, theirEphemeral, theirStatic, myIndex, theirIndex, c, h);
      r.Ok? && r.value.0.encNothing == m.encNothing
    ensures st.chainingKey == c && st.hash == h && m.ephemeral == s.pub(er)
    ensures s.dh(m.ephemeral, st.ephemeralPrivate) == s.dh(theirEphemeral, er)
    ensures s.dh(m.ephemeral, myPriv) == s.dh(theirStatic, er)
    ensures
      var responder := ResponseFor(s, er, theirEphemeral, theirStatic, myIndex, theirIndex, c, h).value.1;
      var initiator := ResponseConsumed(s, m, myPriv, st).value.1;
      initiator.send == responder.recv && initiator.recv == responder.send
  {
    var d1, d2 := s.dh(m.ephemeral, st.ephemeralPrivate).value, s.dh(m.ephemeral, myPriv).value;
    var d1', d2' := s.dh(theirEphemeral, er).value, s.dh(theirStatic, er).value;
    var E := s.pub(er);
    var kappa := Second(s, ChainFrom(s, st.chainingKey, [m.ephemeral, d1]), d2);
    var kappa' := Second(s, ChainFrom(s, c, [E, d1']), d2');
    var h1, h1' := TranscriptFrom(s, st.hash, [m.ephemeral]), TranscriptFrom(s, h, [E]);
    assert m.encNothing == s.seal(kappa, h1, s.open(kappa, h1, m.encNothing).value);
    assert kappa == kappa' && h1 == h1';
    TranscriptInjective(s, st.hash, [m.ephemeral], h, [E]);
    NextInjective(s, ChainFrom(s, st.chainingKey, [m.ephemeral, d1]), d2, ChainFrom(s, c, [E, d1']), d2');
    ChainInjective(s, st.chainingKey, [m.ephemeral, d1], c, [E, d1']);
    assert [m.ephemeral, d1][0] == [E, d1'][0] && [m.ephemeral, d1][1] == [E, d1'][1];
    assert [m.ephemeral][0] == [E][0];
  }

  /** If a responder accepts an initiation whose timestamp field some initiator call produced, on
      whatever inputs, then that call was addressed to this responder, sent this ephemeral and
      this static field, claimed the public key of the peer found, and both hold the same state. */
  lemma InitiationAgreement<B(!new)>(s: Suite<B>, m: Initiation<B>, myPriv: B, myPub: B, known: seq<Known<B>>,
                                        e: B, theirPriv: B, theirPub: B, target: B, index: u32, sec: u64, nsec: u32)
    requires Ideal(s)
    requires Consumed(s, m, myPriv, myPub, known).Ok?
    requires var r := InitiationFor(s, e, theirPriv, theirPub, target, index, sec, nsec);
      r.Ok? && r.value.0.encTimestamp == m.encTimestamp
    ensures
      var acc := Consumed(s, m, myPriv, myPub, known).value;
      var (sent, st) := InitiationFor(s, e, theirPriv, theirPub, target, index, sec, nsec).value;
      && target == myPub
      && m.ephemeral == sent.ephemeral && m.encStatic == sent.encStatic
      && known[acc.peer].publicKey == theirPub
      && acc.chainingKey == st.chainingKey && acc.hash == st.hash
  {
    var (sent, st) := InitiationFor(s, e, theirPriv, theirPub, target, index, sec, nsec).value;
    var E, E' := m.ephemeral, sent.ephemeral;
    var d1, d1' := s.dh(E, myPriv).value, s.dh(target, e).value;
    var k1, h1 := Second(s, Chain(s, [E]), d1), Transcript(s, [myPub, E]);
    var theirStatic := s.open(k1, h1, m.encStatic).value;
    var d2, d2' := s.dh(theirStatic, myPriv).value, s.dh(target, theirPriv).value;
    var k2, h2 := Second(s, Chain(s, [E, d1]), d2), Transcript(s, [myPub, E, m.encStatic]);
    var k2', h2' := Second(s, Chain(s, [E', d1']), d2'), Transcript(s, [target, E', sent.encStatic]);
    assert m.encTimestamp == s.seal(k2, h2, s.open(k2, h2, m.encTimestamp).value);
    assert k2 == k2' && h2 == h2';
    TranscriptInjective(s, s.labelHash, [myPub, E, m.encStatic], s.labelHash, [target, E', sent.encStatic]);
    NextInjective(s, Chain(s, [E, d1]), d2, Chain(s, [E', d1']), d2');
    ChainInjective(s, s.protocolHash, [E, d1], s.protocolHash, [E', d1']);
    assert [myPub, E, m.encStatic][0] == [target, E', sent.encStatic][0];
    assert [myPub, E, m.encStatic][1] == [target, E', sent.encStatic][1];
    assert [myPub, E, m.encStatic][2] == [target, E', sent.encStatic][2];
    assert [E, d1][1] == [E', d1'][1];
    assert m.encStatic == s.seal(k1, h1, theirStatic);
  }

  /** Agreement on the whole handshake: the initiator's state comes from its own initiation, the
      responder's from some initiation it accepted, and the response tag is the responder's.  Then
      the responder accepted the initiator's fields, unchanged, for the initiator's own public
      key, and the two key pairs are the same crosswise. */
  lemma HandshakeAgreement<B(!new)>(s: Suite<B>, e: B, si: B, siPub: B, target: B, indexI: u32, sec: u64, nsec: u32,
                                    m1: Initiation<B>, sr: B, srPub: B, known: seq<Known<B>>,
                                    er: B, theirEphemeral: B, theirStatic: B, indexR: u32, theirIndex: u32,
                                    m2: Response<B>)
    requires Ideal(s)
    requires InitiationFor(s, e, si, siPub, target, indexI, sec, nsec).Ok?
    requires Consumed(s, m1, sr, srPub, known).Ok?
    requires
      var acc := Consumed(s, m1, sr, srPub, known).value;
      var r := ResponseFor(s, er, theirEphemeral, theirStatic, indexR, theirIndex, acc.chainingKey, acc.hash);
      r.Ok? && r.value.0.encNothing == m2.encNothing
    requires ResponseConsumed(s, m2, si, InitiationFor(s, e, si, siPub, target, indexI, sec, nsec).value.1).Ok?
    ensures
      var (m0, st) := InitiationFor(s, e, si, siPub, target, indexI, sec, nsec).value;
      var acc := Consumed(s, m1, sr, srPub, known).value;
      var responder := ResponseFor(s, er, theirEphemeral, theirStatic, indexR, theirIndex, acc.chainingKey,
                                   acc.hash).value.1;
      var initiator := ResponseConsumed(s, m2, si, st).value.1;
      && target == srPub
      && m1.ephemeral == m0.ephemeral && m1.encStatic == m0.encStatic && m1.encTimestamp == m0.encTimestamp
      && m2.ephemeral == s.pub(er)
      && known[acc.peer].publicKey == siPub
      && initiator.send == responder.recv && initiator.recv == responder.send
  {
    var (m0, st) := InitiationFor(s, e, si, siPub, target, indexI, sec, nsec).value;
    var acc := Consumed(s, m1, sr, srPub, known).value;
    ResponseAgreement(s, m2, si, st, er, theirEphemeral, theirStatic, indexR, theirIndex, acc.chainingKey, acc.hash);
    var mine, theirs := [target, m0.ephemeral, m0.encStatic, m0.encTimestamp],
                        [srPub, m1.ephemeral, m1.encStatic, m1.encTimestamp];
    TranscriptInjective(s, s.labelHash, mine, s.labelHash, theirs);
    assert mine[0] == theirs[0] && mine[1] == theirs[1] && mine[2] == theirs[2] && mine[3] == theirs[3];
    InitiationAgreement(s, m1, sr, srPub, known, e, si, siPub, target, indexI, sec, nsec);
  }
}
