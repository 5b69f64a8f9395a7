/** The handshake as the Noise framework describes it: a symmetric state, and message patterns read
    token by token.  Nothing here knows about the chains and transcripts of module Handshake; the
    four operations are proved to be the two messages of the pattern IK,

      <- s     -> e, es, s, ss     <- e, ee, se

    where, unlike in the framework, an ephemeral key is mixed into the chaining key as well. */
module Noise {
  import opened Words
  import opened Errors
  import H = Handshake

  datatype Token = E | S | EE | ES | SE | SS

  /** Chaining key, message key and transcript hash. */
  datatype Symmetric<B> = Symmetric(chain: B, key: B, hash: B)

  /** One end: private keys, its own static public key, and what it knows of the other end. */
  datatype Party<B> = Party(
    initiator: bool, ephemeral: B, identity: B, identityPublic: B, theirEphemeral: B, theirStatic: B)

  /** Two start values, and the responder's static key as the pre-message. */
  function Start<B(!new)>(s: H.Suite<B>, responderStatic: B): Symmetric<B> {
    MixHash(s, Symmetric(s.protocolHash, s.empty, s.labelHash), responderStatic)
  }

  function MixHash<B(!new)>(s: H.Suite<B>, y: Symmetric<B>, data: B): Symmetric<B> {
    y.(hash := s.mix(y.hash, data))
  }

  /** Extract, then expand to a chaining key and a message key. */
  function MixKey<B(!new)>(s: H.Suite<B>, y: Symmetric<B>, input: B): Symmetric<B> {
    var t := s.keyed(y.chain, input);
    var chain := s.keyed(t, s.one);
    Symmetric(chain, s.keyed(t, s.two(chain)), y.hash)
  }

  function MixEphemeral<B(!new)>(s: H.Suite<B>, y: Symmetric<B>, e: B): Symmetric<B> {
    MixKey(s, MixHash(s, y, e), e)
  }

  /** The Diffie-Hellman tokens: the first letter is the initiator's key. */
  function Agree<B(!new)>(s: H.Suite<B>, p: Party<B>, t: Token): Option<B>
    requires t != E && t != S
  {
    match t
    case EE => s.dh(p.theirEphemeral, p.ephemeral)
    case ES => if p.initiator then s.dh(p.theirStatic, p.ephemeral) else s.dh(p.theirEphemeral, p.identity)
    case SE => if p.initiator then s.dh(p.theirEphemeral, p.identity) else s.dh(p.theirStatic, p.ephemeral)
    case SS => s.dh(p.theirStatic, p.identity)
  }

  // ---- writing ----

  datatype Written<B> = Written(fields: seq<B>, y: Symmetric<B>)

  function Encrypt<B(!new)>(s: H.Suite<B>, w: Written<B>, plaintext: B): Written<B> {
    var c := s.seal(w.y.key, w.y.hash, plaintext);
    Written(w.fields + [c], MixHash(s, w.y, c))
  }

  function WriteToken<B(!new)>(s: H.Suite<B>, p: Party<B>, w: Written<B>, t: Token): Option<Written<B>> {
    match t
    case E => Some(Written(w.fields + [s.pub(p.ephemeral)], MixEphemeral(s, w.y, s.pub(p.ephemeral))))
    case S => Some(Encrypt(s, w, p.identityPublic))
    case _ =>
      var dh := Agree(s, p, t);
      if dh.None? then None else Some(w.(y := MixKey(s, w.y, dh.value)))
  }

  function Write<B(!new)>(s: H.Suite<B>, p: Party<B>, y: Symmetric<B>, tokens: seq<Token>): Option<Written<B>> {
    if tokens == [] then Some(Written([], y))
    else
      var before := Write(s, p, y, tokens[..|tokens| - 1]);
      if before.None? then None else WriteToken(s, p, before.value, tokens[|tokens| - 1])
  }

  function WriteMessage<B(!new)>(s: H.Suite<B>, p: Party<B>, y: Symmetric<B>, tokens: seq<Token>, payload: B)
    : Option<Written<B>>
  {
    var w := Write(s, p, y, tokens);
    if w.None? then None else Some(Encrypt(s, w.value, payload))
  }

  // ---- reading ----

  datatype Reading<B> = Reading(p: Party<B>, y: Symmetric<B>, used: nat)

  function ReadToken<B(!new)>(s: H.Suite<B>, r: Reading<B>, t: Token, fields: seq<B>): Option<Reading<B>> {
    match t
    case E =>
      if r.used >= |fields| then None
      else
        var e := fields[r.used];
        Some(Reading(r.p.(theirEphemeral := e), MixEphemeral(s, r.y, e), r.used + 1))
    case S =>
      if r.used >= |fields| then None
      else
        var key := s.open(r.y.key, r.y.hash, fields[r.used]);
        if key.None? then None
        else Some(Reading(r.p.(theirStatic := key.value), MixHash(s, r.y, fields[r.used]), r.used + 1))
    case _ =>
      var dh := Agree(s, r.p, t);
      if dh.None? then None else Some(r.(y := MixKey(s, r.y, dh.value)))
  }

  function Read<B(!new)>(s: H.Suite<B>, p: Party<B>, y: Symmetric<B>, tokens: seq<Token>, fields: seq<B>)
    : Option<Reading<B>>
  {
    if tokens == [] then Some(Reading(p, y, 0))
    else
      var before := Read(s, p, y, tokens[..|tokens| - 1], fields);
      if before.None? then None else ReadToken(s, before.value, tokens[|tokens| - 1], fields)
  }

  /** The payload, the other end's static key and the state after the message. */
  datatype Message<B> = Message(payload: B, theirStatic: B, y: Symmetric<B>)

  function ReadMessage<B(!new)>(s: H.Suite<B>, p: Party<B>, y: Symmetric<B>, tokens: seq<Token>, fields: seq<B>)
    : Option<Message<B>>
  {
    var r := Read(s, p, y, tokens, fields);
    if r.None? || r.value.used >= |fields| then None
    else
      var field := fields[r.value.used];
      var payload := s.open(r.value.y.key, r.value.y.hash, field);
      if payload.None? then None else Some(Message(payload.value, r.value.p.theirStatic, MixHash(s, r.value.y, field)))
  }

  // ---- the pattern ----

  function First(): seq<Token> {
    [E, ES, S, SS]
  }

  function Second(): seq<Token> {
    [E, EE, SE]
  }

  lemma WriteNext<B(!new)>(s: H.Suite<B>, p: Party<B>, y: Symmetric<B>, tokens: seq<Token>, t: Token)
    ensures Write(s, p, y, []) == Some(Written([], y))
    ensures
      var before := Write(s, p, y, tokens);
      Write(s, p, y, tokens + [t]) == if before.None? then None else WriteToken(s, p, before.value, t)
  {
    assert (tokens + [t])[..|tokens|] == tokens;
  }

  lemma ReadNext<B(!new)>(s: H.Suite<B>, p: Party<B>, y: Symmetric<B>, tokens: seq<Token>, t: Token, fields: seq<B>)
    ensures Read(s, p, y, [], fields) == Some(Reading(p, y, 0))
    ensures
      var before := Read(s, p, y, tokens, fields);
      Read(s, p, y, tokens + [t], fields) == if before.None? then None else ReadToken(s, before.value, t, fields)
  {
    assert (tokens + [t])[..|tokens|] == tokens;
  }

  lemma Prefixes()
    ensures [] + [E] == [E] && [E] + [ES] == [E, ES] && [E, ES] + [S] == [E, ES, S] && [E, ES, S] + [SS] == First()
    ensures [E] + [EE] == [E, EE] && [E, EE] + [SE] == Second()
  {}

  // ---- the four operations ----

  /** The initiation is the first message, with the time stamp as its payload. */
  lemma InitiationIsFirst<B(!new)>(s: H.Suite<B>, e: B, myPriv: B, myPub: B, theirPub: B, localIndex: u32, sec: u64,
                                   nsec: u32, x: B)
    ensures
      var r := H.InitiationFor(s, e, myPriv, myPub, theirPub, localIndex, sec, nsec);
      var p := Party(true, e, myPriv, myPub, x, theirPub);
      var w := WriteMessage(s, p, Start(s, theirPub), First(), s.stamp(sec, nsec));
      if w.None? then r == Err(EFAULT)
      else
        && r.Ok? && var (m, st) := r.value;
        && w.value.fields == [m.ephemeral, m.encStatic, m.encTimestamp]
        && m.sender == localIndex && m.mac1 == s.mac(theirPub, w.value.fields)
        && st == H.InitState(e, w.value.y.chain, w.value.y.hash, localIndex, sec)
  {
    hide Write;
    Prefixes();
    var p, y := Party(true, e, myPriv, myPub, x, theirPub), Start(s, theirPub);
    WriteNext(s, p, y, [], E);
    WriteNext(s, p, y, [E], ES);
    WriteNext(s, p, y, [E, ES], S);
    WriteNext(s, p, y, [E, ES, S], SS);
    var dh1, dh2 := s.dh(theirPub, e), s.dh(theirPub, myPriv);
    if dh1.Some? && dh2.Some? {
      H.ChainSteps(s, s.protocolHash, s.pub(e), dh1.value, dh2.value);
      var m := H.InitiationFor(s, e, myPriv, myPub, theirPub, localIndex, sec, nsec).value.0;
      H.TranscriptSteps(s, s.labelHash, theirPub, m.ephemeral, m.encStatic, m.encTimestamp);
    }
  }

  /** The response is the second message, with an empty payload; splitting its chaining key gives the
      responder's sending and receiving keys. */
  lemma ResponseIsSecond<B(!new)>(s: H.Suite<B>, e: B, theirEphemeral: B, theirStatic: B, myIndex: u32,
                                  theirIndex: u32, y: Symmetric<B>, x: B)
    ensures
      var r := H.ResponseFor(s, e, theirEphemeral, theirStatic, myIndex, theirIndex, y.chain, y.hash);
      var p := Party(false, e, x, x, theirEphemeral, theirStatic);
      var w := WriteMessage(s, p, y, Second(), s.empty);
      if w.None? then r == Err(EFAULT)
      else
        && r.Ok? && var (m, keys) := r.value;
        && w.value.fields == [m.ephemeral, m.encNothing]
        && m.sender == myIndex && m.receiver == theirIndex && m.mac1 == s.mac(theirStatic, w.value.fields)
        && var split := MixKey(s, w.value.y, s.empty);
        keys == H.Keys(split.chain, split.key)
  {
    hide Write;
    Prefixes();
    var p := Party(false, e, x, x, theirEphemeral, theirStatic);
    WriteNext(s, p, y, [], E);
    WriteNext(s, p, y, [E], EE);
    WriteNext(s, p, y, [E, EE], SE);
    var dh1, dh2 := s.dh(theirEphemeral, e), s.dh(theirStatic, e);
    if dh1.Some? && dh2.Some? {
      H.ChainSteps(s, y.chain, s.pub(e), dh1.value, dh2.value);
      H.TranscriptSteps(s, y.hash, s.pub(e), x, x, x);
    }
  }

  /** Consuming an initiation is reading the first message, finding its sender and checking the clock it
      carries. */
  lemma ConsumedIsFirst<B(!new)>(s: H.Suite<B>, m: H.Initiation<B>, myPriv: B, myPub: B, known: seq<H.Known<B>>, x: B)
    ensures
      var r := H.Consumed(s, m, myPriv, myPub, known);
      var p := Party(false, x, myPriv, myPub, x, x);
      var got := ReadMessage(s, p, Start(s, myPub), First(), [m.ephemeral, m.encStatic, m.encTimestamp]);
      && (r.Ok? <==> got.Some? && var i := H.Find(known, got.value.theirStatic);
        i.Some? && H.FreshTime(known[i.value].lastHandshake, s.seconds(got.value.payload)))
      && (r.Ok? ==> H.Find(known, got.value.theirStatic) == Some(r.value.peer))
      && (r.Ok? ==> r.value.chainingKey == got.value.y.chain && r.value.hash == got.value.y.hash)
      && var early := Read(s, p, Start(s, myPub), [E, ES, S], [m.ephemeral, m.encStatic, m.encTimestamp]);
      && (r == Err(EACCES) <==> early.Some? && H.Find(known, early.value.p.theirStatic).None?)
      && (r.Err? && r != Err(EACCES) ==> r == Err(EBADMSG))
  {
    hide Read;
    Prefixes();
    var p, y := Party(false, x, myPriv, myPub, x, x), Start(s, myPub);
    var fields := [m.ephemeral, m.encStatic, m.encTimestamp];
    ReadNext(s, p, y, [], E, fields);
    ReadNext(s, p, y, [E], ES, fields);
    ReadNext(s, p, y, [E, ES], S, fields);
    ReadNext(s, p, y, [E, ES, S], SS, fields);
    H.TranscriptSteps(s, s.labelHash, myPub, m.ephemeral, m.encStatic, m.encTimestamp);
    var dh1 := s.dh(m.ephemeral, myPriv);
    if dh1.Some? {
      H.ChainSteps(s, s.protocolHash, m.ephemeral, dh1.value, dh1.value);
      var key := s.open(H.Second(s, H.Chain(s, [m.ephemeral]), dh1.value), H.Transcript(s, [myPub, m.ephemeral]),
                        m.encStatic);
      if key.Some? && s.dh(key.value, myPriv).Some? {
        H.ChainSteps(s, s.protocolHash, m.ephemeral, dh1.value, s.dh(key.value, myPriv).value);
      }
    }
  }

  /** Consuming a response is reading the second message under the initiator's own index; the split
      keys are the other way round. */
  lemma ResponseConsumedIsSecond<B(!new)>(s: H.Suite<B>, m: H.Response<B>, myPriv: B, st: H.InitState<B>, x: B)
    ensures
      var r := H.ResponseConsumed(s, m, myPriv, st);
      var p := Party(true, st.ephemeralPrivate, myPriv, x, x, x);
      var got := ReadMessage(s, p, Symmetric(st.chainingKey, x, st.hash), Second(), [m.ephemeral, m.encNothing]);
      && (r.Ok? <==> got.Some? && m.receiver == st.localIndex)
      && (r.Ok? ==> var split := MixKey(s, got.value.y, s.empty);
        r.value == (m.sender, H.Keys(split.key, split.chain)))
      && (r.Err? ==> r == Err(EBADMSG))
  {
    hide Read;
    Prefixes();
    var p, y := Party(true, st.ephemeralPrivate, myPriv, x, x, x), Symmetric(st.chainingKey, x, st.hash);
    var fields := [m.ephemeral, m.encNothing];
    ReadNext(s, p, y, [], E, fields);
    ReadNext(s, p, y, [E], EE, fields);
    ReadNext(s, p, y, [E, EE], SE, fields);
    var dh1, dh2 := s.dh(m.ephemeral, st.ephemeralPrivate), s.dh(m.ephemeral, myPriv);
    H.TranscriptSteps(s, st.hash, m.ephemeral, x, x, x);
    if dh1.Some? && dh2.Some? { H.ChainSteps(s, st.chainingKey, m.ephemeral, dh1.value, dh2.value); }
  }
}
