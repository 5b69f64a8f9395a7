/** secretstream_xchacha20poly1305.c of the bundled libsodium: an encrypted stream whose two ends
    keep a key and a 12-byte nonce, four bytes of counter and eight of inner nonce.  The stream
    cipher, the authenticator and the key derivation are abstract. */
module SecretStream {
  import opened Words
  import opened LittleEndian
  import opened Errors

  const ABYTES: nat := 17
  const TAG_REKEY: byte := 0x02
  const MESSAGEBYTES_MAX: nat := 64 * (TWO32 - 2)

  /** `stream(nonce, key, ic, n)`: `n` bytes of key stream from block `ic` on; `mac(key, input)`;
      `subkey(header, key)`. */
  datatype Functions = Functions(
    stream: (Bytes, Bytes, nat, nat) -> Bytes,
    mac: (Bytes, Bytes) -> Bytes,
    subkey: (Bytes, Bytes) -> Bytes)

  ghost predicate Sized(c: Functions) {
    && (forall n, k, ic, len :: |c.stream(n, k, ic, len)| == len)
    && (forall k, x :: |c.mac(k, x)| == 16)
    && (forall h, k :: |c.subkey(h, k)| == 32)
  }

  function NullFunctions(): Functions {
    Functions((n, k, ic, len) => Zeros(len), (k, x) => Zeros(16), (h, k) => Zeros(32))
  }

  type Cipher = c: Functions | Sized(c) ghost witness NullFunctions()

  // ---- exclusive or ----

  /** Byte by byte, as far as the first string goes. */
  function XorBytes(a: Bytes, b: Bytes): (r: Bytes)
    requires |a| <= |b|
    ensures |r| == |a|
  {
    seq(|a|, i requires 0 <= i < |a| => XorByte(a[i], b[i]))
  }

  /** Bit by bit. */
  lemma XorBytesBits(a: Bytes, b: Bytes, i: nat, j: nat)
    requires |a| <= |b| && i < |a|
    ensures Bit(XorBytes(a, b)[i], j) <==> (Bit(a[i], j) != Bit(b[i], j))
  {
    BitOfXor(a[i], b[i], j);
  }

  lemma XorTwice(a: Bytes, b: Bytes)
    requires |a| <= |b|
    ensures XorBytes(XorBytes(a, b), b) == a
  {
    forall i | 0 <= i < |a| ensures XorBytes(XorBytes(a, b), b)[i] == a[i] {
      XorLaws(a[i], b[i]);
    }
  }

  // ---- one end of the stream ----

  datatype State = State(k: Bytes, nonce: Bytes)

  predicate Valid(st: State) {
    |st.k| == 32 && |st.nonce| == 12
  }

  type End = st: State | Valid(st) witness State(Zeros(32), Zeros(12))

  function Counter(st: End): (n: u32) {
    Read32(st.nonce[..4])
  }

  /** The counter part back to one. */
  function CounterReset(inonce: Bytes): (nonce: Bytes)
    requires |inonce| == 8
    ensures |nonce| == 12
  {
    [1, 0, 0, 0] + inonce
  }

  /** Both `init_push` and `init_pull`, given the 24-byte header. */
  function Init(c: Cipher, header: Bytes, key: Bytes): (st: End)
    requires |header| == 24
    ensures Counter(st) == 1 && st.k == c.subkey(header, key) && st.nonce[4..] == header[16..]
  {
    OneIsOne(header[16..]);
    State(c.subkey(header, key), CounterReset(header[16..]))
  }

  lemma OneIsOne(inonce: Bytes)
    requires |inonce| == 8
    ensures Read32(CounterReset(inonce)[..4]) == 1
  {
    assert CounterReset(inonce)[..4] == [1, 0, 0, 0];
    assert LE32(1) == [1, 0, 0, 0] by { WordSizes(); }
    RoundTrip32(1);
  }

  /** Key and inner nonce are encrypted with the current key and nonce. */
  function Rekey(c: Cipher, st: End): (st': End)
    ensures Counter(st') == 1
  {
    var buf := XorBytes(st.k + st.nonce[4..], c.stream(st.nonce, st.k, 0, 40));
    OneIsOne(buf[32..]);
    State(buf[..32], CounterReset(buf[32..]))
  }

  /** What is authenticated.  The padding after the ciphertext is computed as in the code, which
      makes it `|ct| % 16` bytes long. */
  function MacInput(ad: Bytes, block: Bytes, ct: Bytes): Bytes
    requires |ad| < TWO64 && |ct| <= MESSAGEBYTES_MAX
  {
    ad + Zeros((0x10 - |ad|) % 16) + block + ct + Zeros((0x10 - 64 + |ct|) % 16) + LE64(|ad|) + LE64(64 + |ct|)
  }

  function Tag(c: Cipher, st: End, ad: Bytes, block: Bytes, ct: Bytes): (mac: Bytes)
    requires |ad| < TWO64 && |ct| <= MESSAGEBYTES_MAX
    ensures |mac| == 16
  {
    c.mac(c.stream(st.nonce, st.k, 0, 64)[..32], MacInput(ad, block, ct))
  }

  /** After a message: the authenticator goes into the inner nonce, the counter goes up, and a
      rekey tag or a counter that wrapped changes the key. */
  function Incremented(st: End, mac: Bytes): (st': End)
    requires |mac| == 16
    ensures Counter(st') == Succ32(Counter(st))
  {
    RoundTrip32(Succ32(Counter(st)));
    var nonce := LE32(Succ32(Counter(st))) + XorBytes(st.nonce[4..], mac[..8]);
    assert nonce[..4] == LE32(Succ32(Counter(st)));
    State(st.k, nonce)
  }

  predicate Rekeys(st: End, tag: byte) {
    And(tag, TAG_REKEY) != 0 || Counter(st) == 0
  }

  function Advance(c: Cipher, st: End, mac: Bytes, tag: byte): (st': End)
    requires |mac| == 16
  {
    var next := Incremented(st, mac);
    if Rekeys(next, tag) then Rekey(c, next) else next
  }

  /** The encrypted tag block: only its first byte is sent. */
  function TagBlock(c: Cipher, st: End, tag: byte): (block: Bytes)
    ensures |block| == 64
  {
    XorBytes([tag] + Zeros(63), c.stream(st.nonce, st.k, 1, 64))
  }

  function Crypt(c: Cipher, st: End, m: Bytes): (ct: Bytes)
    ensures |ct| == |m|
  {
    XorBytes(m, c.stream(st.nonce, st.k, 2, |m|))
  }

  function Push(c: Cipher, st: End, m: Bytes, ad: Bytes, tag: byte): (r: (Bytes, End))
    requires |m| <= MESSAGEBYTES_MAX && |ad| < TWO64
    ensures |r.0| == |m| + ABYTES
  {
    var block, ct := TagBlock(c, st, tag), Crypt(c, st, m);
    var mac := Tag(c, st, ad, block, ct);
    ([block[0]] + ct + mac, Advance(c, st, mac, tag))
  }

  function Pull(c: Cipher, st: End, input: Bytes, ad: Bytes): (r: Option<(Bytes, byte, End)>)
    requires |input| <= MESSAGEBYTES_MAX + ABYTES && |ad| < TWO64
  {
    if |input| < ABYTES then None else
    var mlen := |input| - ABYTES;
    var decrypted := TagBlock(c, st, input[0]);
    var tag, block := decrypted[0], decrypted[0 := input[0]];
    var ct, stored := input[1..1 + mlen], input[1 + mlen..];
    var mac := Tag(c, st, ad, block, ct);
    if mac != stored then None else Some((Crypt(c, st, ct), tag, Advance(c, st, mac, tag)))
  }

  // ---- what a push leaves behind ----

  /** The nonce after a message, before any rekey: the counter goes up by one, modulo 2^32, and the
      first half of the authenticator goes into the inner nonce. */
  function NextNonce(st: End, mac: Bytes): (nonce: Bytes)
    requires |mac| == 16
    ensures |nonce| == 12
  {
    LE32((FromLE(st.nonce[..4]) + 1) % 0x1_0000_0000) + XorBytes(st.nonce[4..], mac[..8])
  }

  /** Bit 1 of the tag, or a counter about to wrap, replaces key and inner nonce by their encryption
      and resets the counter to one; otherwise the key stays. */
  lemma PushAdvances(c: Cipher, st: End, m: Bytes, ad: Bytes, tag: byte)
    requires |m| <= MESSAGEBYTES_MAX && |ad| < TWO64
    ensures
      var (out, st') := Push(c, st, m, ad, tag);
      var nonce := NextNonce(st, out[|out| - 16..]);
      if Bit(tag, 1) || Counter(st) == 0xFFFF_FFFF
      then st'.k + st'.nonce[4..] == XorBytes(st.k + nonce[4..], c.stream(nonce, st.k, 0, 40))
        && st'.nonce[..4] == [1, 0, 0, 0]
      else st' == State(st.k, nonce)
  {
    hide MacInput, XorBytes, TagBlock, Crypt;
    var block, ct := TagBlock(c, st, tag), Crypt(c, st, m);
    var mac := Tag(c, st, ad, block, ct);
    var out := Push(c, st, m, ad, tag).0;
    assert out[|out| - 16..] == mac;
    AndPow2(tag, 1);
    assert Pow2(1) == 2 by { assert Pow2(0) == 1; }
    AdvanceIs(c, st, mac, tag);
  }

  lemma AdvanceIs(c: Cipher, st: End, mac: Bytes, tag: byte)
    requires |mac| == 16
    ensures
      var st', nonce := Advance(c, st, mac, tag), NextNonce(st, mac);
      if And(tag, 2) != 0 || Counter(st) == 0xFFFF_FFFF
      then st'.k + st'.nonce[4..] == XorBytes(st.k + nonce[4..], c.stream(nonce, st.k, 0, 40))
        && st'.nonce[..4] == [1, 0, 0, 0]
      else st' == State(st.k, nonce)
  {
    hide XorBytes, And, LE32, FromLE;
    var next, nonce := Incremented(st, mac), NextNonce(st, mac);
    assert next == State(st.k, nonce);
    var buf := XorBytes(st.k + nonce[4..], c.stream(nonce, st.k, 0, 40));
    assert buf[..32] + buf[32..] == buf;
    assert CounterReset(buf[32..])[4..] == buf[32..] && CounterReset(buf[32..])[..4] == [1, 0, 0, 0];
  }

  /** The pieces of key stream used under one nonce are consecutive blocks of one stream. */
  predicate OneStream(c: Cipher, st: End, len: nat) {
    c.stream(st.nonce, st.k, 0, 128 + len) ==
    c.stream(st.nonce, st.k, 0, 64) + c.stream(st.nonce, st.k, 1, 64) + c.stream(st.nonce, st.k, 2, len)
  }

  /** A record is made from one key stream, no byte of which is used twice: the first 32 bytes are the
      authenticator's key, the second block encrypts the tag, and the message follows. */
  lemma PushUsesOneStream(c: Cipher, st: End, m: Bytes, ad: Bytes, tag: byte)
    requires |m| <= MESSAGEBYTES_MAX && |ad| < TWO64 && OneStream(c, st, |m|)
    ensures
      var out, ks := Push(c, st, m, ad, tag).0, c.stream(st.nonce, st.k, 0, 128 + |m|);
      var block, ct := XorBytes([tag] + Zeros(63), ks[64..128]), out[1..1 + |m|];
      out[0] == block[0] && ct == XorBytes(m, ks[128..]) && out[1 + |m|..] == c.mac(ks[..32], MacInput(ad, block, ct))
  {
    hide XorBytes, MacInput, Advance;
    var ks := c.stream(st.nonce, st.k, 0, 128 + |m|);
    assert ks[64..128] == c.stream(st.nonce, st.k, 1, 64) && ks[128..] == c.stream(st.nonce, st.k, 2, |m|);
    assert ks[..32] == c.stream(st.nonce, st.k, 0, 64)[..32];
    var out := Push(c, st, m, ad, tag).0;
    assert out[1..1 + |m|] == Crypt(c, st, m);
  }

  // ---- lockstep ----

  lemma TagBlockTwice(c: Cipher, st: End, tag: byte)
    ensures var block := TagBlock(c, st, tag); var again := TagBlock(c, st, block[0]);
      again[0] == tag && again[0 := block[0]] == block
  {
    var block := TagBlock(c, st, tag);
    XorLaws(tag, c.stream(st.nonce, st.k, 1, 64)[0]);
    hide XorByte;
  }

  /** One message: what was pushed comes back, and the two ends agree again. */
  lemma PullPush(c: Cipher, st: End, m: Bytes, ad: Bytes, tag: byte)
    requires |m| <= MESSAGEBYTES_MAX && |ad| < TWO64
    ensures var (out, st') := Push(c, st, m, ad, tag); Pull(c, st, out, ad) == Some((m, tag, st'))
  {
    var block, ct := TagBlock(c, st, tag), Crypt(c, st, m);
    var mac := Tag(c, st, ad, block, ct);
    var out := Push(c, st, m, ad, tag).0;
    TagBlockTwice(c, st, tag);
    XorTwice(m, c.stream(st.nonce, st.k, 2, |m|));
    hide XorBytes, MacInput, Advance, TagBlock;
    assert out[1..1 + |m|] == ct && out[1 + |m|..] == mac;
  }

  /** What the two applications do: send a record, or change the key at both ends. */
  datatype Op = Send(m: Bytes, ad: Bytes, tag: byte) | RekeyBoth

  predicate Sendable(op: Op) {
    op.Send? ==> |op.m| <= MESSAGEBYTES_MAX && |op.ad| < TWO64
  }

  type Ops = ops: seq<Op> | forall i | 0 <= i < |ops| :: Sendable(ops[i])

  /** What the receiver is given, in order. */
  datatype Item = Packet(input: Bytes, ad: Bytes) | RekeyNow

  predicate Bounded(item: Item) {
    item.Packet? ==> |item.input| <= MESSAGEBYTES_MAX + ABYTES && |item.ad| < TWO64
  }

  type Items = items: seq<Item> | forall i | 0 <= i < |items| :: Bounded(items[i])

  function Sent(c: Cipher, st: End, op: Op): (r: (Item, End))
    requires Sendable(op)
    ensures Bounded(r.0)
  {
    match op
    case Send(m, ad, tag) => var (out, st') := Push(c, st, m, ad, tag); (Packet(out, ad), st')
    case RekeyBoth => (RekeyNow, Rekey(c, st))
  }

  function SentAll(c: Cipher, st: End, ops: Ops): (r: (Items, End)) {
    if ops == [] then ([], st) else
    var (items, before) := SentAll(c, st, ops[..|ops| - 1]);
    var (item, after) := Sent(c, before, ops[|ops| - 1]);
    (items + [item], after)
  }

  /** A packet that is refused leaves the state alone. */
  function Got(c: Cipher, st: End, item: Item): (r: (Option<Op>, End))
    requires Bounded(item)
  {
    match item
    case Packet(input, ad) =>
      (match Pull(c, st, input, ad)
       case None => (None, st)
       case Some(pulled) => (Some(Send(pulled.0, ad, pulled.1)), pulled.2))
    case RekeyNow => (Some(RekeyBoth), Rekey(c, st))
  }

  function GotAll(c: Cipher, st: End, items: Items): (r: (seq<Op>, End)) {
    if items == [] then ([], st) else
    var (ops, before) := GotAll(c, st, items[..|items| - 1]);
    var (op, after) := Got(c, before, items[|items| - 1]);
    (if op.Some? then ops + [op.value] else ops, after)
  }

  lemma GotSent(c: Cipher, st: End, op: Op)
    requires Sendable(op)
    ensures Got(c, st, Sent(c, st, op).0) == (Some(op), Sent(c, st, op).1)
  {
    hide Push, Pull, Rekey;
    if op.Send? { PullPush(c, st, op.m, op.ad, op.tag); }
  }

  /** Receiving what was sent gives back the records in order and equal states. */
  lemma {:induction false} Lockstep(c: Cipher, st: End, ops: Ops)
    ensures GotAll(c, st, SentAll(c, st, ops).0) == (ops, SentAll(c, st, ops).1)
    decreases |ops|
  {
    hide Sent, Got;
    if ops != [] {
      var init, last := ops[..|ops| - 1], ops[|ops| - 1];
      Lockstep(c, st, init);
      var (items, before) := SentAll(c, st, init);
      GotSent(c, before, last);
      var all := SentAll(c, st, ops).0;
      assert all[..|all| - 1] == items && all[|all| - 1] == Sent(c, before, last).0;
      assert init + [last] == ops;
    }
  }

  /** The items that were not refused when they arrived. */
  function Accepted(c: Cipher, st: End, items: Items): (r: Items) {
    if items == [] then [] else
    var before := items[..|items| - 1];
    var item := items[|items| - 1];
    Accepted(c, st, before) + if Got(c, GotAll(c, st, before).1, item).0.Some? then [item] else []
  }

  /** Refused packets might as well never have arrived. */
  lemma {:induction false} RefusedAreErasable(c: Cipher, st: End, items: Items)
    ensures GotAll(c, st, Accepted(c, st, items)) == GotAll(c, st, items)
    decreases |items|
  {
    hide Pull, Rekey;
    if items != [] {
      var before, item := items[..|items| - 1], items[|items| - 1];
      RefusedAreErasable(c, st, before);
      var kept := Accepted(c, st, before);
      if Got(c, GotAll(c, st, before).1, item).0.Some? {
        assert (kept + [item])[..|kept|] == kept;
      } else {
        assert Accepted(c, st, items) == kept;
      }
    }
  }

  /** So noise on the way changes nothing: as long as the packets that get through are the ones
      sent, the receiver has exactly what was sent and is in the sender's state. */
  lemma LockstepThroughNoise(c: Cipher, st: End, ops: Ops, items: Items)
    requires Accepted(c, st, items) == SentAll(c, st, ops).0
    ensures GotAll(c, st, items) == (ops, SentAll(c, st, ops).1)
  {
    Lockstep(c, st, ops);
    RefusedAreErasable(c, st, items);
  }

  // ---- nonces ----

  type Nonce12 = n: Bytes | |n| == 12 witness Zeros(12)

  /** One use of the current key; epochs number the keys. */
  datatype Use = Use(epoch: nat, nonce: Nonce12)

  datatype History = History(st: End, epoch: nat, uses: seq<Use>)

  function Record(c: Cipher, h: History, op: Op): (h': History)
    requires Sendable(op)
  {
    var used := h.uses + [Use(h.epoch, h.st.nonce)];
    match op
    case RekeyBoth => History(Rekey(c, h.st), h.epoch + 1, used)
    case Send(m, ad, tag) =>
      var next := Incremented(h.st, Tag(c, h.st, ad, TagBlock(c, h.st, tag), Crypt(c, h.st, m)));
      if Rekeys(next, tag)
      then History(Push(c, h.st, m, ad, tag).1, h.epoch + 1, used + [Use(h.epoch, next.nonce)])
      else History(Push(c, h.st, m, ad, tag).1, h.epoch, used)
  }

  function RecordAll(c: Cipher, st: End, ops: Ops): (h: History) {
    if ops == [] then History(st, 0, []) else Record(c, RecordAll(c, st, ops[..|ops| - 1]), ops[|ops| - 1])
  }

  /** How often the key has been replaced: by request, by a tag with bit 1, or by a wrapping counter. */
  function KeyChanges(c: Cipher, st: End, ops: Ops): nat {
    if ops == [] then 0
    else
      var init, last := ops[..|ops| - 1], ops[|ops| - 1];
      var before := SentAll(c, st, init).1;
      KeyChanges(c, st, init)
      + if last.RekeyBoth? || Bit(last.tag, 1) || Counter(before) == 0xFFFF_FFFF then 1 else 0
  }

  /** Epochs number the key changes, and the recorded state is the sender's. */
  lemma {:induction false} EpochsAreKeyChanges(c: Cipher, st: End, ops: Ops)
    ensures RecordAll(c, st, ops).epoch == KeyChanges(c, st, ops)
    ensures RecordAll(c, st, ops).st == SentAll(c, st, ops).1
    decreases |ops|
  {
    hide Push, Rekey, Incremented, Tag, TagBlock, Crypt, And, Bit;
    if ops != [] {
      var init, last := ops[..|ops| - 1], ops[|ops| - 1];
      EpochsAreKeyChanges(c, st, init);
      if last.Send? { RekeyTag(last.tag); }
    }
  }

  lemma RekeyTag(tag: byte)
    ensures And(tag, TAG_REKEY) != 0 <==> Bit(tag, 1)
  {
    AndPow2(tag, 1);
    assert Pow2(1) == 2 by { assert Pow2(0) == 1; }
  }

  function CounterOf(n: Nonce12): u32 {
    Read32(n[..4])
  }

  /** The counter is never zero between calls, and the current key has only been used with
      smaller counters. */
  ghost predicate Fresh(h: History) {
    && Counter(h.st) > 0
    && (forall i | 0 <= i < |h.uses| :: h.uses[i].epoch <= h.epoch)
    && (forall i | 0 <= i < |h.uses| && h.uses[i].epoch == h.epoch :: 0 < CounterOf(h.uses[i].nonce) < Counter(h.st))
  }

  ghost predicate Distinct(uses: seq<Use>) {
    forall i, j | 0 <= i < j < |uses| && uses[i].epoch == uses[j].epoch :: uses[i].nonce != uses[j].nonce
  }

  lemma DistinctAppend(uses: seq<Use>, u: Use)
    requires Distinct(uses)
    requires forall i | 0 <= i < |uses| && uses[i].epoch == u.epoch :: CounterOf(uses[i].nonce) != CounterOf(u.nonce)
    ensures Distinct(uses + [u])
  {
    hide CounterOf;
  }

  lemma RecordKeeps(c: Cipher, h: History, op: Op)
    requires Sendable(op) && Fresh(h) && Distinct(h.uses)
    ensures Fresh(Record(c, h, op)) && Distinct(Record(c, h, op).uses)
  {
    hide Distinct, Rekey, Incremented, Tag, TagBlock, Crypt, CounterReset, Read32;
    DistinctAppend(h.uses, Use(h.epoch, h.st.nonce));
    if op.Send? {
      var next := Incremented(h.st, Tag(c, h.st, op.ad, TagBlock(c, h.st, op.tag), Crypt(c, h.st, op.m)));
      DistinctAppend(h.uses + [Use(h.epoch, h.st.nonce)], Use(h.epoch, next.nonce));
    }
  }

  /** No key is used twice with the same nonce: not for two messages, and not for a message and
      the rekey that ends its epoch, even when the counter has wrapped to zero. */
  lemma {:induction false} NoncesAreDistinct(c: Cipher, header: Bytes, key: Bytes, ops: Ops)
    requires |header| == 24
    ensures var h := RecordAll(c, Init(c, header, key), ops);
      Fresh(h) && Distinct(h.uses) && h.st == SentAll(c, Init(c, header, key), ops).1
    decreases |ops|
  {
    hide Fresh, Distinct, Push, Rekey, Incremented, Init;
    if ops == [] {
      FreshStart(Init(c, header, key));
    } else {
      NoncesAreDistinct(c, header, key, ops[..|ops| - 1]);
      RecordKeeps(c, RecordAll(c, Init(c, header, key), ops[..|ops| - 1]), ops[|ops| - 1]);
    }
  }

  lemma FreshStart(st: End)
    requires Counter(st) == 1
    ensures Fresh(History(st, 0, [])) && Distinct([])
  {}

  // ---- what the authenticator covers ----

  /** The additional data, the tag block and the ciphertext can be read back off the authenticated
      bytes, so no two different triples are authenticated as the same bytes. */
  lemma MacInputInjective(ad: Bytes, block: Bytes, ct: Bytes, ad': Bytes, block': Bytes, ct': Bytes)
    requires |ad| < TWO64 && |ct| <= MESSAGEBYTES_MAX && |block| == 64
    requires |ad'| < TWO64 && |ct'| <= MESSAGEBYTES_MAX && |block'| == 64
    requires MacInput(ad, block, ct) == MacInput(ad', block', ct')
    ensures ad == ad' && block == block' && ct == ct'
  {
    hide LE64;
    MacInputParts(ad, block, ct);
    MacInputParts(ad', block', ct');
    RoundTrip64(|ad|); RoundTrip64(|ad'|); RoundTrip64(64 + |ct|); RoundTrip64(64 + |ct'|);
  }

  /** The layout: additional data, zeros up to a multiple of 16, the tag block, the ciphertext, as many
      zeros as its length exceeds a multiple of 16, and the two lengths. */
  lemma MacInputLayout(ad: Bytes, block: Bytes, ct: Bytes)
    requires |ad| < TWO64 && |ct| <= MESSAGEBYTES_MAX && |block| == 64
    ensures
      var x, p := MacInput(ad, block, ct), |ad| + (16 - |ad| % 16) % 16;
      var q := p + 64 + |ct| + |ct| % 16;
      && |x| == q + 16 && p % 16 == 0 && x[..|ad|] == ad && x[p..p + 64] == block && x[p + 64..p + 64 + |ct|] == ct
      && (forall i | |ad| <= i < p || p + 64 + |ct| <= i < q :: x[i] == 0)
      && FromLE(x[q..q + 8]) == |ad| && FromLE(x[q + 8..]) == 64 + |ct|
  {
    hide LE64, FromLE;
    MacInputParts(ad, block, ct);
    RoundTrip64(|ad|);
    RoundTrip64(64 + |ct|);
    PadLengths(|ad|, |ct|);
  }

  lemma PadLengths(a: nat, c: nat)
    ensures (0x10 - a) % 16 == (16 - a % 16) % 16 && (0x10 - 64 + c) % 16 == c % 16
    ensures (a + (16 - a % 16) % 16) % 16 == 0
  {}

  lemma MacInputParts(ad: Bytes, block: Bytes, ct: Bytes)
    requires |ad| < TWO64 && |ct| <= MESSAGEBYTES_MAX && |block| == 64
    ensures var x, p := MacInput(ad, block, ct), |ad| + (0x10 - |ad|) % 16;
      && |x| >= p + 64 + |ct| + 16
      && x[..|ad|] == ad && x[p..p + 64] == block && x[p + 64..p + 64 + |ct|] == ct
      && x[|x| - 16..|x| - 8] == LE64(|ad|) && x[|x| - 8..] == LE64(64 + |ct|)
  {
    hide LE64;
  }

  /** What `Pull` authenticates. */
  function PulledInput(c: Cipher, st: End, input: Bytes, ad: Bytes): Bytes
    requires ABYTES <= |input| <= MESSAGEBYTES_MAX + ABYTES && |ad| < TWO64
  {
    MacInput(ad, TagBlock(c, st, input[0])[0 := input[0]], input[1..|input| - 16])
  }

  function PushedInput(c: Cipher, st: End, m: Bytes, ad: Bytes, tag: byte): Bytes
    requires |m| <= MESSAGEBYTES_MAX && |ad| < TWO64
  {
    MacInput(ad, TagBlock(c, st, tag), Crypt(c, st, m))
  }

  /** A packet accepted with the authenticator of a pushed record is that record, unless the two
      are different inputs with the same authenticator. */
  lemma AcceptedIsPushed(c: Cipher, st: End, m: Bytes, ad: Bytes, tag: byte, input: Bytes, ad': Bytes)
    requires |m| <= MESSAGEBYTES_MAX && |ad| < TWO64 && |ad'| < TWO64
    requires ABYTES <= |input| <= MESSAGEBYTES_MAX + ABYTES && Pull(c, st, input, ad').Some?
    requires var out := Push(c, st, m, ad, tag).0; input[|input| - 16..] == out[|out| - 16..]
    requires
      var key := c.stream(st.nonce, st.k, 0, 64)[..32];
      var x, y := PulledInput(c, st, input, ad'), PushedInput(c, st, m, ad, tag);
      c.mac(key, x) == c.mac(key, y) ==> x == y
    ensures ad' == ad && input == Push(c, st, m, ad, tag).0
    ensures Pull(c, st, input, ad') == Some((m, tag, Push(c, st, m, ad, tag).1))
  {
    hide MacInput, XorBytes, Advance;
    var block, ct := TagBlock(c, st, tag), Crypt(c, st, m);
    var out, mac := Push(c, st, m, ad, tag).0, Tag(c, st, ad, block, ct);
    assert out[|out| - 16..] == mac;
    assert input[1..1 + (|input| - ABYTES)] == input[1..|input| - 16];
    MacInputInjective(ad', TagBlock(c, st, input[0])[0 := input[0]], input[1..|input| - 16], ad, block, ct);
    assert input == [input[0]] + input[1..|input| - 16] + input[|input| - 16..];
    PullPush(c, st, m, ad, tag);
  }
}
