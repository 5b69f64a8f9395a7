/** The streaming SHA-256 and the HMAC of exercises/hkdf_two_keys.c.  The compression function is
    abstract; buffering, padding and the length field are what is proved. */
module Sha256 {
  import opened Words
  import opened LittleEndian

  type State = s: seq<u32> | |s| == 8 witness [0, 0, 0, 0, 0, 0, 0, 0]

  /** Compression of one 64-byte block into the state. */
  type Compress = (State, Bytes) -> State

  const BLOCK: nat := 64

  function InitialState(): State {
    [0x6a09e667, 0xbb67ae85, 0x3c6ef372, 0xa54ff53a, 0x510e527f, 0x9b05688c, 0x1f83d9ab, 0x5be0cd19]
  }

  /** The first 32 bits of the fraction of the square root of `p`. */
  predicate IsRootFraction(w: u32, p: nat) {
    exists n: nat | n <= 4 :: IsRoot(0x1_0000_0000 * n + w, p)
  }

  /** `r` is the square root of `p`, times 2^32 and rounded down. */
  predicate IsRoot(r: nat, p: nat) {
    r * r <= p * 0x1_0000_0000_0000_0000 < (r + 1) * (r + 1)
  }

  /** Section 5.3.3 of FIPS 180-4: the square roots of the first eight primes. */
  lemma InitialStateIsRoots()
    ensures forall i | 0 <= i < 8 :: IsRootFraction(InitialState()[i], [2, 3, 5, 7, 11, 13, 17, 19][i])
  {
    assert IsRoot(0x1_0000_0000 * 1 + 0x6a09e667, 2) && IsRoot(0x1_0000_0000 * 1 + 0xbb67ae85, 3);
    assert IsRoot(0x1_0000_0000 * 2 + 0x3c6ef372, 5) && IsRoot(0x1_0000_0000 * 2 + 0xa54ff53a, 7);
    assert IsRoot(0x1_0000_0000 * 3 + 0x510e527f, 11) && IsRoot(0x1_0000_0000 * 3 + 0x9b05688c, 13);
    assert IsRoot(0x1_0000_0000 * 4 + 0x1f83d9ab, 17) && IsRoot(0x1_0000_0000 * 4 + 0x5be0cd19, 19);
  }

  // ---- the one-shot form ----

  function Fold(f: Compress, s: Bytes): (st: State)
    requires |s| % BLOCK == 0
    decreases |s|
  {
    if |s| == 0 then InitialState() else f(Fold(f, s[..|s| - BLOCK]), s[|s| - BLOCK..])
  }

  lemma FoldAppend(f: Compress, s: Bytes, block: Bytes)
    requires |s| % BLOCK == 0 && |block| == BLOCK
    ensures Fold(f, s + block) == f(Fold(f, s), block)
  {
    assert (s + block)[..|s + block| - BLOCK] == s && (s + block)[|s + block| - BLOCK..] == block;
  }

  /** Most significant byte first. */
  function BE64(v: u64): (s: Bytes)
    ensures |s| == 8 && IsBE(s, v)
  {
    seq(8, i requires 0 <= i < 8 => ByteAt(v, 7 - i))
  }

  /** Zeros up to eight bytes short of a block. */
  function ZeroCount(n: nat): nat {
    (55 - n) % 64
  }

  /** Section 5.1.1 of FIPS 180-4, except that the length field holds the low 64 bits of any
      length. */
  function Pad(m: Bytes): (s: Bytes)
    ensures |s| % BLOCK == 0
  {
    m + [0x80] + Zeros(ZeroCount(|m|)) + BE64(Wrap64(8 * |m|))
  }

  lemma BE64Injective(v: u64, w: u64)
    requires BE64(v) == BE64(w)
    ensures v == w
  {
    forall i | 0 <= i < 8 ensures LE64(v)[i] == LE64(w)[i] {
      assert BE64(v)[7 - i] == ByteAt(v, i) && BE64(w)[7 - i] == ByteAt(w, i);
    }
    assert LE64(v) == LE64(w);
    RoundTrip64(v);
    RoundTrip64(w);
  }

  /** Below 2^64 bits the padding can be undone: no two messages are folded as the same blocks. */
  lemma PadInjective(m: Bytes, m': Bytes)
    requires 8 * |m| < TWO64 && 8 * |m'| < TWO64 && Pad(m) == Pad(m')
    ensures m == m'
  {
    hide BE64;
    PadParts(m);
    PadParts(m');
    BE64Injective(Wrap64(8 * |m|), Wrap64(8 * |m'|));
    hide Pad;
  }

  /** The padding: the message, the byte 0x80, zeros, and the length in bits modulo 2^64, most
      significant byte first; the whole as short as a multiple of 64 can be. */
  lemma PadLayout(m: Bytes)
    ensures
      var s := Pad(m);
      && |s| % 64 == 0 && |m| + 9 <= |s| < |m| + 9 + 64
      && s[..|m|] == m && s[|m|] == 0x80 && (forall i | |m| < i < |s| - 8 :: s[i] == 0)
      && IsBE(s[|s| - 8..], 8 * |m| % 0x1_0000_0000_0000_0000)
  {
    hide BE64, IsBE;
    PadParts(m);
  }

  lemma PadParts(m: Bytes)
    ensures var s := Pad(m); |s| >= |m| + 8 && s[|s| - 8..] == BE64(Wrap64(8 * |m|)) && s[..|m|] == m
  {
    hide BE64;
  }

  /** The state words, each most significant byte first. */
  function Digest(st: State): (h: Bytes)
    ensures |h| == 32 && forall i | 0 <= i < 8 :: IsBE(h[4 * i..4 * i + 4], st[i])
  {
    DigestWords(st);
    seq(32, i requires 0 <= i < 32 => ByteAt(st[i / 4], 3 - i % 4))
  }

  lemma DigestWords(st: State)
    ensures
      var h := seq(32, i requires 0 <= i < 32 => ByteAt(st[i / 4], 3 - i % 4));
      forall i | 0 <= i < 8 :: IsBE(h[4 * i..4 * i + 4], st[i])
  {
    hide ByteAt;
    var h := seq(32, i requires 0 <= i < 32 => ByteAt(st[i / 4], 3 - i % 4));
    forall i | 0 <= i < 8 ensures IsBE(h[4 * i..4 * i + 4], st[i]) {
      var word := h[4 * i..4 * i + 4];
      forall j | 0 <= j < 4 ensures word[j] == ByteAt(st[i], 3 - j) { ModUnique(4 * i + j, 4, i, j); }
    }
  }

  function Hash(f: Compress, m: Bytes): (h: Bytes)
    ensures |h| == 32
  {
    Digest(Fold(f, Pad(m)))
  }

  // ---- the streaming form ----

  class Context {
    const f: Compress
    const data: array<byte>
    var datalen: nat
    var bitlen: u64
    var state: State
    /** What has been fed in so far. */
    ghost var message: Bytes

    ghost predicate Valid()
      reads this, data
    {
      && data.Length == BLOCK && datalen < BLOCK && datalen <= |message|
      && Split(f, message, |message| - datalen, bitlen, state)
      && data[..datalen] == message[|message| - datalen..]
    }

    constructor (f: Compress)
      ensures Valid() && fresh(data) && this.f == f && message == []
    {
      this.f, data := f, new byte[BLOCK];
      datalen, bitlen, state, message := 0, 0, InitialState(), [];
    }

    /** One turn of the update loop: a full buffer is compressed and counted. */
    method Feed(b: byte)
      requires Valid()
      modifies this, data
      ensures Valid() && message == old(message) + [b]
    {
      hide Split;
      data[datalen] := b;
      assert data[..datalen + 1] == old(data[..datalen]) + [b];
      ghost var done := |message| - datalen;
      SplitGrows(f, message, done, bitlen, state, [b]);
      message := message + [b];
      datalen := datalen + 1;
      if datalen == 64 {
        SplitNext(f, message, done, bitlen, state);
        assert message[done..] == data[..];
        state := f(state, data[..]);
        bitlen := Wrap64(bitlen + 512);
        datalen := 0;
      }
    }

    /** `sha256_update`. */
    method Update(bytes: Bytes)
      requires Valid()
      modifies this, data
      ensures Valid() && message == old(message) + bytes
    {
      for i := 0 to |bytes|
        invariant Valid() && message == old(message) + bytes[..i]
      {
        Feed(bytes[i]);
        assert bytes[..i + 1] == bytes[..i] + [bytes[i]];
      }
    }

    /** `sha256_final`: the digest of everything fed in. */
    method Final() returns (hash: Bytes)
      requires Valid()
      modifies this, data
      ensures hash == Hash(f, old(message))
    {
      hide Fold, Pad, Digest, BE64;
      ghost var tail := data[..datalen];
      if datalen < 56 {
        ShortTail(f, message, datalen);
        FillZeros(datalen, 56);
      } else {
        LongTail(f, message, datalen);
        FillZeros(datalen, 64);
        assert data[..] == data[..64];
        state := f(state, data[..]);
        CopyInto(data, 0, Zeros(56));
        assert data[..56] == Zeros(56);
      }
      CountBits(8 * (|message| - datalen), 8 * datalen);
      bitlen := Wrap64(bitlen + datalen * 8);
      Finish(data[..56]);
      hash := WriteDigest(state);
    }

    /** The length goes into the last eight bytes, and the last block is compressed. */
    method Finish(ghost start: Bytes)
      requires data.Length == BLOCK && start == data[..56]
      modifies this, data
      ensures state == f(old(state), start + BE64(bitlen)) && bitlen == old(bitlen)
    {
      hide BE64;
      CopyInto(data, 56, BE64(bitlen));
      assert data[..] == start + BE64(bitlen);
      state := f(state, data[..]);
    }

    /** 0x80, then zeros from there to `end`. */
    method FillZeros(from: nat, end: nat)
      requires data.Length == BLOCK && from < end <= BLOCK
      modifies data
      ensures data[..end] == old(data[..from]) + [0x80] + Zeros(end - from - 1)
    {
      data[from] := 0x80;
      var i := from + 1;
      while i < end
        invariant from < i <= end
        invariant data[..i] == old(data[..from]) + [0x80] + Zeros(i - from - 1)
      {
        data[i] := 0;
        i := i + 1;
        assert data[..i] == data[..i - 1] + [0];
      }
    }
  }

  /** The first `done` bytes are whole blocks, compressed and counted. */
  ghost predicate Split(f: Compress, m: Bytes, done: nat, bitlen: u64, state: State) {
    done <= |m| && done % BLOCK == 0 && bitlen == Wrap64(8 * done) && state == Fold(f, m[..done])
  }

  lemma SplitGrows(f: Compress, m: Bytes, done: nat, bitlen: u64, state: State, more: Bytes)
    requires Split(f, m, done, bitlen, state)
    ensures Split(f, m + more, done, bitlen, state)
  {
    assert (m + more)[..done] == m[..done];
  }

  lemma SplitNext(f: Compress, m: Bytes, done: nat, bitlen: u64, state: State)
    requires Split(f, m, done, bitlen, state) && |m| == done + BLOCK
    ensures Split(f, m, |m|, Wrap64(bitlen + 512), f(state, m[done..]))
  {
    hide Fold, Wrap64;
    FoldAppend(f, m[..done], m[done..]);
    assert m[..|m|] == m[..done] + m[done..];
    CountBits(8 * done, 512);
  }

  lemma CountBits(n: nat, more: nat)
    ensures Wrap64(Wrap64(n) + more) == Wrap64(n + more)
  {
    var q := n / TWO64;
    assert n == TWO64 * q + Wrap64(n);
    var x := Wrap64(n) + more;
    assert n + more == TWO64 * (q + x / TWO64) + x % TWO64;
  }

  lemma ZerosConcat(a: nat, b: nat)
    ensures Zeros(a) + Zeros(b) == Zeros(a + b)
  {}

  /** The padding fits behind a short tail, and takes another block behind a long one. */
  lemma ShortTail(f: Compress, m: Bytes, datalen: nat)
    requires datalen <= |m| && (|m| - datalen) % BLOCK == 0 && datalen < 56
    ensures var done, length := |m| - datalen, BE64(Wrap64(8 * |m|));
      Fold(f, Pad(m)) == f(Fold(f, m[..done]), m[done..] + [0x80] + Zeros(55 - datalen) + length)
  {
    hide Fold, BE64;
    var done, length := |m| - datalen, BE64(Wrap64(8 * |m|));
    var block := m[done..] + [0x80] + Zeros(55 - datalen) + length;
    assert ZeroCount(|m|) == 55 - datalen;
    assert Pad(m) == m[..done] + block;
    FoldAppend(f, m[..done], block);
  }

  lemma LongTail(f: Compress, m: Bytes, datalen: nat)
    requires datalen <= |m| && (|m| - datalen) % BLOCK == 0 && 56 <= datalen < BLOCK
    ensures var done, length := |m| - datalen, BE64(Wrap64(8 * |m|));
      Fold(f, Pad(m)) == f(f(Fold(f, m[..done]), m[done..] + [0x80] + Zeros(63 - datalen)), Zeros(56) + length)
  {
    hide Fold, BE64, Zeros, Wrap64, ZeroCount;
    var done, length := |m| - datalen, BE64(Wrap64(8 * |m|));
    var block, last := m[done..] + [0x80] + Zeros(63 - datalen), Zeros(56) + length;
    LongZeros(|m|, datalen);
    ZerosConcat(63 - datalen, 56);
    assert m == m[..done] + m[done..];
    assert Pad(m) == m[..done] + block + last;
    FoldAppend(f, m[..done], block);
    FoldAppend(f, m[..done] + block, last);
  }

  lemma LongZeros(n: nat, datalen: nat)
    requires datalen <= n && (n - datalen) % BLOCK == 0 && 56 <= datalen < BLOCK
    ensures ZeroCount(n) == (63 - datalen) + 56
  {}

  method WriteDigest(st: State) returns (hash: Bytes)
    ensures hash == Digest(st)
  {
    hide ByteAt;
    var out := new byte[32];
    for i := 0 to 4
      invariant forall k | 0 <= k < 32 && k % 4 < i :: out[k] == ByteAt(st[k / 4], 3 - k % 4)
    {
      for w := 0 to 8
        invariant forall k | 0 <= k < 32 && (k % 4 < i || (k % 4 == i && k / 4 < w)) ::
          out[k] == ByteAt(st[k / 4], 3 - k % 4)
      {
        ModUnique(4 * w + i, 4, w, i);
        out[4 * w + i] := ByteAt(st[w], 3 - i);
      }
    }
    hash := out[..];
  }

  // ---- chunks ----

  function Concat(chunks: seq<Bytes>): Bytes {
    if chunks == [] then [] else Concat(chunks[..|chunks| - 1]) + chunks[|chunks| - 1]
  }

  /** However a message is cut into chunks, the digest is the one-shot digest of the whole. */
  method HashChunks(f: Compress, chunks: seq<Bytes>) returns (hash: Bytes)
    ensures hash == Hash(f, Concat(chunks))
  {
    hide Hash;
    var ctx := new Context(f);
    for i := 0 to |chunks|
      invariant ctx.Valid() && fresh(ctx) && fresh(ctx.data) && ctx.f == f && ctx.message == Concat(chunks[..i])
    {
      ctx.Update(chunks[i]);
      assert chunks[..i + 1][..i] == chunks[..i];
    }
    assert chunks[..|chunks|] == chunks;
    hash := ctx.Final();
  }

  // ---- HMAC ----

  function XorEach(s: Bytes, b: byte): (r: Bytes)
    ensures |r| == |s|
  {
    seq(|s|, i requires 0 <= i < |s| => XorByte(s[i], b))
  }

  function BlockKey(f: Compress, key: Bytes): (k: Bytes)
    ensures |k| == BLOCK
  {
    if |key| > BLOCK then Hash(f, key) + Zeros(32) else key + Zeros(BLOCK - |key|)
  }

  /** Section 2 of RFC 2104. */
  function Hmac(f: Compress, key: Bytes, m: Bytes): Bytes {
    var k := BlockKey(f, key);
    Hash(f, XorEach(k, 0x5c) + Hash(f, XorEach(k, 0x36) + m))
  }

  /** Byte `i` of the key as HMAC uses it: hashed when longer than a block, and then filled with zeros. */
  function KeyByte(f: Compress, key: Bytes, i: nat): byte {
    var k := if |key| > 64 then Hash(f, key) else key;
    if i < |k| then k[i] else 0
  }

  /** With any two blocks that differ from the key by 0x36 and by 0x5c in every byte. */
  lemma HmacIs(f: Compress, key: Bytes, m: Bytes, ipad: Bytes, opad: Bytes)
    requires |ipad| == 64 && |opad| == 64
    requires forall i | 0 <= i < 64 :: XorByte(ipad[i], KeyByte(f, key, i)) == 0x36
    requires forall i | 0 <= i < 64 :: XorByte(opad[i], KeyByte(f, key, i)) == 0x5c
    ensures Hmac(f, key, m) == Hash(f, opad + Hash(f, ipad + m))
  {
    hide Hash, XorByte;
    var k := BlockKey(f, key);
    forall i | 0 <= i < 64 ensures ipad[i] == XorByte(k[i], 0x36) && opad[i] == XorByte(k[i], 0x5c) {
      assert k[i] == KeyByte(f, key, i);
      XorBack(ipad[i], k[i]);
      XorBack(opad[i], k[i]);
    }
    assert ipad == XorEach(k, 0x36) && opad == XorEach(k, 0x5c);
  }

  lemma XorBack(a: byte, b: byte)
    ensures XorByte(b, XorByte(a, b)) == a
  {
    XorSwap(b, XorByte(a, b));
    XorLaws(a, b);
  }

  /** `hmac_sha256`. */
  method HmacSha256(f: Compress, key: Bytes, m: Bytes) returns (out: Bytes)
    ensures out == Hmac(f, key, m)
  {
    hide Hash, BlockKey, XorEach;
    var k0 := ReadKey(f, key);
    var ipad, opad := XorKey(k0);
    var inner := HashTwo(f, ipad, m);
    out := HashTwo(f, opad, inner);
  }

  method ReadKey(f: Compress, key: Bytes) returns (k: Bytes)
    ensures k == BlockKey(f, key)
  {
    hide Hash;
    var k0 := new byte[BLOCK](_ => 0);
    var start := key;
    if |key| > BLOCK {
      start := HashTwo(f, key, []);
      assert key + [] == key;
    }
    ghost var before := k0[..];
    assert before == Zeros(BLOCK);
    CopyInto(k0, 0, start);
    k := k0[..];
    assert before[..0] == [] && before[|start|..] == Zeros(BLOCK - |start|);
  }

  method XorKey(k: Bytes) returns (ipad: Bytes, opad: Bytes)
    ensures ipad == XorEach(k, 0x36) && opad == XorEach(k, 0x5c)
  {
    hide XorByte;
    var a, b := new byte[|k|], new byte[|k|];
    for i := 0 to |k|
      invariant forall j | 0 <= j < i :: a[j] == XorByte(k[j], 0x36)
      invariant forall j | 0 <= j < i :: b[j] == XorByte(k[j], 0x5c)
    {
      a[i] := XorByte(k[i], 0x36);
      b[i] := XorByte(k[i], 0x5c);
    }
    ipad, opad := a[..], b[..];
  }

  /** Init, two updates, final. */
  method HashTwo(f: Compress, a: Bytes, b: Bytes) returns (hash: Bytes)
    ensures hash == Hash(f, a + b) && |hash| == 32
  {
    hide Hash;
    var ctx := new Context(f);
    ctx.Update(a);
    ctx.Update(b);
    hash := ctx.Final();
    assert [] + a + b == a + b;
  }
}
