/** secretstream_xchacha20poly1305.c and the byte loops of sodium/utils.c it calls, on arrays that
    are changed in place; module SecretStream says what they compute. */
module SecretStreamLoops {
  import opened Words
  import opened LittleEndian
  import opened Errors
  import S = SecretStream

  /** `done` is one more than `was`, up to a carry of `c` out of the last byte. */
  ghost predicate Carried(was: Bytes, done: Bytes, c: nat) {
    |was| == |done| && c <= 1 && FromLE(done) + c * Pow256(|done|) == FromLE(was) + 1
  }

  lemma CarriedNext(was: Bytes, done: Bytes, c: nat, b: byte)
    requires Carried(was, done, c)
    ensures Carried(was + [b], done + [(c + b as int) % 256], (c + b as int) / 256)
  {
    hide FromLE;
    var sum := c + b as int;
    FromLEAppend(was, b);
    FromLEAppend(done, sum % 256);
    CarryStep(c, b, Pow256(|done|));
  }

  lemma CarryStep(c: nat, b: nat, p: nat)
    ensures c * p + b * p == (c + b) % 256 * p + (c + b) / 256 * (256 * p)
  {
    var q, r := (c + b) / 256, (c + b) % 256;
    assert c + b == 256 * q + r;
    assert (c + b) * p == (256 * q + r) * p == q * (256 * p) + r * p;
  }

  lemma CarriedOver(was: Bytes, done: Bytes, c: nat)
    requires Carried(was, done, c)
    ensures FromLE(done) == (FromLE(was) + 1) % Pow256(|was|)
  {
    ToFromLE(done);
    ModUnique(FromLE(was) + 1, Pow256(|was|), c, FromLE(done));
  }

  /** `sodium_increment`, the portable loop: the bytes are a little-endian number, and one is added
      to it modulo its size. */
  method Increment(n: array<byte>, nlen: nat)
    requires nlen <= n.Length
    modifies n
    ensures FromLE(n[..nlen]) == (FromLE(old(n[..nlen])) + 1) % Pow256(nlen)
    ensures n[nlen..] == old(n[nlen..])
  {
    ghost var was := n[..];
    var c: nat := 1;
    assert Carried(was[..0], n[..0], c);
    hide Carried, FromLE, Pow256;
    for i := 0 to nlen
      invariant Carried(was[..i], n[..i], c)
      invariant forall j | i <= j < n.Length :: n[j] == was[j]
    {
      CarriedNext(was[..i], n[..i], c, n[i]);
      assert was[..i + 1] == was[..i] + [was[i]];
      ghost var before := n[..i];
      c := c + n[i];
      n[i] := c % 256;
      assert n[..i + 1] == before + [c % 256];
      c := c / 256;
    }
    CarriedOver(was[..nlen], n[..nlen], c);
  }

  /** `sodium_is_zero`: the or of all bytes, turned into a flag by an arithmetic shift. */
  method IsZero(n: array<byte>, nlen: nat) returns (zero: bool)
    requires nlen <= n.Length
    ensures zero <==> n[..nlen] == Zeros(nlen)
  {
    var d: nat := 0;
    for i := 0 to nlen
      invariant d < 256
      invariant d == 0 <==> n[..i] == Zeros(i)
    {
      OrIsZero(d, n[i]);
      Pow2Values();
      OrBound(d, n[i], 8);
      d := Or(d, n[i]);
      assert n[..i + 1] == n[..i] + [n[i]] && Zeros(i + 1) == Zeros(i) + [0];
      assert n[..i + 1][..i] == n[..i] && Zeros(i + 1)[..i] == Zeros(i);
    }
    zero := (d - 1) / 256 % 2 == 1;
  }

  /** `XOR_BUF(n + at, mask, |mask|)`. */
  method XorInto(n: array<byte>, at: nat, mask: Bytes)
    requires at + |mask| <= n.Length
    modifies n
    ensures n[..] == old(n[..at]) + S.XorBytes(old(n[at..at + |mask|]), mask) + old(n[at + |mask|..])
  {
    for i := 0 to |mask|
      invariant forall j | 0 <= j < n.Length ::
        n[j] == if at <= j < at + i then XorByte(old(n[j]), mask[j - at]) else old(n[j])
    {
      n[at + i] := XorByte(n[at + i], mask[i]);
    }
  }

  /** `crypto_secretstream_xchacha20poly1305_state`. */
  class StreamState {
    const c: S.Cipher
    const k: array<byte>
    const nonce: array<byte>

    ghost predicate Valid() {
      k.Length == 32 && nonce.Length == 12 && k != nonce
    }

    ghost function Contents(): (st: S.End)
      requires Valid()
      reads k, nonce
    {
      S.State(k[..], nonce[..])
    }

    constructor (c: S.Cipher, header: Bytes, key: Bytes)
      requires |header| == 24
      ensures Valid() && fresh(k) && fresh(nonce)
      ensures this.c == c && Contents() == S.Init(c, header, key)
    {
      var k0, nonce0 := new byte[32], new byte[12];
      this.c, k, nonce := c, k0, nonce0;
      new;
      CopyInto(k, 0, c.subkey(header, key));
      CopyInto(nonce, 4, header[16..]);
      CounterReset();
    }

    method CounterReset()
      requires Valid()
      modifies nonce
      ensures nonce[..] == S.CounterReset(old(nonce[4..]))
    {
      CopyInto(nonce, 0, Zeros(4));
      nonce[0] := 1;
    }

    method Rekey()
      requires Valid()
      modifies k, nonce
      ensures Contents() == S.Rekey(c, old(Contents()))
    {
      var buf := S.XorBytes(k[..] + nonce[4..], c.stream(nonce[..], k[..], 0, 40));
      CopyInto(k, 0, buf[..32]);
      CopyInto(nonce, 4, buf[32..]);
      CounterReset();
      assert k[..] == buf[..32] && nonce[4..] == buf[32..];
    }

    /** The tail that push and pull share. */
    method Advance(mac: Bytes, tag: byte)
      requires Valid() && |mac| == 16
      modifies k, nonce
      ensures Contents() == S.Advance(c, old(Contents()), mac, tag)
    {
      ghost var st := Contents();
      XorInto(nonce, 4, mac[..8]);
      assert nonce[..4] == st.nonce[..4] && nonce[4..] == S.XorBytes(st.nonce[4..], mac[..8]);
      Increment(nonce, 4);
      Incremented(st, nonce[..], mac);
      var zero := IsZero(nonce, 4);
      ZeroCounter(Contents());
      if And(tag, S.TAG_REKEY) != 0 || zero { Rekey(); }
    }

    method Push(m: Bytes, ad: Bytes, tag: byte) returns (out: Bytes)
      requires Valid() && |m| <= S.MESSAGEBYTES_MAX && |ad| < TWO64
      modifies k, nonce
      ensures (out, Contents()) == S.Push(c, old(Contents()), m, ad, tag)
    {
      var polyKey := c.stream(nonce[..], k[..], 0, 64)[..32];
      var block := S.XorBytes([tag] + Zeros(63), c.stream(nonce[..], k[..], 1, 64));
      var ct := S.XorBytes(m, c.stream(nonce[..], k[..], 2, |m|));
      var mac := c.mac(polyKey, S.MacInput(ad, block, ct));
      out := [block[0]] + ct + mac;
      Advance(mac, tag);
    }

    /** Either the record, or a refusal that changes nothing. */
    method Pull(input: Bytes, ad: Bytes) returns (r: Option<(Bytes, byte)>)
      requires Valid() && |input| <= S.MESSAGEBYTES_MAX + S.ABYTES && |ad| < TWO64
      modifies k, nonce
      ensures r.None? <==> S.Pull(c, old(Contents()), input, ad).None?
      ensures r.None? ==> Contents() == old(Contents())
      ensures r.Some? ==> S.Pull(c, old(Contents()), input, ad) == Some((r.value.0, r.value.1, Contents()))
    {
      if |input| < S.ABYTES { return None; }
      var mlen := |input| - S.ABYTES;
      var polyKey := c.stream(nonce[..], k[..], 0, 64)[..32];
      var block := S.XorBytes([input[0]] + Zeros(63), c.stream(nonce[..], k[..], 1, 64));
      var tag := block[0];
      block := block[0 := input[0]];
      var ct := input[1..1 + mlen];
      var mac := c.mac(polyKey, S.MacInput(ad, block, ct));
      if mac != input[1 + mlen..] { return None; }
      var m := S.XorBytes(ct, c.stream(nonce[..], k[..], 2, mlen));
      Advance(mac, tag);
      r := Some((m, tag));
    }
  }

  lemma Incremented(st: S.End, nonce: Bytes, mac: Bytes)
    requires |mac| == 16 && |nonce| == 12 && nonce[4..] == S.XorBytes(st.nonce[4..], mac[..8])
    requires FromLE(nonce[..4]) == (FromLE(st.nonce[..4]) + 1) % Pow256(4)
    ensures S.State(st.k, nonce) == S.Incremented(st, mac)
  {
    hide S.XorBytes;
    WordSizes();
    var n: u32 := S.Counter(st);
    assert FromLE(nonce[..4]) == Succ32(n);
    ToFromLE(nonce[..4]);
    assert nonce == nonce[..4] + nonce[4..];
  }

  lemma ZeroCounter(st: S.End)
    ensures S.Counter(st) == 0 <==> st.nonce[..4] == Zeros(4)
  {
    assert LE32(0) == Zeros(4);
    RoundTrip32(0);
  }
}
