/** Little-endian integers on the wire: le32/le64 read and write of src/packet.h, and the nonce
    layout of src/crypto.c built from them. */
module LittleEndian {
  import opened Words

  type Bytes = seq<byte>

  function Zeros(n: nat): (z: Bytes)
    ensures |z| == n
  {
    seq(n, i => 0)
  }

  function Pow256(n: nat): (p: nat)
    ensures p > 0
  {
    if n == 0 then 1 else 256 * Pow256(n - 1)
  }

  /** `(uint8_t)((v >> 8 * i) & 0xFF)`. */
  function ByteAt(v: nat, i: nat): byte {
    v / Pow256(i) % 256
  }

  /** The `n` low bytes of `v`, least significant first. */
  function ToLE(v: nat, n: nat): (s: Bytes)
    ensures |s| == n
  {
    seq(n, i requires 0 <= i < n => ByteAt(v, i))
  }

  lemma ToLETail(v: nat, n: nat)
    requires n > 0
    ensures ToLE(v, n)[0] == v % 256 && ToLE(v, n)[1..] == ToLE(v / 256, n - 1)
  {
    forall i | 0 <= i < n - 1 ensures ToLE(v, n)[1..][i] == ToLE(v / 256, n - 1)[i] {
      QuotientOfQuotient(v, 256, Pow256(i));
    }
  }

  function FromLE(s: Bytes): (v: nat) {
    if s == [] then 0 else s[0] + 256 * FromLE(s[1..])
  }

  lemma {:induction false} FromToLE(v: nat, n: nat)
    ensures v < Pow256(n) ==> FromLE(ToLE(v, n)) == v
    decreases n
  {
    if n > 0 {
      FromToLE(v / 256, n - 1);
      ToLETail(v, n);
    }
  }

  lemma {:induction false} ToFromLE(s: Bytes)
    ensures FromLE(s) < Pow256(|s|)
    ensures ToLE(FromLE(s), |s|) == s
  {
    if s != [] {
      ToFromLE(s[1..]);
      var v := FromLE(s);
      assert v % 256 == s[0] && v / 256 == FromLE(s[1..]);
      ToLETail(v, |s|);
      assert s == [s[0]] + s[1..] && ToLE(v, |s|) == [ToLE(v, |s|)[0]] + ToLE(v, |s|)[1..];
    }
  }

  lemma WordSizes()
    ensures Pow256(4) == TWO32 && Pow256(8) == TWO64
  {}

  function LE32(v: u32): (s: Bytes)
    ensures |s| == 4
  {
    ToLE(v, 4)
  }

  function LE64(v: u64): (s: Bytes)
    ensures |s| == 8
  {
    ToLE(v, 8)
  }

  function Read32(s: Bytes): (v: u32)
    requires |s| == 4
    ensures LE32(v) == s
  {
    ToFromLE(s);
    WordSizes();
    FromLE(s)
  }

  function Read64(s: Bytes): (v: u64)
    requires |s| == 8
    ensures LE64(v) == s
  {
    ToFromLE(s);
    WordSizes();
    FromLE(s)
  }

  lemma RoundTrip32(v: u32)
    ensures Read32(LE32(v)) == v
  {
    WordSizes();
    FromToLE(v, 4);
  }

  lemma RoundTrip64(v: u64)
    ensures Read64(LE64(v)) == v
  {
    WordSizes();
    FromToLE(v, 8);
  }

  /** Four zero bytes and the counter: `vpn_crypto_format_nonce`. */
  function Nonce(counter: u64): (n: Bytes)
    ensures |n| == 12
  {
    [0, 0, 0, 0] + LE64(counter)
  }

  lemma NonceInjective(c: u64, d: u64)
    ensures Nonce(c) == Nonce(d) ==> c == d
  {
    RoundTrip64(c);
    RoundTrip64(d);
    assert Nonce(c)[4..] == LE64(c) && Nonce(d)[4..] == LE64(d);
  }

  /** Four zero bytes, and eight that read back as the counter. */
  lemma NonceLayout(c: u64)
    ensures (forall i | 0 <= i < 4 :: Nonce(c)[i] == 0) && FromLE(Nonce(c)[4..]) == c
  {
    WordSizes();
    FromToLE(c, 8);
    assert Nonce(c)[4..] == LE64(c);
  }

  // ---- network byte order ----

  /** The bytes of `v`, most significant first. */
  predicate IsBE(s: Bytes, v: nat) {
    forall i | 0 <= i < |s| :: s[i] == ByteAt(v, |s| - 1 - i)
  }

  /** Four bytes are the big-endian form of one 32-bit word only. */
  lemma BEUnique(s: Bytes, v: u32, w: u32)
    requires |s| == 4 && IsBE(s, v) && IsBE(s, w)
    ensures v == w
  {
    forall i | 0 <= i < 4 ensures LE32(v)[i] == LE32(w)[i] {
      assert s[3 - i] == ByteAt(v, i) == ByteAt(w, i);
    }
    assert LE32(v) == LE32(w);
    RoundTrip32(v);
    RoundTrip32(w);
  }

  // ---- the byte-wise C code ----

  /** `memcpy(buf + at, s, |s|)`. */
  method CopyInto(buf: array<byte>, at: nat, s: Bytes)
    requires at + |s| <= buf.Length
    modifies buf
    ensures buf[..] == old(buf[..at]) + s + old(buf[at + |s|..])
  {
    for i := 0 to |s|
      invariant buf[..at] == old(buf[..at])
      invariant buf[at..at + i] == s[..i]
      invariant buf[at + i..] == old(buf[at + i..])
    {
      buf[at + i] := s[i];
      assert buf[at + i + 1..] == buf[at + i..][1..];
    }
    assert buf[..] == buf[..at] + buf[at..at + |s|] + buf[at + |s|..];
  }

  lemma EightBytes(v: nat)
    ensures ToLE(v, 8) == [ByteAt(v, 0), ByteAt(v, 1), ByteAt(v, 2), ByteAt(v, 3),
                           ByteAt(v, 4), ByteAt(v, 5), ByteAt(v, 6), ByteAt(v, 7)]
    ensures ToLE(v, 4) == [ByteAt(v, 0), ByteAt(v, 1), ByteAt(v, 2), ByteAt(v, 3)]
  {}

  method Le32Write(buf: array<byte>, at: nat, v: u32)
    requires at + 4 <= buf.Length
    modifies buf
    ensures buf[..] == old(buf[..at]) + LE32(v) + old(buf[at + 4..])
  {
    EightBytes(v);
    CopyInto(buf, at, [ByteAt(v, 0), ByteAt(v, 1), ByteAt(v, 2), ByteAt(v, 3)]);
  }

  method Le64Write(buf: array<byte>, at: nat, v: u64)
    requires at + 8 <= buf.Length
    modifies buf
    ensures buf[..] == old(buf[..at]) + LE64(v) + old(buf[at + 8..])
  {
    EightBytes(v);
    CopyInto(buf, at, [ByteAt(v, 0), ByteAt(v, 1), ByteAt(v, 2), ByteAt(v, 3),
                       ByteAt(v, 4), ByteAt(v, 5), ByteAt(v, 6), ByteAt(v, 7)]);
  }

  lemma OrOfByte(s: Bytes, b: byte)
    ensures Or(FromLE(s), b * Pow2(8 * |s|)) == FromLE(s + [b])
  {
    ToFromLE(s);
    ByteShift(|s|);
    OrDisjoint(FromLE(s), b, 8 * |s|);
    FromLEAppend(s, b);
  }

  lemma {:induction false} ByteShift(n: nat)
    ensures Pow2(8 * n) == Pow256(n)
  {
    if n > 0 {
      ByteShift(n - 1);
      Pow2Add(8, 8 * (n - 1));
      Pow2Values();
    }
  }

  lemma {:induction false} FromLEAppend(s: Bytes, b: byte)
    ensures FromLE(s + [b]) == FromLE(s) + b * Pow256(|s|)
  {
    if s == [] {
      assert [b][1..] == [];
    } else {
      FromLEAppend(s[1..], b);
      assert (s + [b])[1..] == s[1..] + [b];
    }
  }

  /** `p[0] | p[1] << 8 | p[2] << 16 | ...`, the expression of the C readers. */
  function OrBytes(s: Bytes): nat {
    if s == [] then 0 else Or(OrBytes(s[..|s| - 1]), s[|s| - 1] * Pow2(8 * (|s| - 1)))
  }

  /** The readers' shifts and ors compute the little-endian value. */
  lemma {:induction false} OrBytesIsFromLE(s: Bytes)
    ensures OrBytes(s) == FromLE(s)
  {
    if s != [] {
      OrBytesIsFromLE(s[..|s| - 1]);
      OrOfByte(s[..|s| - 1], s[|s| - 1]);
      assert s[..|s| - 1] + [s[|s| - 1]] == s;
    }
  }

  /** `vpn_crypto_format_nonce`. */
  method FormatNonce(counter: u64, nonce: array<byte>)
    requires nonce.Length == 12
    modifies nonce
    ensures nonce[..] == Nonce(counter)
  {
    CopyInto(nonce, 0, [0, 0, 0, 0]);
    Le64Write(nonce, 4, counter);
  }
}
