/** The key derivation functions of src/kdf.c over a keyed hash `g`.  The handshake calls them in
    place, with the first output written over the key. */
module Kdf {
  import opened Words
  import opened LittleEndian
  import opened Wire
  import Handshake

  type KeyedHash = (Bytes, Bytes) -> Bytes32

  function T1(g: KeyedHash, key: Bytes, input: Bytes): Bytes32 {
    g(g(key, input), [1])
  }

  function T2(g: KeyedHash, key: Bytes, input: Bytes): Bytes32 {
    g(g(key, input), T1(g, key, input) + [2])
  }

  function T3(g: KeyedHash, key: Bytes, input: Bytes): Bytes32 {
    g(g(key, input), T2(g, key, input) + [3])
  }

  /** Output number `n` of expansion from `prk`: each hashes the one before and its own number. */
  function Expand(g: KeyedHash, prk: Bytes, n: nat): Bytes
    requires n < 256
  {
    if n == 0 then [] else g(prk, Expand(g, prk, n - 1) + [n as byte])
  }

  /** The outputs are those of extract and expand (sections 2.2 and 2.3 of RFC 5869) with a keyed hash
      in place of HMAC and no info. */
  lemma KdfIsExpand(g: KeyedHash, key: Bytes, input: Bytes)
    ensures T1(g, key, input) == Expand(g, g(key, input), 1)
    ensures T2(g, key, input) == Expand(g, g(key, input), 2)
    ensures T3(g, key, input) == Expand(g, g(key, input), 3)
  {
    var prk := g(key, input);
    assert Expand(g, prk, 0) + [1] == [1];
  }

  /** `crypto_generichash` with a 32-byte output. */
  method GenericHash(g: KeyedHash, out: array<byte>, message: Bytes, key: array<byte>)
    requires out.Length == 32
    modifies out
    ensures out[..] == g(old(key[..]), message)
  {
    CopyInto(out, 0, g(key[..], message));
  }

  /** Derives the next key from the key's old value, also when `out1` is `key` itself. */
  method Kdf1(g: KeyedHash, out1: array<byte>, key: array<byte>, input: Bytes)
    requires out1.Length == 32
    modifies out1
    ensures out1[..] == T1(g, old(key[..]), input)
  {
    var prk := new byte[32](i => 0);
    GenericHash(g, prk, input, key);
    GenericHash(g, out1, [1], prk);
  }

  /** Any of the three arrays may be the same one; only when both outputs are is the first lost. */
  method Kdf2(g: KeyedHash, out1: array<byte>, out2: array<byte>, key: array<byte>, input: Bytes)
    requires out1.Length == 32 && out2.Length == 32
    modifies out1, out2
    ensures out2[..] == T2(g, old(key[..]), input)
    ensures out1 != out2 ==> out1[..] == T1(g, old(key[..]), input)
  {
    var prk := new byte[32](i => 0);
    GenericHash(g, prk, input, key);
    GenericHash(g, out1, [1], prk);
    var buf := out1[..] + [2];
    GenericHash(g, out2, buf, prk);
  }

  method Kdf3(g: KeyedHash, out1: array<byte>, out2: array<byte>, out3: array<byte>, key: array<byte>, input: Bytes)
    requires out1.Length == 32 && out2.Length == 32 && out3.Length == 32
    modifies out1, out2, out3
    ensures out3[..] == T3(g, old(key[..]), input)
    ensures out2 != out3 ==> out2[..] == T2(g, old(key[..]), input)
    ensures out1 != out2 && out1 != out3 ==> out1[..] == T1(g, old(key[..]), input)
  {
    var prk := new byte[32](i => 0);
    GenericHash(g, prk, input, key);
    GenericHash(g, out1, [1], prk);
    var buf := out1[..] + [2];
    GenericHash(g, out2, buf, prk);
    buf := out2[..] + [3];
    GenericHash(g, out3, buf, prk);
  }

  /** On byte strings, the two outputs are the handshake's `Next` and `Second`. */
  lemma KdfIsSchedule(g: KeyedHash, s: Handshake.Suite<Bytes>, key: Bytes, input: Bytes)
    requires s.one == [1] && forall t :: s.two(t) == t + [2]
    requires forall k, m :: s.keyed(k, m) == g(k, m)
    ensures Handshake.Next(s, key, input) == T1(g, key, input)
    ensures Handshake.Second(s, key, input) == T2(g, key, input)
  {
    assert s.keyed(key, input) == g(key, input);
    assert s.keyed(s.keyed(key, input), s.one) == g(g(key, input), [1]);
  }
}
