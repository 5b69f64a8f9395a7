/** Primitives that hide nothing.  They show that the lengths and laws the tunnel theorems assume
    hold together on byte strings. */
module PlainSuite {
  import opened Words
  import opened LittleEndian
  import opened Errors
  import opened Daemon
  import opened Delivery
  import H = Handshake

  function Seal(m: Bytes): Bytes {
    m + Zeros(16)
  }

  function Open(c: Bytes): Option<Bytes> {
    if |c| >= 16 && c[|c| - 16..] == Zeros(16) then Some(c[..|c| - 16]) else None
  }

  lemma OpenSeal(m: Bytes)
    ensures |Seal(m)| == |m| + 16 && Open(Seal(m)) == Some(m)
  {
    assert Seal(m)[|m|..] == Zeros(16) && Seal(m)[..|m|] == m;
  }

  function Stamp(sec: u64, nsec: u32): Bytes {
    LE64(sec) + LE32(nsec)
  }

  function Seconds(t: Bytes): u64 {
    if |t| == 12 then Read64(t[..8]) else 0
  }

  lemma SecondsOfStamp(sec: u64, nsec: u32)
    ensures |Stamp(sec, nsec)| == 12 && Seconds(Stamp(sec, nsec)) == sec
  {
    assert Stamp(sec, nsec)[..8] == LE64(sec);
    RoundTrip64(sec);
  }

  function Suite(): H.Suite<Bytes> {
    H.Suite([], [], (h, d) => h + d, (k, m) => k + m, [1], t => t + [2], [], x => Zeros(32), (p, x) => Some(Zeros(32)),
            (k, ad, m) => Seal(m), (k, ad, c) => Open(c), (sec, nsec) => Stamp(sec, nsec), t => Seconds(t),
            (k, fs) => Zeros(16))
  }

  function Plain(): Primitives {
    Primitives(Suite(), (k, n, m) => Some((m, Zeros(16))), (k, n, ct, tag) => Some(ct))
  }

  lemma PlainIsLawful()
    ensures Sized(Plain()) && H.Lawful(Plain().suite) && Decrypts(Plain())
  {
    forall m: Bytes ensures |Seal(m)| == |m| + 16 && Open(Seal(m)) == Some(m) { OpenSeal(m); }
    forall sec: u64, nsec: u32
      ensures |Stamp(sec, nsec)| == 12 && Seconds(Stamp(sec, nsec)) == sec
    {
      SecondsOfStamp(sec, nsec);
    }
    hide Seal, Open, Stamp, Seconds, Zeros;
    assert Sized(Plain());
  }
}
