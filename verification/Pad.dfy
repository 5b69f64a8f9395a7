/** Padding of sodium/utils.c in the bundled libsodium, after ISO/IEC 7816-4: a 0x80 byte and zeros
    up to a multiple of the block size, written and found without a data-dependent branch. */
module Pad {
  import opened Words
  import opened LittleEndian
  import opened Errors

  const SIZE_MAX: nat := TWO64 - 1
  const TWO56: nat := 0x100_0000_0000_0000

  // ---- what is computed ----

  /** The least multiple of the block size strictly above `n`. */
  function PaddedLength(n: nat, blocksize: nat): (r: nat)
    requires blocksize > 0
    ensures n < r <= n + blocksize
  {
    n + (blocksize - n % blocksize)
  }

  lemma LeastMultiple(n: nat, blocksize: nat, m: nat)
    requires blocksize > 0
    ensures PaddedLength(n, blocksize) % blocksize == 0
    ensures m > n && m % blocksize == 0 ==> m >= PaddedLength(n, blocksize)
  {
    var q, r := n / blocksize, n % blocksize;
    assert n == blocksize * q + r;
    assert PaddedLength(n, blocksize) == blocksize * (q + 1) + 0;
    ModUnique(PaddedLength(n, blocksize), blocksize, q + 1, 0);
    if m > n && m % blocksize == 0 {
      assert m == blocksize * (m / blocksize);
      if m / blocksize < q + 1 {
        if m / blocksize < q { ProductGap(blocksize, m / blocksize, q); }
        assert false;
      }
      if m / blocksize > q + 1 { ProductGap(blocksize, q + 1, m / blocksize); }
    }
  }

  function Padded(s: Bytes, blocksize: nat): (r: Bytes)
    requires blocksize > 0
    ensures |r| == PaddedLength(|s|, blocksize)
  {
    s + [0x80] + Zeros(PaddedLength(|s|, blocksize) - |s| - 1)
  }

  /** Byte `p` is 0x80 and everything behind it is zero. */
  predicate IsBarrier(s: Bytes, p: nat) {
    p < |s| && s[p] == 0x80 && forall q | p < q < |s| :: s[q] == 0
  }

  /** Look back from the end, over zeros, at no more than one block. */
  function Scan(s: Bytes, blocksize: nat, i: nat): (r: Option<nat>)
    requires i <= blocksize <= |s|
    decreases blocksize - i
  {
    if i == blocksize then None
    else
      var p := |s| - 1 - i;
      if s[p] == 0 then Scan(s, blocksize, i + 1) else if s[p] == 0x80 then Some(p) else None
  }

  function Unpadded(s: Bytes, blocksize: nat): (r: Option<nat>) {
    if |s| < blocksize || blocksize == 0 then None else Scan(s, blocksize, 0)
  }

  lemma {:induction false} ScanIff(s: Bytes, blocksize: nat, i: nat, p: nat)
    requires i <= blocksize <= |s| && forall q | |s| - i <= q < |s| :: s[q] == 0
    ensures Scan(s, blocksize, i) == Some(p) <==> |s| - blocksize <= p && IsBarrier(s, p)
    decreases blocksize - i
  {
    if i < blocksize && s[|s| - 1 - i] == 0 { ScanIff(s, blocksize, i + 1, p); }
  }

  /** Unpadding succeeds exactly when the last block ends in 0x80 and zeros, and says where. */
  lemma UnpaddedIff(s: Bytes, blocksize: nat, p: nat)
    ensures Unpadded(s, blocksize) == Some(p) <==>
      0 < blocksize <= |s| && |s| - blocksize <= p < |s| && s[p] == 0x80 && forall q | p < q < |s| :: s[q] == 0
  {
    if 0 < blocksize <= |s| { ScanIff(s, blocksize, 0, p); }
  }

  /** Padding and then unpadding gives back the old length. */
  lemma UnpadPad(s: Bytes, blocksize: nat)
    requires blocksize > 0
    ensures Unpadded(Padded(s, blocksize), blocksize) == Some(|s|)
    ensures Padded(s, blocksize)[..|s|] == s && Padded(s, blocksize)[|s|] == 0x80
    ensures forall i | |s| < i < |Padded(s, blocksize)| :: Padded(s, blocksize)[i] == 0
  {
    hide PaddedLength;
    var t := Padded(s, blocksize);
    PaddedBlock(|s|, blocksize);
    assert IsBarrier(t, |s|);
    UnpaddedIff(t, blocksize, |s|);
  }

  lemma PaddedBlock(n: nat, blocksize: nat)
    requires blocksize > 0
    ensures PaddedLength(n, blocksize) >= blocksize
  {
    var q, r := n / blocksize, n % blocksize;
    assert n == blocksize * q + r;
  }

  // ---- the bit tricks ----

  /** `((i ^ xpadlen) - 1) >> 56`, cut down to a byte. */
  function BarrierMask(i: nat, xpadlen: nat): byte {
    Wrap64(Xor(i, xpadlen) - 1) / TWO56 % 0x100
  }

  lemma Pow2Of56()
    ensures Pow2(56) == TWO56
  {
    Pow2Byte(0); Pow2Byte(8); Pow2Byte(16); Pow2Byte(24); Pow2Byte(32); Pow2Byte(40); Pow2Byte(48);
  }

  const TWO63: nat := TWO64 / 2

  lemma BarrierMaskIs(i: nat, xpadlen: nat)
    requires i < TWO63 && xpadlen < TWO56
    ensures i <= xpadlen ==> BarrierMask(i, xpadlen) == if i == xpadlen then 0xFF else 0
    ensures i != xpadlen ==> BarrierMask(i, xpadlen) < 0x80
  {
    hide Xor, Pow2;
    Pow2Of56();
    XorIsZero(i, xpadlen);
    if i <= xpadlen { XorBound(i, xpadlen, 56); }
    Pow2Of63();
    XorBound(i, xpadlen, 63);
  }

  lemma Pow2Of63()
    ensures Pow2(63) == TWO63
  {
    Pow2Values();
    assert Pow2(64) == 2 * Pow2(63);
  }

  /** The masks before the barrier are zero exactly as long as the padding is at most 2^56 bytes:
      beyond that the shift no longer clears the difference. */
  lemma MasksAreExact(xpadlen: nat)
    requires xpadlen < TWO63
    ensures (forall i | 0 <= i < xpadlen :: BarrierMask(i, xpadlen) == 0) <==> xpadlen < TWO56
  {
    hide BarrierMask;
    if xpadlen < TWO56 {
      forall i | 0 <= i < xpadlen ensures BarrierMask(i, xpadlen) == 0 { BarrierMaskIs(i, xpadlen); }
    } else {
      LateMask(xpadlen);
      assert BarrierMask(0, xpadlen) != 0 || BarrierMask(1, xpadlen) != 0;
    }
  }

  lemma LateMask(xpadlen: nat)
    requires TWO56 <= xpadlen < TWO63
    ensures BarrierMask(0, xpadlen) != 0 || BarrierMask(1, xpadlen) != 0
  {
    hide Xor;
    XorLaws(0, xpadlen);
    if xpadlen == TWO56 {
      XorStep(1, TWO56);
      XorLaws(0, TWO56 / 2);
    }
  }

  /** `n % blocksize`, by a mask when the block size is a power of two. */
  function Remainder(n: nat, blocksize: nat): (r: nat)
    requires blocksize > 0
    ensures r == n % blocksize
  {
    if And(blocksize, blocksize - 1) == 0 then
      PowerOfTwoMask(n, blocksize);
      And(n, blocksize - 1)
    else n % blocksize
  }

  datatype PadResult = Done(length: nat) | Refused | Misuse

  /** `sodium_pad`, for buffers of a size a C object can have.  The loop goes backwards over the last
      block: zeros, then 0x80 where the message ended, then the message itself, rewritten as it was. */
  method SodiumPad(buf: array<byte>, unpaddedLen: nat, blocksize: nat, maxLen: nat) returns (r: PadResult)
    requires unpaddedLen <= SIZE_MAX && maxLen <= buf.Length < TWO63
    modifies buf
    ensures r == if blocksize == 0 then Refused
      else if PaddedLength(unpaddedLen, blocksize) > SIZE_MAX then Misuse
      else if PaddedLength(unpaddedLen, blocksize) > maxLen then Refused
      else Done(PaddedLength(unpaddedLen, blocksize))
    ensures r.Done? && r.length - unpaddedLen <= TWO56 ==>
      buf[..] == Padded(old(buf[..unpaddedLen]), blocksize) + old(buf[r.length..])
    ensures r.Done? ==> buf[r.length..] == old(buf[r.length..])
    ensures !r.Done? ==> buf[..] == old(buf[..])
  {
    hide And, Or, BarrierMask, PaddedLength;
    if blocksize <= 0 { return Refused; }
    LengthIs(unpaddedLen, blocksize);
    var xpadlen := blocksize - 1 - Remainder(unpaddedLen, blocksize);
    if SIZE_MAX - unpaddedLen <= xpadlen { return Misuse; }
    var xpaddedLen := unpaddedLen + xpadlen;
    if xpaddedLen >= maxLen { return Refused; }
    var mask: byte := 0;
    for i := 0 to blocksize
      invariant xpadlen < TWO56 ==> mask == if i > xpadlen then 0xFF else 0
      invariant xpadlen < TWO56 ==> forall j | unpaddedLen < j <= xpaddedLen && xpaddedLen - i < j :: buf[j] == 0
      invariant xpadlen < TWO56 && i > xpadlen ==> buf[unpaddedLen] == 0x80
      invariant xpadlen < TWO56 ==> forall j | 0 <= j < unpaddedLen :: buf[j] == old(buf[j])
      invariant forall j | xpaddedLen < j < buf.Length :: buf[j] == old(buf[j])
    {
      var barrierMask := BarrierMask(i, xpadlen);
      ByteSteps(buf[xpaddedLen - i], mask, barrierMask);
      if xpadlen < TWO56 {
        BarrierMaskIs(i, xpadlen);
        PadStep(buf[xpaddedLen - i], mask, barrierMask);
      }
      buf[xpaddedLen - i] := Or(And(buf[xpaddedLen - i], mask), And(0x80, barrierMask));
      mask := Or(mask, barrierMask);
    }
    r := Done(xpaddedLen + 1);
    if xpadlen < TWO56 {
      assert buf[..] == Padded(old(buf[..unpaddedLen]), blocksize) + old(buf[xpaddedLen + 1..]);
    }
  }

  lemma ByteSteps(c: byte, mask: byte, barrier: byte)
    ensures Or(And(c, mask), And(0x80, barrier)) < 0x100 && Or(mask, barrier) < 0x100
  {
    hide And, Or, Pow2;
    Pow2Values();
    AndBound(c, mask);
    AndBound(0x80, barrier);
    OrBound(And(c, mask), And(0x80, barrier), 8);
    OrBound(mask, barrier, 8);
  }

  lemma LengthIs(n: nat, blocksize: nat)
    requires blocksize > 0
    ensures 0 <= n % blocksize < blocksize && n % blocksize <= n
    ensures PaddedLength(n, blocksize) == n + blocksize - n % blocksize
  {
    assert n == blocksize * (n / blocksize) + n % blocksize;
  }

  lemma PadStep(c: byte, mask: byte, barrier: byte)
    requires mask == 0 ==> barrier == 0 || barrier == 0xFF
    requires mask != 0 ==> mask == 0xFF && barrier < 0x80
    ensures Or(And(c, mask), And(0x80, barrier)) == if mask == 0xFF then c else if barrier == 0xFF then 0x80 else 0
    ensures Or(mask, barrier) == if mask == 0xFF then 0xFF else barrier
  {
    hide And, Or, Pow2;
    LowByte(c);
    LowByte(0x80);
    Pow2Values();
    OrZero(c); OrZero(0x80); OrZero(barrier); OrZero(0);
    if mask == 0xFF {
      HighBitClear(barrier);
      OrOnes(barrier, 8);
    }
  }

  lemma HighBitClear(m: byte)
    requires m < 0x80
    ensures And(0x80, m) == 0
  {
    hide And, Bit, Pow2;
    Pow2Of7();
    AndSwap(0x80, m);
    AndPow2(m, 7);
    BitIsQuotient(m, 7);
  }

  lemma Pow2Of7()
    ensures Pow2(7) == 0x80
  {
    Pow2Values();
    assert Pow2(8) == 2 * Pow2(7);
  }

  /** Bit 8 of `(acc - 1) & (pad_len - 1) & ((c ^ 0x80) - 1)`. */
  function IsBarrierBit(acc: byte, padLen: nat, c: byte): nat {
    And(And(Wrap32(acc - 1), Wrap64(padLen - 1)), Wrap32(Xor(c, 0x80) - 1)) / 0x100 % 2
  }

  lemma BorrowBit(x: int)
    requires 0 <= x < 0x100
    ensures Bit(Wrap32(x - 1), 8) <==> x == 0
    ensures x == 0 ==> Bit(Wrap64(x - 1), 8)
  {
    hide Bit, Pow2;
    Pow2Values();
    BitIsQuotient(Wrap32(x - 1), 8);
    BitIsQuotient(Wrap64(x - 1), 8);
  }

  lemma IsBarrierBitIs(acc: byte, padLen: nat, c: byte)
    requires acc == 0 ==> padLen == 0
    ensures IsBarrierBit(acc, padLen, c) == if acc == 0 && c == 0x80 then 1 else 0
  {
    hide And, Xor, Bit, Pow2, Wrap32, Wrap64;
    var a, b, d := Wrap32(acc - 1), Wrap64(padLen - 1), Wrap32(Xor(c, 0x80) - 1);
    Pow2Values();
    XorIsZero(c, 0x80);
    XorBound(c, 0x80, 8);
    BorrowBit(acc);
    BorrowBit(Xor(c, 0x80));
    if acc == 0 { BorrowBit(padLen); }
    BitOfAnd(a, b, 8);
    BitOfAnd(And(a, b), d, 8);
    BitIsQuotient(And(And(a, b), d), 8);
  }

  /** `i & (1 + ~is_barrier)`. */
  lemma Selected(i: nat, bit: nat)
    requires i < TWO64 && (bit == 0 || bit == 1)
    ensures And(i, Wrap64(1 + (TWO64 - 1 - bit))) == if bit == 1 then i else 0
  {
    hide And, Pow2;
    Pow2Values();
    AndMask(i, 64);
    LowByte(i);
  }

  /** Where the scan stands after `i` bytes: nothing but zeros, or the last byte that is not zero. */
  ghost predicate Seen(s: Bytes, i: nat, acc: byte, padLen: nat, valid: nat, j: nat)
    requires i <= |s|
  {
    && (acc == 0 ==> padLen == 0 && valid == 0 && forall q | |s| - i <= q < |s| :: s[q] == 0)
    && (acc != 0 ==> j < i && s[|s| - 1 - j] != 0 && forall q | |s| - j <= q < |s| :: s[q] == 0)
    && (acc != 0 ==> if s[|s| - 1 - j] == 0x80 then valid == 1 && padLen == j else valid == 0 && padLen == 0)
  }

  /** `sodium_unpad`. */
  method SodiumUnpad(buf: array<byte>, paddedLen: nat, blocksize: nat) returns (r: Option<nat>)
    requires paddedLen <= buf.Length && paddedLen <= SIZE_MAX
    ensures r == Unpadded(buf[..paddedLen], blocksize)
  {
    hide And, Or, IsBarrierBit, Scan;
    if paddedLen < blocksize || blocksize <= 0 { return None; }
    ghost var s, j := buf[..paddedLen], 0;
    var acc: byte, valid: nat, padLen: nat := 0, 0, 0;
    for i := 0 to blocksize
      invariant Seen(s, i, acc, padLen, valid, j)
    {
      var c := buf[paddedLen - 1 - i];
      IsBarrierBitIs(acc, padLen, c);
      var isBarrier := IsBarrierBit(acc, padLen, c);
      Selected(i, isBarrier);
      OrBytes(acc, c, padLen, valid);
      if acc == 0 { j := i; }
      ghost var before := acc;
      acc := Or(acc, c);
      padLen := Or(padLen, And(i, Wrap64(1 + (TWO64 - 1 - isBarrier))));
      valid := Or(valid, isBarrier);
      OrZero(i);
    }
    ScanSeen(s, blocksize, acc, padLen, valid, j);
    r := if valid == 1 then Some(paddedLen - 1 - padLen) else None;
  }

  lemma OrBytes(acc: byte, c: byte, padLen: nat, valid: nat)
    ensures Or(acc, c) < 0x100 && (Or(acc, c) == 0 <==> acc == 0 && c == 0)
    ensures Or(padLen, 0) == padLen && Or(valid, 0) == valid && Or(0, 1) == 1
  {
    hide Or, Pow2;
    Pow2Values();
    OrBound(acc, c, 8);
    OrIsZero(acc, c);
    OrZero(padLen); OrZero(valid); OrZero(1);
  }

  lemma ScanSeen(s: Bytes, blocksize: nat, acc: byte, padLen: nat, valid: nat, j: nat)
    requires 0 < blocksize <= |s| && Seen(s, blocksize, acc, padLen, valid, j)
    ensures Scan(s, blocksize, 0) == if valid == 1 then Some(|s| - 1 - padLen) else None
  {
    var r := Scan(s, blocksize, 0);
    hide Scan;
    if valid == 1 {
      ScanIff(s, blocksize, 0, |s| - 1 - padLen);
    } else if r.Some? {
      ScanIff(s, blocksize, 0, r.value);
    }
  }
}
