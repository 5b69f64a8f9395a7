/** The accumulator loops of sodium_bin2base64 and sodium_base642bin, proved to compute the
    group-wise encoding and decoding of module Base64. */
module Base64Loops {
  import opened Words
  import opened LittleEndian
  import opened Errors
  import opened Base64

  lemma SmallShifts(acc: u32)
    ensures Shr(acc, 0) == acc && Shr(acc, 2) == acc / 4 && Shr(acc, 4) == acc / 16 && Shr(acc, 6) == acc / 64
  {
    ShrIsQuotient(acc, 2);
    ShrIsQuotient(acc, 4);
    ShrIsQuotient(acc, 6);
  }

  lemma SixBits(x: nat)
    ensures And(x, 0x3F) == x % 64
  {
    Pow2Values();
    AndMask(x, 6);
  }

  function Before(bin: Bytes, i: nat): byte
    requires i <= |bin|
  {
    if i == 0 then 0 else bin[i - 1]
  }

  lemma ShiftIn(acc: u32, b: byte)
    ensures Wrap32(acc * 0x100 + b) % 0x1_0000 == acc % 0x100 * 0x100 + b
    ensures Wrap32(acc * 0x100 + b) % 0x100 == b
  {
    var t, w := acc / 0x100, acc % 0x100 * 0x100 + b;
    var u := 0x1_0000 * (t % 0x1_0000) + w;
    ModUnique(acc * 0x100 + b, 0x1_0000_0000, t / 0x1_0000, u);
    ModUnique(u, 0x1_0000, t % 0x1_0000, w);
    ModUnique(u, 0x100, 0x100 * (t % 0x1_0000) + acc % 0x100, b);
  }

  /** Six bits out of the last two bytes shifted in. */
  lemma Windows(acc: u32, p: byte, c: byte)
    requires acc % 0x1_0000 == p * 0x100 + c
    ensures acc / 4 % 64 == c / 4
    ensures acc / 16 % 64 == p % 4 * 16 + c / 16
    ensures acc / 64 % 64 == p % 16 * 4 + c / 64
    ensures acc % 64 == c % 64
  {
    var t: nat := acc / 0x1_0000;
    Window(acc, 4, 64, 256 * t + p, c / 4, c % 4);
    Window(acc, 16, 64, 64 * t + p / 4, p % 4 * 16 + c / 16, c % 16);
    Window(acc, 64, 64, 16 * t + p / 16, p % 16 * 4 + c / 64, c % 64);
    Window(acc, 1, 64, 1024 * t + 4 * p + c / 64, c % 64, 0);
  }

  lemma Window(acc: nat, m: nat, n: nat, high: nat, mid: nat, low: nat)
    requires low < m && mid < n && acc == m * (n * high + mid) + low
    ensures acc / m % n == mid
  {
    ModUnique(acc, m, n * high + mid, low);
    ModUnique(n * high + mid, n, high, mid);
  }

  /** Where the bits of the next digit come from. */
  lemma Place(i: nat, accLen: nat, pos: nat)
    requires 8 * (i + 1) == 6 * pos + accLen && 6 <= accLen <= 12
    ensures i % 3 == 0 ==> accLen == 8 && pos % 4 == 0 && 3 * (pos / 4) == i
    ensures i % 3 == 1 ==> accLen == 10 && pos % 4 == 1 && 3 * (pos / 4) == i - 1
    ensures i % 3 == 2 && accLen > 6 ==> accLen == 12 && pos % 4 == 2 && 3 * (pos / 4) == i - 2
    ensures i % 3 == 2 && accLen <= 6 ==> accLen == 6 && pos % 4 == 3 && 3 * (pos / 4) == i - 2
  {
    var q := i / 3;
    if i == 3 * q {
      assert pos == 4 * q;
    } else if i == 3 * q + 1 {
      assert pos == 4 * q + 1;
    } else if accLen > 6 {
      assert pos == 4 * q + 2;
    } else {
      assert pos == 4 * q + 3;
    }
  }

  /** Whichever bits are pending, the next six of them are the next digit. */
  lemma NextDigit(bin: Bytes, i: nat, acc: u32, accLen: nat, pos: nat)
    requires i < |bin| && acc % 0x1_0000 == Before(bin, i) * 0x100 + bin[i]
    requires 8 * (i + 1) == 6 * pos + accLen && 6 <= accLen <= 12
    ensures And(Shr(acc, accLen - 6), 0x3F) == Digit(bin, pos)
  {
    hide And, Shr;
    Place(i, accLen, pos);
    SmallShifts(acc);
    SixBits(Shr(acc, accLen - 6));
    Windows(acc, Before(bin, i), bin[i]);
  }

  /** The last digit takes the bits that are left, with zeros below them. */
  lemma LastDigit(bin: Bytes, acc: u32, accLen: nat, pos: nat)
    requires acc % 0x100 == Before(bin, |bin|)
    requires 8 * |bin| == 6 * pos + accLen && 0 < accLen < 6
    ensures (accLen == 2 || accLen == 4) && pos + 1 == DigitCount(|bin|)
    ensures And(Wrap32(acc * Pow2(6 - accLen)), 0x3F) == Digit(bin, pos)
  {
    hide And, Wrap32;
    LastPlace(|bin|, accLen, pos);
    assert Pow2(2) == 4 && Pow2(4) == 16;
    ShiftUp(acc, Before(bin, |bin|));
    SixBits(Wrap32(acc * Pow2(6 - accLen)));
  }

  lemma LastPlace(n: nat, accLen: nat, pos: nat)
    requires 8 * n == 6 * pos + accLen && 0 < accLen < 6
    ensures pos + 1 == DigitCount(n) && n > 0
    ensures (accLen == 2 && n % 3 == 1 && pos % 4 == 1 && 3 * (pos / 4) == n - 1)
         || (accLen == 4 && n % 3 == 2 && pos % 4 == 2 && 3 * (pos / 4) == n - 2)
  {
    var q := n / 3;
    if n == 3 * q + 1 {
      assert pos == 4 * q + 1;
    } else {
      assert n == 3 * q + 2 && pos == 4 * q + 2;
    }
  }

  lemma ShiftUp(acc: u32, c: byte)
    requires acc % 0x100 == c
    ensures Wrap32(acc * 16) % 64 == c % 4 * 16 && Wrap32(acc * 4) % 64 == c % 16 * 4
  {
    hide Wrap32;
    var t: nat := acc / 0x100;
    ModUnique(acc * 16, 64, 64 * t + c / 4, c % 4 * 16);
    ModUnique(acc * 4, 64, 16 * t + c / 16, c % 16 * 4);
    WrapKeepsLow(acc * 16);
    WrapKeepsLow(acc * 4);
  }

  lemma WrapKeepsLow(x: nat)
    ensures Wrap32(x) % 64 == x % 64
  {
    var w: nat := Wrap32(x);
    ModUnique(x, 64, 0x400_0000 * (x / 0x1_0000_0000) + w / 64, w % 64);
  }

  lemma NextChar(bin: Bytes, i: nat, acc: u32, accLen: nat, pos: nat, v: Variant)
    requires i < |bin| && acc % 0x1_0000 == Before(bin, i) * 0x100 + bin[i]
    requires 8 * (i + 1) == 6 * pos + accLen && 6 <= accLen <= 12
    ensures And(Shr(acc, accLen - 6), 0x3F) < 64
    ensures ByteToChar(v, And(Shr(acc, accLen - 6), 0x3F)) == Char(v, Digit(bin, pos))
  {
    hide And, Shr, Digit, ByteToChar, Char;
    NextDigit(bin, i, acc, accLen, pos);
    ByteToCharIsChar(v, Digit(bin, pos));
  }

  lemma Room(v: Variant, bin: Bytes, room: nat)
    requires room > |Encode(v, bin)|
    ensures 6 * room >= 8 * |bin| + 6
  {
    hide DigitsOf;
    assert 6 * DigitCount(|bin|) >= 8 * |bin|;
  }

  lemma NoneLeft(n: nat, pos: nat)
    requires 8 * n == 6 * pos
    ensures pos == DigitCount(n)
  {
    ModUnique(8 * n + 5, 6, pos, 5);
  }

  /** The first `pos` characters are those of the first digits. */
  ghost predicate Written(b64: array<char8>, pos: nat, bin: Bytes, v: Variant)
    reads b64
  {
    pos <= b64.Length && forall j | 0 <= j < pos :: b64[j] == Char(v, Digit(bin, j))
  }

  /** The accumulator between two bytes: it ends in the last byte, and all bits taken in are either
      written or pending. */
  ghost predicate Pending(bin: Bytes, i: nat, acc: u32, accLen: nat, pos: nat) {
    i <= |bin| && acc % 0x100 == Before(bin, i) && 8 * i == 6 * pos + accLen && accLen % 2 == 0 && accLen <= 4
  }

  lemma LastIn(bin: Bytes, i: nat)
    requires i < |bin|
    ensures Before(bin, i + 1) == bin[i]
  {}

  /** One byte in, one or two digits out. */
  method TakeByte(b64: array<char8>, bin: Bytes, v: Variant, i: nat, acc0: u32, accLen0: nat, pos0: nat)
    returns (acc: u32, accLen: nat, pos: nat)
    requires i < |bin| && Pending(bin, i, acc0, accLen0, pos0) && Written(b64, pos0, bin, v)
    requires 6 * b64.Length >= 8 * |bin|
    modifies b64
    ensures Pending(bin, i + 1, acc, accLen, pos) && Written(b64, pos, bin, v)
  {
    hide Digit, And, Shr, Wrap32, ByteToChar, Char, Before;
    ShiftIn(acc0, bin[i]);
    LastIn(bin, i);
    acc, accLen, pos := Wrap32(acc0 * 0x100 + bin[i]), accLen0 + 8, pos0;
    while accLen >= 6
      invariant 8 * (i + 1) == 6 * pos + accLen && accLen % 2 == 0 && accLen <= 12
      invariant Written(b64, pos, bin, v)
    {
      NextChar(bin, i, acc, accLen, pos, v);
      accLen := accLen - 6;
      b64[pos] := ByteToChar(v, And(Shr(acc, accLen), 0x3F));
      pos := pos + 1;
    }
  }

  /** `sodium_bin2base64`: the text, its terminating zero, and zeros up to the end of the buffer. */
  method BinToBase64(b64: array<char8>, bin: Bytes, v: Variant)
    requires b64.Length > |Encode(v, bin)|
    modifies b64
    ensures var n := |Encode(v, bin)|; b64[..n] == Encode(v, bin) && forall j | n <= j < b64.Length :: b64[j] == 0
  {
    hide Digit, And, Wrap32, ByteToChar, Char, Encode, DigitCount, Pow2;
    Room(v, bin, b64.Length);
    var acc: u32, accLen: nat, pos: nat := 0, 0, 0;
    for i := 0 to |bin|
      invariant Pending(bin, i, acc, accLen, pos) && Written(b64, pos, bin, v)
    {
      acc, accLen, pos := TakeByte(b64, bin, v, i, acc, accLen, pos);
    }
    if accLen > 0 {
      LastDigit(bin, acc, accLen, pos);
      ByteToCharIsChar(v, Digit(bin, pos));
      b64[pos] := ByteToChar(v, And(Wrap32(acc * Pow2(6 - accLen)), 0x3F));
      pos := pos + 1;
    } else {
      NoneLeft(|bin|, pos);
    }
    Finish(b64, v, bin, pos);
  }

  /** Padding and zeros. */
  method Finish(b64: array<char8>, v: Variant, bin: Bytes, digits: nat)
    requires b64.Length > |Encode(v, bin)| && digits == DigitCount(|bin|) && Written(b64, digits, bin, v)
    modifies b64
    ensures var n := |Encode(v, bin)|; b64[..n] == Encode(v, bin) && forall j | n <= j < b64.Length :: b64[j] == 0
  {
    hide Digit, Char;
    var b64Len := EncodedLength(v, |bin|);
    var pos := digits;
    while pos < b64Len
      invariant digits <= pos <= b64Len
      invariant forall j | 0 <= j < pos :: b64[j] == if j < digits then Char(v, Digit(bin, j)) else PAD
    {
      b64[pos] := PAD;
      pos := pos + 1;
    }
    while pos < b64.Length
      invariant b64Len <= pos <= b64.Length
      invariant forall j | 0 <= j < b64Len :: b64[j] == if j < digits then Char(v, Digit(bin, j)) else PAD
      invariant forall j | b64Len <= j < pos :: b64[j] == 0
    {
      b64[pos] := 0;
      pos := pos + 1;
    }
  }

  /** The length computed up front. */
  function EncodedLength(v: Variant, n: nat): (r: nat)
    ensures r == DigitCount(n) + PadCount(v, DigitCount(n))
  {
    var nibbles := n / 3;
    var remainder := n - 3 * nibbles;
    CountGroups(nibbles, remainder);
    nibbles * 4 + if remainder == 0 then 0 else if v.padded then 4 else 2 + remainder / 2
  }

  lemma CountGroups(q: nat, r: nat)
    requires r < 3
    ensures DigitCount(3 * q + r) == 4 * q + (if r == 0 then 0 else 1 + r)
    ensures DigitCount(3 * q + r) % 4 == (if r == 0 then 0 else 1 + r)
  {
    var left := if r == 0 then 5 else if r == 1 then 1 else 3;
    ModUnique(8 * (3 * q + r) + 5, 6, 4 * q + (if r == 0 then 0 else 1 + r), left);
    ModUnique(4 * q + (if r == 0 then 0 else 1 + r), 4, q, if r == 0 then 0 else 1 + r);
  }

  // ---- decoding ----

  lemma ShiftInDigit(acc: u32, d: nat)
    requires d < 64
    ensures Wrap32(acc * 64 + d) % 4096 == acc % 64 * 64 + d
    ensures Wrap32(acc * 64 + d) % 64 == d
  {
    var t, w := acc / 64, acc % 64 * 64 + d;
    var u := 4096 * (t % 0x10_0000) + w;
    ModUnique(acc * 64 + d, 0x1_0000_0000, t / 0x10_0000, u);
    ModUnique(u, 4096, t % 0x10_0000, w);
    ModUnique(u, 64, 64 * (t % 0x10_0000) + acc % 64, d);
  }

  function DigitBefore(ds: Digits, i: nat): nat
    requires i <= |ds|
  {
    if i == 0 then 0 else ds[i - 1]
  }

  /** Eight bits out of the last two digits shifted in. */
  lemma ByteWindows(acc: u32, p: nat, d: nat)
    requires p < 64 && d < 64 && acc % 4096 == p * 64 + d
    ensures acc / 16 % 256 == p * 4 + d / 16
    ensures acc / 4 % 256 == p % 16 * 16 + d / 4
    ensures acc % 256 == p % 4 * 64 + d
  {
    var t: nat := acc / 4096;
    Window(acc, 16, 256, t, p * 4 + d / 16, d % 16);
    Window(acc, 4, 256, 4 * t + p / 16, p % 16 * 16 + d / 4, d % 4);
    Window(acc, 1, 256, 16 * t + p / 4, p % 4 * 64 + d, 0);
  }

  lemma BytePlace(i: nat, accLen: nat, k: nat)
    requires 6 * (i + 1) == 8 * k + accLen && 8 <= accLen < 14
    ensures (accLen == 12 && k % 3 == 0 && 4 * (k / 3) + 1 == i)
         || (accLen == 10 && k % 3 == 1 && 4 * (k / 3) + 2 == i)
         || (accLen == 8 && k % 3 == 2 && 4 * (k / 3) + 3 == i)
  {
    var q := i / 4;
    if i == 4 * q + 1 {
      assert k == 3 * q;
    } else if i == 4 * q + 2 {
      assert k == 3 * q + 1;
    } else {
      assert i == 4 * q + 3 && k == 3 * q + 2;
    }
  }

  lemma NextByte(ds: Digits, i: nat, acc: u32, accLen: nat, k: nat)
    requires i < |ds| && acc % 4096 == DigitBefore(ds, i) * 64 + ds[i]
    requires 6 * (i + 1) == 8 * k + accLen && 8 <= accLen < 14
    ensures And(Shr(acc, accLen - 8), 0xFF) == Byte(ds, k)
  {
    hide And, Shr;
    BytePlace(i, accLen, k);
    SmallShifts(acc);
    LowByte(Shr(acc, accLen - 8));
    ByteWindows(acc, DigitBefore(ds, i), ds[i]);
  }

  lemma TailPlace(m: nat, accLen: nat, k: nat)
    requires 6 * m == 8 * k + accLen && accLen < 8
    ensures
      || (m % 4 == 0 && accLen == 0) || (m % 4 == 1 && accLen == 6)
      || (m % 4 == 2 && accLen == 4) || (m % 4 == 3 && accLen == 2)
  {
    var q := m / 4;
    assert k == 3 * q + if m % 4 == 0 then 0 else m % 4 - 1;
  }

  /** The test on what is left in the accumulator. */
  lemma TailCheck(ds: Digits, acc: u32, accLen: nat, k: nat)
    requires acc % 64 == DigitBefore(ds, |ds|) && 6 * |ds| == 8 * k + accLen && accLen < 8
    ensures accLen > 4 || And(acc, Pow2(accLen) - 1) != 0 <==> !CleanTail(ds)
    ensures CleanTail(ds) ==> accLen / 2 == PadCount(Variant(false, true), |ds|)
  {
    hide And;
    TailPlace(|ds|, accLen, k);
    AndMask(acc, accLen);
    assert Pow2(0) == 1 && Pow2(2) == 4 && Pow2(4) == 16;
    var w: nat := acc % 64;
    ModUnique(acc, 4, 16 * (acc / 64) + w / 4, w % 4);
    ModUnique(acc, 16, 4 * (acc / 64) + w / 16, w % 16);
  }

  /** `_sodium_base642bin_skip_padding`: it looks at ignored characters only while padding is owed. */
  method SkipPadding(b64: Text, from: nat, ignore: Option<Text>, count: nat) returns (end: Option<nat>)
    requires from <= |b64|
    ensures end == PadsEnd(ignore, b64, from, count)
  {
    hide Skips;
    var pos, left := from, count;
    while left > 0
      invariant left >= 0 && from <= pos <= |b64|
      invariant PadsEnd(ignore, b64, from, count) == PadsEnd(ignore, b64, pos, left)
      decreases |b64| - pos
    {
      if pos >= |b64| { return None; }
      if b64[pos] == PAD {
        left := left - 1;
      } else if !Skips(ignore, b64[pos]) {
        return None;
      }
      pos := pos + 1;
    }
    end := Some(pos);
  }

  lemma DigitsStep(v: Variant, s: Text, i: nat)
    requires i < |s|
    ensures DigitsIn(v, s[..i + 1]) ==
            DigitsIn(v, s[..i]) + if Value(v, s[i]) == INVALID then [] else [Value(v, s[i])]
  {
    hide Value;
    assert s[..i + 1][..i] == s[..i];
  }

  lemma {:induction false} DigitsPrefix(v: Variant, s: Text, i: nat, n: nat)
    requires i <= n <= |s|
    ensures DigitsIn(v, s[..i]) <= DigitsIn(v, s[..n])
    decreases n
  {
    hide Value, DigitsIn;
    if i < n {
      DigitsPrefix(v, s, i, n - 1);
      DigitsStep(v, s, n - 1);
    }
  }

  /** The next character is a digit of the text, or none. */
  lemma NextCharacter(v: Variant, s: Text, pos: nat, end: nat)
    requires pos < end <= |s|
    ensures
      var ds, before, after := DigitsIn(v, s[..end]), DigitsIn(v, s[..pos]), DigitsIn(v, s[..pos + 1]);
      if Value(v, s[pos]) == INVALID then after == before
      else |before| < |ds| && |after| == |before| + 1 && ds[|before|] == Value(v, s[pos])
  {
    hide Value, DigitsIn;
    DigitsStep(v, s, pos);
    DigitsPrefix(v, s, pos + 1, end);
  }

  /** What the loop knows after the first `i` digits. */
  ghost predicate Taken(bin: array<byte>, ds: Digits, i: nat, acc: u32, accLen: nat, binPos: nat)
    reads bin
  {
    && i <= |ds| && binPos <= bin.Length && acc % 64 == DigitBefore(ds, i)
    && 6 * i == 8 * binPos + accLen && accLen % 2 == 0 && accLen <= 6
    && forall k | 0 <= k < binPos :: bin[k] == Byte(ds, k)
  }

  /** The decoding loop: it stops behind the digits, or where there is no room. */
  method TakeDigits(bin: array<byte>, b64: Text, ignore: Option<Text>, v: Variant, ghost ds: Digits)
    returns (fits: bool, acc: u32, accLen: nat, pos: nat, binPos: nat)
    requires ds == DigitsIn(v, b64[..DigitsEnd(v, ignore, b64, 0)])
    modifies bin
    ensures fits <==> ByteCount(|ds|) <= bin.Length
    ensures fits ==> pos == DigitsEnd(v, ignore, b64, 0) && Taken(bin, ds, |ds|, acc, accLen, binPos)
  {
    hide Byte, And, Shr, Wrap32, CharToByte, Value, Skips, DigitsIn;
    acc, accLen, pos, binPos := 0, 0, 0, 0;
    ghost var end := DigitsEnd(v, ignore, b64, 0);
    NoDigits(v, b64);
    while pos < |b64|
      invariant pos <= end == DigitsEnd(v, ignore, b64, pos)
      invariant Taken(bin, ds, |DigitsIn(v, b64[..pos])|, acc, accLen, binPos)
      decreases |b64| - pos
    {
      CharToByteIsValue(v, b64[pos]);
      var d := CharToByte(v, b64[pos]);
      if d == INVALID {
        if !Skips(ignore, b64[pos]) { break; }
        NextCharacter(v, b64, pos, end);
      } else {
        NextCharacter(v, b64, pos, end);
        ghost var i := |DigitsIn(v, b64[..pos])|;
        ShiftInDigit(acc, d);
        acc, accLen := Wrap32(acc * 64 + d), accLen + 6;
        if accLen >= 8 {
          NextByte(ds, i, acc, accLen, binPos);
          accLen := accLen - 8;
          if binPos >= bin.Length { return false, acc, accLen, pos, binPos; }
          bin[binPos] := And(Shr(acc, accLen), 0xFF);
          binPos := binPos + 1;
        }
      }
      pos := pos + 1;
    }
    fits := true;
  }

  lemma NoDigits(v: Variant, s: Text)
    ensures DigitsIn(v, s[..0]) == []
  {}

  lemma AllTaken(bin: array<byte>, ds: Digits, acc: u32, accLen: nat, binPos: nat)
    requires Taken(bin, ds, |ds|, acc, accLen, binPos)
    ensures binPos == ByteCount(|ds|) && bin[..binPos] == BytesOf(ds)
  {
    hide Byte;
  }

  lemma PadsOwed(v: Variant, m: nat)
    ensures PadCount(v, m) == if v.padded then PadCount(Variant(false, true), m) else 0
  {}

  /** What the decoder makes of the digits of a text. */
  lemma Verdict(v: Variant, ignore: Option<Text>, b64: Text, maxLen: nat)
    ensures
      var m, r := DigitsEnd(v, ignore, b64, 0), DecodeIgnoring(v, ignore, b64, maxLen);
      var ds := DigitsIn(v, b64[..m]);
      var end := PadsEnd(ignore, b64, m, PadCount(v, |ds|));
      if ByteCount(|ds|) > maxLen || !CleanTail(ds) || end.None? then r.None?
      else r == Some((BytesOf(ds), SkipEnd(ignore, b64, end.value)))
  {
    hide CleanTail, DigitsIn, ByteCount, BytesOf, PadsEnd, PadCount, SkipEnd, DigitsEnd;
  }

  /** `sodium_base642bin`: how many bytes were stored and where the text ended, or a refusal.  A caller
      who does not ask for the end wants the `whole` text used. */
  method Base64ToBin(bin: array<byte>, b64: Text, ignore: Option<Text>, v: Variant, whole: bool)
    returns (r: Option<(nat, nat)>)
    modifies bin
    ensures
      var d := DecodeIgnoring(v, ignore, b64, bin.Length);
      && (r.Some? <==> d.Some? && (whole ==> d.value.1 == |b64|))
      && (r.Some? ==> r.value.0 <= bin.Length && d == Some((bin[..r.value.0], r.value.1)))
  {
    hide Byte, And, CleanTail, Pow2, DigitsEnd, DigitsIn, ByteCount, BytesOf, Skips, PadsEnd, PadCount, DecodeIgnoring;
    Verdict(v, ignore, b64, bin.Length);
    ghost var ds := DigitsIn(v, b64[..DigitsEnd(v, ignore, b64, 0)]);
    var fits, acc, accLen, pos, binPos := TakeDigits(bin, b64, ignore, v, ds);
    if !fits { return None; }
    TailCheck(ds, acc, accLen, binPos);
    if accLen > 4 || And(acc, Pow2(accLen) - 1) != 0 { return None; }
    AllTaken(bin, ds, acc, accLen, binPos);
    PadsOwed(v, |ds|);
    if v.padded {
      var end := SkipPadding(b64, pos, ignore, accLen / 2);
      if end.None? { return None; }
      pos := end.value;
    } else {
      NoPadding(ignore, b64, pos);
    }
    ghost var from := pos;
    while pos < |b64| && Skips(ignore, b64[pos])
      invariant from <= pos <= |b64| && SkipEnd(ignore, b64, from) == SkipEnd(ignore, b64, pos)
    {
      pos := pos + 1;
    }
    if whole && pos != |b64| { return None; }
    r := Some((binPos, pos));
  }

  lemma NoPadding(ignore: Option<Text>, b64: Text, pos: nat)
    requires pos <= |b64|
    ensures PadsEnd(ignore, b64, pos, 0) == Some(pos)
  {}
}
