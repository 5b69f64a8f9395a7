/** Base64 as sodium/codecs.c of the bundled libsodium encodes and decodes it, in its four variants
    and with characters to ignore; the groups are those of section 4 of RFC 4648. */
module Base64 {
  import opened Words
  import opened LittleEndian
  import opened Errors

  /** A C `char` where it is signed. */
  type char8 = c: int | -128 <= c < 128

  type Text = seq<char8>

  datatype Variant = Variant(urlsafe: bool, padded: bool)

  const PAD: char8 := 61

  // ---- the alphabet, and the constant-time expressions that compute it ----

  /** Tables 1 and 2 of RFC 4648. */
  function Char(v: Variant, x: nat): (c: char8)
    requires x < 64
    ensures c >= 0
  {
    if x < 26 then 'A' as int + x
    else if x < 52 then 'a' as int + x - 26
    else if x < 62 then '0' as int + x - 52
    else if x == 62 then (if v.urlsafe then '-' else '+') as int
    else (if v.urlsafe then '_' else '/') as int
  }

  const INVALID: nat := 0xFF

  /** The digit a character stands for; all characters outside 7-bit ASCII stand for 63. */
  function Value(v: Variant, c: char8): (x: nat)
    ensures x < 64 || x == INVALID
  {
    if c < 0 then 63
    else if 'A' as int <= c <= 'Z' as int then c - 'A' as int
    else if 'a' as int <= c <= 'z' as int then c - 'a' as int + 26
    else if '0' as int <= c <= '9' as int then c - '0' as int + 52
    else if c == (if v.urlsafe then '-' else '+') as int then 62
    else if c == (if v.urlsafe then '_' else '/') as int then 63
    else INVALID
  }

  lemma ValueOfChar(v: Variant, x: nat)
    requires x < 64
    ensures Value(v, Char(v, x)) == x
  {}

  lemma CharOfValue(v: Variant, c: char8)
    requires Value(v, c) < 64
    ensures Char(v, Value(v, c)) == c <==> c >= 0
  {}

  /** `EQ` and `GT`: all ones or all zeros in the low byte. */
  function Eq(x: u32, y: u32): nat {
    Xor(And(Wrap32(0 - Xor(x, y)) / 0x100, 0xFF), 0xFF)
  }

  function Gt(x: u32, y: u32): nat {
    And(Wrap32(y - x) / 0x100, 0xFF)
  }

  function Ge(x: u32, y: u32): nat {
    Xor(Gt(y, x), 0xFF)
  }

  /** The borrow out of the low byte. */
  lemma Borrow(z: int)
    requires -0x100 < z < 0x100
    ensures And(Wrap32(z) / 0x100, 0xFF) == if z < 0 then 0xFF else 0
  {
    hide And;
    LowByte(Wrap32(z) / 0x100);
    if z < 0 { assert Wrap32(z) == z + 0x1_0000_0000; }
  }

  lemma Flip()
    ensures Xor(0, 0xFF) == 0xFF && Xor(0xFF, 0xFF) == 0
  {
    hide Xor;
    XorLaws(0, 0xFF);
    XorIsZero(0xFF, 0xFF);
  }

  lemma Masks(x: u32, y: u32)
    requires x < 0x100 && y < 0x100
    ensures Eq(x, y) == if x == y then 0xFF else 0
    ensures Gt(x, y) == if x > y then 0xFF else 0
    ensures Ge(x, y) == if x >= y then 0xFF else 0
  {
    hide Xor, And, Wrap32, Pow2;
    Pow2Values();
    XorIsZero(x, y);
    XorBound(x, y, 8);
    Borrow(0 - Xor(x, y));
    Borrow(y - x);
    Borrow(x - y);
    Flip();
  }

  lemma NegativeWraps(c: int)
    requires -0x100 <= c < 0
    ensures Wrap32(c) == 0x100 * 0xFF_FFFF + (c + 0x100)
  {}

  lemma WrapNegates(x: u32)
    requires x > 0
    ensures Wrap32(0 - x) == 0x1_0000_0000 - x == Wrap32(0x1_0000_0000 - x)
  {}

  lemma WrapSmall(x: u32)
    ensures Wrap32(x) == x
  {}

  /** A negative character compares below every letter, and equal to every other byte. */
  lemma NegativeMasks(c: char8, y: u32)
    requires c < 0 && y < 0x80
    ensures Eq(Wrap32(c), y) == 0xFF && Ge(Wrap32(c), y) == 0
  {
    hide Xor, And, Pow2, Wrap32;
    var b := c + 0x100;
    NegativeWraps(c);
    Pow2Values();
    XorHigh(0xFF_FFFF, b, y, 8);
    XorIsZero(b, y);
    XorBound(b, y, 8);
    var z: nat := Xor(b, y);
    NegativeWraps(z - 0x100);
    WrapNegates(0x100 * 0xFF_FFFF + z);
    Borrow(0x100 - z);
    Flip();
    NegativeWraps(c);
    LowByte(Wrap32(Wrap32(c) - y) / 0x100);
    WrapSmall(0x100 * 0xFF_FFFF + b - y);
  }

  function Or5(a: nat, b: nat, c: nat, d: nat, e: nat): nat {
    Or(Or(Or(Or(a, b), c), d), e)
  }

  /** At most one alternative is selected, so or-ing them is adding them. */
  lemma OneOf(a: nat, b: nat, c: nat, d: nat, e: nat)
    requires (a == 0 || b == c == d == e == 0) && (b == 0 || c == d == e == 0)
    requires (c == 0 || d == e == 0) && (d == 0 || e == 0)
    ensures Or5(a, b, c, d, e) == a + b + c + d + e
  {
    hide Or;
    OrZero(a); OrZero(b); OrZero(c); OrZero(d); OrZero(e);
  }

  /** `b64_byte_to_char` and its URL-safe twin. */
  function ByteToChar(v: Variant, x: u32): nat {
    Or5(And(Gt(26, x), Wrap32(x + 'A' as int)),
        And(And(Ge(x, 26), Gt(52, x)), Wrap32(x + ('a' as int - 26))),
        And(And(Ge(x, 52), Gt(62, x)), Wrap32(x + ('0' as int - 52))),
        And(Eq(x, 62), (if v.urlsafe then '-' else '+') as int),
        And(Eq(x, 63), (if v.urlsafe then '_' else '/') as int))
  }

  /** `b64_char_to_byte` and its URL-safe twin. */
  function CharToByte(v: Variant, c: char8): nat {
    var u := Wrap32(c);
    var x := Or5(And(And(Ge(u, 'A' as int), Ge('Z' as int, u)), Wrap32(c - 'A' as int)),
                 And(And(Ge(u, 'a' as int), Ge('z' as int, u)), Wrap32(c - ('a' as int - 26))),
                 And(And(Ge(u, '0' as int), Ge('9' as int, u)), Wrap32(c - ('0' as int - 52))),
                 And(Eq(u, (if v.urlsafe then '-' else '+') as int), 62),
                 And(Eq(u, (if v.urlsafe then '_' else '/') as int), 63));
    Or(x, And(Eq(Wrap32(x), 0), Xor(Eq(u, 'A' as int), 0xFF)))
  }

  /** An and with a mask, or with two. */
  lemma Masked(p: bool, q: bool, x: int)
    ensures And(if p then 0xFF else 0, Wrap32(x)) == if p then Wrap32(x) % 0x100 else 0
    ensures And(And(if p then 0xFF else 0, if q then 0xFF else 0), Wrap32(x)) == if p && q then Wrap32(x) % 0x100 else 0
    ensures 0 <= x < 0x100 ==> Wrap32(x) % 0x100 == x
  {
    hide And;
    LowByte(Wrap32(x));
    LowByte(0xFF);
    LowByte(0);
  }

  lemma ByteToCharIsChar(v: Variant, x: u32)
    requires x < 64
    ensures ByteToChar(v, x) == Char(v, x)
  {
    hide And, Or5, Eq, Gt, Ge, Wrap32;
    Masks(26, x); Masks(52, x); Masks(62, x); Masks(x, 26); Masks(x, 52); Masks(x, 62); Masks(x, 63);
    var p, q := (if v.urlsafe then '-' else '+') as int, (if v.urlsafe then '_' else '/') as int;
    WrapSmall(p); WrapSmall(q);
    Masked(26 > x, true, x + 'A' as int);
    Masked(x >= 26, 52 > x, x + ('a' as int - 26));
    Masked(x >= 52, 62 > x, x + ('0' as int - 52));
    Masked(x == 62, true, p);
    Masked(x == 63, true, q);
    OneOf(if 26 > x then x + 'A' as int else 0,
          if x >= 26 && 52 > x then x + ('a' as int - 26) else 0,
          if x >= 52 && 62 > x then x + ('0' as int - 52) else 0,
          if x == 62 then p else 0, if x == 63 then q else 0);
  }

  /** The last step turns "no alternative" into `INVALID`, except for the letter A. */
  lemma Finish(x: u32, c: char8)
    requires x < 0x100 && c >= 0
    ensures Or(x, And(Eq(x, 0), Xor(Eq(c, 'A' as int), 0xFF))) == if x == 0 && c != 'A' as int then INVALID else x
  {
    hide And, Or, Xor, Eq, Gt, Ge;
    Masks(x, 0);
    Masks(c, 'A' as int);
    Flip();
    LowByte(0xFF);
    LowByte(0);
    OrZero(x);
    OrZero(0xFF);
  }

  lemma CharToByteIsValue(v: Variant, c: char8)
    ensures CharToByte(v, c) == Value(v, c)
  {
    if c >= 0 { AsciiIsValue(v, c); } else { NegativeIsValue(v, c); }
  }

  lemma AsciiIsValue(v: Variant, c: char8)
    requires c >= 0
    ensures CharToByte(v, c) == Value(v, c)
  {
    hide And, Or, Xor, Or5, Eq, Gt, Ge, Wrap32;
    WrapSmall(c); WrapSmall(62); WrapSmall(63);
    Masks(c, 'A' as int); Masks('Z' as int, c); Masks(c, 'a' as int); Masks('z' as int, c);
    Masks(c, '0' as int); Masks('9' as int, c);
    var p, q := (if v.urlsafe then '-' else '+') as int, (if v.urlsafe then '_' else '/') as int;
    Masks(c, p); Masks(c, q);
    Masked(c >= 'A' as int, 'Z' as int >= c, c - 'A' as int);
    Masked(c >= 'a' as int, 'z' as int >= c, c - ('a' as int - 26));
    Masked(c >= '0' as int, '9' as int >= c, c - ('0' as int - 52));
    Masked(c == p, true, 62);
    Masked(c == q, true, 63);
    var x := if Value(v, c) < 64 then Value(v, c) else 0;
    OneOf(if 'A' as int <= c <= 'Z' as int then c - 'A' as int else 0,
          if 'a' as int <= c <= 'z' as int then c - ('a' as int - 26) else 0,
          if '0' as int <= c <= '9' as int then c - ('0' as int - 52) else 0,
          if c == p then 62 else 0, if c == q then 63 else 0);
    WrapSmall(x);
    Finish(x, c);
  }

  lemma NegativeIsValue(v: Variant, c: char8)
    requires c < 0
    ensures CharToByte(v, c) == Value(v, c)
  {
    hide And, Or, Xor, Or5, Eq, Gt, Ge, Wrap32;
    var p, q := (if v.urlsafe then '-' else '+') as int, (if v.urlsafe then '_' else '/') as int;
    NegativeMasks(c, 'A' as int); NegativeMasks(c, 'a' as int); NegativeMasks(c, '0' as int);
    NegativeMasks(c, p); NegativeMasks(c, q);
    NothingSelected(Ge('Z' as int, Wrap32(c)), Wrap32(c - 'A' as int));
    NothingSelected(Ge('z' as int, Wrap32(c)), Wrap32(c - ('a' as int - 26)));
    NothingSelected(Ge('9' as int, Wrap32(c)), Wrap32(c - ('0' as int - 52)));
    LowByte(62); LowByte(63); LowByte(0);
    WrapSmall(63);
    Masks(63, 0);
    SlashWins();
    LowByte(Xor(Eq(Wrap32(c), 'A' as int), 0xFF));
    OrZero(63);
  }

  lemma NothingSelected(m: nat, x: nat)
    ensures And(And(0, m), x) == 0
  {}

  lemma SlashWins()
    ensures Or5(0, 0, 0, 62, 63) == 63
  {
    assert Or(62, 63) == 63;
  }

  // ---- groups ----

  /** The bytes with zeros behind them. */
  function ByteOf(bin: Bytes, k: nat): byte {
    if k < |bin| then bin[k] else 0
  }

  /** The four six-bit digits of a group of three bytes. */
  function Split(i: nat, a: byte, b: byte, c: byte): (d: nat)
    requires i < 4
    ensures d < 64
  {
    if i == 0 then a / 4 else if i == 1 then a % 4 * 16 + b / 16 else if i == 2 then b % 16 * 4 + c / 64 else c % 64
  }

  /** The three bytes of a group of four digits. */
  function Join(i: nat, w: nat, x: nat, y: nat, z: nat): (b: byte)
    requires i < 3 && w < 64 && x < 64 && y < 64 && z < 64
  {
    if i == 0 then w * 4 + x / 16 else if i == 1 then x % 16 * 16 + y / 4 else y % 4 * 64 + z
  }

  lemma JoinSplit(a: byte, b: byte, c: byte)
    ensures var w, x, y, z := Split(0, a, b, c), Split(1, a, b, c), Split(2, a, b, c), Split(3, a, b, c);
      Join(0, w, x, y, z) == a && Join(1, w, x, y, z) == b && Join(2, w, x, y, z) == c
  {}

  lemma SplitJoin(w: nat, x: nat, y: nat, z: nat)
    requires w < 64 && x < 64 && y < 64 && z < 64
    ensures var a, b, c := Join(0, w, x, y, z), Join(1, w, x, y, z), Join(2, w, x, y, z);
      Split(0, a, b, c) == w && Split(1, a, b, c) == x && Split(2, a, b, c) == y && Split(3, a, b, c) == z
  {}

  function Digit(bin: Bytes, j: nat): (d: nat)
    ensures d < 64
  {
    var k := 3 * (j / 4);
    Split(j % 4, ByteOf(bin, k), ByteOf(bin, k + 1), ByteOf(bin, k + 2))
  }

  /** As many digits as cover all bits. */
  function DigitCount(n: nat): nat {
    (8 * n + 5) / 6
  }

  type Digits = ds: seq<nat> | forall j | 0 <= j < |ds| :: ds[j] < 64

  function DigitOf(ds: Digits, j: nat): (d: nat)
    ensures d < 64
  {
    if j < |ds| then ds[j] else 0
  }

  /** Byte `k` of what the digits stand for. */
  function Byte(ds: Digits, k: nat): (b: byte) {
    var j := 4 * (k / 3);
    Join(k % 3, DigitOf(ds, j), DigitOf(ds, j + 1), DigitOf(ds, j + 2), DigitOf(ds, j + 3))
  }

  function DigitsOf(bin: Bytes): (ds: Digits)
    ensures |ds| == DigitCount(|bin|)
  {
    seq(DigitCount(|bin|), j requires 0 <= j < DigitCount(|bin|) => Digit(bin, j))
  }

  function ByteCount(m: nat): nat {
    6 * m / 8
  }

  /** Whole bytes only; the bits left over are checked separately. */
  function BytesOf(ds: Digits): (bin: Bytes)
    ensures |bin| == ByteCount(|ds|)
  {
    seq(ByteCount(|ds|), k requires 0 <= k < ByteCount(|ds|) => Byte(ds, k))
  }

  /** The bits left over after the whole bytes are less than a digit, and zero. */
  predicate CleanTail(ds: Digits) {
    if |ds| % 4 == 0 then true
    else if |ds| % 4 == 1 then false
    else if |ds| % 4 == 2 then ds[|ds| - 1] % 16 == 0
    else ds[|ds| - 1] % 4 == 0
  }

  lemma DigitsGoOn(bin: Bytes, j: nat)
    ensures DigitOf(DigitsOf(bin), j) == Digit(bin, j)
  {
    if j >= DigitCount(|bin|) { assert 3 * (j / 4) + (if j % 4 <= 1 then j % 4 else j % 4 - 1) >= |bin|; }
  }

  lemma BytesGoOn(ds: Digits, k: nat)
    requires CleanTail(ds)
    ensures ByteOf(BytesOf(ds), k) == Byte(ds, k)
  {
    if k >= 6 * |ds| / 8 {
      var j := 4 * (k / 3);
      assert if k % 3 == 0 then j >= |ds| else if k % 3 == 1 then j + 2 >= |ds| else j + 3 >= |ds|;
    }
  }

  lemma BytesOfDigits(bin: Bytes)
    ensures BytesOf(DigitsOf(bin)) == bin && CleanTail(DigitsOf(bin))
  {
    hide Split, Join, DigitsOf;
    var ds := DigitsOf(bin);
    forall k | 0 <= k < |bin| ensures Byte(ds, k) == bin[k] {
      var q := k / 3;
      DigitsGoOn(bin, 4 * q); DigitsGoOn(bin, 4 * q + 1); DigitsGoOn(bin, 4 * q + 2); DigitsGoOn(bin, 4 * q + 3);
      JoinSplit(ByteOf(bin, 3 * q), ByteOf(bin, 3 * q + 1), ByteOf(bin, 3 * q + 2));
    }
    TailIsClean(bin);
  }

  lemma TailIsClean(bin: Bytes)
    ensures CleanTail(DigitsOf(bin))
  {
    var n, ds := |bin|, DigitsOf(bin);
    if n % 3 == 1 {
      assert |ds| == 4 * (n / 3) + 2 && ds[|ds| - 1] == bin[n - 1] % 4 * 16;
    } else if n % 3 == 2 {
      assert |ds| == 4 * (n / 3) + 3 && ds[|ds| - 1] == bin[n - 1] % 16 * 4;
    }
  }

  lemma DigitsOfBytes(ds: Digits)
    requires CleanTail(ds)
    ensures DigitsOf(BytesOf(ds)) == ds
  {
    hide Split, Join, BytesOf, CleanTail;
    var bin := BytesOf(ds);
    forall j | 0 <= j < |ds| ensures Digit(bin, j) == ds[j] {
      var q := j / 4;
      BytesGoOn(ds, 3 * q); BytesGoOn(ds, 3 * q + 1); BytesGoOn(ds, 3 * q + 2);
      SplitJoin(DigitOf(ds, 4 * q), DigitOf(ds, 4 * q + 1), DigitOf(ds, 4 * q + 2), DigitOf(ds, 4 * q + 3));
    }
    TailCount(ds);
  }

  lemma TailCount(ds: Digits)
    requires CleanTail(ds)
    ensures DigitCount(6 * |ds| / 8) == |ds|
  {
    var q, r := |ds| / 4, |ds| % 4;
    assert 6 * |ds| / 8 == 3 * q + 6 * r / 8;
    hide CleanTail;
    if r == 0 { assert DigitCount(3 * q) == 4 * q; }
    if r == 2 { assert DigitCount(3 * q + 1) == 4 * q + 2; }
    if r == 3 { assert DigitCount(3 * q + 2) == 4 * q + 3; }
  }

  // ---- whole texts ----

  /** How many padding characters complete a group of `m` digits. */
  function PadCount(v: Variant, m: nat): nat {
    if v.padded then (4 - m % 4) % 4 else 0
  }

  function Pads(n: nat): (s: Text)
    ensures |s| == n
  {
    seq(n, i => PAD)
  }

  function Chars(v: Variant, ds: Digits): (s: Text)
    ensures |s| == |ds|
  {
    seq(|ds|, j requires 0 <= j < |ds| => Char(v, ds[j]))
  }

  function Encode(v: Variant, bin: Bytes): (s: Text) {
    Chars(v, DigitsOf(bin)) + Pads(PadCount(v, DigitCount(|bin|)))
  }

  /** The length of the longest run of digit characters from `at` on. */
  function Run(v: Variant, s: Text, at: nat): (n: nat)
    requires at <= |s|
    ensures at + n <= |s|
    ensures forall j | at <= j < at + n :: Value(v, s[j]) < 64
    ensures at + n < |s| ==> Value(v, s[at + n]) == INVALID
    decreases |s| - at
  {
    if at == |s| || Value(v, s[at]) == INVALID then 0 else 1 + Run(v, s, at + 1)
  }

  function Values(v: Variant, s: Text): (ds: Digits)
    requires forall j | 0 <= j < |s| :: Value(v, s[j]) < 64
    ensures |ds| == |s|
  {
    seq(|s|, j requires 0 <= j < |s| => Value(v, s[j]))
  }

  /** The bytes and where the text of them ends, or a refusal: too long, unclean, or not padded. */
  function Decode(v: Variant, s: Text, maxLen: nat): (r: Option<(Bytes, nat)>)
    ensures r.Some? ==> r.value.1 <= |s| && |r.value.0| <= maxLen
  {
    var m := Run(v, s, 0);
    var ds := Values(v, s[..m]);
    var p := PadCount(v, m);
    if ByteCount(m) > maxLen || !CleanTail(ds) || m + p > |s| || s[m..m + p] != Pads(p) then None
    else Some((BytesOf(ds), m + p))
  }

  lemma {:induction false} RunIs(v: Variant, s: Text, at: nat, n: nat)
    requires at + n <= |s|
    requires forall j | at <= j < at + n :: Value(v, s[j]) < 64
    requires at + n < |s| ==> Value(v, s[at + n]) == INVALID
    ensures Run(v, s, at) == n
    decreases n
  {
    if n > 0 { RunIs(v, s, at + 1, n - 1); }
  }

  lemma ValuesOfChars(v: Variant, ds: Digits)
    ensures forall j | 0 <= j < |ds| :: Value(v, Chars(v, ds)[j]) < 64
    ensures Values(v, Chars(v, ds)) == ds
  {
    hide Value, Char;
    forall j | 0 <= j < |ds| ensures Value(v, Chars(v, ds)[j]) == ds[j] { ValueOfChar(v, ds[j]); }
  }

  lemma PadIsInvalid(v: Variant)
    ensures Value(v, PAD) == INVALID
  {}

  predicate StartsPadded(s: Text, n: nat) {
    n <= |s| && forall j | 0 <= j < n :: s[j] == PAD
  }

  lemma PaddedIs(s: Text, t: Text, n: nat)
    ensures StartsPadded(t, n) <==> |s| + n <= |s + t| && (s + t)[|s|..|s| + n] == Pads(n)
  {
    if |s| + n <= |s + t| {
      var u := (s + t)[|s|..|s| + n];
      assert forall j | 0 <= j < n :: u[j] == t[j];
    }
  }

  lemma DecodeSplit(v: Variant, s: Text, t: Text, maxLen: nat)
    requires Run(v, s + t, 0) == |s| && forall j | 0 <= j < |s| :: Value(v, s[j]) < 64
    ensures Decode(v, s + t, maxLen) ==
            if ByteCount(|s|) > maxLen || !CleanTail(Values(v, s)) || !StartsPadded(t, PadCount(v, |s|)) then None
            else Some((BytesOf(Values(v, s)), |s| + PadCount(v, |s|)))
  {
    hide Value, Values, ByteCount, BytesOf, CleanTail, Run, StartsPadded, PadCount, Pads;
    assert (s + t)[..|s|] == s;
    PaddedIs(s, t, PadCount(v, |s|));
  }

  /** What was encoded is decoded, whatever follows it, as long as an encoding without padding is not
      followed by another digit; and the end is found exactly. */
  lemma DecodeEncode(v: Variant, bin: Bytes, rest: Text, maxLen: nat)
    requires |bin| <= maxLen
    requires rest != [] && PadCount(v, DigitCount(|bin|)) == 0 ==> Value(v, rest[0]) == INVALID
    ensures Decode(v, Encode(v, bin) + rest, maxLen) == Some((bin, |Encode(v, bin)|))
  {
    hide Value, Char, Chars, Values, DigitCount, DigitsOf, ByteCount, BytesOf, CleanTail, PadCount, Decode, Run;
    var ds, p := DigitsOf(bin), PadCount(v, DigitCount(|bin|));
    var chars, tail := Chars(v, ds), Pads(p) + rest;
    ValuesOfChars(v, ds);
    PadIsInvalid(v);
    assert Encode(v, bin) + rest == chars + tail;
    assert tail != [] ==> tail[0] == if p > 0 then PAD else rest[0];
    RunIs(v, chars + tail, 0, |ds|);
    DecodeSplit(v, chars, tail, maxLen);
    BytesOfDigits(bin);
  }

  /** Encoding what was decoded gives back the text that was read, exactly when that text is
      7-bit ASCII: every other character reads as digit 63, and is never written. */
  lemma EncodeDecode(v: Variant, s: Text, maxLen: nat)
    requires Decode(v, s, maxLen).Some?
    ensures var (bin, end) := Decode(v, s, maxLen).value;
      Encode(v, bin) == s[..end] <==> forall i | 0 <= i < end :: s[i] >= 0
  {
    hide Value, Char, DigitsOf, BytesOf, CleanTail;
    var (bin, end) := Decode(v, s, maxLen).value;
    var m := Run(v, s, 0);
    var ds := Values(v, s[..m]);
    DigitsOfBytes(ds);
    var t := Encode(v, bin);
    assert t[..m] == Chars(v, ds) && t[m..] == Pads(end - m) == s[m..end];
    forall i | 0 <= i < end ensures t[i] == s[i] <==> s[i] >= 0 {
      if i < m {
        CharOfValue(v, s[i]);
        assert t[i] == t[..m][i];
      } else {
        assert t[i] == t[m..][i - m] == PAD;
        assert s[i] == s[m..end][i - m];
      }
    }
    assert |t| == end;
  }

  /** Four characters that are not ASCII: accepted, but not what the encoder would write. */
  lemma HighCharactersDoNotReprint()
    ensures var v, s := Variant(false, true), [-1, -1, -1, -1];
      var r := Decode(v, s, 3);
      r.Some? && r.value.1 == |s| && Encode(v, r.value.0) != s
  {
    hide BytesOf, DigitsOf, Encode;
    var v, s := Variant(false, true), [-1, -1, -1, -1];
    RunIs(v, s, 0, 4);
    assert s[4..4 + PadCount(v, 4)] == Pads(0);
    EncodeDecode(v, s, 3);
    assert s[..4] == s && s[0] < 0;
  }

  /** The three lengths of a last group, with '=' for the missing digits. */
  lemma EncodeGroups(urlsafe: bool, a: byte, b: byte, c: byte)
    ensures
      var v := Variant(urlsafe, true);
      && Encode(v, [a]) == [Char(v, a / 4), Char(v, a % 4 * 16), '=' as int, '=' as int]
      && Encode(v, [a, b]) == [Char(v, a / 4), Char(v, a % 4 * 16 + b / 16), Char(v, b % 16 * 4), '=' as int]
      && Encode(v, [a, b, c]) ==
         [Char(v, a / 4), Char(v, a % 4 * 16 + b / 16), Char(v, b % 16 * 4 + c / 64), Char(v, c % 64)]
  {
    hide Char;
  }

  /** Section 10 of RFC 4648: "f", "fo" and "foo" are "Zg==", "Zm8=" and "Zm9v". */
  lemma TestVectors()
    ensures
      var v, f, o := Variant(false, true), 'f' as int, 'o' as int;
      && Encode(v, [f]) == ['Z' as int, 'g' as int, '=' as int, '=' as int]
      && Encode(v, [f, o]) == ['Z' as int, 'm' as int, '8' as int, '=' as int]
      && Encode(v, [f, o, o]) == ['Z' as int, 'm' as int, '9' as int, 'v' as int]
  {
    hide Encode;
    EncodeGroups(false, 'f' as int, 'o' as int, 'o' as int);
  }

  // ---- ignored characters ----

  /** `strchr` on the ignore string, whose final zero is one of its characters. */
  predicate Skips(ignore: Option<Text>, c: char8) {
    ignore.Some? && (c in ignore.value || c == 0)
  }

  /** Where the digits end, ignored characters among them. */
  function DigitsEnd(v: Variant, ignore: Option<Text>, s: Text, at: nat): (end: nat)
    requires at <= |s|
    ensures at <= end <= |s|
    ensures forall j | at <= j < end :: Value(v, s[j]) < 64 || Skips(ignore, s[j])
    ensures end < |s| ==> Value(v, s[end]) == INVALID && !Skips(ignore, s[end])
    decreases |s| - at
  {
    if at == |s| || (Value(v, s[at]) == INVALID && !Skips(ignore, s[at])) then at
    else DigitsEnd(v, ignore, s, at + 1)
  }

  /** The digits of a text, everything else left out. */
  function DigitsIn(v: Variant, s: Text): (ds: Digits) {
    if s == [] then []
    else
      var d := Value(v, s[|s| - 1]);
      DigitsIn(v, s[..|s| - 1]) + if d == INVALID then [] else [d]
  }

  /** Where the padding ends, if all of it is there. */
  function PadsEnd(ignore: Option<Text>, s: Text, at: nat, count: nat): (end: Option<nat>)
    requires at <= |s|
    ensures end.Some? ==> at <= end.value <= |s|
    decreases |s| - at
  {
    if count == 0 then Some(at)
    else if at == |s| then None
    else if s[at] == PAD then PadsEnd(ignore, s, at + 1, count - 1)
    else if Skips(ignore, s[at]) then PadsEnd(ignore, s, at + 1, count)
    else None
  }

  /** The first character from `at` on that is not ignored. */
  function SkipEnd(ignore: Option<Text>, s: Text, at: nat): (end: nat)
    requires at <= |s|
    ensures at <= end <= |s|
    ensures forall j | at <= j < end :: Skips(ignore, s[j])
    ensures end < |s| ==> !Skips(ignore, s[end])
    decreases |s| - at
  {
    if at == |s| || !Skips(ignore, s[at]) then at else SkipEnd(ignore, s, at + 1)
  }

  /** The bytes and where the text of them ends, with characters to ignore on the way. */
  function DecodeIgnoring(v: Variant, ignore: Option<Text>, s: Text, maxLen: nat): (r: Option<(Bytes, nat)>)
    ensures r.Some? ==> r.value.1 <= |s| && |r.value.0| <= maxLen
  {
    var m := DigitsEnd(v, ignore, s, 0);
    var ds := DigitsIn(v, s[..m]);
    if ByteCount(|ds|) > maxLen || !CleanTail(ds) then None
    else
      var end := PadsEnd(ignore, s, m, PadCount(v, |ds|));
      if end.None? then None else Some((BytesOf(ds), SkipEnd(ignore, s, end.value)))
  }

  /** No digit is ignored. */
  ghost predicate Harmless(v: Variant, ignore: Option<Text>) {
    forall c | Skips(ignore, c) :: Value(v, c) == INVALID
  }

  function Stripped(ignore: Option<Text>, s: Text): (t: Text)
    ensures |t| <= |s|
  {
    if s == [] then []
    else Stripped(ignore, s[..|s| - 1]) + if Skips(ignore, s[|s| - 1]) then [] else [s[|s| - 1]]
  }

  lemma {:induction false} StrippedConcat(ignore: Option<Text>, s: Text, t: Text)
    ensures Stripped(ignore, s + t) == Stripped(ignore, s) + Stripped(ignore, t)
  {
    if t == [] {
      assert s + t == s;
    } else {
      StrippedConcat(ignore, s, t[..|t| - 1]);
      assert (s + t)[..|s + t| - 1] == s + t[..|t| - 1];
    }
  }

  lemma StrippedFirst(ignore: Option<Text>, s: Text)
    requires s != []
    ensures Stripped(ignore, s) == (if Skips(ignore, s[0]) then [] else [s[0]]) + Stripped(ignore, s[1..])
  {
    StrippedConcat(ignore, s[..1], s[1..]);
    assert s == s[..1] + s[1..] && s[..1][..0] == [];
  }

  lemma {:induction false} NothingStripped(s: Text)
    ensures Stripped(None, s) == s
  {
    if s != [] { NothingStripped(s[..|s| - 1]); }
  }

  lemma {:induction false} AllStripped(ignore: Option<Text>, s: Text)
    requires forall j | 0 <= j < |s| :: Skips(ignore, s[j])
    ensures Stripped(ignore, s) == []
  {
    if s != [] { AllStripped(ignore, s[..|s| - 1]); }
  }

  /** Among digits and ignored characters, stripping leaves the digits. */
  lemma {:induction false} StrippedDigits(v: Variant, ignore: Option<Text>, s: Text)
    requires Harmless(v, ignore) && forall j | 0 <= j < |s| :: Value(v, s[j]) < 64 || Skips(ignore, s[j])
    ensures forall j | 0 <= j < |Stripped(ignore, s)| :: Value(v, Stripped(ignore, s)[j]) < 64
    ensures Values(v, Stripped(ignore, s)) == DigitsIn(v, s)
  {
    hide Value, Skips;
    if s != [] { StrippedDigits(v, ignore, s[..|s| - 1]); }
  }

  /** The padding is there exactly when the stripped text starts with it. */
  lemma {:induction false} PadsEndIs(ignore: Option<Text>, s: Text, at: nat, count: nat)
    requires at <= |s| && (Skips(ignore, PAD) && at < |s| ==> !Skips(ignore, s[at]))
    ensures PadsEnd(ignore, s, at, count).Some? <==> StartsPadded(Stripped(ignore, s[at..]), count)
    decreases |s| - at
  {
    hide Skips, Stripped;
    if count == 0 {
    } else if at == |s| {
      AllStripped(ignore, s[at..]);
    } else {
      StrippedFirst(ignore, s[at..]);
      assert s[at..][1..] == s[at + 1..];
      if s[at] == PAD {
        PadsEndIs(ignore, s, at + 1, count - 1);
        PaddedFirst(Stripped(ignore, s[at + 1..]), count);
      } else if Skips(ignore, s[at]) {
        PadsEndIs(ignore, s, at + 1, count);
        assert Stripped(ignore, s[at..]) == Stripped(ignore, s[at + 1..]);
      } else {
        assert Stripped(ignore, s[at..])[0] != PAD;
      }
    }
  }

  lemma PaddedFirst(s: Text, n: nat)
    requires n > 0
    ensures StartsPadded([PAD] + s, n) <==> StartsPadded(s, n - 1)
  {
    if StartsPadded([PAD] + s, n) {
      forall j | 0 <= j < n - 1 ensures s[j] == PAD { assert ([PAD] + s)[j + 1] == PAD; }
    }
  }

  lemma {:induction false} PadsEndCounts(ignore: Option<Text>, s: Text, at: nat, count: nat)
    requires at <= |s| && PadsEnd(ignore, s, at, count).Some?
    requires Skips(ignore, PAD) && at < |s| ==> !Skips(ignore, s[at])
    ensures |Stripped(ignore, s[at..PadsEnd(ignore, s, at, count).value])| == count
    decreases |s| - at
  {
    hide Skips, Stripped;
    if count == 0 {
      AllStripped(ignore, s[at..at]);
    } else {
      PadsEndCounts(ignore, s, at + 1, if s[at] == PAD then count - 1 else count);
      var end := PadsEnd(ignore, s, at, count).value;
      StrippedFirst(ignore, s[at..end]);
      assert s[at..end][1..] == s[at + 1..end];
    }
  }

  /** Where the digits end in the stripped text. */
  lemma RunOfStripped(v: Variant, ignore: Option<Text>, s: Text)
    requires Harmless(v, ignore)
    ensures
      var m := DigitsEnd(v, ignore, s, 0);
      var head, tail := Stripped(ignore, s[..m]), Stripped(ignore, s[m..]);
      && Stripped(ignore, s) == head + tail && Run(v, head + tail, 0) == |head|
      && (forall j | 0 <= j < |head| :: Value(v, head[j]) < 64) && Values(v, head) == DigitsIn(v, s[..m])
  {
    hide Value, Skips, Values, DigitsIn;
    var m := DigitsEnd(v, ignore, s, 0);
    var head, tail := Stripped(ignore, s[..m]), Stripped(ignore, s[m..]);
    StrippedConcat(ignore, s[..m], s[m..]);
    assert s == s[..m] + s[m..];
    StrippedDigits(v, ignore, s[..m]);
    if m < |s| { StrippedFirst(ignore, s[m..]); }
    RunIs(v, head + tail, 0, |head|);
  }

  /** Ignoring characters is as if they were deleted first: the same bytes, and an end behind the
      same character and whatever is ignored after it. */
  ghost predicate LikeStripped(v: Variant, ignore: Option<Text>, s: Text, maxLen: nat) {
    var r, d := DecodeIgnoring(v, ignore, s, maxLen), Decode(v, Stripped(ignore, s), maxLen);
    && (r.Some? <==> d.Some?)
    && (r.Some? ==> r.value.0 == d.value.0 && |Stripped(ignore, s[..r.value.1])| == d.value.1)
    && (r.Some? && r.value.1 < |s| ==> !Skips(ignore, s[r.value.1]))
  }

  lemma HarmlessStrips(v: Variant, ignore: Option<Text>, s: Text, maxLen: nat)
    requires Harmless(v, ignore)
    ensures LikeStripped(v, ignore, s, maxLen)
  {
    hide Value, Skips, Values, DigitsIn, ByteCount, BytesOf, CleanTail, Decode, Run, PadCount;
    hide Stripped, Harmless, PadsEnd, SkipEnd, StartsPadded;
    var m := DigitsEnd(v, ignore, s, 0);
    var head, tail := Stripped(ignore, s[..m]), Stripped(ignore, s[m..]);
    RunOfStripped(v, ignore, s);
    DecodeSplit(v, head, tail, maxLen);
    PadsEndIs(ignore, s, m, PadCount(v, |head|));
    var end := PadsEnd(ignore, s, m, PadCount(v, |head|));
    if end.Some? {
      PadsEndCounts(ignore, s, m, PadCount(v, |head|));
      EndOfStripped(ignore, s, m, end.value, SkipEnd(ignore, s, end.value));
    }
  }

  /** A digit that is to be ignored still counts as a digit. */
  lemma DigitNotIgnored(v: Variant, ignore: Option<Text>, c: char8)
    requires Skips(ignore, c) && Value(v, c) < 64
    ensures !LikeStripped(v, ignore, [c, c, c, c], 3)
  {
    hide Value, Skips, BytesOf;
    var s := [c, c, c, c];
    AllStripped(ignore, s);
    assert DigitsEnd(v, ignore, s, 0) == 4;
    DigitsOfFour(v, c);
    assert s[..4] == s && PadCount(v, 4) == 0;
  }

  lemma DigitsOfFour(v: Variant, c: char8)
    requires Value(v, c) < 64
    ensures |DigitsIn(v, [c, c, c, c])| == 4
  {
    hide Value;
    var s := [c, c, c, c];
    assert s[..3] == [c, c, c] && [c, c, c][..2] == [c, c] && [c, c][..1] == [c];
    assert |DigitsIn(v, [c])| == 1 && |DigitsIn(v, [c, c])| == 2 && |DigitsIn(v, [c, c, c])| == 3;
  }

  /** It holds for every text exactly when no digit is ignored.  Ignoring the padding character is no
      exception: it then counts neither as padding nor, stripped, as a character. */
  lemma IgnoringIsStripping(v: Variant, ignore: Option<Text>)
    ensures Harmless(v, ignore) <==> forall s: Text, maxLen: nat :: LikeStripped(v, ignore, s, maxLen)
  {
    hide LikeStripped, Value, Skips;
    if Harmless(v, ignore) {
      forall s: Text, maxLen: nat ensures LikeStripped(v, ignore, s, maxLen) {
        HarmlessStrips(v, ignore, s, maxLen);
      }
    } else {
      var c :| Skips(ignore, c) && Value(v, c) != INVALID;
      DigitNotIgnored(v, ignore, c);
    }
  }

  lemma EndOfStripped(ignore: Option<Text>, s: Text, m: nat, e: nat, f: nat)
    requires m <= e <= f <= |s| && forall j | e <= j < f :: Skips(ignore, s[j])
    ensures |Stripped(ignore, s[..f])| == |Stripped(ignore, s[..m])| + |Stripped(ignore, s[m..e])|
  {
    hide Stripped, Skips;
    StrippedSplit(ignore, s, m, e);
    StrippedSplit(ignore, s, e, f);
    AllStripped(ignore, s[e..f]);
  }

  lemma StrippedSplit(ignore: Option<Text>, s: Text, m: nat, e: nat)
    requires m <= e <= |s|
    ensures |Stripped(ignore, s[..e])| == |Stripped(ignore, s[..m])| + |Stripped(ignore, s[m..e])|
  {
    hide Stripped;
    StrippedConcat(ignore, s[..m], s[m..e]);
    assert s[..m] + s[m..e] == s[..e];
  }

  /** Without an ignore string it is the plain decoder. */
  lemma IgnoringNothing(v: Variant, s: Text, maxLen: nat)
    ensures DecodeIgnoring(v, None, s, maxLen) == Decode(v, s, maxLen)
  {
    hide Value, BytesOf, CleanTail, Decode, DecodeIgnoring;
    HarmlessStrips(v, None, s, maxLen);
    NothingStripped(s);
    var r := DecodeIgnoring(v, None, s, maxLen);
    if r.Some? { NothingStripped(s[..r.value.1]); }
  }

  /** An encoding is read back with ignored characters strewn in anywhere, and the whole text is
      used up. */
  lemma DecodeStrewn(v: Variant, ignore: Option<Text>, bin: Bytes, s: Text, maxLen: nat)
    requires Harmless(v, ignore) && |bin| <= maxLen && Stripped(ignore, s) == Encode(v, bin)
    ensures DecodeIgnoring(v, ignore, s, maxLen) == Some((bin, |s|))
  {
    hide Value, Encode, Decode, DecodeIgnoring, Harmless, Skips, Stripped, DigitCount, PadCount;
    DecodeEncode(v, bin, [], maxLen);
    assert Encode(v, bin) + [] == Encode(v, bin);
    HarmlessStrips(v, ignore, s, maxLen);
    var end := DecodeIgnoring(v, ignore, s, maxLen).value.1;
    StrippedSplit(ignore, s, end, |s|);
    assert s[..|s|] == s && s[end..|s|] == s[end..];
    if end < |s| { StrippedFirst(ignore, s[end..]); }
  }
}
