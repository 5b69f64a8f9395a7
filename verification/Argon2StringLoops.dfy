/** The digit loops and the in-place decoder of argon2-encoding.c, proved against the printer and
    parser of module Argon2String. */
module Argon2StringLoops {
  import opened Words
  import opened LittleEndian
  import opened Errors
  import opened Base64
  import opened Base64Loops
  import opened Argon2
  import opened Argon2String

  lemma {:induction false} ValueGrows(s: Text, i: nat, n: nat)
    requires i <= n <= |s| && forall j | 0 <= j < n :: IsDigit(s[j])
    ensures DecimalValue(s[..i]) <= DecimalValue(s[..n])
    decreases n
  {
    if i < n {
      ValueGrows(s, i, n - 1);
      assert s[..n][..n - 1] == s[..n - 1];
    }
  }

  lemma ValueStep(s: Text, i: nat)
    requires i < |s| && forall j | 0 <= j <= i :: IsDigit(s[j])
    ensures DecimalValue(s[..i + 1]) == 10 * DecimalValue(s[..i]) + DigitValue(s[i])
  {
    assert s[..i + 1][..i] == s[..i];
  }

  /** `decode_decimal`: overflow is noticed before it happens. */
  method DecodeDecimal(s: Text) returns (r: Option<(nat, Text)>)
    ensures r == Number(s)
  {
    hide DecimalValue, DigitRun;
    ghost var n := DigitRun(s);
    var acc: nat, i: nat := 0, 0;
    ValueOfNothing(s);
    while i < |s| && '0' as int <= s[i] <= '9' as int
      invariant i <= n && acc == DecimalValue(s[..i]) && acc <= ULONG_MAX
    {
      var c: nat := s[i] - '0' as int;
      ValueStep(s, i);
      ValueGrows(s, i + 1, n);
      if acc > ULONG_MAX / 10 { return None; }
      acc := acc * 10;
      if c > ULONG_MAX - acc { return None; }
      acc := acc + c;
      i := i + 1;
    }
    if i == 0 || (s[0] == '0' as int && i != 1) { return None; }
    r := Some((acc, s[i..]));
  }

  lemma ValueOfNothing(s: Text)
    ensures DecimalValue(s[..0]) == 0
  {}

  function Pow10(n: nat): (p: nat)
    ensures p > 0
  {
    if n == 0 then 1 else 10 * Pow10(n - 1)
  }

  /** `u32_to_string`: ten characters are enough, filled from the end. */
  method U32ToString(x: u32) returns (s: Text)
    ensures s == Decimal(x)
  {
    hide Decimal;
    var tmp := new char8[10];
    var i: nat, v: nat := 9, x / 10;
    tmp[9] := x % 10 + '0' as int;
    DecimalStep(x);
    assert tmp[9..] == ['0' as int + x % 10];
    TenDigits();
    while v != 0 && i != 0
      invariant i <= 9 && v < Pow10(i)
      invariant Decimal(x) == (if v == 0 then [] else Decimal(v)) + tmp[i..]
    {
      ghost var before := tmp[i..];
      i := i - 1;
      tmp[i] := v % 10 + '0' as int;
      assert tmp[i..] == ['0' as int + v % 10] + before;
      DecimalStep(v);
      v := v / 10;
    }
    s := tmp[i..];
  }

  lemma DecimalStep(x: nat)
    ensures Decimal(x) == (if x / 10 == 0 then [] else Decimal(x / 10)) + ['0' as int + x % 10]
  {}

  lemma TenDigits()
    ensures Pow10(9) == 1_000_000_000
  {}

  // ---- encoding ----

  /** The macro SS: copy a piece behind what is there, if it fits with a final zero.  `rest` is what the
      whole text `all` still lacks. */
  method Put(dst: array<char8>, pos: nat, piece: Text, ghost rest: Text, ghost all: Text) returns (ok: bool, next: nat)
    requires pos <= dst.Length && dst[..pos] + (piece + rest) == all
    modifies dst
    ensures ok <==> pos + |piece| < dst.Length
    ensures ok ==> next == pos + |piece| && dst[..next] + rest == all && dst[next] == 0
  {
    if |piece| >= dst.Length - pos { return false, pos; }
    next := pos + |piece|;
    for i := 0 to |piece|
      invariant dst[..pos] == old(dst[..pos]) && dst[pos..pos + i] == piece[..i]
    {
      dst[pos + i] := piece[i];
    }
    dst[next] := 0;
    ok := true;
    assert dst[..next] == old(dst[..pos]) + piece;
    assert dst[..next] + rest == old(dst[..pos]) + (piece + rest);
  }

  /** The macro SB: the encoding is written in place, up to zeros at the end of the buffer. */
  method PutBinary(dst: array<char8>, pos: nat, bin: Bytes, ghost rest: Text, ghost all: Text)
    returns (ok: bool, next: nat)
    requires pos < dst.Length && dst[..pos] + (Encode(Plain(), bin) + rest) == all
    modifies dst
    ensures ok <==> pos + |Encode(Plain(), bin)| < dst.Length
    ensures ok ==> next == pos + |Encode(Plain(), bin)| && dst[..next] + rest == all
    ensures ok ==> forall j | next <= j < dst.Length :: dst[j] == 0
  {
    hide Encode;
    var n := EncodedLength(Plain(), |bin|);
    LengthOfEncode(bin);
    if dst.Length - pos <= n { return false, pos; }
    var part := new char8[dst.Length - pos];
    BinToBase64(part, bin, Plain());
    var code := part[..];
    for i := 0 to |code|
      invariant dst[..pos] == old(dst[..pos]) && dst[pos..pos + i] == code[..i]
    {
      dst[pos + i] := code[i];
    }
    ok, next := true, pos + n;
    assert dst[pos..] == code;
    assert dst[..next] == old(dst[..pos]) + code[..n];
    assert dst[..next] + rest == old(dst[..pos]) + (Encode(Plain(), bin) + rest);
    forall j | next <= j < dst.Length ensures dst[j] == 0 {
      assert dst[j] == dst[pos..][j - pos] == code[j - pos];
    }
  }

  lemma LengthOfEncode(bin: Bytes)
    ensures |Encode(Plain(), bin)| == DigitCount(|bin|) + PadCount(Plain(), DigitCount(|bin|))
  {}

  /** A fixed piece and the macro SX. */
  method PutNumber(dst: array<char8>, pos: nat, lit: Text, x: u32, ghost rest: Text, ghost all: Text)
    returns (ok: bool, next: nat)
    requires pos <= dst.Length && dst[..pos] + PrintCost(lit, x, rest) == all
    modifies dst
    ensures ok <==> pos + |lit| + |Decimal(x)| < dst.Length
    ensures ok ==> next == pos + |lit| + |Decimal(x)| && dst[..next] + rest == all
  {
    hide Decimal;
    ok, next := Put(dst, pos, lit, Decimal(x) + rest, all);
    if !ok { return; }
    var digits := U32ToString(x);
    ok, next := Put(dst, next, digits, rest, all);
  }

  /** The costs and lanes, behind the version. */
  method PutCosts(dst: array<char8>, pos: nat, ctx: Context, ghost rest: Text, ghost all: Text)
    returns (ok: bool, next: nat)
    requires rest == PrintBinary(ctx.salt, PrintBinary(ctx.out, []))
    requires pos <= dst.Length && dst[..pos] + PrintBody(ctx) == all
    modifies dst
    ensures
      var n := pos + 9 + |Decimal(ctx.memory)| + |Decimal(ctx.time)| + |Decimal(ctx.lanes)|;
      (ok <==> n < dst.Length) && (ok ==> next == n && dst[..next] + rest == all)
  {
    hide Decimal, Encode, PrintCost, PrintBinary, Ascii;
    ghost var lanes := PrintCost(Ascii(",p="), ctx.lanes, rest);
    ok, next := PutNumber(dst, pos, Ascii("$m="), ctx.memory, PrintCost(Ascii(",t="), ctx.time, lanes), all);
    if !ok { return; }
    ok, next := PutNumber(dst, next, Ascii(",t="), ctx.time, lanes, all);
    if !ok { return; }
    ok, next := PutNumber(dst, next, Ascii(",p="), ctx.lanes, rest, all);
  }

  lemma PrintStarts(kind: Kind, ctx: Context)
    ensures (Prefix(kind) + Ascii("$v=")) + (Decimal(VERSION) + PrintBody(ctx)) == Print(kind, ctx)
  {
    hide Decimal, PrintBody, Prefix;
  }

  /** `argon2_encode_string`: piece by piece, each checked against the room that is left in the buffer;
      what was written ends in zeros. */
  method EncodeContext(dst: array<char8>, kind: Kind, ctx: Context) returns (r: Printed)
    modifies dst
    ensures r == EncodeString(kind, ctx, dst.Length)
    ensures r.Written? ==> |r.text| < dst.Length && dst[..|r.text|] == r.text
    ensures r.Written? ==> forall j | |r.text| <= j < dst.Length :: dst[j] == 0
  {
    hide Decimal, Encode, Validate, PrintBody, Ascii, Print, Prefix;
    ghost var all, out := Print(kind, ctx), PrintBinary(ctx.out, []);
    PrintStarts(kind, ctx);
    var piece := Prefix(kind) + Ascii("$v=");
    assert dst[..0] + (piece + (Decimal(VERSION) + PrintBody(ctx))) == all;
    var ok, pos := Put(dst, 0, piece, Decimal(VERSION) + PrintBody(ctx), all);
    if !ok { return Failed(EncodingFail); }
    if Validate(ctx) != Success { return Failed(Validate(ctx)); }
    var digits := U32ToString(VERSION);
    ok, pos := Put(dst, pos, digits, PrintBody(ctx), all);
    if !ok { return Failed(EncodingFail); }
    ok, pos := PutCosts(dst, pos, ctx, PrintBinary(ctx.salt, out), all);
    if !ok { return Failed(EncodingFail); }
    ok, pos := Put(dst, pos, Ascii("$"), Encode(Plain(), ctx.salt) + out, all);
    if !ok { return Failed(EncodingFail); }
    ok, pos := PutBinary(dst, pos, ctx.salt, out, all);
    if !ok { return Misuse; }
    ok, pos := Put(dst, pos, Ascii("$"), Encode(Plain(), ctx.out) + [], all);
    if !ok { return Failed(EncodingFail); }
    ok, pos := PutBinary(dst, pos, ctx.out, [], all);
    if !ok { return Misuse; }
    assert dst[..pos] == dst[..pos] + [];
    r := Written(dst[..pos]);
  }

  // ---- decoding ----

  /** A fixed piece and the number after it. */
  method Field(s: Text, lit: Text) returns (ok: bool, x: u32, rest: Text)
    ensures ok == ParseCost(s, lit).Some?
    ensures ok ==> ParseCost(s, lit) == Some((x, rest))
  {
    hide Number;
    if !(lit <= s) { return false, 0, s; }
    var r := DecodeDecimal(s[|lit|..]);
    if r.None? || r.value.0 > TWO32 - 1 { return false, 0, s; }
    return true, r.value.0, r.value.1;
  }

  /** A dollar sign and the binary field after it. */
  method BinaryField(buf: array<byte>, s: Text) returns (ok: bool, len: nat, rest: Text)
    modifies buf
    ensures ok == ParseBinary(s, buf.Length).Some? && len <= buf.Length
    ensures ok ==> ParseBinary(s, buf.Length) == Some((buf[..len], rest))
  {
    hide Decode, DecodeIgnoring;
    if !(Ascii("$") <= s) { return false, 0, s; }
    IgnoringNothing(Plain(), s[1..], buf.Length);
    var r := Base64ToBin(buf, s[1..], None, Plain(), false);
    if r.None? || r.value.0 > TWO32 - 1 { return false, 0, s; }
    return true, r.value.0, s[1..][r.value.1..];
  }

  /** The members of `argon2_context` that a hash string fills. */
  class ContextStruct {
    var memory: u32
    var time: u32
    var lanes: u32
    var threads: u32
    var saltLen: nat
    var outLen: nat
    const salt: array<byte>
    const out: array<byte>

    ghost predicate Valid()
      reads this
    {
      saltLen <= salt.Length && outLen <= out.Length && salt != out
    }

    function Contents(): Context
      requires Valid()
      reads this, salt, out
    {
      Context(memory, time, lanes, threads, salt[..saltLen], out[..outLen])
    }

    /** `argon2_decode_string`; on entry the lengths say how much room there is. */
    method Decode(kind: Kind, s: Text) returns (code: Code)
      requires Valid() && saltLen == salt.Length && outLen == out.Length
      modifies this, salt, out
      ensures Valid()
      ensures DecodeString(kind, s, salt.Length, out.Length) ==
              if code == Success then Accepted(Contents()) else Refused(code)
    {
      hide ParseCost, ParseBinary, Validate;
      saltLen, outLen := 0, 0;
      var prefix := Prefix(kind);
      if !(prefix <= s) { return DecodingFail; }
      var ok, version, body := Field(s[|prefix|..], Ascii("$v="));
      if !ok { return DecodingFail; }
      if version != VERSION { return IncorrectType; }
      var rest;
      ok, rest := DecodeBody(body);
      if !ok { return DecodingFail; }
      if Validate(Contents()) != Success { return Validate(Contents()); }
      code := if rest == [] then Success else DecodingFail;
    }

    method DecodeBody(s: Text) returns (ok: bool, rest: Text)
      requires Valid()
      modifies this, salt, out
      ensures Valid()
      ensures ok == ParseBody(s, salt.Length, out.Length).Some?
      ensures ok ==> ParseBody(s, salt.Length, out.Length) == Some((Contents(), rest))
    {
      hide ParseCost, ParseBinary;
      ok, memory, rest := Field(s, Ascii("$m="));
      if !ok { return; }
      ok, time, rest := Field(rest, Ascii(",t="));
      if !ok { return; }
      ok, lanes, rest := Field(rest, Ascii(",p="));
      if !ok { return; }
      threads := lanes;
      ok, saltLen, rest := BinaryField(salt, rest);
      if !ok { return; }
      ok, outLen, rest := BinaryField(out, rest);
    }
  }
}
