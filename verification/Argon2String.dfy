/** The Argon2 hash strings of argon2-encoding.c in the bundled libsodium: a printer and a parser
    that walks a cursor over the text.  The rest of the text is what the cursor points at. */
module Argon2String {
  import opened Words
  import opened LittleEndian
  import opened Errors
  import opened Base64
  import opened Argon2

  const VERSION: nat := 0x13
  const ULONG_MAX: nat := TWO64 - 1
  const MIN_OUTLEN: nat := 16
  const MIN_SALT_LENGTH: nat := 8

  datatype Code =
    | Success | OutputTooShort | SaltTooShort | LanesTooFew | LanesTooMany | MemoryTooLittle | TimeTooSmall
    | ThreadsTooFew | ThreadsTooMany | DecodingFail | EncodingFail | IncorrectType | VerifyMismatch | DecodingLengthFail
    | PwdTooLong | OutputTooLong | SaltTooLong

  /** What the string carries, and the thread count, which it does not. */
  datatype Context = Context(memory: u32, time: u32, lanes: u32, threads: u32, salt: Bytes, out: Bytes)

  /** `argon2_validate_inputs` on those members; the upper bounds that no 32-bit value exceeds are
      left out. */
  function Validate(ctx: Context): Code {
    if |ctx.out| < MIN_OUTLEN then OutputTooShort
    else if |ctx.salt| < MIN_SALT_LENGTH then SaltTooShort
    else if ctx.lanes < 1 then LanesTooFew
    else if ctx.lanes > MAX_LANES then LanesTooMany
    else if ctx.memory < 2 * SYNC_POINTS || ctx.memory < 8 * ctx.lanes then MemoryTooLittle
    else if ctx.time < 1 then TimeTooSmall
    else if ctx.threads < 1 then ThreadsTooFew
    else if ctx.threads > MAX_LANES then ThreadsTooMany
    else Success
  }

  /** The first check that fails decides, in this order. */
  lemma ValidateIs(ctx: Context)
    ensures Validate(ctx) == Success <==>
      && |ctx.out| >= 16 && |ctx.salt| >= 8 && 1 <= ctx.lanes <= 0xFF_FFFF && 1 <= ctx.threads <= 0xFF_FFFF
      && ctx.memory >= 8 * ctx.lanes && ctx.time >= 1
    ensures Validate(ctx) == OutputTooShort <==> |ctx.out| < 16
    ensures Validate(ctx) == SaltTooShort <==> |ctx.salt| < 8 && |ctx.out| >= 16
    ensures ctx.lanes == 0 && |ctx.out| >= 16 && |ctx.salt| >= 8 ==> Validate(ctx) == LanesTooFew
  {}

  // ---- literals ----

  function Ascii(s: string): (t: Text)
    requires forall i | 0 <= i < |s| :: s[i] < 128 as char
    ensures |t| == |s|
  {
    seq(|s|, i requires 0 <= i < |s| => s[i] as int)
  }

  predicate SevenBit(s: Text) {
    forall i | 0 <= i < |s| :: s[i] >= 0
  }

  lemma SevenBitConcat(a: Text, b: Text)
    ensures SevenBit(a + b) <==> SevenBit(a) && SevenBit(b)
  {
    if SevenBit(a + b) {
      assert forall i | 0 <= i < |a| :: a[i] == (a + b)[i];
      assert forall i | 0 <= i < |b| :: b[i] == (a + b)[|a| + i];
    }
  }

  /** Skip a fixed prefix. */
  function Skip(s: Text, lit: Text): Option<Text> {
    if lit <= s then Some(s[|lit|..]) else None
  }

  lemma SkipPrinted(lit: Text, rest: Text)
    ensures Skip(lit + rest, lit) == Some(rest)
  {}

  // ---- decimal numbers ----

  predicate IsDigit(c: char8) {
    '0' as int <= c <= '9' as int
  }

  /** Without leading zeros. */
  function Decimal(x: nat): (s: Text)
    ensures |s| > 0 && forall i | 0 <= i < |s| :: IsDigit(s[i])
    ensures s[0] == '0' as int ==> |s| == 1
  {
    if x < 10 then ['0' as int + x] else Decimal(x / 10) + ['0' as int + x % 10]
  }

  function DigitValue(c: char8): (d: nat)
    requires IsDigit(c)
    ensures d < 10
  {
    c - '0' as int
  }

  function DecimalValue(s: Text): nat
    requires forall i | 0 <= i < |s| :: IsDigit(s[i])
  {
    if s == [] then 0 else 10 * DecimalValue(s[..|s| - 1]) + DigitValue(s[|s| - 1])
  }

  lemma {:induction false} ValueOfDecimal(x: nat)
    ensures DecimalValue(Decimal(x)) == x
  {
    if x >= 10 {
      ValueOfDecimal(x / 10);
      var s := Decimal(x);
      assert s[..|s| - 1] == Decimal(x / 10);
    } else {
      assert Decimal(x)[..0] == [];
    }
  }

  lemma {:induction false} DecimalOfValue(s: Text)
    requires |s| > 0 && (forall i | 0 <= i < |s| :: IsDigit(s[i])) && (s[0] == '0' as int ==> |s| == 1)
    ensures Decimal(DecimalValue(s)) == s
    ensures s[0] != '0' as int ==> DecimalValue(s) > 0
    decreases |s|
  {
    hide Decimal;
    var init, last := s[..|s| - 1], s[|s| - 1];
    assert s == init + [last];
    if |s| == 1 {
      OneDigit(last);
    } else {
      DecimalOfValue(init);
      DecimalAppend(DecimalValue(init), last);
    }
  }

  lemma OneDigit(c: char8)
    requires IsDigit(c)
    ensures Decimal(DigitValue(c)) == [c]
  {}

  lemma DecimalAppend(x: nat, c: char8)
    requires x > 0 && IsDigit(c)
    ensures Decimal(10 * x + DigitValue(c)) == Decimal(x) + [c]
  {
    ModUnique(10 * x + DigitValue(c), 10, x, DigitValue(c));
  }

  function DigitRun(s: Text): (n: nat)
    ensures n <= |s| && (forall i | 0 <= i < n :: IsDigit(s[i])) && (n < |s| ==> !IsDigit(s[n]))
  {
    if s == [] || !IsDigit(s[0]) then 0 else 1 + DigitRun(s[1..])
  }

  lemma {:induction false} DigitRunIs(s: Text, n: nat)
    requires n <= |s| && (forall i | 0 <= i < n :: IsDigit(s[i])) && (n < |s| ==> !IsDigit(s[n]))
    ensures DigitRun(s) == n
    decreases n
  {
    if n > 0 { DigitRunIs(s[1..], n - 1); }
  }

  /** `decode_decimal`: no digits, leading zeros and numbers above `ULONG_MAX` are refused. */
  function Number(s: Text): (r: Option<(nat, Text)>)
    ensures r.Some? ==> r.value.0 <= ULONG_MAX
  {
    var n := DigitRun(s);
    if n == 0 || (s[0] == '0' as int && n != 1) || DecimalValue(s[..n]) > ULONG_MAX then None
    else Some((DecimalValue(s[..n]), s[n..]))
  }

  /** Refused exactly without digits, with a leading zero before others, or from 2^64 on. */
  lemma NumberIs(s: Text, n: nat)
    requires n <= |s| && (forall i | 0 <= i < n :: IsDigit(s[i])) && (n < |s| ==> !IsDigit(s[n]))
    ensures Number(s).None? <==>
      n == 0 || (n > 1 && s[0] == '0' as int) || DecimalValue(s[..n]) >= 0x1_0000_0000_0000_0000
    ensures Number(s).Some? ==> Number(s).value == (DecimalValue(s[..n]), s[n..])
  {
    hide DecimalValue;
    DigitRunIs(s, n);
  }

  function Number32(s: Text): (r: Option<(u32, Text)>) {
    var r := Number(s);
    if r.None? || r.value.0 >= TWO32 then None else Some((r.value.0, r.value.1))
  }

  lemma NumberPrinted(x: u32, rest: Text)
    requires rest != [] && !IsDigit(rest[0])
    ensures Number32(Decimal(x) + rest) == Some((x, rest))
  {
    hide Decimal, DecimalValue, DigitRun;
    var s, d := Decimal(x) + rest, Decimal(x);
    assert s[..|d|] == d && s[|d|..] == rest;
    forall i | 0 <= i < |d| ensures IsDigit(s[i]) { assert s[i] == d[i]; }
    DigitRunIs(s, |d|);
    ValueOfDecimal(x);
  }

  lemma NumberReprints(s: Text)
    requires Number32(s).Some?
    ensures var (x, rest) := Number32(s).value; s == Decimal(x) + rest
  {
    hide Decimal, DecimalValue, DigitRun;
    var n := DigitRun(s);
    DecimalOfValue(s[..n]);
    assert s == s[..n] + s[n..];
  }

  // ---- binary fields ----

  function Plain(): Variant {
    Variant(false, false)
  }

  function Binary(s: Text, maxLen: nat): (r: Option<(Bytes, Text)>) {
    var r := Decode(Plain(), s, maxLen);
    if r.None? || |r.value.0| >= TWO32 then None else Some((r.value.0, s[r.value.1..]))
  }

  lemma BinaryPrinted(bin: Bytes, rest: Text, maxLen: nat)
    requires |bin| <= maxLen && |bin| < TWO32 && (rest != [] ==> rest[0] == '$' as int)
    ensures Binary(Encode(Plain(), bin) + rest, maxLen) == Some((bin, rest))
  {
    hide Decode, Encode;
    DecodeEncode(Plain(), bin, rest, maxLen);
    assert (Encode(Plain(), bin) + rest)[|Encode(Plain(), bin)|..] == rest;
  }

  lemma BinaryReprints(s: Text, maxLen: nat)
    requires Binary(s, maxLen).Some? && SevenBit(s)
    ensures var (bin, rest) := Binary(s, maxLen).value; s == Encode(Plain(), bin) + rest
  {
    hide Decode, Encode;
    EncodeDecode(Plain(), s, maxLen);
    var end := Decode(Plain(), s, maxLen).value.1;
    assert s == s[..end] + s[end..];
  }

  // ---- the parser, field group by field group ----

  function Prefix(kind: Kind): Text {
    if kind == Argon2id then Ascii("$argon2id") else Ascii("$argon2i")
  }

  function ParseCost(s: Text, lit: Text): (r: Option<(u32, Text)>) {
    var s1 := Skip(s, lit);
    if s1.None? then None else Number32(s1.value)
  }

  function ParseVersion(kind: Kind, s: Text): (r: Option<(u32, Text)>) {
    var s1 := Skip(s, Prefix(kind));
    if s1.None? then None else ParseCost(s1.value, Ascii("$v="))
  }

  function ParseBinary(s: Text, maxLen: nat): (r: Option<(Bytes, Text)>) {
    var s1 := Skip(s, Ascii("$"));
    if s1.None? then None else Binary(s1.value, maxLen)
  }

  /** Costs and lanes, salt and output; the thread count is set to the lanes. */
  function ParseBody(s: Text, maxSalt: nat, maxOut: nat): (r: Option<(Context, Text)>) {
    var m := ParseCost(s, Ascii("$m="));
    if m.None? then None else
    var t := ParseCost(m.value.1, Ascii(",t="));
    if t.None? then None else
    var p := ParseCost(t.value.1, Ascii(",p="));
    if p.None? then None else
    var salt := ParseBinary(p.value.1, maxSalt);
    if salt.None? then None else
    var out := ParseBinary(salt.value.1, maxOut);
    if out.None? then None else
    Some((Context(m.value.0, t.value.0, p.value.0, p.value.0, salt.value.0, out.value.0), out.value.1))
  }

  datatype Parsed = Accepted(ctx: Context) | Refused(code: Code)

  /** `argon2_decode_string` for a type that is one of the two. */
  function DecodeString(kind: Kind, s: Text, maxSalt: nat, maxOut: nat): (r: Parsed) {
    var version := ParseVersion(kind, s);
    if version.None? then Refused(DecodingFail) else
    if version.value.0 != VERSION then Refused(IncorrectType) else
    var body := ParseBody(version.value.1, maxSalt, maxOut);
    if body.None? then Refused(DecodingFail) else
    var ctx := body.value.0;
    if Validate(ctx) != Success then Refused(Validate(ctx))
    else if body.value.1 != [] then Refused(DecodingFail)
    else Accepted(ctx)
  }

  // ---- the printer ----

  function PrintCost(lit: Text, x: u32, rest: Text): Text {
    lit + (Decimal(x) + rest)
  }

  function PrintBinary(bin: Bytes, rest: Text): Text {
    Ascii("$") + (Encode(Plain(), bin) + rest)
  }

  function PrintBody(ctx: Context): Text {
    PrintCost(Ascii("$m="), ctx.memory, PrintCost(Ascii(",t="), ctx.time, PrintCost(Ascii(",p="), ctx.lanes,
      PrintBinary(ctx.salt, PrintBinary(ctx.out, [])))))
  }

  function Print(kind: Kind, ctx: Context): Text {
    Prefix(kind) + PrintCost(Ascii("$v="), VERSION, PrintBody(ctx))
  }

  /** The text as a whole. */
  lemma PrintIs(kind: Kind, ctx: Context)
    ensures
      var hash := Encode(Plain(), ctx.salt) + (Ascii("$") + Encode(Plain(), ctx.out));
      var lanes := Decimal(ctx.lanes) + (Ascii("$") + hash);
      var time := Decimal(ctx.time) + (Ascii(",p=") + lanes);
      var memory := Decimal(ctx.memory) + (Ascii(",t=") + time);
      Print(kind, ctx) == Ascii(if kind == Argon2id then "$argon2id$v=19$m=" else "$argon2i$v=19$m=") + memory
  {
    hide Encode, Decimal, Ascii;
    assert Encode(Plain(), ctx.out) + [] == Encode(Plain(), ctx.out);
    var time := Decimal(ctx.time) + PrintCost(Ascii(",p="), ctx.lanes, PrintBinary(ctx.salt, PrintBinary(ctx.out, [])));
    VersionText(kind, Decimal(ctx.memory) + (Ascii(",t=") + time));
  }

  lemma VersionText(kind: Kind, rest: Text)
    ensures Prefix(kind) + (Ascii("$v=") + (Decimal(VERSION) + (Ascii("$m=") + rest))) ==
            Ascii(if kind == Argon2id then "$argon2id$v=19$m=" else "$argon2i$v=19$m=") + rest
  {
    hide Decimal, Ascii;
    VersionDigits();
    Heading(kind);
    Regroup(Prefix(kind), Ascii("$v="), Decimal(VERSION), Ascii("$m="), rest);
  }

  lemma VersionDigits()
    ensures Decimal(VERSION) == Ascii("19")
  {
    assert Decimal(1) == ['1' as int];
  }

  lemma Heading(kind: Kind)
    ensures Prefix(kind) + Ascii("$v=") + Ascii("19") + Ascii("$m=") ==
            Ascii(if kind == Argon2id then "$argon2id$v=19$m=" else "$argon2i$v=19$m=")
  {}

  lemma Regroup(a: Text, b: Text, c: Text, d: Text, e: Text)
    ensures a + (b + (c + (d + e))) == a + b + c + d + e
  {}

  datatype Printed = Written(text: Text) | Failed(code: Code) | Misuse

  /** `argon2_encode_string` into a buffer of `room` characters: a fixed piece or number that does
      not fit is an error, a binary field that does not fit aborts the program. */
  function EncodeString(kind: Kind, ctx: Context, room: nat): (r: Printed) {
    var head := |Prefix(kind)| + 3;
    var costs :=
      head + |Decimal(VERSION)| + 3 + |Decimal(ctx.memory)| + 3 + |Decimal(ctx.time)| + 3 + |Decimal(ctx.lanes)| + 1;
    var salted := costs + |Encode(Plain(), ctx.salt)|;
    if head >= room then Failed(EncodingFail)
    else if Validate(ctx) != Success then Failed(Validate(ctx))
    else if costs >= room then Failed(EncodingFail)
    else if salted >= room then Misuse
    else if salted + 1 >= room then Failed(EncodingFail)
    else if salted + 1 + |Encode(Plain(), ctx.out)| >= room then Misuse
    else Written(Print(kind, ctx))
  }

  /** It is written exactly when the members are valid and the text fits with its final zero. */
  lemma WrittenIff(kind: Kind, ctx: Context, room: nat)
    ensures EncodeString(kind, ctx, room).Written? <==> Validate(ctx) == Success && |Print(kind, ctx)| < room
  {
    hide Decimal, Encode, Validate;
  }

  // ---- round trips ----

  lemma CostPrinted(lit: Text, x: u32, rest: Text)
    requires rest != [] && !IsDigit(rest[0])
    ensures ParseCost(PrintCost(lit, x, rest), lit) == Some((x, rest))
  {
    hide Number32, Decimal, Skip;
    SkipPrinted(lit, Decimal(x) + rest);
    NumberPrinted(x, rest);
  }

  /** A string of another version is refused as such, whatever follows. */
  lemma OtherVersionRefused(kind: Kind, version: u32, rest: Text, maxSalt: nat, maxOut: nat)
    requires version != 19 && rest != [] && !IsDigit(rest[0])
    ensures DecodeString(kind, Prefix(kind) + PrintCost(Ascii("$v="), version, rest), maxSalt, maxOut) ==
            Refused(IncorrectType)
  {
    hide ParseBody, Decimal, Number32, Skip, Ascii;
    SkipPrinted(Prefix(kind), PrintCost(Ascii("$v="), version, rest));
    CostPrinted(Ascii("$v="), version, rest);
  }

  lemma BinaryFieldPrinted(bin: Bytes, rest: Text, maxLen: nat)
    requires |bin| <= maxLen && |bin| < TWO32 && (rest != [] ==> rest[0] == '$' as int)
    ensures ParseBinary(PrintBinary(bin, rest), maxLen) == Some((bin, rest))
  {
    hide Binary, Encode, Skip;
    SkipPrinted(Ascii("$"), Encode(Plain(), bin) + rest);
    BinaryPrinted(bin, rest, maxLen);
  }

  lemma FieldStarts(lit: Text, x: u32, bin: Bytes, rest: Text)
    ensures lit != [] ==> PrintCost(lit, x, rest) != [] && PrintCost(lit, x, rest)[0] == lit[0]
    ensures PrintBinary(bin, rest) != [] && PrintBinary(bin, rest)[0] == '$' as int
  {
    hide Decimal, Encode;
  }

  predicate Printable(ctx: Context, maxSalt: nat, maxOut: nat) {
    |ctx.salt| <= maxSalt && |ctx.out| <= maxOut && |ctx.salt| < TWO32 && |ctx.out| < TWO32
  }

  lemma BodyPrinted(ctx: Context, maxSalt: nat, maxOut: nat)
    requires Printable(ctx, maxSalt, maxOut)
    ensures ParseBody(PrintBody(ctx), maxSalt, maxOut) == Some((ctx.(threads := ctx.lanes), []))
  {
    hide ParseCost, PrintCost, ParseBinary, PrintBinary;
    var out := PrintBinary(ctx.out, []);
    var salt := PrintBinary(ctx.salt, out);
    var lanes := PrintCost(Ascii(",p="), ctx.lanes, salt);
    var time := PrintCost(Ascii(",t="), ctx.time, lanes);
    FieldStarts([], 0, ctx.out, []);
    FieldStarts(Ascii(",p="), ctx.lanes, ctx.salt, out);
    FieldStarts(Ascii(",p="), ctx.lanes, [], salt);
    FieldStarts(Ascii(",t="), ctx.time, [], lanes);
    BinaryFieldPrinted(ctx.out, [], maxOut);
    BinaryFieldPrinted(ctx.salt, out, maxSalt);
    CostPrinted(Ascii(",p="), ctx.lanes, salt);
    CostPrinted(Ascii(",t="), ctx.time, lanes);
    CostPrinted(Ascii("$m="), ctx.memory, time);
  }

  /** Parsing what was printed recovers costs, lanes, salt and output. */
  lemma DecodePrinted(kind: Kind, ctx: Context, maxSalt: nat, maxOut: nat)
    requires Validate(ctx) == Success && Printable(ctx, maxSalt, maxOut)
    ensures DecodeString(kind, Print(kind, ctx), maxSalt, maxOut) == Accepted(ctx.(threads := ctx.lanes))
  {
    hide ParseCost, PrintCost, ParseBody, PrintBody, Skip;
    BodyStarts(ctx);
    VersionPrinted(kind, PrintBody(ctx));
    BodyPrinted(ctx, maxSalt, maxOut);
  }

  lemma BodyStarts(ctx: Context)
    ensures PrintBody(ctx) != [] && PrintBody(ctx)[0] == '$' as int
  {
    hide PrintCost, PrintBinary;
    FieldStarts(Ascii("$m="), ctx.memory, [], PrintCost(Ascii(",t="), ctx.time, PrintCost(Ascii(",p="), ctx.lanes,
      PrintBinary(ctx.salt, PrintBinary(ctx.out, [])))));
  }

  lemma VersionPrinted(kind: Kind, rest: Text)
    requires rest != [] && rest[0] == '$' as int
    ensures ParseVersion(kind, Prefix(kind) + PrintCost(Ascii("$v="), VERSION, rest)) == Some((VERSION, rest))
  {
    hide ParseCost, PrintCost, Skip;
    SkipPrinted(Prefix(kind), PrintCost(Ascii("$v="), VERSION, rest));
    CostPrinted(Ascii("$v="), VERSION, rest);
  }

  /** And the string is refused under the other type, though one name is a prefix of the other. */
  lemma OtherTypeRefused(kind: Kind, other: Kind, ctx: Context, maxSalt: nat, maxOut: nat)
    requires kind != other
    ensures DecodeString(other, Print(kind, ctx), maxSalt, maxOut) == Refused(DecodingFail)
  {
    hide ParseBody, PrintBody, Decimal, Number32;
    var s := Print(kind, ctx);
    if other == Argon2id {
      assert s[8] == '$' as int != 'd' as int == Prefix(Argon2id)[8];
    } else {
      assert s[8] == 'd' as int && Ascii("$v=")[0] == '$' as int;
      assert Prefix(Argon2i) <= s ==> s[8..][0] == 'd' as int;
    }
  }

  lemma CostSevenBit(lit: Text, x: u32, rest: Text)
    requires SevenBit(lit) && SevenBit(rest)
    ensures SevenBit(PrintCost(lit, x, rest))
  {
    SevenBitConcat(Decimal(x), rest);
    SevenBitConcat(lit, Decimal(x) + rest);
  }

  lemma BinarySevenBit(bin: Bytes, rest: Text)
    requires SevenBit(rest)
    ensures SevenBit(PrintBinary(bin, rest))
  {
    SevenBitConcat(Encode(Plain(), bin), rest);
    SevenBitConcat(Ascii("$"), Encode(Plain(), bin) + rest);
  }

  lemma PrintSevenBit(kind: Kind, ctx: Context)
    ensures SevenBit(Print(kind, ctx))
  {
    hide PrintCost, PrintBinary;
    BinarySevenBit(ctx.out, []);
    var salt := PrintBinary(ctx.salt, PrintBinary(ctx.out, []));
    BinarySevenBit(ctx.salt, PrintBinary(ctx.out, []));
    CostSevenBit(Ascii(",p="), ctx.lanes, salt);
    var lanes := PrintCost(Ascii(",p="), ctx.lanes, salt);
    CostSevenBit(Ascii(",t="), ctx.time, lanes);
    CostSevenBit(Ascii("$m="), ctx.memory, PrintCost(Ascii(",t="), ctx.time, lanes));
    CostSevenBit(Ascii("$v="), VERSION, PrintBody(ctx));
    SevenBitConcat(Prefix(kind), PrintCost(Ascii("$v="), VERSION, PrintBody(ctx)));
  }

  /** An accepted string is the print of what was parsed, exactly when it is 7-bit ASCII. */
  lemma AcceptedReprints(kind: Kind, s: Text, maxSalt: nat, maxOut: nat)
    requires DecodeString(kind, s, maxSalt, maxOut).Accepted?
    ensures Print(kind, DecodeString(kind, s, maxSalt, maxOut).ctx) == s <==> SevenBit(s)
  {
    PrintSevenBit(kind, DecodeString(kind, s, maxSalt, maxOut).ctx);
    if SevenBit(s) { SevenBitReprints(kind, s, maxSalt, maxOut); }
  }

  lemma SevenBitReprints(kind: Kind, s: Text, maxSalt: nat, maxOut: nat)
    requires DecodeString(kind, s, maxSalt, maxOut).Accepted? && SevenBit(s)
    ensures Print(kind, DecodeString(kind, s, maxSalt, maxOut).ctx) == s
  {
    hide ParseBody, PrintBody, ParseCost, PrintCost;
    var s1 := Skip(s, Prefix(kind)).value;
    SevenBitRest(s, s1);
    CostReprints(s1, Ascii("$v="));
    BodyReprints(ParseVersion(kind, s).value.1, maxSalt, maxOut);
  }

  lemma SevenBitRest(s: Text, rest: Text)
    requires SevenBit(s)
    requires |rest| <= |s| && rest == s[|s| - |rest|..]
    ensures SevenBit(rest)
  {}

  lemma CostReprints(s: Text, lit: Text)
    requires ParseCost(s, lit).Some? && SevenBit(s)
    ensures var (x, rest) := ParseCost(s, lit).value;
      s == PrintCost(lit, x, rest) && SevenBit(rest)
  {
    hide Number32, Decimal;
    NumberReprints(s[|lit|..]);
    var (x, rest) := ParseCost(s, lit).value;
    assert s == lit + s[|lit|..];
    assert s[|s| - |rest|..] == rest;
    SevenBitRest(s, rest);
  }

  lemma BinaryFieldReprints(s: Text, maxLen: nat)
    requires ParseBinary(s, maxLen).Some? && SevenBit(s)
    ensures var (bin, rest) := ParseBinary(s, maxLen).value;
      s == PrintBinary(bin, rest) && SevenBit(rest)
  {
    hide Binary, Encode;
    SevenBitRest(s, s[1..]);
    BinaryReprints(s[1..], maxLen);
    var (bin, rest) := ParseBinary(s, maxLen).value;
    assert s == Ascii("$") + s[1..];
    assert s[|s| - |rest|..] == rest;
    SevenBitRest(s, rest);
  }

  lemma BodyReprints(s: Text, maxSalt: nat, maxOut: nat)
    requires ParseBody(s, maxSalt, maxOut).Some? && ParseBody(s, maxSalt, maxOut).value.1 == []
    requires SevenBit(s)
    ensures PrintBody(ParseBody(s, maxSalt, maxOut).value.0) == s
  {
    hide ParseCost, PrintCost, ParseBinary, PrintBinary;
    var m := ParseCost(s, Ascii("$m=")).value;
    CostReprints(s, Ascii("$m="));
    var t := ParseCost(m.1, Ascii(",t=")).value;
    CostReprints(m.1, Ascii(",t="));
    var p := ParseCost(t.1, Ascii(",p=")).value;
    CostReprints(t.1, Ascii(",p="));
    BinaryFieldReprints(p.1, maxSalt);
    BinaryFieldReprints(ParseBinary(p.1, maxSalt).value.1, maxOut);
  }

  // ---- hashing and verifying passwords ----

  /** The hash itself: type, memory, time, lanes, password, salt and output length. */
  datatype Hash = Hash(run: (Kind, u32, u32, u32, Bytes, Bytes, nat) -> Bytes)

  ghost predicate Sized(h: Hash) {
    forall kind, m, t, p, pwd, salt, n :: |h.run(kind, m, t, p, pwd, salt, n)| == n
  }

  type Hasher = h: Hash | Sized(h) ghost witness Hash((kind, m, t, p, pwd, salt, n) => Zeros(n))

  /** `argon2_hash` with an encoded result. */
  function HashEncoded(h: Hasher, kind: Kind, m: u32, t: u32, p: u32, pwd: Bytes, salt: Bytes, outLen: nat,
                       room: nat): Printed
  {
    var ctx := Context(m, t, p, p, salt, h.run(kind, m, t, p, pwd, salt, outLen));
    if |pwd| >= TWO32 then Failed(PwdTooLong)
    else if outLen >= TWO32 then Failed(OutputTooLong)
    else if |salt| >= TWO32 then Failed(SaltTooLong)
    else if Validate(ctx) != Success then Failed(Validate(ctx))
    else
      var r := EncodeString(kind, ctx, room);
      if r.Failed? then Failed(EncodingFail) else r
  }

  /** `argon2_verify`: the string's own costs, salt and length, and the password given. */
  function Verify(h: Hasher, kind: Kind, encoded: Text, pwd: Bytes): Code {
    if |encoded| >= TWO32 then DecodingLengthFail
    else
      match DecodeString(kind, encoded, |encoded|, |encoded|)
      case Refused(code) => code
      case Accepted(c) =>
        if |pwd| >= TWO32 then PwdTooLong
        else if h.run(kind, c.memory, c.time, c.threads, pwd, c.salt, |c.out|) == c.out then Success else VerifyMismatch
  }

  lemma FieldsFit(kind: Kind, ctx: Context)
    ensures |ctx.salt| <= |Print(kind, ctx)| && |ctx.out| <= |Print(kind, ctx)|
  {
    hide Decimal, DigitsOf;
    assert DigitCount(|ctx.salt|) >= |ctx.salt| && DigitCount(|ctx.out|) >= |ctx.out|;
  }

  /** A password is accepted against an encoded hash exactly when it hashes to the same output under
      the same costs and salt, and never under the other type. */
  lemma VerifyHashed(h: Hasher, kind: Kind, m: u32, t: u32, p: u32, pwd: Bytes, salt: Bytes, outLen: nat, room: nat,
                     other: Bytes)
    requires HashEncoded(h, kind, m, t, p, pwd, salt, outLen, room).Written?
    requires |HashEncoded(h, kind, m, t, p, pwd, salt, outLen, room).text| < TWO32
    ensures
      var s := HashEncoded(h, kind, m, t, p, pwd, salt, outLen, room).text;
      var same := h.run(kind, m, t, p, other, salt, outLen) == h.run(kind, m, t, p, pwd, salt, outLen);
      && Verify(h, kind, s, other) ==
         (if |other| >= TWO32 then PwdTooLong else if same then Success else VerifyMismatch)
      && Verify(h, if kind == Argon2i then Argon2id else Argon2i, s, other) == DecodingFail
  {
    hide DecodeString, Print, Decimal, Encode, Validate;
    var ctx := Context(m, t, p, p, salt, h.run(kind, m, t, p, pwd, salt, outLen));
    var s := Print(kind, ctx);
    FieldsFit(kind, ctx);
    DecodePrinted(kind, ctx, |s|, |s|);
    OtherTypeRefused(kind, if kind == Argon2i then Argon2id else Argon2i, ctx, |s|, |s|);
  }
}
