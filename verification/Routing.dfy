/** CIDR blocks of src/routing.c and the longest-prefix match of exercises/routing.c. */
module Routing {
  import opened Words
  import opened Errors

  /** `prefix` leading one bits. */
  function Mask(prefix: nat): (m: u32)
    requires prefix <= 32
    ensures m == TWO32 - Pow2(32 - prefix)
  {
    MaskShift(32 - prefix);
    if prefix == 0 then 0 else 0xFFFF_FFFF * Pow2(32 - prefix) % TWO32
  }

  /** `0xFFFFFFFFu << k` in 32-bit arithmetic. */
  lemma MaskShift(k: nat)
    requires k <= 32
    ensures k < 32 ==> 0xFFFF_FFFF * Pow2(k) % TWO32 == TWO32 - Pow2(k)
    ensures Pow2(32) == TWO32 && Pow2(k) <= TWO32
  {
    Pow2Values();
    Pow2Monotone(k, 32);
    if k < 32 {
      var p := Pow2(k);
      assert 0xFFFF_FFFF * p == TWO32 * (p - 1) + (TWO32 - p);
      ModUnique(0xFFFF_FFFF * p, TWO32, p - 1, TWO32 - p);
    }
  }

  /** A block as `vpn_cidr_parse` stores it; only built by `Parse`. */
  datatype Cidr = Cidr(network: u32, mask: u32, prefix: nat)

  predicate Wellformed(c: Cidr) {
    c.prefix <= 32 && c.mask == Mask(c.prefix) && c.network % Pow2(32 - c.prefix) == 0
  }

  function AndU32(a: u32, b: u32): u32 {
    AndBound(a, b);
    And(a, b)
  }

  /** `vpn_cidr_parse` from the point where address and prefix length have been read: the block of
      the addresses that share their first `prefix` bits with `ip`. */
  function Parse(ip: u32, prefix: int): (r: Result<Cidr>)
    ensures r == Err(EINVAL) || r.Ok?
    ensures r.Ok? <==> 0 <= prefix <= 32
    ensures r.Ok? ==> Wellformed(r.value) && r.value.prefix == prefix
    ensures r.Ok? ==> forall a: u32 :: Match(r.value, a) <==> SharesPrefix(a, ip, prefix)
  {
    if prefix < 0 || prefix > 32 then Err(EINVAL)
    else
      MaskDropsLow(ip, prefix);
      MaskedIsPrefix(ip, prefix);
      Ok(Cidr(AndU32(ip, Mask(prefix)), Mask(prefix), prefix))
  }

  /** The two addresses agree on all but their last `32 - prefix` bits. */
  predicate SharesPrefix(a: u32, b: u32, prefix: nat)
    requires prefix <= 32
  {
    a / Pow2(32 - prefix) == b / Pow2(32 - prefix)
  }

  /** `vpn_cidr_match`. */
  predicate Match(c: Cidr, ip: u32) {
    And(ip, c.mask) == c.network
  }

  // ---- masking is rounding down ----

  lemma AndOnes(x: nat, n: nat)
    requires x < Pow2(n)
    ensures And(x, Pow2(n) - 1) == x
  {
    hide And, Pow2;
    AndMask(x, n);
    ModUnique(x, Pow2(n), 0, x);
  }

  lemma {:induction false} AndHighOnes(x: nat, n: nat, k: nat)
    requires k <= n && x < Pow2(n)
    ensures Pow2(k) <= Pow2(n) && And(x, Pow2(n) - Pow2(k)) == x - x % Pow2(k)
    decreases k
  {
    hide And;
    Pow2Monotone(k, n);
    if k == 0 {
      AndOnes(x, n);
    } else {
      AndHighOnes(x / 2, n - 1, k - 1);
      HighOnesStep(x, Pow2(n - 1), Pow2(k - 1));
    }
  }

  lemma HighOnesStep(x: nat, p: nat, q: nat)
    requires 0 < q <= p && And(x / 2, p - q) == x / 2 - x / 2 % q
    ensures And(x, 2 * p - 2 * q) == x - x % (2 * q)
  {
    hide And;
    HalfOfMod(x, q);
    AndStep(x, 2 * p - 2 * q);
    var r := x % (2 * q);
    assert r == 2 * (r / 2) + r % 2;
  }

  lemma MaskDropsLow(ip: u32, prefix: nat)
    requires prefix <= 32
    ensures And(ip, Mask(prefix)) == ip - ip % Pow2(32 - prefix)
    ensures And(ip, Mask(prefix)) % Pow2(32 - prefix) == 0
  {
    var k := 32 - prefix;
    assert Pow2(32) == TWO32 by { Pow2Values(); }
    AndHighOnes(ip, 32, k);
    RoundDown(ip, Pow2(k));
  }

  lemma MaskedIsPrefix(ip: u32, prefix: nat)
    requires prefix <= 32
    ensures forall a: u32 ::
      Match(Cidr(AndU32(ip, Mask(prefix)), Mask(prefix), prefix), a) <==> SharesPrefix(a, ip, prefix)
  {
    forall a: u32
      ensures Match(Cidr(AndU32(ip, Mask(prefix)), Mask(prefix), prefix), a) <==> SharesPrefix(a, ip, prefix)
    {
      MaskDropsLow(ip, prefix);
      MaskDropsLow(a, prefix);
      SameQuotient(a, ip, Pow2(32 - prefix));
    }
  }

  lemma SameQuotient(a: nat, b: nat, p: nat)
    requires p > 0
    ensures a - a % p == b - b % p <==> a / p == b / p
  {
    if a - a % p == b - b % p { EuclidUnique(p, a / p, 0, b / p, 0); }
  }

  // ---- blocks are intervals ----

  predicate InBlock(c: Cidr, ip: u32)
    requires c.prefix <= 32
  {
    c.network <= ip < c.network + Pow2(32 - c.prefix)
  }

  /** The mask test decides membership in the interval of 2^(32 - prefix) addresses. */
  lemma MatchIsInterval(c: Cidr, ip: u32)
    requires Wellformed(c)
    ensures Match(c, ip) <==> InBlock(c, ip)
  {
    MaskDropsLow(ip, c.prefix);
    RoundsTo(ip, c.network, Pow2(32 - c.prefix));
  }

  ghost predicate Within(a: Cidr, b: Cidr) {
    forall ip: u32 :: Match(a, ip) ==> Match(b, ip)
  }

  ghost predicate Disjoint(a: Cidr, b: Cidr) {
    forall ip: u32 :: !(Match(a, ip) && Match(b, ip))
  }

  lemma SharedAddressNests(a: Cidr, b: Cidr, ip: u32)
    requires Wellformed(a) && Wellformed(b) && a.prefix >= b.prefix && Match(a, ip) && Match(b, ip)
    ensures Within(a, b)
  {
    var p, q := Pow2(32 - a.prefix), Pow2(32 - b.prefix);
    var m := Pow2(a.prefix - b.prefix);
    Pow2Add(32 - a.prefix, a.prefix - b.prefix);
    assert q == p * m;
    MatchIsInterval(a, ip);
    MatchIsInterval(b, ip);
    BlockInside(a.network, b.network, p, m);
    forall x: u32 | Match(a, x) ensures Match(b, x) {
      MatchIsInterval(a, x);
      MatchIsInterval(b, x);
    }
  }

  /** An aligned block of size `p` that meets an aligned block of size `p * m` lies inside it. */
  lemma BlockInside(x: nat, y: nat, p: nat, m: nat)
    requires p > 0 && m > 0 && p * m > 0 && x % p == 0 && y % (p * m) == 0
    requires x < y + p * m && y < x + p
    ensures y <= x && x + p <= y + p * m
  {
    var j := y / (p * m);
    QuotientBound(y, p * m);
    var k := m * j;
    assert y == p * k by { assert y == p * m * j; }
    assert p * (k + m) == y + p * m;
    MultipleBelow(x, p, k + m);
    if x < y { MultipleBelow(x, p, k); }
  }

  /** Any two blocks are nested or disjoint. */
  lemma NestedOrDisjoint(a: Cidr, b: Cidr)
    requires Wellformed(a) && Wellformed(b)
    ensures Disjoint(a, b) || Within(a, b) || Within(b, a)
  {
    if !Disjoint(a, b) {
      var ip: u32 :| Match(a, ip) && Match(b, ip);
      if a.prefix >= b.prefix { SharedAddressNests(a, b, ip); } else { SharedAddressNests(b, a, ip); }
    }
  }

  lemma ShorterNotWithin(a: Cidr, b: Cidr)
    requires Wellformed(a) && Wellformed(b) && a.prefix < b.prefix
    ensures !Within(a, b)
  {
    assert a.prefix < b.prefix <= 32;
    hide Wellformed, Mask, Match;
    var p, q := Pow2(32 - a.prefix), Pow2(32 - b.prefix);
    assert p >= 2 * q by { Pow2Monotone(32 - b.prefix + 1, 32 - a.prefix); }
    hide Pow2;
    LastAddress(a);
    var first: u32, last: u32 := a.network, a.network + p - 1;
    MatchIsInterval(a, first);
    MatchIsInterval(a, last);
    MatchIsInterval(b, first);
    MatchIsInterval(b, last);
  }

  lemma LastAddress(c: Cidr)
    requires Wellformed(c)
    ensures c.network + Pow2(32 - c.prefix) <= TWO32
  {
    Pow2Add(32 - c.prefix, c.prefix);
    Pow2Values();
    MultipleBelow(c.network, Pow2(32 - c.prefix), Pow2(c.prefix));
  }

  // ---- longest-prefix match ----

  /** `best` is the first route whose block lies inside the block of every matching route. */
  ghost predicate MostSpecific(routes: seq<Cidr>, ip: u32, best: nat) {
    && Narrowest(routes, ip, best)
    && forall i | 0 <= i < best :: !Narrowest(routes, ip, i)
  }

  ghost predicate Narrowest(routes: seq<Cidr>, ip: u32, i: nat) {
    && i < |routes|
    && Match(routes[i], ip)
    && forall j | 0 <= j < |routes| && Match(routes[j], ip) :: Within(routes[i], routes[j])
  }

  lemma LongestIsMostSpecific(routes: seq<Cidr>, ip: u32, best: nat)
    requires forall r | r in routes :: Wellformed(r)
    requires best < |routes| && Match(routes[best], ip)
    requires forall j | 0 <= j < |routes| && Match(routes[j], ip) ::
      if j < best then routes[j].prefix < routes[best].prefix else routes[j].prefix <= routes[best].prefix
    ensures MostSpecific(routes, ip, best)
  {
    forall j | 0 <= j < |routes| && Match(routes[j], ip) ensures Within(routes[best], routes[j]) {
      SharedAddressNests(routes[best], routes[j], ip);
    }
    forall i | 0 <= i < best ensures !Narrowest(routes, ip, i) {
      if Match(routes[i], ip) { ShorterNotWithin(routes[i], routes[best]); }
    }
  }

  method Lookup(routes: seq<Cidr>, ip: u32) returns (bestRoute: int)
    requires forall r | r in routes :: Wellformed(r)
    ensures bestRoute == -1 || 0 <= bestRoute < |routes|
    ensures bestRoute == -1 <==> forall r | r in routes :: !Match(r, ip)
    ensures bestRoute >= 0 ==> MostSpecific(routes, ip, bestRoute)
  {
    bestRoute := -1;
    var bestPrefix: int := -1;
    for i := 0 to |routes|
      invariant -1 <= bestRoute < i
      invariant bestRoute == -1 ==> bestPrefix == -1 && forall j | 0 <= j < i :: !Match(routes[j], ip)
      invariant bestRoute >= 0 ==> Match(routes[bestRoute], ip) && bestPrefix == routes[bestRoute].prefix
      invariant bestRoute >= 0 ==> forall j | 0 <= j < i && Match(routes[j], ip) ::
        if j < bestRoute then routes[j].prefix < bestPrefix else routes[j].prefix <= bestPrefix
    {
      if Match(routes[i], ip) && routes[i].prefix > bestPrefix {
        bestPrefix := routes[i].prefix;
        bestRoute := i;
      }
    }
    if bestRoute >= 0 { LongestIsMostSpecific(routes, ip, bestRoute); }
  }
}
