// Allow and deny lists of CIDR rules (mystiproxy/src/ip_filter.rs), against section 3.1 of
// RFC 4632.
module IpFilter {
  datatype Family = V4 | V6

  function Bits(f: Family): nat {
    if f == V4 then 32 else 128
  }

  function Pow2(n: nat): (p: nat)
    ensures p >= 1
  {
    if n == 0 then 1 else 2 * Pow2(n - 1)
  }

  datatype Address = Address(family: Family, value: nat) {
    predicate Valid() {
      value < Pow2(Bits(family))
    }
  }

  datatype Cidr = Cidr(net: Address, prefix: nat) {
    predicate Valid() {
      net.Valid() && prefix <= Bits(net.family)
    }

    // The IPv6 prefix 0 asks for a shift by all 128 bits, which wraps to no shift.
    predicate Wraps() {
      net.family.V6? && prefix == 0
    }

    function HostBits(): nat
      requires Valid()
    {
      Bits(net.family) - prefix
    }

    // Addresses of both families are held in 128 bits.
    function Shift(): nat
      requires Valid()
    {
      HostBits() % 128
    }

    predicate Contains(ip: Address)
      requires Valid()
    {
      ip.family == net.family && ShiftRight(net.value, Shift()) == ShiftRight(ip.value, Shift())
    }

    // The block the rule names: of the aligned intervals of 2^(bits - prefix) addresses, the
    // one that holds the network address.
    ghost predicate InBlock(ip: Address)
      requires Valid()
    {
      ip.family == net.family && Together(net.value, ip.value, Pow2(HostBits()))
    }
  }

  // The k-th aligned interval of a given size.
  predicate InInterval(k: nat, size: nat, v: nat) {
    k * size <= v < k * size + size
  }

  // Two values in one aligned interval.
  ghost predicate Together(v: nat, w: nat, size: nat) {
    exists k: nat :: InInterval(k, size, v) && InInterval(k, size, w)
  }

  // `>>`, one bit at a time.
  function ShiftRight(v: nat, n: nat): nat {
    if n == 0 then v else ShiftRight(v / 2, n - 1)
  }

  // Shifting numbers the interval.
  lemma {:induction false} ShiftFindsInterval(v: nat, n: nat)
    ensures InInterval(ShiftRight(v, n), Pow2(n), v)
  {
    if n == 0 {
    } else {
      ShiftFindsInterval(v / 2, n - 1);
      var k, half := ShiftRight(v, n), Pow2(n - 1);
      assert k * (2 * half) == 2 * (k * half);
    }
  }

  lemma IntervalsAreDisjoint(k: nat, l: nat, size: nat, v: nat)
    requires InInterval(k, size, v) && InInterval(l, size, v)
    ensures k == l
  {
    if k < l {
      LaterStartsLater(k, l, size);
    } else if l < k {
      LaterStartsLater(l, k, size);
    }
  }

  lemma {:induction false} LaterStartsLater(k: nat, l: nat, size: nat)
    requires k < l
    ensures k * size + size <= l * size
    decreases l
  {
    assert l * size == (l - 1) * size + size;
    if k < l - 1 {
      LaterStartsLater(k, l - 1, size);
    }
  }

  // Equal shifts are one interval.
  lemma SameShiftSameInterval(v: nat, w: nat, n: nat)
    ensures ShiftRight(v, n) == ShiftRight(w, n) <==> Together(v, w, Pow2(n))
  {
    ShiftFindsInterval(v, n);
    ShiftFindsInterval(w, n);
    if Together(v, w, Pow2(n)) {
      var k: nat :| InInterval(k, Pow2(n), v) && InInterval(k, Pow2(n), w);
      IntervalsAreDisjoint(k, ShiftRight(v, n), Pow2(n), v);
      IntervalsAreDisjoint(k, ShiftRight(w, n), Pow2(n), w);
    }
  }

  lemma ShiftIsHostBits(c: Cidr)
    requires c.Valid()
    ensures c.Shift() == if c.Wraps() then 0 else c.HostBits()
  {
  }

  // The shift test is membership in the aligned block; where the shift wraps it is equality
  // with the network address.
  lemma ContainsIsBlock(c: Cidr, ip: Address)
    requires c.Valid()
    ensures c.Contains(ip) <==> if c.Wraps() then ip == c.net else c.InBlock(ip)
  {
    ShiftIsHostBits(c);
    if !c.Wraps() {
      SameShiftSameInterval(c.net.value, ip.value, c.HostBits());
    }
  }

  lemma {:induction false} PowersAdd(a: nat, b: nat)
    ensures Pow2(a + b) == Pow2(a) * Pow2(b)
  {
    if a > 0 {
      PowersAdd(a - 1, b);
    }
  }

  lemma Squared(n: nat, p: nat)
    requires Pow2(n) == p
    ensures Pow2(2 * n) == p * p
  {
    PowersAdd(n, n);
  }

  // The two address spaces, and the sizes of blocks: one address at full prefix, and twice as
  // many with each bit less.
  lemma AddressSpaces(n: nat)
    ensures Pow2(Bits(V4)) == 0x1_0000_0000
    ensures Pow2(Bits(V6)) == 0x1_0000_0000_0000_0000_0000_0000_0000_0000
    ensures Pow2(0) == 1 && Pow2(n + 1) == Pow2(n) + Pow2(n)
  {
    assert Pow2(1) == 2;
    Squared(1, 2);
    Squared(2, 4);
    Squared(4, 0x10);
    Squared(8, 0x100);
    Squared(16, 0x1_0000);
    Squared(32, 0x1_0000_0000);
    Squared(64, 0x1_0000_0000_0000_0000);
  }

  // A rule matches its block exactly when it is not the IPv6 rule for everything, which matches
  // one address only.
  lemma RuleIsBlockExactly(c: Cidr)
    requires c.Valid()
    ensures (forall ip: Address :: ip.Valid() ==> (c.Contains(ip) <==> c.InBlock(ip))) <==> !c.Wraps()
  {
    if c.Wraps() {
      var other := Address(V6, if c.net.value == 0 then 1 else 0);
      AddressSpaces(0);
      ContainsIsBlock(c, other);
      assert InInterval(0, Pow2(c.HostBits()), c.net.value) && InInterval(0, Pow2(c.HostBits()), other.value);
      assert c.InBlock(other) && !c.Contains(other) && other.Valid();
    } else {
      forall ip: Address | ip.Valid()
        ensures c.Contains(ip) <==> c.InBlock(ip)
      {
        ContainsIsBlock(c, ip);
      }
    }
  }

  ghost predicate Within(c: Cidr, d: Cidr)
    requires c.Valid() && d.Valid()
  {
    forall ip: Address :: c.Contains(ip) ==> d.Contains(ip)
  }

  ghost predicate Apart(c: Cidr, d: Cidr)
    requires c.Valid() && d.Valid()
  {
    forall ip: Address :: !(c.Contains(ip) && d.Contains(ip))
  }

  lemma {:induction false} ShiftsAdd(v: nat, a: nat, b: nat)
    ensures ShiftRight(v, a + b) == ShiftRight(ShiftRight(v, a), b)
    decreases a
  {
    if a == 0 {
    } else {
      ShiftsAdd(v / 2, a - 1, b);
    }
  }

  // An address shared with a wider rule puts the whole narrower rule inside it.
  lemma SharedMeansWithin(c: Cidr, d: Cidr, shared: Address)
    requires c.Valid() && d.Valid() && c.Shift() <= d.Shift()
    requires c.Contains(shared) && d.Contains(shared)
    ensures Within(c, d)
  {
    var extra := d.Shift() - c.Shift();
    forall ip: Address | c.Contains(ip)
      ensures d.Contains(ip)
    {
      ShiftsAdd(ip.value, c.Shift(), extra);
      ShiftsAdd(shared.value, c.Shift(), extra);
    }
  }

  // Any two rules are nested or disjoint.
  lemma RulesAreLaminar(c: Cidr, d: Cidr)
    requires c.Valid() && d.Valid()
    ensures Within(c, d) || Within(d, c) || Apart(c, d)
  {
    if ip: Address :| c.Contains(ip) && d.Contains(ip) {
      if c.Shift() <= d.Shift() {
        SharedMeansWithin(c, d, ip);
      } else {
        SharedMeansWithin(d, c, ip);
      }
    }
  }

  predicate AllValid(rules: seq<Cidr>) {
    forall c <- rules :: c.Valid()
  }

  // `iter().any(contains)`.
  predicate AnyContains(rules: seq<Cidr>, ip: Address)
    requires AllValid(rules)
  {
    rules != [] && (rules[0].Contains(ip) || AnyContains(rules[1..], ip))
  }

  datatype IpFilter = IpFilter(allow: seq<Cidr>, deny: seq<Cidr>) {
    predicate IsAllowed(peer: Address)
      requires AllValid(allow) && AllValid(deny)
    {
      if AnyContains(deny, peer) then false
      else if allow == [] then true
      else AnyContains(allow, peer)
    }
  }

  // The addresses some rule matches: those of its block, or the one address where the shift wraps.
  ghost predicate Covered(rules: seq<Cidr>, ip: Address)
    requires AllValid(rules)
  {
    exists c <- rules :: if c.Wraps() then ip == c.net else c.InBlock(ip)
  }

  lemma {:induction false} AnyContainsIsCovered(rules: seq<Cidr>, ip: Address)
    requires AllValid(rules)
    ensures AnyContains(rules, ip) <==> Covered(rules, ip)
  {
    if rules == [] {
    } else {
      ContainsIsBlock(rules[0], ip);
      AnyContainsIsCovered(rules[1..], ip);
      assert forall c :: c in rules <==> c == rules[0] || c in rules[1..];
    }
  }

  // Allowed: in the union of the allow blocks, or anything without allow rules, minus the
  // union of the deny blocks.
  lemma AllowedSet(f: IpFilter, ip: Address)
    requires AllValid(f.allow) && AllValid(f.deny)
    ensures f.IsAllowed(ip) <==> (f.allow == [] || Covered(f.allow, ip)) && !Covered(f.deny, ip)
  {
    AnyContainsIsCovered(f.allow, ip);
    AnyContainsIsCovered(f.deny, ip);
  }
}
