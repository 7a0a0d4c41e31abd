/**
 Addresses as byte sequences, most significant byte first: increment with carry, masks, broadcast
 addresses and the enumeration of the hosts of a subnet.
 */
module Ipv4 {

  import opened Common
  import Text

  type Byte = Text.Byte

  function Pow2(n: nat): (p: nat)
    ensures p > 0
  {
    if n == 0 then 1 else 2 * Pow2(n - 1)
  }

  lemma Pow2Eight(n: nat)
    ensures Pow2(n + 8) == 256 * Pow2(n)
  {
    assert Pow2(n + 8) == 2 * Pow2(n + 7) == 4 * Pow2(n + 6) == 8 * Pow2(n + 5) == 16 * Pow2(n + 4);
    assert Pow2(n + 4) == 2 * Pow2(n + 3) == 4 * Pow2(n + 2) == 8 * Pow2(n + 1) == 16 * Pow2(n);
  }

  lemma {:induction false} Pow2Monotone(a: nat, b: nat)
    requires a <= b
    ensures Pow2(a) <= Pow2(b)
  {
    if a < b {
      Pow2Monotone(a, b - 1);
    }
  }

  /** The number that the bytes stand for. */
  function Value(b: seq<Byte>): nat {
    if b == [] then 0 else 256 * Value(b[..|b| - 1]) + b[|b| - 1]
  }

  lemma ValueSnoc(b: seq<Byte>, last: Byte)
    ensures Value(b + [last]) == 256 * Value(b) + last
  {
    assert (b + [last])[..|b|] == b;
  }

  lemma {:induction false} ValueBound(b: seq<Byte>)
    ensures Value(b) < Pow2(8 * |b|)
  {
    if b != [] {
      ValueBound(b[..|b| - 1]);
      Pow2Eight(8 * (|b| - 1));
    }
  }

  lemma {:induction false} ValueInjective(a: seq<Byte>, b: seq<Byte>)
    requires |a| == |b| && Value(a) == Value(b)
    ensures a == b
  {
    if a != [] {
      ValueInjective(a[..|a| - 1], b[..|b| - 1]);
      assert a == a[..|a| - 1] + [a[|a| - 1]] && b == b[..|b| - 1] + [b[|b| - 1]];
    }
  }

  // ---------- increment ----------

  function Increment(b: seq<Byte>): seq<Byte> {
    if b == [] then []
    else if b[|b| - 1] < 255 then b[..|b| - 1] + [b[|b| - 1] + 1]
    else Increment(b[..|b| - 1]) + [0]
  }

  lemma {:induction false} IncrementValue(b: seq<Byte>)
    ensures |Increment(b)| == |b|
    ensures Value(Increment(b)) == if Value(b) + 1 == Pow2(8 * |b|) then 0 else Value(b) + 1
  {
    if b != [] {
      var init, last := b[..|b| - 1], b[|b| - 1];
      Pow2Eight(8 * |init|);
      ValueBound(init);
      if last < 255 {
        ValueSnoc(init, last + 1);
      } else {
        IncrementValue(init);
        ValueSnoc(Increment(init), 0);
      }
    }
  }

  function Zeros(n: nat): seq<Byte> { seq(n, _ => 0) }

  /** The carry runs over the bytes 255 at the end. */
  lemma {:induction false} IncrementCarry(b: seq<Byte>, j: int)
    requires -1 <= j < |b| && (forall k | j < k < |b| :: b[k] == 255) && (j >= 0 ==> b[j] < 255)
    ensures Increment(b) == (if j < 0 then [] else b[..j] + [b[j] + 1]) + Zeros(|b| - 1 - j)
  {
    if j < |b| - 1 {
      var init := b[..|b| - 1];
      IncrementCarry(init, j);
      assert j >= 0 ==> init[..j] == b[..j];
      assert Zeros(|b| - 1 - j) == Zeros(|init| - 1 - j) + [0];
    }
  }

  /** Plus one, modulo the size of the address space. */
  method NextIP(ip: seq<Byte>) returns (next: seq<Byte>)
    ensures |next| == |ip|
    ensures Value(next) == NextValue(ip)
  {
    var a := new Byte[|ip|](i requires 0 <= i < |ip| => ip[i]);
    var j := |ip| - 1;
    while j >= 0
      invariant -1 <= j < |ip| == a.Length
      invariant forall k | 0 <= k <= j :: a[k] == ip[k]
      invariant forall k | j < k < |ip| :: a[k] == 0 && ip[k] == 255
    {
      a[j] := (a[j] as int + 1) % 256;
      if a[j] != 0 {
        break;
      }
      j := j - 1;
    }
    next := a[..];
    IncrementCarry(ip, j);
    assert next == Increment(ip);
    IncrementValue(ip);
  }

  // ---------- bits ----------

  function And(a: nat, b: nat): nat {
    if a == 0 || b == 0 then 0 else 2 * And(a / 2, b / 2) + (if a % 2 == 1 && b % 2 == 1 then 1 else 0)
  }

  function Or(a: nat, b: nat): nat {
    if a == 0 then b else if b == 0 then a else 2 * Or(a / 2, b / 2) + (if a % 2 == 1 || b % 2 == 1 then 1 else 0)
  }

  function Times(q: nat, p: nat): nat { q * p }

  ghost predicate Multiple(m: nat, p: nat) { exists q: nat :: m == Times(q, p) }

  /** `m` is `v` rounded down to a multiple of `p`; for p == 2^h, `v` with its last h bits cleared. */
  ghost predicate Cleared(v: nat, m: nat, p: nat) {
    Multiple(m, p) && m <= v < m + p
  }

  lemma MultipleSum(a: nat, b: nat, p: nat)
    requires Multiple(a, p) && Multiple(b, p)
    ensures Multiple(a + b, p)
  {
    var q: nat :| a == Times(q, p);
    var r: nat :| b == Times(r, p);
    assert Times(q + r, p) == a + b;
  }

  lemma MultipleScaled(m: nat, p: nat, c: nat)
    requires Multiple(m, p)
    ensures Multiple(c * m, c * p) && Multiple(c * m, p)
  {
    var q: nat :| m == Times(q, p);
    assert Times(q, c * p) == c * m;
    assert Times(c * q, p) == c * m;
  }

  lemma MultipleSelf(p: nat)
    ensures Multiple(p, p) && Multiple(0, p)
  {
    assert Times(1, p) == p && Times(0, p) == 0;
  }

  /** Different multiples of p are at least p apart. */
  lemma MultipleGap(m: nat, m': nat, p: nat)
    requires Multiple(m, p) && Multiple(m', p) && m < m'
    ensures m + p <= m'
  {
    var q: nat :| m == Times(q, p);
    var q': nat :| m' == Times(q', p);
    Spread(q, q', p);
  }

  lemma Spread(q: nat, q': nat, p: nat)
    requires Times(q, p) < Times(q', p)
    ensures Times(q, p) + p <= Times(q', p)
  {
    assert q' <= q ==> Times(q, p) == Times(q', p) + Times(q - q', p);
    assert q' > q ==> Times(q', p) == Times(q, p) + p + Times(q' - q - 1, p);
  }

  lemma ClearedUnique(v: nat, m: nat, m': nat, p: nat)
    requires Cleared(v, m, p) && Cleared(v, m', p)
    ensures m == m'
  {
    if m < m' {
      MultipleGap(m, m', p);
    } else if m' < m {
      MultipleGap(m', m, p);
    }
  }

  /** The remainder says the same. */
  lemma ClearedIsMod(v: nat, m: nat, p: nat)
    requires p > 0
    ensures Cleared(v, m, p) <==> m == v - v % p
  {
    assert v == Times(v / p, p) + v % p;
    assert Cleared(v, v - v % p, p);
    if Cleared(v, m, p) {
      ClearedUnique(v, m, v - v % p, p);
    }
  }

  lemma {:induction false} PowersDivide(j: nat, k: nat)
    requires j <= k
    ensures Multiple(Pow2(k), Pow2(j))
  {
    if j == k {
      MultipleSelf(Pow2(k));
    } else {
      PowersDivide(j, k - 1);
      MultipleScaled(Pow2(k - 1), Pow2(j), 2);
    }
  }

  lemma {:induction false} AndAllOnes(a: nat, w: nat)
    requires a < Pow2(w)
    ensures And(a, Pow2(w) - 1) == a
  {
    if a > 0 {
      AndAllOnes(a / 2, w - 1);
      assert (Pow2(w) - 1) / 2 == Pow2(w - 1) - 1;
    }
  }

  /** A mask with k zero bits at the end clears the last k bits. */
  lemma {:induction false} AndHigh(a: nat, k: nat, w: nat)
    requires k <= w && a < Pow2(w)
    ensures Pow2(k) <= Pow2(w)
    ensures Cleared(a, And(a, Pow2(w) - Pow2(k)), Pow2(k))
  {
    Pow2Monotone(k, w);
    if k == 0 {
      AndAllOnes(a, w);
      assert Times(a, 1) == a;
    } else {
      AndHigh(a / 2, k - 1, w - 1);
      AndEven(a, Pow2(w - 1) - Pow2(k - 1));
      MultipleScaled(And(a / 2, Pow2(w - 1) - Pow2(k - 1)), Pow2(k - 1), 2);
    }
  }

  lemma AndEven(a: nat, m: nat)
    ensures And(a, 2 * m) == 2 * And(a / 2, m)
  {
    if a > 0 && m > 0 {
      assert 2 * m / 2 == m && 2 * m % 2 == 0;
    }
  }

  /** Setting the last k bits, instead of clearing them. */
  lemma {:induction false} OrLow(a: nat, k: nat)
    ensures exists m: nat :: Cleared(a, m, Pow2(k)) && Or(a, Pow2(k) - 1) == m + Pow2(k) - 1
  {
    if k == 0 {
      assert Times(a, 1) == a && Cleared(a, a, Pow2(0));
    } else {
      OrLow(a / 2, k - 1);
      var m: nat :| Cleared(a / 2, m, Pow2(k - 1)) && Or(a / 2, Pow2(k - 1) - 1) == m + Pow2(k - 1) - 1;
      MultipleScaled(m, Pow2(k - 1), 2);
      OrOdd(a, Pow2(k - 1) - 1);
      assert Cleared(a, 2 * m, Pow2(k));
    }
  }

  lemma OrOdd(a: nat, m: nat)
    ensures Or(a, 2 * m + 1) == 2 * Or(a / 2, m) + 1
  {
  }

  // ---------- masks ----------

  lemma EightBits()
    ensures Pow2(8) == 256
  {
  }

  /** A number of bits of a byte. */
  type BitCount = k: int | 0 <= k <= 8

  /** How many leading ones byte i of the mask of a prefix of length n has. */
  function Ones(n: nat, i: nat): BitCount {
    if n <= 8 * i then 0 else if n - 8 * i >= 8 then 8 else n - 8 * i
  }

  function MaskByte(ones: BitCount): Byte {
    EightBits();
    Pow2Monotone(8 - ones, 8);
    256 - Pow2(8 - ones)
  }

  function AndByte(a: Byte, ones: BitCount): Byte {
    AndMask(a, 8 - ones);
    And(a, MaskByte(ones))
  }

  function OrByte(a: Byte, ones: BitCount): (r: Byte)
    ensures r == AndByte(a, ones) + Pow2(8 - ones) - 1
  {
    AndByteClears(a, ones);
    OrByteMeaning(a, 8 - ones, AndByte(a, ones));
    Or(a, 255 - MaskByte(ones))
  }

  lemma AndMask(a: Byte, h: BitCount)
    ensures Cleared(a, And(a, MaskByte(8 - h)), Pow2(h))
  {
    EightBits();
    AndHigh(a, h, 8);
  }

  lemma AndByteClears(a: Byte, ones: BitCount)
    ensures Cleared(a, AndByte(a, ones), Pow2(8 - ones))
  {
    AndMask(a, 8 - ones);
  }

  lemma OrByteMeaning(a: Byte, h: BitCount, m: nat)
    requires Cleared(a, m, Pow2(h))
    ensures Or(a, 255 - MaskByte(8 - h)) == m + Pow2(h) - 1 < 256
  {
    OrLow(a, h);
    var m': nat :| Cleared(a, m', Pow2(h)) && Or(a, Pow2(h) - 1) == m' + Pow2(h) - 1;
    ClearedUnique(a, m, m', Pow2(h));
    EightBits();
    PowersDivide(h, 8);
    MultipleGap(m, 256, Pow2(h));
  }

  /** The address with its host bits cleared, byte by byte. */
  function Masked(b: seq<Byte>, n: nat): (m: seq<Byte>)
    ensures |m| == |b| && forall i | 0 <= i < |b| :: m[i] == AndByte(b[i], Ones(n, i))
  {
    seq(|b|, i requires 0 <= i < |b| => AndByte(b[i], Ones(n, i)))
  }

  /** IPNet.Contains: the masked bytes are the same. */
  predicate Contains(base: seq<Byte>, n: nat, ip: seq<Byte>)
    requires |base| == |ip|
  {
    Masked(base, n) == Masked(ip, n)
  }

  /** Clearing the host bits of every byte clears those of the number. */
  lemma {:induction false} ClearedBytes(b: seq<Byte>, m: seq<Byte>, n: nat)
    requires |b| == |m| && n <= 8 * |b|
    requires forall i | 0 <= i < |b| :: Cleared(b[i], m[i], Pow2(8 - Ones(n, i)))
    ensures Cleared(Value(b), Value(m), Pow2(8 * |b| - n))
  {
    if b == [] {
      MultipleSelf(1);
    } else {
      var k := |b| - 1;
      assert Cleared(b[k], m[k], Pow2(8 - Ones(n, k)));
      if n <= 8 * k {
        ClearedBytes(b[..k], m[..k], n);
        HostByte(Value(b[..k]), Value(m[..k]), b[k], m[k], 8 * k - n);
      } else {
        NetworkBytes(b[..k], m[..k], n);
        NetworkByte(Value(b[..k]), b[k], m[k], 8 * |b| - n);
      }
    }
  }

  lemma NetworkBytes(b: seq<Byte>, m: seq<Byte>, n: nat)
    requires |b| == |m| && 8 * |b| <= n
    requires forall i | 0 <= i < |b| :: Cleared(b[i], m[i], Pow2(8 - Ones(n, i)))
    ensures b == m
  {
    forall i | 0 <= i < |b| ensures b[i] == m[i] {
      assert Ones(n, i) == 8 && Cleared(b[i], m[i], Pow2(0));
    }
  }

  /** A last byte that holds at least one network bit. */
  lemma NetworkByte(x: nat, b: Byte, m: Byte, h: nat)
    requires h < 8 && Cleared(b, m, Pow2(h))
    ensures Cleared(256 * x + b, 256 * x + m, Pow2(h))
  {
    EightBits();
    PowersDivide(h, 8);
    MultipleScaled(256, Pow2(h), x);
    MultipleSum(256 * x, m, Pow2(h));
  }

  /** A last byte that holds only host bits. */
  lemma HostByte(x: nat, y: nat, b: Byte, m: Byte, h: nat)
    requires Cleared(x, y, Pow2(h)) && Cleared(b, m, Pow2(8))
    ensures Cleared(256 * x + b, 256 * y + m, Pow2(h + 8))
  {
    EightBits();
    MultipleSelf(256);
    ClearedUnique(b, m, 0, 256);
    Pow2Eight(h);
    MultipleScaled(y, Pow2(h), 256);
  }

  /** Setting the host bits of every byte adds all that the host bits can hold. */
  lemma {:induction false} FilledBytes(m: seq<Byte>, f: seq<Byte>, n: nat)
    requires |m| == |f| && n <= 8 * |m|
    requires forall i | 0 <= i < |m| :: f[i] == m[i] + Pow2(8 - Ones(n, i)) - 1
    ensures Value(f) == Value(m) + Pow2(8 * |m| - n) - 1
  {
    if m != [] {
      var k := |m| - 1;
      if n <= 8 * k {
        FilledBytes(m[..k], f[..k], n);
        EightBits();
        Pow2Eight(8 * k - n);
      } else {
        assert forall i | 0 <= i < k :: f[i] == m[i] + Pow2(0) - 1;
        assert f[..k] == m[..k];
      }
    }
  }

  /** The lowest address of the subnet that `base` lies in. */
  function Low(base: seq<Byte>, n: nat): nat { Value(Masked(base, n)) }

  /** The number of addresses of a subnet. */
  function Size(base: seq<Byte>, n: nat): nat
    requires n <= 8 * |base|
  {
    Pow2(8 * |base| - n)
  }

  /** The base address of a subnet has no host bits set. */
  ghost predicate Aligned(base: seq<Byte>, n: nat)
    requires n <= 8 * |base|
  {
    Multiple(Value(base), Pow2(8 * |base| - n))
  }

  lemma MaskedValue(b: seq<Byte>, n: nat)
    requires n <= 8 * |b|
    ensures Cleared(Value(b), Value(Masked(b, n)), Pow2(8 * |b| - n))
  {
    forall i | 0 <= i < |b| ensures Cleared(b[i], Masked(b, n)[i], Pow2(8 - Ones(n, i))) {
      AndByteClears(b[i], Ones(n, i));
    }
    ClearedBytes(b, Masked(b, n), n);
  }

  /** What is left of a number that is not a base is what its remainder is cut off from. */
  lemma MaskedRemainder(b: seq<Byte>, n: nat)
    requires n <= 8 * |b|
    ensures Value(Masked(b, n)) == Value(b) - Value(b) % Pow2(8 * |b| - n)
  {
    MaskedValue(b, n);
    ClearedIsMod(Value(b), Value(Masked(b, n)), Pow2(8 * |b| - n));
  }

  lemma MaskedBase(base: seq<Byte>, n: nat)
    requires n <= 8 * |base| && Aligned(base, n)
    ensures Value(Masked(base, n)) == Value(base)
  {
    MaskedValue(base, n);
    ClearedUnique(Value(base), Value(base), Value(Masked(base, n)), Pow2(8 * |base| - n));
  }

  /** Containment is an interval of numbers that starts at the masked base. */
  lemma ContainsInterval(base: seq<Byte>, n: nat, ip: seq<Byte>)
    requires |base| == |ip| && n <= 8 * |base|
    ensures Contains(base, n, ip) <==> Low(base, n) <= Value(ip) < Low(base, n) + Size(base, n)
  {
    MaskedValue(base, n);
    MaskedValue(ip, n);
    DifferentAddress(Masked(base, n), Masked(ip, n));
    if Low(base, n) <= Value(ip) < Low(base, n) + Size(base, n) {
      ClearedUnique(Value(ip), Low(base, n), Value(Masked(ip, n)), Size(base, n));
    }
  }

  /** The last address of the subnet that `base` lies in. */
  method GetBroadcastIP(base: seq<Byte>, n: nat) returns (broadcast: seq<Byte>)
    requires n <= 8 * |base|
    ensures |broadcast| == |base|
    ensures Value(broadcast) == Low(base, n) + Size(base, n) - 1
    ensures Aligned(base, n) ==> Value(broadcast) == Value(base) + Size(base, n) - 1
  {
    var a := new Byte[|base|](i requires 0 <= i < |base| => base[i]);
    for i := 0 to |base|
      invariant forall k | 0 <= k < i :: a[k] == OrByte(base[k], Ones(n, k))
      invariant forall k | i <= k < |base| :: a[k] == base[k]
    {
      a[i] := OrByte(a[i], Ones(n, i));
    }
    broadcast := a[..];
    BroadcastValue(base, n, broadcast);
  }

  lemma BroadcastValue(base: seq<Byte>, n: nat, f: seq<Byte>)
    requires n <= 8 * |base| && |f| == |base| && forall k | 0 <= k < |base| :: f[k] == OrByte(base[k], Ones(n, k))
    ensures Value(f) == Low(base, n) + Size(base, n) - 1
    ensures Aligned(base, n) ==> Value(f) == Value(base) + Size(base, n) - 1
  {
    FilledMask(base, n, f, Masked(base, n));
    if Aligned(base, n) {
      MaskedBase(base, n);
    }
  }

  lemma FilledMask(base: seq<Byte>, n: nat, f: seq<Byte>, m: seq<Byte>)
    requires |base| == |m| == |f| && n <= 8 * |base|
    requires forall k | 0 <= k < |base| :: f[k] == OrByte(base[k], Ones(n, k)) && m[k] == AndByte(base[k], Ones(n, k))
    ensures Value(f) == Value(m) + Pow2(8 * |base| - n) - 1
  {
    forall k | 0 <= k < |m| ensures f[k] == m[k] + Pow2(8 - Ones(n, k)) - 1 {
      assert f[k] == OrByte(base[k], Ones(n, k));
    }
    FilledBytes(m, f, n);
  }

  // ---------- the hosts of a subnet ----------

  /** Plus one, around the end of the address space. */
  function NextValue(b: seq<Byte>): nat { if Value(b) + 1 == Pow2(8 * |b|) then 0 else Value(b) + 1 }

  /** What the enumeration of a subnet is about. */
  datatype Plan = Plan(low: nat, size: nat, base: nat, gateway: nat, excludeGateway: bool, excludeBroadcast: bool)

  function PlanOf(base: seq<Byte>, n: nat, excludeGateway: bool, excludeBroadcast: bool): Plan
    requires n <= 8 * |base|
  {
    Plan(Low(base, n), Size(base, n), Value(base), NextValue(base), excludeGateway, excludeBroadcast)
  }

  function Highest(p: Plan): int { p.low + p.size - 1 }

  /** The addresses to hand out: those of the subnet except its lowest, its base and, on request, the
      gateway, which follows the base, and the broadcast address, which is the highest. */
  predicate IsHost(p: Plan, v: int) {
    && p.low < v <= Highest(p) && v != p.base
    && (p.excludeGateway ==> v != p.gateway)
    && (p.excludeBroadcast ==> v != Highest(p))
  }

  function Values(ips: seq<seq<Byte>>): seq<nat> { seq(|ips|, i requires 0 <= i < |ips| => Value(ips[i])) }

  predicate Increasing(vs: seq<nat>) { forall i, j | 0 <= i < j < |vs| :: vs[i] < vs[j] }

  /** In increasing order, the hosts up to `upTo`. */
  ghost predicate NumbersUpTo(vs: seq<nat>, p: Plan, upTo: int) {
    Increasing(vs) && forall v: nat :: v in vs <==> IsHost(p, v) && v <= upTo
  }

  predicate Lengths(ips: seq<seq<Byte>>, length: nat) { forall i | 0 <= i < |ips| :: |ips[i]| == length }

  ghost predicate HostsUpTo(ips: seq<seq<Byte>>, length: nat, p: Plan, upTo: int) {
    Lengths(ips, length) && NumbersUpTo(Values(ips), p, upTo)
  }

  /** All hosts of a subnet.  Byte strings of any length, and bases with host bits, included. */
  method IpsInSubnet(base: seq<Byte>, n: nat, excludeGateway: bool, excludeBroadcast: bool)
    returns (ips: seq<seq<Byte>>)
    requires 1 <= n <= 8 * |base|
    ensures var p := PlanOf(base, n, excludeGateway, excludeBroadcast); HostsUpTo(ips, |base|, p, Highest(p))
  {
    ghost var p := PlanOf(base, n, excludeGateway, excludeBroadcast);
    ips := [];
    var gateway := NextIP(base);
    var broadcast := GetBroadcastIP(base, n);
    var ip := Masked(base, n);
    while true
      invariant |ip| == |base| && Underway(ips, |base|, p, Value(ip))
      decreases p.low + p.size - Value(ip)
    {
      ghost var last := ip;
      ip := NextIP(ip);
      Turn(ips, base, n, p, last, ip, gateway, broadcast);
      if !Contains(base, n, ip) {
        break;
      }
      if ip == base {
        continue;
      }
      if excludeGateway && ip == gateway {
        continue;
      }
      if excludeBroadcast && ip == broadcast {
        continue;
      }
      ips := ips + [ip];
    }
  }

  /** The enumeration has reached `v`. */
  ghost predicate Underway(ips: seq<seq<Byte>>, length: nat, p: Plan, v: int) {
    p.low <= v <= Highest(p) && HostsUpTo(ips, length, p, v)
  }

  /** One turn: the enumeration ends with all hosts, or goes on with the next address. */
  lemma Turn(ips: seq<seq<Byte>>, base: seq<Byte>, n: nat, p: Plan, ip: seq<Byte>, next: seq<Byte>,
             gateway: seq<Byte>, broadcast: seq<Byte>)
    requires |base| == |ip| == |next| == |gateway| == |broadcast| && 1 <= n <= 8 * |base|
    requires p == PlanOf(base, n, p.excludeGateway, p.excludeBroadcast) && Underway(ips, |base|, p, Value(ip))
    requires Value(next) == NextValue(ip) && Value(gateway) == p.gateway && Value(broadcast) == Highest(p)
    ensures !Contains(base, n, next) ==> HostsUpTo(ips, |base|, p, Highest(p))
    ensures Contains(base, n, next) ==>
              && IsHost(p, Value(next)) == !(next == base || (p.excludeGateway && next == gateway)
                                             || (p.excludeBroadcast && next == broadcast))
              && Underway(if IsHost(p, Value(next)) then ips + [next] else ips, |base|, p, Value(next))
              && Value(next) > Value(ip)
  {
    StepInSubnet(base, n, ip, next);
    DifferentAddress(next, base);
    DifferentAddress(next, gateway);
    DifferentAddress(next, broadcast);
    if Contains(base, n, next) {
      HostsStep(ips, p, next);
    }
  }

  /** The next address up is listed if it is a host. */
  lemma HostsStep(ips: seq<seq<Byte>>, p: Plan, ip: seq<Byte>)
    requires HostsUpTo(ips, |ip|, p, Value(ip) - 1)
    ensures HostsUpTo(if IsHost(p, Value(ip)) then ips + [ip] else ips, |ip|, p, Value(ip))
  {
    var vs, v := Values(ips), Value(ip);
    NumbersStep(vs, p, v);
    if IsHost(p, v) {
      ValuesOneMore(ips, ip);
      assert NumbersUpTo(Values(ips + [ip]), p, v);
    }
  }

  lemma ValuesOneMore(ips: seq<seq<Byte>>, ip: seq<Byte>)
    ensures Values(ips + [ip]) == Values(ips) + [Value(ip)]
  {
  }

  lemma NumbersStep(vs: seq<nat>, p: Plan, v: nat)
    requires NumbersUpTo(vs, p, v - 1)
    ensures NumbersUpTo(if IsHost(p, v) then vs + [v] else vs, p, v)
  {
    assert forall i | 0 <= i < |vs| :: vs[i] in vs;
  }

  lemma DifferentAddress(a: seq<Byte>, b: seq<Byte>)
    requires |a| == |b|
    ensures a != b ==> Value(a) != Value(b)
  {
    if Value(a) == Value(b) {
      ValueInjective(a, b);
    }
  }

  /** A subnet lies inside the address space, and is not all of it. */
  lemma SizeFits(base: seq<Byte>, n: nat)
    requires 1 <= n <= 8 * |base|
    ensures Low(base, n) + Size(base, n) <= Pow2(8 * |base|) && Size(base, n) < Pow2(8 * |base|)
  {
    MaskedValue(base, n);
    ValueBound(base);
    BlockFits(Value(base), Low(base, n), 8 * |base| - n, 8 * |base|);
  }

  lemma BlockFits(v: nat, low: nat, h: nat, w: nat)
    requires h < w && v < Pow2(w) && Cleared(v, low, Pow2(h))
    ensures low + Pow2(h) <= Pow2(w) && Pow2(h) < Pow2(w)
  {
    PowersDivide(h, w);
    MultipleGap(low, Pow2(w), Pow2(h));
    Pow2Monotone(h, w - 1);
  }

  /** Where the address after `ip` lies, whatever wraps around. */
  lemma StepInSubnet(base: seq<Byte>, n: nat, ip: seq<Byte>, next: seq<Byte>)
    requires |base| == |ip| == |next| && 1 <= n <= 8 * |base|
    requires Low(base, n) <= Value(ip) < Low(base, n) + Size(base, n) && Value(next) == NextValue(ip)
    ensures Contains(base, n, next) <==> Value(ip) + 1 < Low(base, n) + Size(base, n)
    ensures Contains(base, n, next) ==> Value(next) == Value(ip) + 1
  {
    ContainsInterval(base, n, next);
    SizeFits(base, n);
  }

  /** The hosts of a proper subnet as the pool asks for them: everything but the network address, the
      one after it and the last. */
  lemma ProperHosts(base: seq<Byte>, n: nat, v: nat)
    requires 1 <= n <= 8 * |base| && Aligned(base, n)
    ensures IsHost(PlanOf(base, n, true, true), v) <==> Value(base) + 1 < v < Value(base) + Size(base, n) - 1
  {
    MaskedBase(base, n);
    SizeFits(base, n);
  }

  /** As the pool calls it, for a proper base: everything but the network address, the one after
      it and the last. */
  lemma PoolHosts(ips: seq<seq<Byte>>, base: seq<Byte>, n: nat)
    requires 1 <= n <= 8 * |base| && Aligned(base, n)
    requires HostsUpTo(ips, |base|, PlanOf(base, n, true, true), Low(base, n) + Size(base, n) - 1)
    ensures |ips| == if Size(base, n) <= 3 then 0 else Size(base, n) - 3
    ensures forall i | 0 <= i < |ips| :: Value(ips[i]) == Value(base) + 2 + i
    ensures forall v: nat :: v in Values(ips) <==> Value(base) + 1 < v < Value(base) + Size(base, n) - 1
  {
    MaskedBase(base, n);
    forall v: nat ensures v in Values(ips) <==> Value(base) + 2 <= v < Value(base) + Size(base, n) - 1 {
      ProperHosts(base, n, v);
    }
    IntervalListing(Values(ips), Value(base) + 2, Value(base) + Size(base, n) - 1);
    assert forall i | 0 <= i < |ips| :: Values(ips)[i] == Value(ips[i]);
  }

  /** An increasing list of all numbers of an interval. */
  lemma {:induction false} IntervalListing(vs: seq<nat>, from: nat, to: int)
    requires Increasing(vs) && forall v: nat :: v in vs <==> from <= v < to
    ensures |vs| == if from < to then to - from else 0
    ensures forall i | 0 <= i < |vs| :: vs[i] == from + i
  {
    if vs == [] {
      assert from !in vs;
    } else {
      var k := |vs| - 1;
      assert vs[k] in vs;
      var top: nat := to - 1;
      assert top in vs;
      assert vs == vs[..k] + [vs[k]] && vs[k] == top;
      forall v: nat ensures v in vs[..k] <==> from <= v < top {
        assert v in vs[..k] <==> v in vs && v != vs[k];
      }
      IntervalListing(vs[..k], from, top);
    }
  }

  lemma EightBitsFourTimes()
    ensures Pow2(32) == 0x1_0000_0000
  {
    EightBits();
    Pow2Eight(8);
    Pow2Eight(16);
    Pow2Eight(24);
  }

  /** Four bytes are a 32-bit number. */
  lemma FourBytes(b: seq<Byte>)
    requires |b| == 4
    ensures Value(b) < 0x1_0000_0000
  {
    ValueBound(b);
    EightBitsFourTimes();
  }

  /** With the prefix length 0 the enumeration would never end: every address is contained. */
  lemma WholeSpaceContainsAll(base: seq<Byte>, ip: seq<Byte>)
    requires |base| == |ip|
    ensures Contains(base, 0, ip)
  {
    ContainsInterval(base, 0, ip);
    ValueBound(ip);
    ValueBound(base);
    MaskedValue(base, 0);
    MultipleSelf(Size(base, 0));
    ClearedUnique(Value(base), Low(base, 0), 0, Size(base, 0));
  }

  // ---------- text ----------

  /** The dotted text of four bytes, most significant first. */
  function Dotted(b: seq<Byte>): string
    requires |b| == 4
  {
    Text.Format(b[0]) + "." + Text.Format(b[1]) + "." + Text.Format(b[2]) + "." + Text.Format(b[3])
  }

  lemma ValueOfFour(b: seq<Byte>)
    requires |b| == 4
    ensures Value(b) == Text.FromOctets(b[0], b[1], b[2], b[3])
  {
    assert b[..3][..2] == b[..2] && b[..2][..1] == b[..1] && b[..1][..0] == [];
    assert Value(b) == 256 * Value(b[..3]) + b[3];
    assert Value(b[..3]) == 256 * Value(b[..2]) + b[2];
    assert Value(b[..2]) == 256 * Value(b[..1]) + b[1];
    assert Value(b[..1]) == 256 * Value(b[..0]) + b[0];
  }

  lemma FormattedBytes(b: seq<Byte>)
    requires |b| == 4
    ensures Value(b) < 0x1_0000_0000 && Text.FormatIp(Value(b)) == Dotted(b)
  {
    ValueOfFour(b);
    Text.OctetsOf(b[0], b[1], b[2], b[3]);
    var p := [Text.Format(b[0]), Text.Format(b[1]), Text.Format(b[2]), Text.Format(b[3])];
    assert p[0] + "." + (p[1] + "." + (p[2] + "." + p[3])) == p[0] + "." + p[1] + "." + p[2] + "." + p[3];
  }

  lemma SplitDotted(a: string, b: string, c: string, d: string)
    requires '.' !in a && '.' !in b && '.' !in c && '.' !in d
    ensures Text.Split(a + "." + b + "." + c + "." + d, '.') == [a, b, c, d]
  {
    assert a + "." + b + "." + c + "." + d == a + "." + (b + "." + (c + "." + d));
    Text.SplitFour(a, b, c, d, '.');
  }

  /** An address is written as the decimal texts of its bytes in order, and read back from exactly
      that text. */
  lemma TextOfBytes(b: seq<Byte>, s: string)
    requires |b| == 4
    ensures Value(b) < 0x1_0000_0000 && Text.FormatIp(Value(b)) == Dotted(b)
    ensures Text.Split(Dotted(b), '.') == [Text.Format(b[0]), Text.Format(b[1]), Text.Format(b[2]), Text.Format(b[3])]
    ensures Text.ParseIp(s) == Some(Value(b)) <==> s == Dotted(b)
  {
    FormattedBytes(b);
    Text.ParseIpIff(s, Value(b));
    Text.FormatIsOctet(b[0]);
    Text.FormatIsOctet(b[1]);
    Text.FormatIsOctet(b[2]);
    Text.FormatIsOctet(b[3]);
    SplitDotted(Text.Format(b[0]), Text.Format(b[1]), Text.Format(b[2]), Text.Format(b[3]));
  }

  lemma BytesMakeValue(a: Byte, b: Byte, c: Byte, d: Byte)
    ensures Value([a, b, c, d]) == Text.FromOctets(a, b, c, d)
  {
    ValueOfFour([a, b, c, d]);
  }

  /** Every address is the value of four bytes. */
  lemma BytesOf(ip: Text.Ip) returns (b: seq<Byte>)
    ensures |b| == 4 && Value(b) == ip
  {
    Text.OctetsMakeIp(ip);
    var o0, o1, o2, o3 := Text.Octet(ip, 0), Text.Octet(ip, 1), Text.Octet(ip, 2), Text.Octet(ip, 3);
    BytesMakeValue(o0, o1, o2, o3);
    b := [o0, o1, o2, o3];
  }
}
