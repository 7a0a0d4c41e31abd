/**
 How the address space is cut into subnets of the pool size, and how many there are.
 */
module Subnets {
  import opened Common
  import opened Ipv4
  import opened SubnetProtocol

  function Size(s: Subnet): nat
    requires s.prefixLength <= 32
  {
    Pow2(32 - s.prefixLength)
  }

  predicate Covers(s: Subnet, v: int)
    requires s.prefixLength <= 32
  {
    s.base <= v < s.base + Size(s)
  }

  /** A subnet in the 32-bit address space, without host bits in its base. */
  ghost predicate Proper(s: Subnet) {
    s.prefixLength <= 32 && Multiple(s.base, Size(s)) && s.base + Size(s) <= 0x1_0000_0000
  }

  ghost predicate Disjoint(a: Subnet, b: Subnet)
    requires a.prefixLength <= 32 && b.prefixLength <= 32
  {
    forall v :: !(Covers(a, v) && Covers(b, v))
  }

  predicate PrefixesFit(s: seq<Subnet>) { forall i | 0 <= i < |s| :: s[i].prefixLength <= 32 }

  ghost predicate PairwiseDisjoint(s: seq<Subnet>)
    requires PrefixesFit(s)
  {
    forall i, j | 0 <= i < j < |s| :: Disjoint(s[i], s[j])
  }

  /** One shifted left as a 64-bit signed number; the count is taken as unsigned. */
  function ShiftOne(count: int): int {
    if 0 <= count <= 62 then Pow2(count) else if count == 63 then -0x8000_0000_0000_0000 else 0
  }

  /** Subnet number `num` after extending the prefix of `base` by `newBits` bits. */
  function CidrSubnet(base: Subnet, newBits: nat, num: nat): Option<Subnet> {
    var length := base.prefixLength + newBits;
    if length > 32 then None else Some(Subnet(base.base + Times(num, Pow2(32 - length)), length))
  }

  /** The first `count` subnets of length `poolSize` from the start of `base` on. */
  function Pieces(base: Subnet, poolSize: nat, count: nat): (r: seq<Subnet>)
    requires poolSize <= 32
    ensures PrefixesFit(r)
  {
    seq(count, i requires 0 <= i < count => Subnet(base.base + Times(i, Pow2(32 - poolSize)), poolSize))
  }

  function PiecesOf(base: Subnet, poolSize: int): (r: seq<Subnet>)
    requires poolSize <= 32
    ensures PrefixesFit(r)
  {
    if base.prefixLength > poolSize then [] else Pieces(base, poolSize, Pow2(poolSize - base.prefixLength))
  }

  function AllPieces(available: seq<Subnet>, poolSize: int): (r: seq<Subnet>)
    requires poolSize <= 32
    ensures PrefixesFit(r)
  {
    if available == [] then []
    else AllPieces(available[..|available| - 1], poolSize) + PiecesOf(available[|available| - 1], poolSize)
  }

  /** A base for which the library call is made, and refuses. */
  predicate Refused(base: Subnet, poolSize: int) {
    poolSize > 32 && 0 <= poolSize - base.prefixLength <= 62
  }

  function GeneratedFrom(base: Subnet, poolSize: int): seq<Subnet> {
    if poolSize <= 32 then PiecesOf(base, poolSize) else []
  }

  function Generated(available: seq<Subnet>, poolSize: int): seq<Subnet> {
    if poolSize <= 32 then AllPieces(available, poolSize) else []
  }

  lemma GeneratedNext(available: seq<Subnet>, k: nat, poolSize: int)
    requires k < |available|
    ensures Generated(available[..k + 1], poolSize) ==
        Generated(available[..k], poolSize) + GeneratedFrom(available[k], poolSize)
  {
    assert available[..k + 1][..k] == available[..k];
  }

  /** The inner loop, for one base. */
  method SubnetsOf(base: Subnet, poolSize: int) returns (r: Option<seq<Subnet>>)
    ensures r.None? <==> Refused(base, poolSize)
    ensures r.Some? ==> r.value == GeneratedFrom(base, poolSize)
  {
    var all: seq<Subnet> := [];
    var numSubnets := ShiftOne(poolSize - base.prefixLength);
    var i := 0;
    while i < numSubnets
      invariant 0 <= i && (i > 0 ==> poolSize <= 32 && i <= numSubnets)
      invariant all == if poolSize <= 32 && i > 0 then Pieces(base, poolSize, i) else []
      decreases numSubnets - i
    {
      match CidrSubnet(base, poolSize - base.prefixLength, i)
      case None =>
        return None;
      case Some(subnet) =>
        all := all + [subnet];
        i := i + 1;
    }
    return Some(all);
  }

  method GenerateAllSubnets(available: seq<Subnet>, poolSize: int) returns (r: Option<seq<Subnet>>)
    requires PrefixesFit(available)
    ensures r.None? <==> exists i :: 0 <= i < |available| && Refused(available[i], poolSize)
    ensures poolSize <= 32 ==> r == Some(AllPieces(available, poolSize))
    ensures poolSize > 32 && r.Some? ==> r.value == []
  {
    var all: seq<Subnet> := [];
    for k := 0 to |available|
      invariant forall i | 0 <= i < k :: !Refused(available[i], poolSize)
      invariant all == Generated(available[..k], poolSize)
    {
      var base := available[k];
      var pieces := SubnetsOf(base, poolSize);
      if pieces.None? {
        assert Refused(available[k], poolSize);
        return None;
      }
      all := all + pieces.value;
      GeneratedNext(available, k, poolSize);
    }
    assert available[..|available|] == available;
    return Some(all);
  }

  function PieceCount(available: seq<Subnet>, poolSize: int): int {
    if available == [] then 0
    else
      var base := available[|available| - 1];
      PieceCount(available[..|available| - 1], poolSize)
      + (if base.prefixLength > poolSize then 0 else ShiftOne(poolSize - base.prefixLength))
  }

  /** A network with the width of its addresses, 32 bits or more. */
  datatype Net = Net(subnet: Subnet, bits: nat)

  /** The IPv4 networks of a list. */
  function OnlyIpv4(space: seq<Net>): seq<Subnet> {
    if space == [] then []
    else
      OnlyIpv4(space[..|space| - 1]) + (if space[|space| - 1].bits == 32 then [space[|space| - 1].subnet] else [])
  }

  lemma CountOneMore(space: seq<Net>, poolSize: int)
    requires space != []
    ensures var net := space[|space| - 1];
            PieceCount(OnlyIpv4(space), poolSize) ==
            PieceCount(OnlyIpv4(space[..|space| - 1]), poolSize)
            + (if net.subnet.prefixLength > poolSize || net.bits != 32 then 0
               else ShiftOne(poolSize - net.subnet.prefixLength))
  {
    var init := OnlyIpv4(space[..|space| - 1]);
    if space[|space| - 1].bits == 32 {
      assert OnlyIpv4(space)[..|init|] == init;
    } else {
      assert OnlyIpv4(space) == init;
    }
  }

  method CountPoolSizeSubnets(space: seq<Net>, poolSize: int) returns (total: int)
    requires PrefixesFit(OnlyIpv4(space))
    ensures total == PieceCount(OnlyIpv4(space), poolSize)
    ensures poolSize <= 32 ==> total == |AllPieces(OnlyIpv4(space), poolSize)|
  {
    total := 0;
    for k := 0 to |space|
      invariant total == PieceCount(OnlyIpv4(space[..k]), poolSize)
    {
      assert space[..k + 1][..k] == space[..k];
      CountOneMore(space[..k + 1], poolSize);
      if space[k].subnet.prefixLength > poolSize || space[k].bits != 32 {
        continue;
      }
      var delta := poolSize - space[k].subnet.prefixLength;
      var subnets := ShiftOne(delta);
      total := total + subnets;
    }
    assert space[..|space|] == space;
    if poolSize <= 32 {
      CountMatches(OnlyIpv4(space), poolSize);
    }
  }

  lemma {:induction false} CountMatches(available: seq<Subnet>, poolSize: int)
    requires poolSize <= 32 && PrefixesFit(available)
    ensures PieceCount(available, poolSize) == |AllPieces(available, poolSize)|
  {
    if available != [] {
      CountMatches(available[..|available| - 1], poolSize);
    }
  }

  /** The pieces of a list come base by base. */
  lemma GeneratedInOrder(a: seq<Subnet>, b: seq<Subnet>, poolSize: int)
    requires poolSize <= 32
    ensures AllPieces(a + b, poolSize) == AllPieces(a, poolSize) + AllPieces(b, poolSize)
  {
    forall s: seq<Subnet>, base
      ensures AllPieces(s + [base], poolSize) == AllPieces(s, poolSize) + PiecesOf(base, poolSize)
    {
      assert (s + [base])[..|s|] == s;
    }
    ListByList((s: seq<Subnet>) => AllPieces(s, poolSize), (base: Subnet) => PiecesOf(base, poolSize), a, b);
  }

  /** What is made element by element is made list by list. */
  lemma {:induction false} ListByList(
    all: seq<Subnet> -> seq<Subnet>, one: Subnet -> seq<Subnet>, a: seq<Subnet>, b: seq<Subnet>)
    requires all([]) == [] && forall s, base :: all(s + [base]) == all(s) + one(base)
    ensures all(a + b) == all(a) + all(b)
  {
    if b == [] {
      assert a + b == a;
    } else {
      var init, last := b[..|b| - 1], b[|b| - 1];
      ListByList(all, one, a, init);
      assert b == init + [last] && a + b == (a + init) + [last];
    }
  }

  /** The pieces of one base follow each other, from its start on, as many as fit. */
  lemma PiecesInOrder(base: Subnet, poolSize: int, i: nat)
    requires base.prefixLength <= poolSize <= 32 && i < |PiecesOf(base, poolSize)|
    ensures AllPieces([base], poolSize) == PiecesOf(base, poolSize)
    ensures |PiecesOf(base, poolSize)| == Pow2(poolSize - base.prefixLength)
    ensures Follows(base, PiecesOf(base, poolSize), i)
  {
    assert [base][..0] == [];
    PieceFollows(base, poolSize, Pow2(poolSize - base.prefixLength), i);
  }

  /** Piece i starts where the one before it ends, the first one where the base starts. */
  predicate Follows(base: Subnet, pieces: seq<Subnet>, i: nat)
    requires i < |pieces| && PrefixesFit(pieces)
  {
    pieces[i].base == if i == 0 then base.base else pieces[i - 1].base + Size(pieces[i - 1])
  }

  lemma PieceFollows(base: Subnet, poolSize: nat, count: nat, i: nat)
    requires poolSize <= 32 && i < count
    ensures Follows(base, Pieces(base, poolSize, count), i)
  {
    if i > 0 {
      TimesNext(i, Pow2(32 - poolSize));
    }
  }

  lemma TimesNext(i: nat, p: nat)
    requires i > 0
    ensures Times(i, p) == Times(i - 1, p) + p
  {
  }

  /** The shift is that of a signed 64-bit number: two to the count, modulo 2^64. */
  lemma ShiftWraps(count: nat)
    ensures -0x8000_0000_0000_0000 <= ShiftOne(count) < 0x8000_0000_0000_0000
    ensures exists q: nat :: Pow2(count) == ShiftOne(count) + Times(q, Pow2(64))
  {
    assert Pow2(63) == 0x8000_0000_0000_0000 by { PowersOf64(); }
    if count <= 62 {
      Pow2Monotone(count, 62);
      assert Pow2(63) == 2 * Pow2(62);
      assert Times(0, Pow2(64)) == 0;
    } else if count == 63 {
      assert Pow2(64) == 2 * Pow2(63);
      assert Times(1, Pow2(64)) == Pow2(64);
    } else {
      Pow2Sum(count - 64, 64);
    }
  }

  lemma PowersOf64()
    ensures Pow2(63) == 0x8000_0000_0000_0000
  {
    assert Pow2(7) == 128;
    Pow2Eight(7);
    Pow2Eight(15);
    Pow2Eight(23);
    Pow2Eight(31);
    Pow2Eight(39);
    Pow2Eight(47);
    Pow2Eight(55);
  }

  // ---------- the pieces of one base ----------

  lemma {:induction false} Pow2Sum(a: nat, b: nat)
    ensures Pow2(a + b) == Times(Pow2(a), Pow2(b))
  {
    if a > 0 {
      Pow2Sum(a - 1, b);
      TwiceTimes(Pow2(a - 1), Pow2(b));
    }
  }

  lemma TwiceTimes(q: nat, p: nat)
    ensures Times(2 * q, p) == 2 * Times(q, p)
  {
  }

  lemma TimesMonotone(q: nat, r: nat, p: nat)
    requires q < r
    ensures Times(q, p) + p <= Times(r, p)
  {
    assert Times(r, p) == Times(q, p) + p + Times(r - q - 1, p);
  }

  /** A number below n times p lies in exactly one of n blocks of size p. */
  lemma InOneBlock(d: nat, p: nat, n: nat)
    requires p > 0
    ensures d < Times(n, p) ==> exists i :: 0 <= i < n && Times(i, p) <= d < Times(i, p) + p
  {
    var i := d / p;
    assert d == Times(i, p) + d % p;
    if i >= n {
      TimesAtLeast(i, n, p);
    }
  }

  lemma TimesAtLeast(q: nat, r: nat, p: nat)
    requires q >= r
    ensures Times(q, p) >= Times(r, p)
  {
    assert Times(q, p) == Times(r, p) + Times(q - r, p);
  }

  ghost predicate CoveredBy(s: seq<Subnet>, v: int)
    requires PrefixesFit(s)
  {
    exists i :: 0 <= i < |s| && Covers(s[i], v)
  }

  /** The pieces of a base cover what the base covers. */
  lemma PiecesCover(base: Subnet, poolSize: int, v: int)
    requires base.prefixLength <= poolSize <= 32
    ensures CoveredBy(PiecesOf(base, poolSize), v) <==> Covers(base, v)
  {
    var n, p, s := Pow2(poolSize - base.prefixLength), Pow2(32 - poolSize), PiecesOf(base, poolSize);
    Pow2Sum(poolSize - base.prefixLength, 32 - poolSize);
    if Covers(base, v) {
      InOneBlock(v - base.base, p, n);
      var i :| 0 <= i < n && Times(i, p) <= v - base.base < Times(i, p) + p;
      assert Covers(s[i], v);
    }
    forall i | 0 <= i < |s| && Covers(s[i], v) ensures Covers(base, v) {
      TimesMonotone(i, n, p);
    }
  }

  /** The pieces of a base do not overlap. */
  lemma PiecesDisjoint(base: Subnet, poolSize: int)
    requires base.prefixLength <= poolSize <= 32
    ensures PairwiseDisjoint(PiecesOf(base, poolSize))
  {
    var s := PiecesOf(base, poolSize);
    forall i, j | 0 <= i < j < |s| ensures Disjoint(s[i], s[j]) {
      TimesMonotone(i, j, Pow2(32 - poolSize));
    }
  }

  lemma PiecesProper(base: Subnet, poolSize: int, i: nat)
    requires Proper(base) && poolSize <= 32 && i < |PiecesOf(base, poolSize)|
    ensures Proper(PiecesOf(base, poolSize)[i])
  {
    var n, p := Pow2(poolSize - base.prefixLength), Pow2(32 - poolSize);
    Pow2Sum(poolSize - base.prefixLength, 32 - poolSize);
    MultipleOfSmaller(base.base, 32 - poolSize, 32 - base.prefixLength);
    assert Multiple(Times(i, p), p);
    MultipleSum(base.base, Times(i, p), p);
    TimesMonotone(i, n, p);
  }

  lemma {:induction false} MultipleOfSmaller(m: nat, j: nat, k: nat)
    requires j <= k && Multiple(m, Pow2(k))
    ensures Multiple(m, Pow2(j))
  {
    if j < k {
      var q: nat :| m == Times(q, Pow2(k));
      assert Times(2 * q, Pow2(k - 1)) == Times(q, 2 * Pow2(k - 1));
      MultipleOfSmaller(m, j, k - 1);
    }
  }

  // ---------- all pieces ----------

  /** A base that is large enough to be cut. */
  ghost predicate Usable(available: seq<Subnet>, poolSize: int, v: int)
    requires PrefixesFit(available)
  {
    exists i :: 0 <= i < |available| && available[i].prefixLength <= poolSize && Covers(available[i], v)
  }

  lemma CoveredByBoth(a: seq<Subnet>, b: seq<Subnet>, v: int)
    requires PrefixesFit(a) && PrefixesFit(b)
    ensures CoveredBy(a + b, v) <==> CoveredBy(a, v) || CoveredBy(b, v)
  {
    var s := a + b;
    if CoveredBy(a, v) {
      var i :| 0 <= i < |a| && Covers(a[i], v);
      assert Covers(s[i], v);
    }
    if CoveredBy(b, v) {
      var i :| 0 <= i < |b| && Covers(b[i], v);
      assert Covers(s[|a| + i], v);
    }
  }

  lemma UsableLast(available: seq<Subnet>, poolSize: int, v: int)
    requires PrefixesFit(available) && available != []
    ensures var k := |available| - 1;
            Usable(available, poolSize, v) <==>
            Usable(available[..k], poolSize, v) || (available[k].prefixLength <= poolSize && Covers(available[k], v))
  {
    var k := |available| - 1;
    if Usable(available[..k], poolSize, v) {
      var i :| 0 <= i < k && available[..k][i].prefixLength <= poolSize && Covers(available[..k][i], v);
      assert available[i].prefixLength <= poolSize && Covers(available[i], v);
    }
    if Usable(available, poolSize, v) {
      var i :| 0 <= i < |available| && available[i].prefixLength <= poolSize && Covers(available[i], v);
      assert i < k ==> available[..k][i] == available[i];
    }
  }

  /** The generated subnets cover an address exactly if some base that is not too small does. */
  lemma {:induction false} GeneratedCover(available: seq<Subnet>, poolSize: int, v: int)
    requires PrefixesFit(available) && poolSize <= 32
    ensures CoveredBy(AllPieces(available, poolSize), v) <==> Usable(available, poolSize, v)
  {
    if available != [] {
      var init, last := available[..|available| - 1], available[|available| - 1];
      GeneratedCover(init, poolSize, v);
      CoveredByBoth(AllPieces(init, poolSize), PiecesOf(last, poolSize), v);
      UsableLast(available, poolSize, v);
      if last.prefixLength <= poolSize {
        PiecesCover(last, poolSize, v);
      }
    }
  }

  /** Pairwise disjoint bases give pairwise disjoint subnets. */
  lemma {:induction false} GeneratedDisjoint(available: seq<Subnet>, poolSize: int)
    requires PrefixesFit(available) && poolSize <= 32 && PairwiseDisjoint(available)
    ensures PairwiseDisjoint(AllPieces(available, poolSize))
  {
    if available != [] {
      var init, last := available[..|available| - 1], available[|available| - 1];
      GeneratedDisjoint(init, poolSize);
      if last.prefixLength <= poolSize {
        PiecesDisjoint(last, poolSize);
        forall v | CoveredBy(AllPieces(init, poolSize), v) ensures !CoveredBy(PiecesOf(last, poolSize), v) {
          GeneratedCover(init, poolSize, v);
          PiecesCover(last, poolSize, v);
          NotInLast(available, poolSize, v);
        }
        JoinDisjoint(AllPieces(init, poolSize), PiecesOf(last, poolSize));
      }
    }
  }

  lemma NotInLast(available: seq<Subnet>, poolSize: int, v: int)
    requires PrefixesFit(available) && PairwiseDisjoint(available) && available != []
    requires Usable(available[..|available| - 1], poolSize, v)
    ensures !Covers(available[|available| - 1], v)
  {
    var init := available[..|available| - 1];
    var i :| 0 <= i < |init| && init[i].prefixLength <= poolSize && Covers(init[i], v);
    assert Disjoint(available[i], available[|available| - 1]);
  }

  lemma JoinDisjoint(a: seq<Subnet>, b: seq<Subnet>)
    requires PrefixesFit(a) && PrefixesFit(b) && PairwiseDisjoint(a) && PairwiseDisjoint(b)
    requires forall v | CoveredBy(a, v) :: !CoveredBy(b, v)
    ensures PairwiseDisjoint(a + b)
  {
    var s := a + b;
    forall i, j | 0 <= i < j < |s| ensures Disjoint(s[i], s[j]) {
      if i < |a| <= j {
        forall v | Covers(a[i], v) ensures !Covers(b[j - |a|], v) {
          assert CoveredBy(a, v);
        }
      } else if i < |a| {
        assert Disjoint(a[i], a[j]);
      } else {
        assert Disjoint(b[i - |a|], b[j - |a|]);
      }
    }
  }

  /** Proper bases give proper subnets, all of the pool size. */
  lemma {:induction false} GeneratedProper(available: seq<Subnet>, poolSize: int, i: nat)
    requires (forall k | 0 <= k < |available| :: Proper(available[k])) && poolSize <= 32
        && i < |AllPieces(available, poolSize)|
    ensures Proper(AllPieces(available, poolSize)[i]) && AllPieces(available, poolSize)[i].prefixLength == poolSize
  {
    var k := |available| - 1;
    var before := |AllPieces(available[..k], poolSize)|;
    if i < before {
      GeneratedProper(available[..k], poolSize, i);
    } else {
      PiecesProper(available[k], poolSize, i - before);
    }
  }

  /** So the list that an address space starts from has no duplicates. */
  lemma GeneratedDistinct(available: seq<Subnet>, poolSize: int)
    requires PrefixesFit(available) && poolSize <= 32 && PairwiseDisjoint(available)
    ensures Distinct(AllPieces(available, poolSize))
  {
    var s := AllPieces(available, poolSize);
    GeneratedDisjoint(available, poolSize);
    forall i, j | 0 <= i < j < |s| ensures s[i] != s[j] {
      assert Disjoint(s[i], s[j]);
      assert Covers(s[i], s[i].base);
    }
  }
}
