/** Address prefixes as net.ParseCIDR returns them: masked, with a family and a length. */
module Prefixes {
  import opened Powers

  datatype Prefix = Prefix(v6: bool, addr: nat, bits: nat)

  function Width(v6: bool): nat {
    if v6 then 128 else 32
  }

  /** The number of addresses the prefix covers. */
  function Size(p: Prefix): (r: nat)
    ensures r >= 1
  {
    if p.bits <= Width(p.v6) then Pow2(Width(p.v6) - p.bits) else 1
  }

  /** A prefix of an n-bit family leaves the bits after its length free. */
  lemma SizeMeans(p: Prefix)
    ensures !p.v6 && p.bits <= 32 ==> Size(p) == Pow2(32 - p.bits)
    ensures p.v6 && p.bits <= 128 ==> Size(p) == Pow2(128 - p.bits)
  {
  }

  /** What parsing guarantees: a length within the family's width and an address with its host bits cleared. */
  predicate WellFormed(p: Prefix) {
    p.bits <= Width(p.v6) && p.addr % Size(p) == 0
  }

  ghost predicate Covers(p: Prefix, v6: bool, x: nat)
  {
    v6 == p.v6 && p.addr <= x < p.addr + Size(p)
  }

  /** One pool's test in peerIPAllowedOnInterface: same family, the pool contains the peer's network
      address, and the peer's mask is at least as long. */
  predicate Fits(p: Prefix, pool: Prefix)
  {
    p.v6 == pool.v6 && p.addr / Size(pool) == pool.addr / Size(pool) && p.bits >= pool.bits
  }

  /** peerIPAllowedOnInterface: an interface with no address list restricts nothing. */
  method PeerIPAllowed(p: Prefix, pools: seq<Prefix>) returns (ok: bool)
    ensures ok <==> Allowed(p, pools)
  {
    if |pools| == 0 {
      return true;
    }
    for i := 0 to |pools|
      invariant forall j :: 0 <= j < i ==> pools[j] in pools && !Fits(p, pools[j])
    {
      var pool := pools[i];
      assert pool in pools;
      if p.v6 != pool.v6 {
        continue;
      }
      if p.addr / Size(pool) != pool.addr / Size(pool) {
        continue;
      }
      if p.bits >= pool.bits {
        assert Fits(p, pool);
        return true;
      }
    }
    return false;
  }

  predicate Allowed(p: Prefix, pools: seq<Prefix>)
  {
    pools == [] || exists pool :: pool in pools && Fits(p, pool)
  }

  /** The three tests together say that every address of the peer's prefix is the pool's. */
  lemma FitsIsContainment(p: Prefix, pool: Prefix)
    requires WellFormed(p) && WellFormed(pool)
    ensures Fits(p, pool) <==> forall x: nat :: Covers(p, p.v6, x) ==> Covers(pool, p.v6, x)
  {
    BlockOf(p.addr, pool.addr, Size(pool));
    if Fits(p, pool) {
      var w := Width(p.v6);
      MultipleOfPower(pool.addr, w - p.bits, w - pool.bits);
      MultipleOfPower(Size(pool), w - p.bits, w - pool.bits) by { MulMod(1, Size(pool)); }
      MulMod(pool.addr / Size(p), Size(p));
      SumOfMultiples(pool.addr, Size(pool), Size(p));
      MultiplesApart(p.addr, pool.addr + Size(pool), Size(p));
    } else if forall x: nat :: Covers(p, p.v6, x) ==> Covers(pool, p.v6, x) {
      assert Covers(p, p.v6, p.addr);
      assert Covers(p, p.v6, p.addr + Size(p) - 1);
      if p.bits < pool.bits {
        Pow2Strict(Width(p.v6) - pool.bits, Width(p.v6) - p.bits);
      }
    }
  }

  lemma SumOfMultiples(a: nat, b: nat, s: nat)
    requires s > 0 && a % s == 0 && b % s == 0
    ensures (a + b) % s == 0
  {
    assert a == s * (a / s) && b == s * (b / s);
    assert a + b == (a / s + b / s) * s;
    MulMod(a / s + b / s, s);
  }

  /** A peer prefix passes the interface check exactly when some pool holds all of its addresses, or
      the interface lists none. */
  lemma AllowedIsContainment(p: Prefix, pools: seq<Prefix>)
    requires WellFormed(p) && forall pool :: pool in pools ==> WellFormed(pool)
    ensures Allowed(p, pools) <==>
            pools == [] || exists pool :: pool in pools && forall x: nat :: Covers(p, p.v6, x) ==> Covers(pool, p.v6, x)
  {
    forall pool | pool in pools
      ensures Fits(p, pool) <==> forall x: nat :: Covers(p, p.v6, x) ==> Covers(pool, p.v6, x)
    {
      FitsIsContainment(p, pool);
    }
  }
}
