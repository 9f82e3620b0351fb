/** Splitting a core's subnet across its listeners: backend/openvpn/listeners.go. Addresses are 32-bit
    words; a CIDR string is given by what parsing makes of it. */
module Subnets {
  import opened Powers
  import opened Prefixes

  const WORD: nat := 0x1_0000_0000

  /** What netip.ParsePrefix makes of the configured subnet. The address may have host bits set. */
  datatype Parsed = NotCidr | NotIPv4 | IPv4(addr: nat, bits: nat)

  datatype Result = Unchanged | Block(prefix: Prefix) | BadCidr | BadFamily | TooSmall

  predicate Possible(p: Parsed) {
    p.IPv4? ==> p.addr < WORD && p.bits <= 32
  }

  /** bits.Len. */
  function BitLen(n: nat): nat {
    if n == 0 then 0 else 1 + BitLen(n / 2)
  }

  function BitsNeeded(n: int): nat {
    if n <= 1 then 0 else BitLen(n - 1)
  }

  function Cleared(addr: nat, size: nat): (r: nat)
    requires size > 0
    ensures r <= addr
  {
    Division(addr, size);
    addr - addr % size
  }

  /** Masked().Addr(): the host bits are cleared. */
  function Masked(p: Parsed): nat
    requires p.IPv4? && p.bits <= 32
  {
    Cleared(p.addr, Pow2(32 - p.bits))
  }

  lemma ClearedIsMultiple(addr: nat, size: nat)
    requires size > 0
    ensures Cleared(addr, size) == addr / size * size && Cleared(addr, size) % size == 0
  {
    Division(addr, size);
    NotNegative(addr / size, size);
    MulMod(addr / size, size);
  }

  function SplitSubnet(cidr: Parsed, index: nat, total: int): Result
    requires Possible(cidr)
  {
    if total <= 1 then Unchanged
    else
      match cidr
      case NotCidr => BadCidr
      case NotIPv4 => BadFamily
      case IPv4(_, bits) =>
        var newBits := bits + BitsNeeded(total);
        if newBits > 24 then TooSmall
        else
          var blockSize := Pow2(32 - newBits) % WORD;
          Block(Prefix(false, BlockStart(Masked(cidr), blockSize, index), newBits))
  }

  /** start + blockSize*uint32(index), on 32 bits. */
  function BlockStart(start: nat, blockSize: nat, index: nat): nat {
    (start + Wrapped(blockSize * (index % WORD))) % WORD
  }

  function Wrapped(x: int): nat {
    x % WORD
  }

  /** A single listener keeps the subnet as it is, whatever it is; with more, what is no subnet and what is not
      IPv4 are refused as such, and anything else is split or too small. */
  lemma OutcomeMeans(cidr: Parsed, index: nat, total: int)
    requires Possible(cidr)
    ensures SplitSubnet(cidr, index, total) == Unchanged <==> total <= 1
    ensures SplitSubnet(cidr, index, total) == BadCidr <==> total > 1 && cidr.NotCidr?
    ensures SplitSubnet(cidr, index, total) == BadFamily <==> total > 1 && cidr.NotIPv4?
    ensures total > 1 && cidr.IPv4? ==>
              SplitSubnet(cidr, index, total) == TooSmall || SplitSubnet(cidr, index, total).Block?
  {
    hide Pow2, BlockStart, Masked, BitsNeeded;
  }

  lemma {:induction false} BitLenIsFewest(n: nat, b: nat)
    ensures n < Pow2(b) <==> BitLen(n) <= b
    decreases b
  {
    if n != 0 && b != 0 {
      BitLenIsFewest(n / 2, b - 1);
    } else if n == 0 {
    } else {
      assert Pow2(0) == 1;
    }
  }

  /** A split uses the fewest bits that tell all the listeners apart. */
  lemma FewestBits(total: int, b: nat)
    requires total >= 1
    ensures total <= Pow2(b) <==> BitsNeeded(total) <= b
  {
    if total > 1 {
      BitLenIsFewest(total - 1, b);
    }
  }

  /** Whether a split succeeds, and the reason when it does not, is the same for every listener. */
  lemma SuccessIgnoresIndex(cidr: Parsed, total: int, i: nat, j: nat)
    requires Possible(cidr)
    ensures var a, b := SplitSubnet(cidr, i, total), SplitSubnet(cidr, j, total);
            if a.Block? then b.Block? && a.prefix.bits == b.prefix.bits else a == b
  {
  }

  lemma Word()
    ensures Pow2(32) == WORD
  {
    assert Pow2(8) == 256;
    Pow2Add(8, 8);
    Pow2Add(16, 16);
  }

  /** The block as plain arithmetic: the index-th one counted from the parent's first address, with none of
      the 32-bit operations wrapping. */
  lemma BlockAt(cidr: Parsed, index: nat, total: int)
    requires Possible(cidr) && index < total && SplitSubnet(cidr, index, total).Block?
    ensures var p := SplitSubnet(cidr, index, total).prefix;
            && p.bits == cidr.bits + BitsNeeded(total) && !p.v6
            && p.addr == Masked(cidr) + index * Size(p)
            && p.addr + Size(p) <= Masked(cidr) + Pow2(32 - cidr.bits) <= WORD
            && p.addr % Size(p) == 0 && Masked(cidr) % Size(p) == 0
  {
    hide Pow2, Masked, BitsNeeded, BlockStart;
    var extra := BitsNeeded(total);
    var newBits := cidr.bits + extra;
    var size := Pow2(32 - newBits);
    Pow2Add(extra, 32 - newBits);
    FewestBits(total, extra);
    ParentFits(cidr);
    BlocksInParent(index, total, Pow2(extra), size);
    BlockAligned(cidr, newBits, index);
    SomeBits(total);
    BlockSizeFits(newBits);
    NothingWraps(Masked(cidr), index, size);
  }

  lemma SomeBits(total: int)
    requires total > 1
    ensures BitsNeeded(total) >= 1
  {
  }

  lemma BlockAligned(cidr: Parsed, newBits: nat, index: nat)
    requires Possible(cidr) && cidr.IPv4? && cidr.bits <= newBits <= 32
    ensures Masked(cidr) % Pow2(32 - newBits) == 0
    ensures (Masked(cidr) + index * Pow2(32 - newBits)) % Pow2(32 - newBits) == 0
  {
    hide Pow2;
    var size, parent := Pow2(32 - newBits), Pow2(32 - cidr.bits);
    ClearedIsMultiple(cidr.addr, parent);
    hide Cleared;
    MultipleOfPower(Masked(cidr), 32 - newBits, 32 - cidr.bits);
    MulMod(index, size);
    SumOfMultiples(Masked(cidr), index * size, size);
  }

  lemma NothingWraps(start: nat, index: nat, size: nat)
    requires 1 <= size < WORD && index * size + size <= WORD - start
    requires index <= index * size && size * index == index * size
    ensures BlockStart(start, size % WORD, index) == start + index * size
  {
    Small(size);
    Small(index);
    SameProduct(size % WORD, index % WORD, size, index);
    NotNegative(index, size);
    assert Wrapped(size % WORD * (index % WORD)) == Wrapped(index * size);
    Small(index * size);
    Small(start + index * size);
  }

  lemma SameProduct(a: int, b: int, c: int, d: int)
    requires a == c && b == d
    ensures a * b == c * d
  {
  }

  lemma BlockSizeFits(newBits: nat)
    requires 1 <= newBits <= 32
    ensures Pow2(32 - newBits) < WORD
  {
    Word();
    Pow2Strict(32 - newBits, 32);
  }

  lemma Small(x: nat)
    ensures x < WORD ==> x % WORD == x
  {
  }

  lemma ParentFits(cidr: Parsed)
    requires Possible(cidr) && cidr.IPv4?
    ensures Masked(cidr) + Pow2(32 - cidr.bits) <= WORD
  {
    hide Pow2;
    var parent := Pow2(32 - cidr.bits);
    Word();
    Pow2Add(cidr.bits, 32 - cidr.bits);
    ClearedIsMultiple(cidr.addr, parent);
    MulMod(Pow2(cidr.bits), parent);
    MultiplesApart(Masked(cidr), WORD, parent);
  }

  lemma BlocksInParent(index: nat, total: int, blocks: nat, size: nat)
    requires index < total <= blocks && size >= 1
    ensures index * size + size <= blocks * size && index <= index * size && size * index == index * size
  {
    StepApart(index, blocks, size);
    MulAtLeastItself(index, size);
    Commute(index, size);
  }

  lemma Commute(a: int, b: int)
    ensures a * b == b * a
  {
  }

  lemma MulAtLeastItself(a: nat, s: nat)
    requires s >= 1
    ensures a * s >= a
  {
  }

  /** The parent is the block of addresses that has the given length and holds the configured address. */
  lemma ParentMeans(cidr: Parsed)
    requires Possible(cidr) && cidr.IPv4?
    ensures WellFormed(Prefix(false, Masked(cidr), cidr.bits))
    ensures Covers(Prefix(false, Masked(cidr), cidr.bits), false, cidr.addr)
  {
    hide Pow2;
    ClearedIsMultiple(cidr.addr, Pow2(32 - cidr.bits));
    Division(cidr.addr, Pow2(32 - cidr.bits));
  }

  /** So every address of every block has the configured address's network part. */
  lemma BlocksShareNetwork(cidr: Parsed, index: nat, total: int, x: nat)
    requires Possible(cidr) && index < total && SplitSubnet(cidr, index, total).Block?
    requires Covers(SplitSubnet(cidr, index, total).prefix, false, x)
    ensures cidr.IPv4? && x / Pow2(32 - cidr.bits) == cidr.addr / Pow2(32 - cidr.bits)
  {
    hide Pow2, SplitSubnet, Masked;
    BlockIsIPv4(cidr, index, total);
    BlocksAreInside(cidr, index, total);
    ParentMeans(cidr);
    SameBlock(x, cidr.addr, Masked(cidr), Pow2(32 - cidr.bits));
  }

  lemma SameBlock(x: nat, y: nat, start: nat, size: nat)
    requires size > 0 && start % size == 0 && start <= x < start + size && start <= y < start + size
    ensures x / size == y / size
  {
    Division(start, size);
    QuotientIs(x, start / size, x - start, size);
    QuotientIs(y, start / size, y - start, size);
  }

  lemma QuotientIs(x: nat, q: nat, r: nat, size: nat)
    requires size > 0 && r < size && x == q * size + r
    ensures x / size == q
  {
    Division(x, size);
    var q' := x / size;
    if q' < q {
      StepApart(q', q, size);
    } else if q < q' {
      StepApart(q, q', size);
    }
  }

  /** When a split succeeds, every listener's block is a well-formed prefix inside the parent. */
  lemma BlocksAreInside(cidr: Parsed, index: nat, total: int)
    requires Possible(cidr) && index < total && SplitSubnet(cidr, index, total).Block?
    ensures var p := SplitSubnet(cidr, index, total).prefix;
            && WellFormed(p)
            && forall x: nat :: Covers(p, false, x) ==>
                Covers(Prefix(false, Masked(cidr), cidr.bits), false, x) && x < WORD
  {
    hide Pow2, SplitSubnet, Masked;
    BlockAt(cidr, index, total);
    BlockIsIPv4(cidr, index, total);
  }

  lemma BlockIsIPv4(cidr: Parsed, index: nat, total: int)
    requires Possible(cidr) && SplitSubnet(cidr, index, total).Block?
    ensures SplitSubnet(cidr, index, total).prefix.bits <= 24 && cidr.IPv4?
  {
  }

  /** And no two listeners share an address. */
  lemma BlocksAreDisjoint(cidr: Parsed, i: nat, j: nat, total: int, x: nat)
    requires Possible(cidr) && i < total && j < total && i != j
    requires SplitSubnet(cidr, i, total).Block? && SplitSubnet(cidr, j, total).Block?
    ensures !(Covers(SplitSubnet(cidr, i, total).prefix, false, x) &&
              Covers(SplitSubnet(cidr, j, total).prefix, false, x))
  {
    hide Pow2, SplitSubnet, Masked;
    BlockAt(cidr, i, total);
    BlockAt(cidr, j, total);
    var a, b := SplitSubnet(cidr, i, total).prefix, SplitSubnet(cidr, j, total).prefix;
    assert Size(a) == Size(b);
    if i < j {
      StepApart(i, j, Size(a));
    } else {
      StepApart(j, i, Size(a));
    }
  }

  lemma StepApart(i: nat, j: nat, size: nat)
    requires i < j
    ensures i * size + size <= j * size
  {
    Distribute(j - i - 1, i + 1, size);
    Distribute(i, 1, size);
    NotNegative(j - i - 1, size);
  }

  lemma NotNegative(a: nat, b: nat)
    ensures a * b >= 0
  {
  }

  /** A split fails for size exactly when the fewest bits would leave less than a /24 for each listener. */
  lemma TooSmallIff(cidr: Parsed, index: nat, total: int)
    requires Possible(cidr) && cidr.IPv4? && total > 1
    ensures SplitSubnet(cidr, index, total) == TooSmall <==> cidr.bits > 24 || total > Pow2(24 - cidr.bits)
  {
    if cidr.bits <= 24 {
      FewestBits(total, 24 - cidr.bits);
    }
  }
}
