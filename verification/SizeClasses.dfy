/** Power-of-two size classes of the tiered allocator, and which tier a size belongs to. */
module SizeClasses {
  import opened Wrappers

  const SLAB_CLASS_MIN := 6
  const MEDIUM_MIN_CLASS := 20
  const MEDIUM_MAX_CLASS := 30
  const HUGE_PAGE := 0x20_0000
  const MAX_INT := 0x7fff_ffff_ffff_ffff

  function Pow2(k: nat): (r: int)
    ensures r >= 1
  {
    if k == 0 then 1 else 2 * Pow2(k - 1)
  }

  const SLAB_MAX_BYTES := 0x10_0000
  const LARGE_MIN_BYTES := 0x4000_0000

  lemma TierBounds()
    ensures Pow2(6) == 64 && Pow2(20) == SLAB_MAX_BYTES && Pow2(30) == LARGE_MIN_BYTES
  {
    Pow2Sum(6, 14);
    Pow2Sum(20, 10);
    assert Pow2(4) == 16 && Pow2(6) == 4 * Pow2(4);
    assert Pow2(8) == 4 * Pow2(6) && Pow2(10) == 4 * Pow2(8);
    Pow2Sum(10, 4);
  }

  lemma {:induction false} Pow2Sum(a: nat, b: nat)
    ensures Pow2(a + b) == Pow2(a) * Pow2(b)
  {
    if b > 0 {
      Pow2Sum(a, b - 1);
      assert Pow2(a + b) == 2 * Pow2(a + (b - 1));
      Doubling(Pow2(a), Pow2(b - 1));
    }
  }

  lemma Doubling(a: int, b: int)
    ensures 2 * (a * b) == a * (2 * b)
  {
  }

  lemma {:induction false} Pow2Monotone(a: nat, b: nat)
    requires a < b
    ensures 2 * Pow2(a) <= Pow2(b)
  {
    if a < b - 1 {
      Pow2Monotone(a, b - 1);
    }
  }

  /** The number of bits of a number. */
  function BitLen(n: nat): nat {
    if n == 0 then 0 else 1 + BitLen(n / 2)
  }

  lemma {:induction false} BitLenBounds(n: nat)
    ensures n < Pow2(BitLen(n))
    ensures n > 0 ==> BitLen(n) > 0 && Pow2(BitLen(n) - 1) <= n
  {
    if n > 0 {
      BitLenBounds(n / 2);
    }
  }

  /** The least power of two that is at least 64 and at least `n`. */
  ghost predicate LeastClass(n: int, minimum: nat, k: nat) {
    && minimum <= k && n <= Pow2(k)
    && forall j: nat | minimum <= j < k :: Pow2(j) < n
  }

  lemma LeastClassUnique(n: int, minimum: nat, j: nat, k: nat)
    requires LeastClass(n, minimum, j) && LeastClass(n, minimum, k)
    ensures j == k
  {
  }

  lemma LeastClassOfPower(minimum: nat, k: nat)
    requires minimum <= k
    ensures LeastClass(Pow2(k), minimum, k)
  {
    forall j: nat | minimum <= j < k
      ensures Pow2(j) < Pow2(k)
    {
      Pow2Monotone(j, k);
    }
  }

  /** The slab class of a size, or -1 for sizes the slab does not serve. */
  function SlabClass(bytesNeeded: int): int {
    if bytesNeeded <= 0 || bytesNeeded > SLAB_MAX_BYTES then -1
    else
      var power := BitLen(bytesNeeded - 1);
      (if power < SLAB_CLASS_MIN then SLAB_CLASS_MIN else power) - SLAB_CLASS_MIN
  }

  /** Slab classes are the least that hold the size. */
  lemma SlabClassIsLeast(n: int)
    requires 0 < n <= SLAB_MAX_BYTES
    ensures 0 <= SlabClass(n) && LeastClass(n, SLAB_CLASS_MIN, SlabClass(n) + SLAB_CLASS_MIN)
  {
    var power := BitLen(n - 1);
    BitLenBounds(n - 1);
    hide Pow2, BitLen;
    if power < SLAB_CLASS_MIN {
      Pow2Monotone(power, SLAB_CLASS_MIN);
    }
    forall j: nat | SLAB_CLASS_MIN <= j < SlabClass(n) + SLAB_CLASS_MIN
      ensures Pow2(j) < n
    {
      if j != power - 1 {
        Pow2Monotone(j, power - 1);
      }
    }
  }

  /** Doubles from the smallest class until the size fits; -1 outside the medium range. */
  method MediumClass(bytesNeeded: int) returns (class_: int)
    ensures class_ == -1 <==> bytesNeeded < SLAB_MAX_BYTES || bytesNeeded > LARGE_MIN_BYTES
    ensures class_ != -1 ==> 0 <= class_ <= MEDIUM_MAX_CLASS - MEDIUM_MIN_CLASS
    ensures class_ != -1 ==> LeastClass(bytesNeeded, MEDIUM_MIN_CLASS, class_ + MEDIUM_MIN_CLASS)
  {
    TierBounds();
    if bytesNeeded < SLAB_MAX_BYTES || bytesNeeded > LARGE_MIN_BYTES {
      return -1;
    }
    class_ := 0;
    var target := SLAB_MAX_BYTES;
    while target < bytesNeeded
      invariant 0 <= class_ <= MEDIUM_MAX_CLASS - MEDIUM_MIN_CLASS && target == Pow2(class_ + MEDIUM_MIN_CLASS)
      invariant forall j: nat | MEDIUM_MIN_CLASS <= j < class_ + MEDIUM_MIN_CLASS :: Pow2(j) < bytesNeeded
      decreases MEDIUM_MAX_CLASS - MEDIUM_MIN_CLASS - class_
    {
      target := 2 * target;
      class_ := class_ + 1;
    }
  }

  /** Rounds up to whole huge pages, unless that overflows. */
  function RoundToHugePage(bytesNeeded: int): (r: Option<int>)
    ensures r.None? <==> bytesNeeded > 0x7fff_ffff_ffff_ffff - 0x1f_ffff
    ensures r.Some? ==> bytesNeeded <= r.value < bytesNeeded + 0x20_0000 && r.value % 0x20_0000 == 0
  {
    if bytesNeeded > MAX_INT - (HUGE_PAGE - 1) then None
    else
      var up := bytesNeeded + HUGE_PAGE - 1;
      Some(up - up % HUGE_PAGE)
  }
}
