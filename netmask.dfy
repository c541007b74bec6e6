/**
 * The netmask helper of connman's address record: turning an IPv4 netmask
 * into a CIDR prefix length (`__connman_ipaddress_netmask_prefix_len`).
 *
 * Masks are 32-bit words (`in_addr_t`), modelled as `bv32`, so that the
 * complement and the `host + 1` of the C helper wrap exactly as they do in C.
 * The helper returns an `unsigned char` and counts in one, modelled as `bv8`.
 */
module Netmask {
  import opened Wrappers

  const TopBit: bv32 := 0x8000_0000
  const AllOnes: bv32 := 0xFFFF_FFFF

  /** The helper's `return -1` through an `unsigned char`: -1 wraps to 255. */
  const Invalid: bv8 := 0 - 1

  /** The word 2^k - 1: the k low-order bits set, all others clear. */
  function LowOnes(k: bv8): bv32
    requires k <= 32
  {
    AllOnes >> (32 - k)
  }

  /** The contiguous netmask of a /n network: n high-order ones, then zeros. */
  function PrefixMask(n: bv8): bv32
    requires n <= 32
  {
    !LowOnes(32 - n)
  }

  /**
   * The validity test of the C helper: the host part (the complement of the
   * mask) must be of the form 2^n - 1, i.e. `host & (host + 1) == 0`.
   */
  predicate IsValidNetmask(mask: bv32) {
    var host := !mask;
    host & (host + 1) == 0
  }

  /** Number of consecutive one bits counted down from the top bit, over `width` bits. */
  function CountLeadingOnes(m: bv32, width: bv8): (r: bv8)
    ensures r <= width
    decreases width
  {
    if width == 0 || m & TopBit == 0 then 0 else 1 + CountLeadingOnes(m << 1, width - 1)
  }

  function LeadingOnes(m: bv32): (r: bv8)
    ensures r <= 32
  {
    CountLeadingOnes(m, 32)
  }

  /** Number of one bits among the `width` highest bits of `m`. */
  function CountOnes(m: bv32, width: bv8): (r: bv8)
    ensures r <= width
    decreases width
  {
    if width == 0 then 0
    else (if m & TopBit != 0 then 1 else 0) + CountOnes(m << 1, width - 1)
  }

  function PopCount(m: bv32): (r: bv8)
    ensures r <= 32
  {
    CountOnes(m, 32)
  }

  /** Number of consecutive zero bits counted up from bit 0, over `width` bits. */
  function CountTrailingZeros(m: bv32, width: bv8): (r: bv8)
    ensures r <= width
    decreases width
  {
    if width == 0 || m & 1 != 0 then 0 else 1 + CountTrailingZeros(m >> 1, width - 1)
  }

  function TrailingZeros(m: bv32): (r: bv8)
    ensures r <= 32
  {
    CountTrailingZeros(m, 32)
  }

  /**
   * What the helper computes: 32 for an absent netmask, 255 for a mask that
   * fails the validity test, and otherwise the number of leading one bits of
   * the parsed mask. `inetNetwork` stands for libc's `inet_network`, which
   * returns 0xFFFFFFFF when it cannot parse its input.
   */
  function PrefixLength(netmask: Option<string>, inetNetwork: string -> bv32): bv8 {
    if netmask.None? then 32
    else if !IsValidNetmask(inetNetwork(netmask.value)) then Invalid
    else LeadingOnes(inetNetwork(netmask.value))
  }

  // ---------------------------------------------------------------------
  // Facts about LowOnes

  /** Below 32 the top bit of LowOnes(k) is clear; LowOnes(32) is all ones. */
  lemma LowOnesTop(k: bv8)
    requires k <= 32
    ensures k < 32 <==> LowOnes(k) & TopBit == 0
    ensures k == 32 <==> LowOnes(k) == AllOnes
  {
  }

  /** Shifting the mask with k host bits left by one gives the mask with k + 1 host bits. */
  lemma ShiftLowOnesComplement(k: bv8)
    requires k < 32
    ensures (!LowOnes(k)) << 1 == !LowOnes(k + 1)
  {
  }

  /** One step of peeling the low-order one bit off a contiguous host part. */
  lemma HalveContiguousHost(host: bv32, f: bv8)
    requires 0 < f <= 32
    requires host & (host + 1) == 0 && host != 0
    requires host & !LowOnes(f) == 0
    ensures (host >> 1) & ((host >> 1) + 1) == 0
    ensures (host >> 1) & !LowOnes(f - 1) == 0
  {
  }

  /** Putting the peeled bit back: if the halved host part is k low ones, the host part is k + 1. */
  lemma UnhalveContiguousHost(host: bv32, f: bv8, k: bv8)
    requires 0 < f <= 32 && k <= f - 1
    requires host & (host + 1) == 0 && host != 0
    requires host >> 1 == LowOnes(k)
    ensures k + 1 <= f && host == LowOnes(k + 1)
  {
  }

  /**
   * A host part that passes the test and has no bits outside the f low
   * ones is LowOnes(h) for some h <= f.
   */
  lemma {:induction false} ContiguousHostIsLowOnes(host: bv32, f: bv8)
    requires f <= 32
    requires host & (host + 1) == 0
    requires host & !LowOnes(f) == 0
    ensures exists h: bv8 :: h <= f && host == LowOnes(h)
    decreases f
  {
    if host == 0 {
      assert host == LowOnes(0);
    } else {
      assert f != 0;
      HalveContiguousHost(host, f);
      ContiguousHostIsLowOnes(host >> 1, f - 1);
      var h: bv8 :| h <= f - 1 && host >> 1 == LowOnes(h);
      UnhalveContiguousHost(host, f, h);
    }
  }

  // ---------------------------------------------------------------------
  // The validity test and the shape of a netmask

  /** A mask that passes the test is a prefix mask. */
  lemma ValidNetmaskHasPrefix(mask: bv32)
    requires IsValidNetmask(mask)
    ensures exists n: bv8 :: n <= 32 && PrefixMask(n) == mask
  {
    LowOnesTop(32);
    ContiguousHostIsLowOnes(!mask, 32);
    var h: bv8 :| h <= 32 && !mask == LowOnes(h);
    assert PrefixMask(32 - h) == mask;
  }

  /** Every prefix mask passes the test. */
  lemma PrefixMaskIsValid(n: bv8)
    requires n <= 32
    ensures IsValidNetmask(PrefixMask(n))
  {
  }

  /** The C helper's test accepts exactly the 33 contiguous masks /0 .. /32. */
  lemma ValidNetmaskIsPrefixMask(mask: bv32)
    ensures IsValidNetmask(mask) <==> exists n: bv8 :: n <= 32 && PrefixMask(n) == mask
  {
    if IsValidNetmask(mask) {
      ValidNetmaskHasPrefix(mask);
    }
    if n: bv8 :| n <= 32 && PrefixMask(n) == mask {
      PrefixMaskIsValid(n);
    }
  }

  /** A netmask determines its prefix length. */
  lemma PrefixMaskInjective(n: bv8, m: bv8)
    requires n <= 32 && m <= 32
    requires PrefixMask(n) == PrefixMask(m)
    ensures n == m
  {
  }

  lemma {:induction false} CountLeadingOnesOfComplement(k: bv8, width: bv8)
    requires k <= 32 && 32 - k <= width
    ensures CountLeadingOnes(!LowOnes(k), width) == 32 - k
    decreases 32 - k
  {
    LowOnesTop(k);
    if k < 32 {
      ShiftLowOnesComplement(k);
      CountLeadingOnesOfComplement(k + 1, width - 1);
    }
  }

  lemma {:induction false} CountOnesOfZero(width: bv8)
    ensures CountOnes(0, width) == 0
    decreases width
  {
    if width != 0 {
      CountOnesOfZero(width - 1);
    }
  }

  lemma {:induction false} CountOnesOfComplement(k: bv8, width: bv8)
    requires k <= 32 && 32 - k <= width
    ensures CountOnes(!LowOnes(k), width) == 32 - k
    decreases 32 - k
  {
    LowOnesTop(k);
    if k < 32 {
      ShiftLowOnesComplement(k);
      CountOnesOfComplement(k + 1, width - 1);
    } else {
      CountOnesOfZero(width);
    }
  }

  /**
   * A word whose k low bits are clear and whose bit k is set (when bit k is
   * within the width) has k trailing zeros.
   */
  lemma {:induction false} CountTrailingZerosOfLowest(m: bv32, k: bv8, width: bv8)
    requires k <= width && k <= 32
    requires m & LowOnes(k) == 0
    requires k < width ==> m & ((1 as bv32) << k) != 0
    ensures CountTrailingZeros(m, width) == k
    decreases k
  {
    if k != 0 {
      assert m & 1 == 0;
      assert (m >> 1) & LowOnes(k - 1) == 0;
      CountTrailingZerosOfLowest(m >> 1, k - 1, width - 1);
    }
  }

  /**
   * For a mask of the form /n, the leading ones, the number of set bits
   * and 32 minus the trailing zeros all equal n.
   */
  lemma PrefixMaskCounts(n: bv8)
    requires n <= 32
    ensures LeadingOnes(PrefixMask(n)) == n
    ensures PopCount(PrefixMask(n)) == n
    ensures TrailingZeros(PrefixMask(n)) == 32 - n
  {
    var k := 32 - n;
    CountLeadingOnesOfComplement(k, 32);
    CountOnesOfComplement(k, 32);
    assert k < 32 ==> PrefixMask(n) & ((1 as bv32) << k) != 0;
    CountTrailingZerosOfLowest(PrefixMask(n), k, 32);
  }

  /**
   * The cases of the helper: an absent netmask gives 32, a mask failing the
   * test gives 255, a valid mask gives the n of its /n form.
   */
  lemma PrefixLengthCases(netmask: Option<string>, inetNetwork: string -> bv32)
    ensures netmask.None? ==> PrefixLength(netmask, inetNetwork) == 32
    ensures netmask.Some? && !IsValidNetmask(inetNetwork(netmask.value)) ==>
              PrefixLength(netmask, inetNetwork) == 255
    ensures netmask.Some? && IsValidNetmask(inetNetwork(netmask.value)) ==>
              PrefixLength(netmask, inetNetwork) <= 32 &&
              PrefixMask(PrefixLength(netmask, inetNetwork)) == inetNetwork(netmask.value)
  {
    if netmask.Some? && IsValidNetmask(inetNetwork(netmask.value)) {
      var mask := inetNetwork(netmask.value);
      ValidNetmaskIsPrefixMask(mask);
      var n: bv8 :| n <= 32 && PrefixMask(n) == mask;
      PrefixMaskCounts(n);
    }
  }

  /**
   * For a netmask that passes the test, the helper's result is at once the
   * number of leading ones, the number of one bits, and 32 minus the number
   * of trailing zeros of the parsed mask.
   */
  lemma ValidPrefixLengthCounts(s: string, inetNetwork: string -> bv32)
    ensures IsValidNetmask(inetNetwork(s)) ==>
              PrefixLength(Some(s), inetNetwork) == LeadingOnes(inetNetwork(s)) &&
              PrefixLength(Some(s), inetNetwork) == PopCount(inetNetwork(s)) &&
              PrefixLength(Some(s), inetNetwork) == 32 - TrailingZeros(inetNetwork(s))
  {
    if IsValidNetmask(inetNetwork(s)) {
      PrefixLengthCases(Some(s), inetNetwork);
      PrefixMaskCounts(PrefixLength(Some(s), inetNetwork));
    }
  }

  /**
   * Worked values: 255.255.255.0 gives 24, 255.255.255.255 gives 32,
   * 0.0.0.0 gives 0, the non-contiguous 255.255.255.1 gives 255, and an
   * unparseable string (which `inet_network` turns into 0xFFFFFFFF) gives 32.
   */
  lemma PrefixLengthExamples(inetNetwork: string -> bv32, garbage: string)
    requires inetNetwork("255.255.255.0") == 0xFFFF_FF00
    requires inetNetwork("255.255.255.255") == 0xFFFF_FFFF
    requires inetNetwork("0.0.0.0") == 0
    requires inetNetwork("255.255.255.1") == 0xFFFF_FF01
    requires inetNetwork(garbage) == 0xFFFF_FFFF
    ensures PrefixLength(Some("255.255.255.0"), inetNetwork) == 24
    ensures PrefixLength(Some("255.255.255.255"), inetNetwork) == 32
    ensures PrefixLength(Some("0.0.0.0"), inetNetwork) == 0
    ensures PrefixLength(Some("255.255.255.1"), inetNetwork) == 255
    ensures PrefixLength(Some(garbage), inetNetwork) == 32
    ensures PrefixLength(None, inetNetwork) == 32
  {
    assert PrefixMask(24) == 0xFFFF_FF00;
    assert PrefixMask(32) == 0xFFFF_FFFF;
    assert PrefixMask(0) == 0;
    PrefixMaskCounts(24);
    PrefixMaskCounts(32);
    PrefixMaskCounts(0);
  }

  // ---------------------------------------------------------------------
  // The helper itself

  /**
   * One turn of the loop: a nonzero valid mask starts with a one, and
   * shifting it out leaves a valid mask with one leading one fewer.
   */
  lemma ShiftValidNetmask(mask: bv32)
    requires IsValidNetmask(mask) && mask != 0
    ensures IsValidNetmask(mask << 1)
    ensures LeadingOnes(mask) == 1 + LeadingOnes(mask << 1)
  {
    ValidNetmaskIsPrefixMask(mask);
    var n: bv8 :| n <= 32 && PrefixMask(n) == mask;
    assert n != 0;
    ShiftLowOnesComplement(32 - n);
    assert mask << 1 == PrefixMask(n - 1);
    ValidNetmaskIsPrefixMask(mask << 1);
    PrefixMaskCounts(n);
    PrefixMaskCounts(n - 1);
  }

  /**
   * `__connman_ipaddress_netmask_prefix_len`: after the validity test, count
   * left shifts of the mask until it is zero. The loop runs at most 32
   * times, once per leading one, so the `unsigned char` counter never wraps.
   */
  method NetmaskPrefixLen(netmask: Option<string>, inetNetwork: string -> bv32) returns (bits: bv8)
    ensures bits == PrefixLength(netmask, inetNetwork)
  {
    if netmask.None? {
      return 32;
    }
    var mask := inetNetwork(netmask.value);
    var host := !mask;
    if host & (host + 1) != 0 {
      return Invalid;
    }
    bits := 0;
    while mask != 0
      invariant IsValidNetmask(mask)
      invariant bits + LeadingOnes(mask) == LeadingOnes(inetNetwork(netmask.value))
      decreases LeadingOnes(mask)
    {
      ShiftValidNetmask(mask);
      bits := bits + 1;
      mask := mask << 1;
    }
  }
}
