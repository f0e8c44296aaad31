/**
 * The subnet arithmetic of the calculator: validation of dotted-decimal
 * addresses and masks, the classful lookup, the conversions between a
 * dotted mask and its prefix length, and the composed subnetting
 * calculation.
 */
module Subnet {
  import opened JsBuiltins
  import opened Binary

  /** The record the calculation returns, with the field names of the source. */
  datatype SubnetResult = SubnetResult(
    clase: string,
    mascaraOriginal: string,
    nroBitsPrestados: nat,
    nroSubredes: nat,
    nroSubredesUtilizables: nat,
    nroIPsPorSubRed: nat,
    nroIPsConfigurablesPorSubRed: nat,
    newMascara: string,
    salto: nat,
    subredesSolicitadas: int)

  /**
   * The outcome of the calculation: the record, or the prefix overflow that
   * arises when the borrowed bits push the prefix length past 32.
   */
  datatype Calculation = Calculated(result: SubnetResult) | PrefixOverflow(newCidr: nat)

  // ---------------------------------------------------------------------------
  // Validation

  /** One part of a dotted address: it parses, and to a number in [0, 255]. */
  predicate IsValidOctet(part: string)
  {
    var num := ParseInt(part);
    num.Some? && num.value <= 255
  }

  /** Exactly four dot-separated parts, every one a valid octet. */
  predicate IsValidIP(ip: string)
  {
    var parts := Split(ip, '.');
    |parts| == 4 && forall i :: 0 <= i < |parts| ==> IsValidOctet(parts[i])
  }

  /** The four numbers a valid address denotes. */
  function Octets(ip: string): (octets: seq<nat>)
    requires IsValidIP(ip)
    ensures |octets| == 4
    ensures forall i :: 0 <= i < 4 ==> octets[i] <= 255 && ParseInt(Split(ip, '.')[i]) == Some(octets[i])
  {
    var parts := Split(ip, '.');
    seq(4, i requires 0 <= i < 4 => ParseInt(parts[i]).value)
  }

  /** A valid address whose every part is its octet written in canonical decimal. */
  predicate IsCanonical(ip: string)
  {
    IsValidIP(ip) && forall i :: 0 <= i < 4 ==> ToDecimal(Octets(ip)[i]) == Split(ip, '.')[i]
  }

  /** `parseInt(part).toString(2)`; NaN prints as "NaN". */
  function BinaryText(part: string): string
  {
    match ParseInt(part)
    case None => "NaN"
    case Some(n) => ToBinary(n)
  }

  /** The mask's parts, each as 8 zero-padded binary digits, concatenated. */
  function BinaryExpansion(mask: string): string
  {
    var parts := Split(mask, '.');
    Concat(seq(|parts|, i requires 0 <= i < |parts| => PadStart(BinaryText(parts[i]), 8, '0')))
  }

  /** A valid address whose binary expansion matches `^1*0*$`. */
  predicate IsValidMask(mask: string)
  {
    IsValidIP(mask) && OnesThenZeros(BinaryExpansion(mask))
  }

  // ---------------------------------------------------------------------------
  // Classful lookup

  /** `parseInt` of the text before the first dot. */
  function FirstOctet(ip: string): Option<nat>
  {
    ParseInt(Split(ip, '.')[0])
  }

  /** The legacy address class, decided by the first octet alone. */
  function GetIPClass(ip: string): (cls: string)
    ensures cls == "A" <==> FirstOctet(ip).Some? && 1 <= FirstOctet(ip).value <= 126
    ensures cls == "B" <==> FirstOctet(ip).Some? && 128 <= FirstOctet(ip).value <= 191
    ensures cls == "C" <==> FirstOctet(ip).Some? && 192 <= FirstOctet(ip).value <= 223
    ensures cls == "Unknown" <==>
      FirstOctet(ip).None? || FirstOctet(ip).value in {0, 127} || FirstOctet(ip).value >= 224
  {
    var firstOctet := FirstOctet(ip);
    if firstOctet.Some? && 1 <= firstOctet.value <= 126 then "A"
    else if firstOctet.Some? && 128 <= firstOctet.value <= 191 then "B"
    else if firstOctet.Some? && 192 <= firstOctet.value <= 223 then "C"
    else "Unknown"
  }

  /** The default mask of a class; anything but A and B falls back to /24. */
  function GetDefaultMask(ipClass: string): string
  {
    match ipClass
    case "A" => "255.0.0.0"
    case "B" => "255.255.0.0"
    case "C" => "255.255.255.0"
    case _ => "255.255.255.0"
  }

  /** The width of the network field of each class, with /24 as the fallback. */
  function ClassPrefixLength(ipClass: string): nat
  {
    if ipClass == "A" then 8 else if ipClass == "B" then 16 else 24
  }

  // ---------------------------------------------------------------------------
  // Mask to prefix length

  /** `parseInt(octet).toString(2).split('1').length - 1`. */
  function SetBits(octet: string): nat
  {
    |Split(BinaryText(octet), '1')| - 1
  }

  /** The `reduce` over the mask's parts: the sum of their set bits. */
  function MaskToCIDR(mask: string): nat
  {
    Reduce(Split(mask, '.'), (cidr: nat, octet: string) => cidr + SetBits(octet), 0)
  }

  // ---------------------------------------------------------------------------
  // Prefix length to mask

  /** `Math.min(8, Math.max(0, cidr - i * 8))`: the mask bits that fall in octet i. */
  function OctetPrefixBits(cidr: int, i: nat): (bits: nat)
    ensures bits <= 8
  {
    Min(8, Max(0, cidr - i * 8))
  }

  /** `256 - Math.pow(2, 8 - bits)`: the octet whose top `bits` bits are set. */
  function PrefixOctet(bits: nat): (octet: nat)
    requires bits <= 8
    ensures octet < 256
  {
    Pow2Monotonic(8 - bits, 8);
    Pow2Eight();
    256 - Pow2(8 - bits)
  }

  /** Octet i of the mask for `cidr`. */
  function MaskOctet(cidr: int, i: nat): (octet: nat)
    ensures octet < 256
  {
    PrefixOctet(OctetPrefixBits(cidr, i))
  }

  /** The four octets `cidrToMask` pushes. */
  function MaskOctets(cidr: int): (octets: seq<nat>)
    ensures |octets| == 4
  {
    seq(4, i requires 0 <= i < 4 => MaskOctet(cidr, i))
  }

  /** The dotted mask `cidrToMask(cidr)` returns. */
  function CidrMask(cidr: int): string
  {
    JoinDecimal(MaskOctets(cidr), '.')
  }

  /** `cidrToMask`: push the four octets of the mask, then join them with dots. */
  method CidrToMask(cidr: int) returns (maskText: string)
    ensures maskText == CidrMask(cidr)
  {
    var mask: seq<nat> := [];
    for i := 0 to 4
      invariant |mask| == i
      invariant forall j :: 0 <= j < i ==> mask[j] == MaskOctet(cidr, j)
    {
      var bits := Min(8, Max(0, cidr - i * 8));
      mask := mask + [PrefixOctet(bits)];
    }
    assert mask == MaskOctets(cidr);
    maskText := JoinDecimal(mask, '.');
  }

  // ---------------------------------------------------------------------------
  // The composed calculation

  /** `Math.ceil(Math.log2(n))` on integers: the least k with 2^k >= n. */
  function CeilLog2(n: nat): (k: nat)
    requires n >= 1
    ensures Pow2(k) >= n
    ensures k == 0 || Pow2(k - 1) < n
  {
    if n == 1 then 0 else 1 + CeilLog2((n + 1) / 2)
  }

  /**
   * `calculateSubnets` once its first two bindings are made: the class of
   * the address and the prefix length `originalCidr` of `mask`. It borrows
   * enough bits from the host part for `desiredSubnets` subnets, and reports
   * the counts, the new mask and the jump between subnets. Reserving the
   * all-zeros and all-ones subnet and host (RFC 950) takes 2 from each count,
   * floored at 0.
   */
  function Subnetting(ipClass: string, mask: string, originalCidr: nat, desiredSubnets: int): (r: Calculation)
    requires desiredSubnets >= 1
    ensures r.Calculated? <==> originalCidr + CeilLog2(desiredSubnets) <= 32
    ensures r.PrefixOverflow? ==> r.newCidr == originalCidr + CeilLog2(desiredSubnets)
    ensures r.Calculated? ==>
      var k := r.result.nroBitsPrestados;
      && Pow2(k) >= desiredSubnets && (k == 0 || Pow2(k - 1) < desiredSubnets)
      && originalCidr + k <= 32
    ensures r.Calculated? ==>
      && r.result.nroSubredes == Pow2(r.result.nroBitsPrestados)
      && r.result.nroSubredesUtilizables == Max(0, r.result.nroSubredes - 2)
    ensures r.Calculated? ==>
      && r.result.nroIPsPorSubRed == Pow2(32 - (originalCidr + r.result.nroBitsPrestados))
      && r.result.nroIPsConfigurablesPorSubRed == Max(0, r.result.nroIPsPorSubRed - 2)
      && r.result.salto == r.result.nroIPsPorSubRed
      && r.result.newMascara == CidrMask(originalCidr + r.result.nroBitsPrestados)
    ensures r.Calculated? ==>
      && r.result.clase == ipClass
      && r.result.mascaraOriginal == mask
      && r.result.subredesSolicitadas == desiredSubnets
  {
    var requiredBits := CeilLog2(desiredSubnets);
    var newCidr := originalCidr + requiredBits;
    if newCidr > 32 then PrefixOverflow(newCidr)
    else
      var newMask := CidrMask(newCidr);
      var totalSubnets := Pow2(requiredBits);
      var hostsPerSubnet := Pow2(32 - newCidr);
      Calculated(SubnetResult(
        clase := ipClass,
        mascaraOriginal := mask,
        nroBitsPrestados := requiredBits,
        nroSubredes := totalSubnets,
        nroSubredesUtilizables := Max(0, totalSubnets - 2),
        nroIPsPorSubRed := hostsPerSubnet,
        nroIPsConfigurablesPorSubRed := Max(0, hostsPerSubnet - 2),
        newMascara := newMask,
        salto := hostsPerSubnet,
        subredesSolicitadas := desiredSubnets))
  }

  /**
   * `calculateSubnets`: the class comes from `getIPClass(ip)` and the
   * original prefix length from `maskToCIDR(mask)`.
   */
  function CalculateSubnets(ip: string, mask: string, desiredSubnets: int): (r: Calculation)
    requires desiredSubnets >= 1
    ensures r.Calculated? <==> MaskToCIDR(mask) + CeilLog2(desiredSubnets) <= 32
    ensures r.Calculated? ==> r.result.clase == GetIPClass(ip) && r.result.mascaraOriginal == mask
  {
    Subnetting(GetIPClass(ip), mask, MaskToCIDR(mask), desiredSubnets)
  }

  // ---------------------------------------------------------------------------
  // Properties

  /** The borrowed bits are determined by 2^(k-1) < n <= 2^k. */
  lemma CeilLog2Unique(n: nat, k: nat)
    requires n >= 1
    requires Pow2(k) >= n && (k == 0 || Pow2(k - 1) < n)
    ensures CeilLog2(n) == k
  {
    var j := CeilLog2(n);
    if j < k {
      Pow2Monotonic(j, k - 1);
    } else if j > k {
      Pow2Monotonic(k, j - 1);
    }
  }

  lemma PrefixOctetBitsOfClamped(cidr: int, i: nat)
    requires i < 4
    ensures OctetPrefixBits(cidr, i) == OctetPrefixBits(Min(32, Max(0, cidr)), i)
  {
  }

  /** Every octet of a prefix mask is one of the nine left-aligned octets. */
  lemma MaskOctetValues(cidr: int, i: nat)
    ensures MaskOctet(cidr, i) in {0, 128, 192, 224, 240, 248, 252, 254, 255}
  {
    var bits := OctetPrefixBits(cidr, i);
    assert Pow2(0) == 1 && Pow2(1) == 2 && Pow2(2) == 4 && Pow2(3) == 8 && Pow2(4) == 16;
    assert Pow2(5) == 32 && Pow2(6) == 64 && Pow2(7) == 128 && Pow2(8) == 256;
  }

  /** A decimal rendering never contains the dot separator. */
  lemma NoDotInDecimal(n: nat)
    ensures '.' !in ToDecimal(n)
  {
  }

  /**
   * Writing four octets in decimal with dots gives a valid, canonical address
   * that denotes those octets.
   */
  lemma FormatOctets(octets: seq<nat>)
    requires |octets| == 4 && forall i :: 0 <= i < 4 ==> octets[i] <= 255
    ensures IsValidIP(JoinDecimal(octets, '.'))
    ensures Octets(JoinDecimal(octets, '.')) == octets
    ensures IsCanonical(JoinDecimal(octets, '.'))
  {
    var texts := seq(4, i requires 0 <= i < 4 => ToDecimal(octets[i]));
    forall i | 0 <= i < 4 ensures '.' !in texts[i] && ParseInt(texts[i]) == Some(octets[i]) {
      NoDotInDecimal(octets[i]);
      ParseIntToDecimal(octets[i]);
    }
    SplitJoin(texts, '.');
    assert Split(JoinDecimal(octets, '.'), '.') == texts;
  }

  /** A canonical address is its octets written in decimal with dots. */
  lemma CanonicalIsFormatted(ip: string)
    requires IsCanonical(ip)
    ensures ip == JoinDecimal(Octets(ip), '.')
  {
    var parts := Split(ip, '.');
    var o := Octets(ip);
    assert seq(4, i requires 0 <= i < 4 => ToDecimal(o[i])) == parts;
  }

  /** The binary expansion of a valid address is the padded bits of its four octets. */
  lemma ExpansionOfValidIP(ip: string)
    requires IsValidIP(ip)
    ensures BinaryExpansion(ip) ==
      OctetBits(Octets(ip)[0]) + OctetBits(Octets(ip)[1]) + OctetBits(Octets(ip)[2]) + OctetBits(Octets(ip)[3])
  {
    var parts := Split(ip, '.');
    var o := Octets(ip);
    var padded := seq(|parts|, i requires 0 <= i < |parts| => PadStart(BinaryText(parts[i]), 8, '0'));
    forall i | 0 <= i < 4 ensures padded[i] == OctetBits(o[i]) {
      assert BinaryText(parts[i]) == ToBinary(o[i]);
    }
    ConcatFour(padded);
  }

  lemma ConcatFour(p: seq<string>)
    requires |p| == 4
    ensures Concat(p) == p[0] + p[1] + p[2] + p[3]
  {
    assert Concat(p[3..]) == p[3] by { assert p[3..][1..] == []; }
    assert Concat(p[2..]) == p[2] + Concat(p[3..]) by { assert p[2..][1..] == p[3..]; }
    assert Concat(p[1..]) == p[1] + Concat(p[2..]) by { assert p[1..][1..] == p[2..]; }
  }

  /**
   * `maskToCIDR` of a valid address is the sum of the set bits of its four
   * octets, whether or not they are contiguous, and so lies in [0, 32].
   */
  lemma MaskToCIDRCountsSetBits(mask: string)
    requires IsValidIP(mask)
    ensures MaskToCIDR(mask) ==
      Popcount(Octets(mask)[0]) + Popcount(Octets(mask)[1]) + Popcount(Octets(mask)[2]) + Popcount(Octets(mask)[3])
    ensures MaskToCIDR(mask) <= 32
  {
    var parts := Split(mask, '.');
    var o := Octets(mask);
    forall i | 0 <= i < 4 ensures SetBits(parts[i]) == Popcount(o[i]) <= 8 {
      CountOnesToBinary(o[i]);
      OctetBitsOfOctet(o[i]);
      Pow2Eight();
      ToBinaryLength(o[i], 8);
    }
    ReduceFour(parts, (cidr: nat, octet: string) => cidr + SetBits(octet), 0);
  }

  /** The 8 bits of octet i within the 32 bits of k ones followed by zeros. */
  lemma PrefixSlice(k: nat, i: nat)
    requires k <= 32 && i < 4
    ensures var b := OctetPrefixBits(k, i);
      (Ones(k) + Zeros(32 - k))[8 * i..8 * i + 8] == Ones(b) + Zeros(8 - b)
  {
  }

  /** Octet i of a prefix mask is written as its prefix bits of ones, then zeros. */
  lemma PrefixOctetBits(cidr: int, i: nat)
    ensures var b := OctetPrefixBits(cidr, i);
      && OctetBits(MaskOctet(cidr, i)) == Ones(b) + Zeros(8 - b)
      && Popcount(MaskOctet(cidr, i)) == b
  {
    var b := OctetPrefixBits(cidr, i);
    PrefixOctetOnes(MaskOctet(cidr, i), b);
  }

  /** Octet i of the mask for prefix length k, as bits, is octet i of k ones followed by zeros. */
  lemma PrefixOctetSlice(k: nat, i: nat)
    requires k <= 32 && i < 4
    ensures OctetBits(MaskOctet(k, i)) == (Ones(k) + Zeros(32 - k))[8 * i..8 * i + 8]
  {
    PrefixOctetBits(k, i);
    PrefixSlice(k, i);
  }

  lemma FourSlices(s: string, a: string, b: string, c: string, d: string)
    requires |s| == 32
    requires a == s[0..8] && b == s[8..16] && c == s[16..24] && d == s[24..32]
    ensures a + b + c + d == s
  {
    assert s == s[0..8] + s[8..16] + s[16..24] + s[24..32];
  }

  lemma PrefixBitsSum(k: nat, p0: nat, p1: nat, p2: nat, p3: nat)
    requires k <= 32
    requires p0 == OctetPrefixBits(k, 0) && p1 == OctetPrefixBits(k, 1)
    requires p2 == OctetPrefixBits(k, 2) && p3 == OctetPrefixBits(k, 3)
    ensures p0 + p1 + p2 + p3 == k
  {
  }

  /**
   * The 32 bits of the mask for prefix length k (0 <= k <= 32) are k ones
   * followed by zeros, and its octets carry k set bits in all.
   */
  lemma PrefixMaskBits(k: nat)
    requires k <= 32
    ensures OctetBits(MaskOctet(k, 0)) + OctetBits(MaskOctet(k, 1)) +
            OctetBits(MaskOctet(k, 2)) + OctetBits(MaskOctet(k, 3)) == Ones(k) + Zeros(32 - k)
    ensures Popcount(MaskOctet(k, 0)) + Popcount(MaskOctet(k, 1)) +
            Popcount(MaskOctet(k, 2)) + Popcount(MaskOctet(k, 3)) == k
  {
    PrefixOctetSlice(k, 0);
    PrefixOctetSlice(k, 1);
    PrefixOctetSlice(k, 2);
    PrefixOctetSlice(k, 3);
    FourSlices(Ones(k) + Zeros(32 - k), OctetBits(MaskOctet(k, 0)), OctetBits(MaskOctet(k, 1)),
      OctetBits(MaskOctet(k, 2)), OctetBits(MaskOctet(k, 3)));
    PrefixOctetBits(k, 0);
    PrefixOctetBits(k, 1);
    PrefixOctetBits(k, 2);
    PrefixOctetBits(k, 3);
    PrefixBitsSum(k, Popcount(MaskOctet(k, 0)), Popcount(MaskOctet(k, 1)),
      Popcount(MaskOctet(k, 2)), Popcount(MaskOctet(k, 3)));
  }

  /** An address with the octets of the prefix mask for k expands to k ones, then zeros. */
  lemma PrefixOctetsExpansion(ip: string, k: nat)
    requires IsValidIP(ip) && k <= 32 && Octets(ip) == MaskOctets(k)
    ensures BinaryExpansion(ip) == Ones(k) + Zeros(32 - k)
    ensures MaskToCIDR(ip) == k
  {
    var o := Octets(ip);
    assert o[0] == MaskOctet(k, 0) && o[1] == MaskOctet(k, 1);
    assert o[2] == MaskOctet(k, 2) && o[3] == MaskOctet(k, 3);
    ExpansionOfValidIP(ip);
    MaskToCIDRCountsSetBits(ip);
    PrefixMaskBits(k);
  }

  lemma MaskOctetsOfClamped(cidr: int)
    ensures MaskOctets(cidr) == MaskOctets(Min(32, Max(0, cidr)))
  {
    var clamped := Min(32, Max(0, cidr));
    var o, p := MaskOctets(cidr), MaskOctets(clamped);
    forall i | 0 <= i < 4
      ensures o[i] == p[i]
    {
      PrefixOctetBitsOfClamped(cidr, i);
    }
  }

  /**
   * `cidrToMask` always yields a valid canonical mask; its octets are those
   * of `MaskOctets`, and its prefix length is `cidr` clamped to [0, 32].
   */
  lemma CidrMaskIsValid(cidr: int)
    ensures IsValidMask(CidrMask(cidr)) && IsCanonical(CidrMask(cidr))
    ensures Octets(CidrMask(cidr)) == MaskOctets(cidr)
    ensures MaskToCIDR(CidrMask(cidr)) == Min(32, Max(0, cidr))
  {
    FormatOctets(MaskOctets(cidr));
    MaskOctetsOfClamped(cidr);
    PrefixTextIsMask(CidrMask(cidr), Min(32, Max(0, cidr)));
  }

  /** An address whose octets are those of the prefix mask for k is a valid mask of prefix length k. */
  lemma PrefixTextIsMask(m: string, k: nat)
    requires IsValidIP(m) && k <= 32 && Octets(m) == MaskOctets(k)
    ensures IsValidMask(m) && MaskToCIDR(m) == k
  {
    PrefixOctetsAreValidMask(m, k);
    PrefixOctetsExpansion(m, k);
  }

  /** Round trip from the prefix length: maskToCIDR(cidrToMask(c)) == c. */
  lemma CidrRoundTrip(c: int)
    requires 0 <= c <= 32
    ensures MaskToCIDR(CidrMask(c)) == c
  {
    CidrMaskIsValid(c);
  }

  /** An octet whose bits are octet i of k ones followed by zeros is the mask octet. */
  lemma OctetFromSlice(n: nat, k: nat, i: nat)
    requires n < 256 && k <= 32 && i < 4
    requires OctetBits(n) == (Ones(k) + Zeros(32 - k))[8 * i..8 * i + 8]
    ensures n == MaskOctet(k, i)
  {
    PrefixSlice(k, i);
    MaskOctetOfBits(n, k, i);
  }

  lemma MaskOctetOfBits(n: nat, k: int, i: nat)
    requires n < 256
    requires OctetBits(n) == Ones(OctetPrefixBits(k, i)) + Zeros(8 - OctetPrefixBits(k, i))
    ensures n == MaskOctet(k, i)
  {
    PrefixOctetOfBits(n, OctetPrefixBits(k, i));
    MaskOctetValue(n, k, i);
  }

  lemma MaskOctetValue(v: int, k: int, i: nat)
    requires v == 256 - Pow2(8 - OctetPrefixBits(k, i))
    ensures v == MaskOctet(k, i)
  {
  }

  lemma SlicesOfFour(a: string, b: string, c: string, d: string)
    requires |a| == 8 && |b| == 8 && |c| == 8 && |d| == 8
    ensures var s := a + b + c + d;
      s[0..8] == a && s[8..16] == b && s[16..24] == c && s[24..32] == d
  {
  }

  /** An address that expands to k ones, then zeros, has the octets of the prefix mask for k. */
  lemma OctetsOfPrefixExpansion(ip: string, k: nat)
    requires IsValidIP(ip) && k <= 32
    requires BinaryExpansion(ip) == Ones(k) + Zeros(32 - k)
    ensures Octets(ip) == MaskOctets(k)
  {
    var o := Octets(ip);
    var s := Ones(k) + Zeros(32 - k);
    var a, b, c, d := OctetBits(o[0]), OctetBits(o[1]), OctetBits(o[2]), OctetBits(o[3]);
    assert s == a + b + c + d by {
      ExpansionOfValidIP(ip);
    }
    OctetBitsOfOctet(o[0]);
    OctetBitsOfOctet(o[1]);
    OctetBitsOfOctet(o[2]);
    OctetBitsOfOctet(o[3]);
    SlicesOfFour(a, b, c, d);
    assert o[0] == MaskOctet(k, 0) by { OctetFromSlice(o[0], k, 0); }
    assert o[1] == MaskOctet(k, 1) by { OctetFromSlice(o[1], k, 1); }
    assert o[2] == MaskOctet(k, 2) by { OctetFromSlice(o[2], k, 2); }
    assert o[3] == MaskOctet(k, 3) by { OctetFromSlice(o[3], k, 3); }
    EqualToMaskOctets(o, k);
  }

  lemma EqualToMaskOctets(o: seq<nat>, k: int)
    requires |o| == 4
    requires o[0] == MaskOctet(k, 0) && o[1] == MaskOctet(k, 1)
    requires o[2] == MaskOctet(k, 2) && o[3] == MaskOctet(k, 3)
    ensures o == MaskOctets(k)
  {
    assert forall i :: 0 <= i < 4 ==> o[i] == MaskOctets(k)[i];
  }

  /** A valid mask's octets are those of the prefix mask of its own prefix length. */
  lemma ValidMaskOctets(mask: string)
    requires IsValidMask(mask)
    ensures MaskToCIDR(mask) <= 32
    ensures Octets(mask) == MaskOctets(MaskToCIDR(mask))
  {
    var e := BinaryExpansion(mask);
    var k :| 0 <= k <= |e| && e == Ones(k) + Zeros(|e| - k);
    assert |e| == 32 by {
      var o := Octets(mask);
      ExpansionOfValidIP(mask);
      OctetBitsOfOctet(o[0]);
      OctetBitsOfOctet(o[1]);
      OctetBitsOfOctet(o[2]);
      OctetBitsOfOctet(o[3]);
    }
    OctetsOfPrefixExpansion(mask, k);
    PrefixOctetsExpansion(mask, k);
  }

  /**
   * `isValidMask` accepts exactly the valid addresses whose octets are those
   * of a prefix mask.
   */
  lemma ValidMaskIffPrefixOctets(mask: string)
    ensures IsValidMask(mask) <==> IsValidIP(mask) && exists k :: 0 <= k <= 32 && Octets(mask) == MaskOctets(k)
  {
    if IsValidMask(mask) {
      ValidMaskOctets(mask);
    }
    if IsValidIP(mask) && exists k :: 0 <= k <= 32 && Octets(mask) == MaskOctets(k) {
      var k :| 0 <= k <= 32 && Octets(mask) == MaskOctets(k);
      PrefixOctetsAreValidMask(mask, k);
    }
  }

  lemma PrefixOctetsAreValidMask(mask: string, k: nat)
    requires IsValidIP(mask) && k <= 32 && Octets(mask) == MaskOctets(k)
    ensures IsValidMask(mask)
  {
    var e := BinaryExpansion(mask);
    assert e == Ones(k) + Zeros(32 - k) by { PrefixOctetsExpansion(mask, k); }
    assert |e| - k == 32 - k;
  }

  /**
   * `isValidMask` is `isValidIP` plus: no '0' comes before a '1' in the
   * 32-bit expansion.
   */
  lemma ValidMaskIffNoZeroBeforeOne(mask: string)
    requires IsValidIP(mask)
    ensures var e := BinaryExpansion(mask);
      IsValidMask(mask) <==> forall i, j :: 0 <= i < j < |e| && e[i] == '0' ==> e[j] != '1'
  {
    var e := BinaryExpansion(mask);
    assert IsBits(e) by {
      var o := Octets(mask);
      ExpansionOfValidIP(mask);
      OctetBitsOfOctet(o[0]);
      OctetBitsOfOctet(o[1]);
      OctetBitsOfOctet(o[2]);
      OctetBitsOfOctet(o[3]);
      BitsOfFour(OctetBits(o[0]), OctetBits(o[1]), OctetBits(o[2]), OctetBits(o[3]));
    }
    OnesThenZerosIffNoZeroBeforeOne(e);
  }

  lemma BitsOfFour(a: string, b: string, c: string, d: string)
    requires IsBits(a) && IsBits(b) && IsBits(c) && IsBits(d)
    ensures IsBits(a + b + c + d)
  {
  }

  /** Round trip from a canonical mask: cidrToMask(maskToCIDR(m)) == m. */
  lemma MaskRoundTrip(mask: string)
    requires IsValidMask(mask) && IsCanonical(mask)
    ensures CidrMask(MaskToCIDR(mask)) == mask
  {
    ValidMaskOctets(mask);
    CanonicalIsFormatted(mask);
  }

  /** An octet wholly inside the prefix is 255. */
  lemma FullOctet(cidr: int, i: nat)
    requires cidr >= i * 8 + 8
    ensures MaskOctet(cidr, i) == 255
  {
    assert Pow2(0) == 1;
  }

  /** An octet wholly outside the prefix is 0. */
  lemma EmptyOctet(cidr: int, i: nat)
    requires cidr <= i * 8
    ensures MaskOctet(cidr, i) == 0
  {
    Pow2Eight();
  }

  /**
   * The octets of the mask whose prefix fills `f` whole octets and `b` bits
   * of the next: `f` times 255, then 256 - 2^(8 - b), then zeros.
   */
  function SplitOctets(f: nat, b: nat): (octets: seq<nat>)
    requires f < 4 && b < 8
    ensures |octets| == 4
  {
    Pow2Monotonic(8 - b, 8);
    Pow2Eight();
    seq(4, i requires 0 <= i < 4 => if i < f then 255 else if i == f then 256 - Pow2(8 - b) else 0)
  }

  /** The mask for prefix length 8f + b is `SplitOctets(f, b)`. */
  lemma SplitOctetMask(cidr: int, f: nat, b: nat)
    requires f < 4 && b < 8 && cidr == 8 * f + b
    ensures MaskOctets(cidr) == SplitOctets(f, b)
  {
    var m, s := MaskOctets(cidr), SplitOctets(f, b);
    forall i | 0 <= i < 4
      ensures m[i] == s[i]
    {
      if i < f {
        FullOctet(cidr, i);
      } else if i > f {
        EmptyOctet(cidr, i);
      } else {
        assert OctetPrefixBits(cidr, i) == b;
      }
    }
  }

  lemma DecimalOctetTexts()
    ensures ToDecimal(255) == "255" && ToDecimal(224) == "224" && ToDecimal(0) == "0"
  {
  }

  /** `xs.join('.')` of four octets, written out. */
  lemma JoinDecimalFour(xs: seq<nat>)
    requires |xs| == 4
    ensures JoinDecimal(xs, '.') ==
      ToDecimal(xs[0]) + "." + ToDecimal(xs[1]) + "." + ToDecimal(xs[2]) + "." + ToDecimal(xs[3])
  {
    var t := seq(4, i requires 0 <= i < 4 => ToDecimal(xs[i]));
    assert t == [ToDecimal(xs[0]), ToDecimal(xs[1]), ToDecimal(xs[2]), ToDecimal(xs[3])];
    JoinFour(t[0], t[1], t[2], t[3], '.');
  }

  /** The dotted text of one, two and three whole octets. */
  lemma OneOctetText()
    ensures JoinDecimal(SplitOctets(1, 0), '.') == "255.0.0.0"
  {
    DecimalOctetTexts();
    Pow2Eight();
    assert SplitOctets(1, 0) == [255, 0, 0, 0];
    JoinDecimalFour(SplitOctets(1, 0));
  }

  lemma TwoOctetsText()
    ensures JoinDecimal(SplitOctets(2, 0), '.') == "255.255.0.0"
  {
    DecimalOctetTexts();
    Pow2Eight();
    assert SplitOctets(2, 0) == [255, 255, 0, 0];
    JoinDecimalFour(SplitOctets(2, 0));
  }

  lemma ThreeOctetsText()
    ensures JoinDecimal(SplitOctets(3, 0), '.') == "255.255.255.0"
  {
    DecimalOctetTexts();
    Pow2Eight();
    assert SplitOctets(3, 0) == [255, 255, 255, 0];
    JoinDecimalFour(SplitOctets(3, 0));
  }

  /** The classful default prefixes /8, /16 and /24 as dotted masks. */
  lemma ClassfulMaskTexts()
    ensures CidrMask(8) == "255.0.0.0"
    ensures CidrMask(16) == "255.255.0.0"
    ensures CidrMask(24) == "255.255.255.0"
  {
    SplitOctetMask(8, 1, 0);
    SplitOctetMask(16, 2, 0);
    SplitOctetMask(24, 3, 0);
    OneOctetText();
    TwoOctetsText();
    ThreeOctetsText();
  }

  /** Each class's default mask is the prefix mask of its network field width. */
  lemma DefaultMaskIsPrefixMask(ipClass: string)
    ensures GetDefaultMask(ipClass) == CidrMask(ClassPrefixLength(ipClass))
  {
    ClassfulMaskTexts();
  }

  /** The default masks are valid, canonical, and of prefix length 8, 16 or 24. */
  lemma DefaultMaskIsValid(ipClass: string)
    ensures IsValidMask(GetDefaultMask(ipClass)) && IsCanonical(GetDefaultMask(ipClass))
    ensures MaskToCIDR(GetDefaultMask(ipClass)) == ClassPrefixLength(ipClass)
  {
    var p := ClassPrefixLength(ipClass);
    DefaultMaskIsPrefixMask(ipClass);
    CidrMaskIsValid(p);
  }

  /**
   * The new mask of a calculation is a valid canonical mask whose prefix
   * length is the original one plus the borrowed bits.
   */
  lemma CalculatedMaskIsValid(ipClass: string, mask: string, c: nat, desiredSubnets: int)
    requires desiredSubnets >= 1
    requires Subnetting(ipClass, mask, c, desiredSubnets).Calculated?
    ensures var res := Subnetting(ipClass, mask, c, desiredSubnets).result;
      && IsValidMask(res.newMascara) && IsCanonical(res.newMascara)
      && MaskToCIDR(res.newMascara) == c + res.nroBitsPrestados
  {
    NewMaskIsValid(Subnetting(ipClass, mask, c, desiredSubnets).result, c);
  }

  lemma NewMaskIsValid(res: SubnetResult, c: nat)
    requires res.newMascara == CidrMask(c + res.nroBitsPrestados)
    requires c + res.nroBitsPrestados <= 32
    ensures IsValidMask(res.newMascara) && IsCanonical(res.newMascara)
    ensures MaskToCIDR(res.newMascara) == c + res.nroBitsPrestados
  {
    PrefixMaskIsValid(res.newMascara, c + res.nroBitsPrestados);
  }

  lemma PrefixMaskIsValid(m: string, k: nat)
    requires k <= 32 && m == CidrMask(k)
    ensures IsValidMask(m) && IsCanonical(m) && MaskToCIDR(m) == k
  {
    CidrMaskIsValid(k);
  }

  /**
   * The subnets tile the host part of the original network exactly:
   * nroSubredes * nroIPsPorSubRed == 2^(32 - c).
   */
  lemma CalculatedCoversHostSpace(ipClass: string, mask: string, c: nat, desiredSubnets: int)
    requires desiredSubnets >= 1
    requires Subnetting(ipClass, mask, c, desiredSubnets).Calculated?
    ensures var res := Subnetting(ipClass, mask, c, desiredSubnets).result;
      res.nroSubredes * res.nroIPsPorSubRed == Pow2(32 - c)
  {
    var res := Subnetting(ipClass, mask, c, desiredSubnets).result;
    PowersCover(res.nroSubredes, res.nroIPsPorSubRed, c, res.nroBitsPrestados);
  }

  lemma PowersCover(subnets: nat, hosts: nat, c: nat, k: nat)
    requires c + k <= 32 && subnets == Pow2(k) && hosts == Pow2(32 - (c + k))
    ensures subnets * hosts == Pow2(32 - c)
  {
    Pow2Add(k, 32 - c - k);
  }
}
