/**
 * What the model gives for concrete inputs: the calculator's default form
 * values, and the boundary cases of the validators and of the classful
 * lookup.
 */
module WorkedExamples {
  import opened JsBuiltins
  import opened Binary
  import opened Subnet
  import opened Form

  /** Splitting four dot-free pieces joined with dots gives the pieces back. */
  lemma SplitDotted(a: string, b: string, c: string, d: string)
    requires '.' !in a && '.' !in b && '.' !in c && '.' !in d
    ensures Split(a + "." + b + "." + c + "." + d, '.') == [a, b, c, d]
  {
    JoinFour(a, b, c, d, '.');
    SplitJoin([a, b, c, d], '.');
  }

  /** The first octet of an address `text` that starts with `n` written in decimal. */
  lemma FirstOctetOf(n: nat, text: string, rest: string)
    requires text == ToDecimal(n) + "." + rest
    ensures FirstOctet(text) == Some(n)
  {
    NoDotInDecimal(n);
    SplitAtSeparator(ToDecimal(n), '.', rest);
    ParseIntToDecimal(n);
  }

  // ---------------------------------------------------------------------------
  // isValidIP

  lemma AddressText()
    ensures JoinDecimal([192, 168, 1, 1], '.') == "192.168.1.1"
  {
    JoinDecimalFour([192, 168, 1, 1]);
    assert ToDecimal(192) == "192" && ToDecimal(168) == "168" && ToDecimal(1) == "1";
  }

  lemma ValidAddress()
    ensures IsValidIP("192.168.1.1") && IsCanonical("192.168.1.1")
    ensures Octets("192.168.1.1") == [192, 168, 1, 1]
  {
    AddressText();
    FormatOctets([192, 168, 1, 1]);
  }

  /** Three parts or five parts are rejected whatever they hold. */
  lemma WrongPartCount()
    ensures !IsValidIP("1.2.3")
    ensures !IsValidIP("1.2.3.4.5")
    ensures !IsValidIP("")
  {
    assert Count("1.2.3", '.') == 2;
    assert Count("1.2.3.4.5", '.') == 4;
  }

  lemma OutOfRangeText()
    ensures "256.1.1.1" == ToDecimal(256) + "." + "1" + "." + "1" + "." + "1"
  {
    assert ToDecimal(256) == "256";
  }

  /** One part out of range rejects the whole address. */
  lemma OctetOutOfRange()
    ensures !IsValidIP("256.1.1.1")
  {
    OutOfRangeText();
    NoDotInDecimal(256);
    SplitDotted(ToDecimal(256), "1", "1", "1");
    ParseIntToDecimal(256);
  }

  /** A part that does not start with a digit rejects the whole address. */
  lemma OctetNotANumber()
    ensures !IsValidIP("1.1.1.-1")
  {
    var ip := "1.1.1.-1";
    assert ip == "1" + "." + "1" + "." + "1" + "." + "-1";
    assert Split(ip, '.')[3] == "-1" by { SplitDotted("1", "1", "1", "-1"); }
  }

  lemma GarbageText()
    ensures "12abc.1.1.1" == ToDecimal(12) + "abc" + "." + ToDecimal(1) + "." + ToDecimal(1) + "." + ToDecimal(1)
  {
    assert ToDecimal(12) == "12" && ToDecimal(1) == "1";
  }

  /** A part with trailing non-digits parses as its leading number. */
  lemma GarbageAddress(ip: string)
    requires ip == ToDecimal(12) + "abc" + "." + ToDecimal(1) + "." + ToDecimal(1) + "." + ToDecimal(1)
    ensures IsValidIP(ip)
    ensures Octets(ip) == [12, 1, 1, 1]
    ensures !IsCanonical(ip)
  {
    var twelve, one := ToDecimal(12), ToDecimal(1);
    NoDotInDecimal(12);
    NoDotInDecimal(1);
    assert '.' !in twelve + "abc";
    SplitDotted(twelve + "abc", one, one, one);
    ParseIntIgnoresSuffix(twelve, "abc");
    ParseIntToDecimal(1);
    assert |twelve + "abc"| > |twelve|;
  }

  /** `parseInt` stops at the first non-digit, so "12abc" passes as 12. */
  lemma TrailingGarbageAccepted()
    ensures IsValidIP("12abc.1.1.1")
    ensures Octets("12abc.1.1.1") == [12, 1, 1, 1]
    ensures !IsCanonical("12abc.1.1.1")
  {
    GarbageText();
    GarbageAddress("12abc.1.1.1");
  }

  // ---------------------------------------------------------------------------
  // isValidMask and maskToCIDR

  lemma ContiguousMask()
    ensures IsValidMask("255.255.255.0") && MaskToCIDR("255.255.255.0") == 24
  {
    ClassfulMaskTexts();
    CidrMaskIsValid(24);
  }

  /** No prefix mask has a zero second octet and a non-zero third one. */
  lemma NotAPrefixMask(k: int)
    ensures MaskOctets(k) != [255, 0, 255, 0]
  {
    if OctetPrefixBits(k, 1) == 0 {
      EmptyOctet(k, 2);
      assert MaskOctets(k)[2] == 0;
    } else {
      Pow2Monotonic(8 - OctetPrefixBits(k, 1), 7);
      assert Pow2(7) == 128;
      assert MaskOctets(k)[1] != 0;
    }
  }

  lemma GapMaskText()
    ensures JoinDecimal([255, 0, 255, 0], '.') == "255.0.255.0"
  {
    JoinDecimalFour([255, 0, 255, 0]);
    DecimalOctetTexts();
  }

  /** A valid address with a gap in its ones is rejected as a mask, yet counts 16 bits. */
  lemma GapMask(m: string)
    requires m == JoinDecimal([255, 0, 255, 0], '.')
    ensures IsValidIP(m) && !IsValidMask(m)
    ensures MaskToCIDR(m) == 16
  {
    GapMaskRejected(m);
    GapMaskBits(m);
  }

  lemma GapMaskRejected(m: string)
    requires m == JoinDecimal([255, 0, 255, 0], '.')
    ensures IsValidIP(m) && !IsValidMask(m)
  {
    FormatOctets([255, 0, 255, 0]);
    forall k | 0 <= k <= 32 ensures Octets(m) != MaskOctets(k) {
      NotAPrefixMask(k);
    }
    ValidMaskIffPrefixOctets(m);
  }

  lemma GapMaskBits(m: string)
    requires m == JoinDecimal([255, 0, 255, 0], '.')
    ensures MaskToCIDR(m) == 16
  {
    FormatOctets([255, 0, 255, 0]);
    MaskToCIDRCountsSetBits(m);
    FullAndEmptyPopcount();
  }

  lemma FullAndEmptyPopcount()
    ensures Popcount(255) == 8 && Popcount(0) == 0
  {
    assert Popcount(1) == 1 && Popcount(3) == 2 && Popcount(7) == 3 && Popcount(15) == 4;
    assert Popcount(31) == 5 && Popcount(63) == 6 && Popcount(127) == 7;
  }

  /** 255.0.255.0 is rejected as a mask, though maskToCIDR still counts 16 bits. */
  lemma MaskWithGap()
    ensures IsValidIP("255.0.255.0") && !IsValidMask("255.0.255.0")
    ensures MaskToCIDR("255.0.255.0") == 16
  {
    GapMaskText();
    GapMask("255.0.255.0");
  }

  lemma PaddedMaskText()
    ensures "255.255.255.00" == ToDecimal(255) + "." + ToDecimal(255) + "." + ToDecimal(255) + "." + "00"
  {
    DecimalOctetTexts();
  }

  /** The parts of the padded mask read as the octets of the /24 mask. */
  lemma PaddedMaskOctets(m: string)
    requires m == ToDecimal(255) + "." + ToDecimal(255) + "." + ToDecimal(255) + "." + "00"
    ensures IsValidIP(m) && Octets(m) == MaskOctets(24)
  {
    var full := ToDecimal(255);
    NoDotInDecimal(255);
    SplitDotted(full, full, full, "00");
    ParseIntToDecimal(255);
    DoubleZero();
    Slash24Octets();
  }

  /** `parseInt("00")` reads 0. */
  lemma DoubleZero()
    ensures ParseInt("00") == Some(0)
  {
    assert DigitPrefixLength("00") == 2;
    assert "00"[..2] == "00" && "00"[..1] == "0" && "0"[..0] == "";
    assert DecimalValue("0") == 0;
  }

  lemma Slash24Octets()
    ensures MaskOctets(24) == [255, 255, 255, 0]
  {
    SplitOctetMask(24, 3, 0);
    Pow2Eight();
  }

  /**
   * A mask written with a padded last part is valid and counts 24 bits, but
   * `cidrToMask(maskToCIDR(m))` writes it back as 255.255.255.0.
   */
  lemma PaddedMask(m: string)
    requires m == ToDecimal(255) + "." + ToDecimal(255) + "." + ToDecimal(255) + "." + "00"
    ensures IsValidMask(m) && MaskToCIDR(m) == 24
    ensures CidrMask(MaskToCIDR(m)) != m
  {
    PaddedMaskOctets(m);
    PrefixOctetsAreValidMask(m, 24);
    PrefixOctetsExpansion(m, 24);
    ClassfulMaskTexts();
    assert |ToDecimal(255)| == 3 by { DecimalOctetTexts(); }
    assert |m| != |"255.255.255.0"|;
  }

  /** The round trip of a mask needs its canonical spelling. */
  lemma PaddedMaskRoundTrip()
    ensures IsValidMask("255.255.255.00") && MaskToCIDR("255.255.255.00") == 24
    ensures CidrMask(MaskToCIDR("255.255.255.00")) != "255.255.255.00"
  {
    PaddedMaskText();
    PaddedMask("255.255.255.00");
  }

  // ---------------------------------------------------------------------------
  // getIPClass

  lemma FirstClassA()
    ensures GetIPClass("1.0.0.1") == "A"
  {
    assert ToDecimal(1) == "1";
    FirstOctetOf(1, "1.0.0.1", "0.0.1");
  }

  lemma LastClassA()
    ensures GetIPClass("126.0.0.1") == "A"
  {
    assert ToDecimal(126) == "126";
    FirstOctetOf(126, "126.0.0.1", "0.0.1");
  }

  lemma FirstClassB()
    ensures GetIPClass("128.0.0.1") == "B"
  {
    assert ToDecimal(128) == "128";
    FirstOctetOf(128, "128.0.0.1", "0.0.1");
  }

  lemma LastClassB()
    ensures GetIPClass("191.255.0.1") == "B"
  {
    assert ToDecimal(191) == "191";
    FirstOctetOf(191, "191.255.0.1", "255.0.1");
  }

  lemma FirstClassC()
    ensures GetIPClass("192.0.0.1") == "C"
  {
    assert ToDecimal(192) == "192";
    FirstOctetOf(192, "192.0.0.1", "0.0.1");
  }

  lemma LastClassC()
    ensures GetIPClass("223.255.255.1") == "C"
  {
    assert ToDecimal(223) == "223";
    FirstOctetOf(223, "223.255.255.1", "255.255.1");
  }

  /** 0 falls outside class A. */
  lemma ZeroHasNoClass()
    ensures GetIPClass("0.1.2.3") == "Unknown"
  {
    assert ToDecimal(0) == "0";
    FirstOctetOf(0, "0.1.2.3", "1.2.3");
  }

  /** 127 falls outside class A. */
  lemma LoopbackHasNoClass()
    ensures GetIPClass("127.0.0.1") == "Unknown"
  {
    assert ToDecimal(127) == "127";
    FirstOctetOf(127, "127.0.0.1", "0.0.1");
  }

  /** 224 and above have no class. */
  lemma MulticastHasNoClass()
    ensures GetIPClass("224.0.0.1") == "Unknown"
  {
    assert ToDecimal(224) == "224";
    FirstOctetOf(224, "224.0.0.1", "0.0.1");
  }

  /** A first part that is not a number gives no class. */
  lemma HostNameHasNoClass()
    ensures GetIPClass("host.example") == "Unknown"
  {
    assert "host.example" == "host" + ['.'] + "example";
    SplitAtSeparator("host", '.', "example");
  }

  // ---------------------------------------------------------------------------
  // calculateSubnets

  lemma BorrowedBitsForFive()
    ensures CeilLog2(5) == 3
  {
    assert Pow2(3) == 8 && Pow2(2) == 4;
    CeilLog2Unique(5, 3);
  }

  /** The /11 mask: one whole octet and three bits of the second. */
  lemma Prefix11Mask()
    ensures CidrMask(11) == "255.224.0.0"
  {
    Prefix11Octets();
    Prefix11Text();
  }

  lemma Prefix11Octets()
    ensures MaskOctets(11) == [255, 224, 0, 0]
  {
    SplitOctetMask(11, 1, 3);
    assert Pow2(5) == 32;
  }

  lemma Prefix11Text()
    ensures JoinDecimal([255, 224, 0, 0], '.') == "255.224.0.0"
  {
    JoinDecimalFour([255, 224, 0, 0]);
    DecimalOctetTexts();
  }

  lemma DefaultAddressClass()
    ensures GetIPClass("12.3.2.5") == "A"
  {
    assert ToDecimal(12) == "12";
    FirstOctetOf(12, "12.3.2.5", "3.2.5");
  }

  lemma DefaultMaskPrefix()
    ensures MaskToCIDR("255.0.0.0") == 8
  {
    ClassfulMaskTexts();
    CidrRoundTrip(8);
  }

  /** Each of the 8 subnets of 12.0.0.0/8 split to /11 holds 2^21 addresses. */
  lemma HostsPer11()
    ensures Pow2(21) == 2097152
  {
    assert Pow2(10) == 1024;
    assert Pow2(20) == 1048576 by { Pow2Add(10, 10); }
  }

  /** The form's default values: 12.3.2.5, 255.0.0.0, 5 subnets. */
  lemma DefaultFormValues(ip: string, mask: string, n: int)
    requires ip == "12.3.2.5" && mask == "255.0.0.0" && n == 5
    ensures CalculateSubnets(ip, mask, n) == Calculated(SubnetResult(
      clase := "A",
      mascaraOriginal := "255.0.0.0",
      nroBitsPrestados := 3,
      nroSubredes := 8,
      nroSubredesUtilizables := 6,
      nroIPsPorSubRed := 2097152,
      nroIPsConfigurablesPorSubRed := 2097150,
      newMascara := "255.224.0.0",
      salto := 2097152,
      subredesSolicitadas := 5))
  {
    DefaultAddressClass();
    DefaultMaskPrefix();
    BorrowedBitsForFive();
    Prefix11Mask();
    assert Pow2(3) == 8;
    HostsPer11();
  }

  // ---------------------------------------------------------------------------
  // The form

  /** The default form is accepted and shows the worked result. */
  lemma DefaultFormAccepted(ip: string, mask: string, desiredSubnets: string)
    requires ip == "12.3.2.5" && mask == "255.0.0.0" && desiredSubnets == "5"
    ensures HandleCalculate(ip, mask, desiredSubnets).errors == []
    ensures HandleCalculate(ip, mask, desiredSubnets).result == Some(CalculateSubnets(ip, mask, 5))
  {
    assert IsValidIP(ip) by { DefaultAddressValid(); }
    assert IsValidMask(mask) by { ClassfulMaskTexts(); CidrMaskIsValid(8); }
    assert ParseInt(desiredSubnets) == Some(5) by { assert ToDecimal(5) == "5"; ParseIntToDecimal(5); }
  }

  lemma DefaultAddressText()
    ensures JoinDecimal([12, 3, 2, 5], '.') == "12.3.2.5"
  {
    JoinDecimalFour([12, 3, 2, 5]);
    assert ToDecimal(12) == "12" && ToDecimal(3) == "3" && ToDecimal(2) == "2" && ToDecimal(5) == "5";
  }

  lemma DefaultAddressValid()
    ensures IsValidIP("12.3.2.5")
  {
    DefaultAddressText();
    FormatOctets([12, 3, 2, 5]);
  }

  /** Three failing checks give all three messages, in order, and no result. */
  lemma FormWithEveryError(ip: string, mask: string, desiredSubnets: string)
    requires ip == "1.2.3" && mask == "255.0.255.0" && desiredSubnets == "0"
    ensures HandleCalculate(ip, mask, desiredSubnets) == FormState([InvalidAddress, InvalidMask, InvalidCount], None)
  {
    assert !IsValidIP(ip) by { WrongPartCount(); }
    assert !IsValidMask(mask) by { MaskWithGap(); }
    assert !IsValidCount(desiredSubnets) by { assert ToDecimal(0) == "0"; ParseIntToDecimal(0); }
  }
}
