/**
 * Bit strings: the value of a string of '0' and '1' characters read most
 * significant bit first, runs of ones and zeros, and the 8-character octet
 * text `n.toString(2).padStart(8, '0')` that the mask validator builds.
 */
module Binary {
  import opened JsBuiltins

  predicate IsBits(s: string) { forall i :: 0 <= i < |s| ==> s[i] == '0' || s[i] == '1' }

  function Ones(k: nat): string { Repeat('1', k) }

  function Zeros(k: nat): string { Repeat('0', k) }

  function BitValue(c: char): nat { if c == '1' then 1 else 0 }

  /** The number a bit string denotes, most significant bit first. */
  function FromBinary(s: string): nat
  {
    if s == [] then 0 else 2 * FromBinary(s[..|s| - 1]) + BitValue(s[|s| - 1])
  }

  /** The number of set bits of `n`, computed arithmetically. */
  function Popcount(n: nat): nat
  {
    if n == 0 then 0 else n % 2 + Popcount(n / 2)
  }

  lemma {:induction false} FromBinaryToBinary(n: nat)
    ensures FromBinary(ToBinary(n)) == n
  {
    if n >= 2 {
      var r := ToBinary(n);
      assert r[..|r| - 1] == ToBinary(n / 2);
      FromBinaryToBinary(n / 2);
    }
  }

  /** Counting the '1' characters of `n.toString(2)` counts the set bits of `n`. */
  lemma {:induction false} CountOnesToBinary(n: nat)
    ensures Count(ToBinary(n), '1') == Popcount(n)
  {
    if n >= 2 {
      CountOnesToBinary(n / 2);
      CountAppend(ToBinary(n / 2), [BitChar(n % 2)], '1');
    }
  }

  lemma {:induction false} ToBinaryLength(n: nat, w: nat)
    requires 1 <= w && n < Pow2(w)
    ensures |ToBinary(n)| <= w
  {
    if n >= 2 {
      assert w >= 2;
      ToBinaryLength(n / 2, w - 1);
    }
  }

  lemma {:induction false} FromBinaryAppend(a: string, b: string)
    ensures FromBinary(a + b) == FromBinary(a) * Pow2(|b|) + FromBinary(b)
  {
    if b == [] {
      assert a + b == a;
    } else {
      var b' := b[..|b| - 1];
      var last := BitValue(b[|b| - 1]);
      assert (a + b)[..|a + b| - 1] == a + b';
      assert (a + b)[|a + b| - 1] == b[|b| - 1];
      FromBinaryAppend(a, b');
      ShiftIn(FromBinary(a), Pow2(|b'|), FromBinary(b'), last);
    }
  }

  /** Appending one bit to `x` shifted by `p` shifts it one place further. */
  lemma ShiftIn(x: nat, p: nat, y: nat, bit: nat)
    ensures 2 * (x * p + y) + bit == x * (2 * p) + (2 * y + bit)
  {
  }

  lemma {:induction false} FromBinaryZeros(z: nat)
    ensures FromBinary(Zeros(z)) == 0
  {
    if z > 0 {
      assert Zeros(z)[..z - 1] == Zeros(z - 1);
      FromBinaryZeros(z - 1);
    }
  }

  lemma {:induction false} FromBinaryOnes(k: nat)
    ensures FromBinary(Ones(k)) == Pow2(k) - 1
  {
    if k > 0 {
      assert Ones(k)[..k - 1] == Ones(k - 1);
      FromBinaryOnes(k - 1);
    }
  }

  lemma {:induction false} FromBinaryBound(s: string)
    ensures FromBinary(s) < Pow2(|s|)
  {
    if s != [] {
      FromBinaryBound(s[..|s| - 1]);
    }
  }

  /** Two bit strings of one length that denote the same number are equal. */
  lemma {:induction false} FromBinaryInjective(s: string, t: string)
    requires |s| == |t| && IsBits(s) && IsBits(t)
    requires FromBinary(s) == FromBinary(t)
    ensures s == t
  {
    if s != [] {
      var n := |s| - 1;
      var x, y := BitValue(s[n]), BitValue(t[n]);
      assert 2 * FromBinary(s[..n]) + x == 2 * FromBinary(t[..n]) + y;
      assert x == y;
      assert IsBits(s[..n]) && IsBits(t[..n]);
      FromBinaryInjective(s[..n], t[..n]);
      assert s[n] == t[n];
      assert s == s[..n] + [s[n]] && t == t[..n] + [t[n]];
    }
  }

  /** The value of `k` ones followed by `w - k` zeros is 2^w - 2^(w - k). */
  lemma PrefixValue(k: nat, w: nat)
    requires k <= w
    ensures FromBinary(Ones(k) + Zeros(w - k)) == Pow2(w) - Pow2(w - k)
  {
    var ones, zeros := Ones(k), Zeros(w - k);
    var a, b := Pow2(k), Pow2(w - k);
    var v := FromBinary(ones + zeros);
    assert v == FromBinary(ones) * Pow2(|zeros|) + FromBinary(zeros) by { FromBinaryAppend(ones, zeros); }
    assert FromBinary(ones) == a - 1 by { FromBinaryOnes(k); }
    assert FromBinary(zeros) == 0 by { FromBinaryZeros(w - k); }
    assert Pow2(w) == a * b by { Pow2Add(k, w - k); }
    MulPredecessor(a, b);
  }

  lemma MulPredecessor(a: int, b: int)
    ensures (a - 1) * b == a * b - b
  {
  }

  /** The value of `k` ones followed by `8 - k` zeros is 256 - 2^(8 - k). */
  lemma PrefixOctetValue(k: nat)
    requires k <= 8
    ensures FromBinary(Ones(k) + Zeros(8 - k)) == 256 - Pow2(8 - k)
  {
    PrefixValue(k, 8);
    Pow2Eight();
  }

  /** `n.toString(2).padStart(8, '0')`. */
  function OctetBits(n: nat): string
  {
    PadStart(ToBinary(n), 8, '0')
  }

  lemma PadStartWithZeros(s: string)
    requires |s| <= 8
    ensures PadStart(s, 8, '0') == Zeros(8 - |s|) + s
  {
    if |s| == 8 {
      assert Zeros(0) == [];
    }
  }

  /** Leading zeros change neither the value nor the number of ones. */
  lemma LeadingZeros(z: nat, s: string)
    ensures FromBinary(Zeros(z) + s) == FromBinary(s)
    ensures Count(Zeros(z) + s, '1') == Count(s, '1')
  {
    FromBinaryAppend(Zeros(z), s);
    FromBinaryZeros(z);
    CountAppend(Zeros(z), s, '1');
    ZerosHaveNoOnes(z);
  }

  /** For an octet the padded text is exactly 8 bits denoting `n`, with Popcount(n) ones. */
  lemma OctetBitsOfOctet(n: nat)
    requires n < 256
    ensures |OctetBits(n)| == 8 && IsBits(OctetBits(n))
    ensures FromBinary(OctetBits(n)) == n
    ensures Count(OctetBits(n), '1') == Popcount(n)
  {
    var b := ToBinary(n);
    assert |b| <= 8 by {
      Pow2Eight();
      ToBinaryLength(n, 8);
    }
    var z := 8 - |b|;
    assert OctetBits(n) == Zeros(z) + b by { PadStartWithZeros(b); }
    assert IsBits(Zeros(z) + b);
    LeadingZeros(z, b);
    FromBinaryToBinary(n);
    CountOnesToBinary(n);
  }

  lemma {:induction false} ZerosHaveNoOnes(z: nat)
    ensures Count(Zeros(z), '1') == 0
  {
    if z > 0 {
      assert Zeros(z)[1..] == Zeros(z - 1);
      ZerosHaveNoOnes(z - 1);
    }
  }

  lemma {:induction false} OnesCount(k: nat)
    ensures Count(Ones(k), '1') == k
  {
    if k > 0 {
      assert Ones(k)[1..] == Ones(k - 1);
      OnesCount(k - 1);
    }
  }

  /**
   * The padded 8-bit text of an octet is `k` ones followed by zeros exactly
   * when the octet is 256 - 2^(8 - k).
   */
  lemma OctetBitsPrefix(n: nat, k: nat)
    requires n < 256 && k <= 8
    ensures OctetBits(n) == Ones(k) + Zeros(8 - k) <==> n == 256 - Pow2(8 - k)
  {
    var bits, prefix := OctetBits(n), Ones(k) + Zeros(8 - k);
    OctetBitsOfOctet(n);
    PrefixOctetValue(k);
    assert |prefix| == 8 && IsBits(prefix);
    if n == 256 - Pow2(8 - k) {
      FromBinaryInjective(bits, prefix);
    }
  }

  /** An octet written as `k` ones followed by zeros is 256 - 2^(8 - k). */
  lemma PrefixOctetOfBits(n: nat, k: nat)
    requires n < 256 && k <= 8
    requires OctetBits(n) == Ones(k) + Zeros(8 - k)
    ensures n == 256 - Pow2(8 - k)
  {
    OctetBitsOfOctet(n);
    PrefixOctetValue(k);
  }

  /** The octet 256 - 2^(8 - k) is written as `k` ones followed by zeros and has `k` set bits. */
  lemma PrefixOctetOnes(n: nat, k: nat)
    requires n < 256 && k <= 8 && n == 256 - Pow2(8 - k)
    ensures OctetBits(n) == Ones(k) + Zeros(8 - k)
    ensures Popcount(n) == k
  {
    OctetBitsPrefix(n, k);
    OctetBitsOfOctet(n);
    PrefixCount(k);
  }

  /** `k` ones followed by zeros hold `k` ones. */
  lemma PrefixCount(k: nat)
    requires k <= 8
    ensures Count(Ones(k) + Zeros(8 - k), '1') == k
  {
    CountAppend(Ones(k), Zeros(8 - k), '1');
    OnesCount(k);
    ZerosHaveNoOnes(8 - k);
  }

  /** Whether `s` is a run of ones followed by a run of zeros (the pattern `^1*0*$`). */
  predicate OnesThenZeros(s: string)
  {
    exists k :: 0 <= k <= |s| && s == Ones(k) + Zeros(|s| - k)
  }

  /** The length of the leading run of '1' characters of `s`. */
  function LeadingOnes(s: string): (k: nat)
    ensures k <= |s|
    ensures forall i :: 0 <= i < k ==> s[i] == '1'
    ensures k < |s| ==> s[k] != '1'
  {
    if s == [] || s[0] != '1' then 0 else 1 + LeadingOnes(s[1..])
  }

  /** `^1*0*$` holds of a bit string exactly when no '0' comes before a '1'. */
  lemma OnesThenZerosIffNoZeroBeforeOne(s: string)
    ensures OnesThenZeros(s) <==>
      IsBits(s) && forall i, j :: 0 <= i < j < |s| && s[i] == '0' ==> s[j] != '1'
  {
    if IsBits(s) && forall i, j :: 0 <= i < j < |s| && s[i] == '0' ==> s[j] != '1' {
      var k := LeadingOnes(s);
      forall i | k <= i < |s| ensures s[i] == '0' {
        assert s[k] == '0';
      }
      assert s == Ones(k) + Zeros(|s| - k);
    }
  }
}
