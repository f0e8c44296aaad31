/**
 * The JavaScript built-ins that the subnet utilities call, written out over
 * Dafny strings and naturals: `String.prototype.split` and
 * `Array.prototype.join` with a one-character separator,
 * `String.prototype.padStart`, `parseInt` on unsigned decimal text,
 * `Number.prototype.toString` in bases 10 and 2, `Math.min`, `Math.max` and
 * `Math.pow(2, k)`.
 */
module JsBuiltins {

  datatype Option<+T> = None | Some(value: T)

  // ---------------------------------------------------------------------------
  // Math

  /** `Math.pow(2, k)` for a natural exponent. */
  function Pow2(k: nat): (r: nat)
    ensures r >= 1
  {
    if k == 0 then 1 else 2 * Pow2(k - 1)
  }

  lemma {:induction false} Pow2Add(a: nat, b: nat)
    ensures Pow2(a + b) == Pow2(a) * Pow2(b)
  {
    if a > 0 {
      Pow2Add(a - 1, b);
      assert Pow2(a + b) == 2 * Pow2(a - 1 + b);
    }
  }

  lemma Pow2Eight()
    ensures Pow2(8) == 256
  {
  }

  lemma {:induction false} Pow2Monotonic(a: nat, b: nat)
    requires a <= b
    ensures Pow2(a) <= Pow2(b)
  {
    if a < b {
      Pow2Monotonic(a, b - 1);
    }
  }

  /** `Math.min(a, b)`. */
  function Min(a: int, b: int): (r: int)
    ensures r <= a && r <= b && (r == a || r == b)
  {
    if a <= b then a else b
  }

  /** `Math.max(a, b)`. */
  function Max(a: int, b: int): (r: int)
    ensures r >= a && r >= b && (r == a || r == b)
  {
    if a >= b then a else b
  }

  // ---------------------------------------------------------------------------
  // Strings

  /** The number of occurrences of `c` in `s`. */
  function Count(s: string, c: char): (n: nat)
    ensures n <= |s|
  {
    if s == [] then 0 else (if s[0] == c then 1 else 0) + Count(s[1..], c)
  }

  lemma {:induction false} CountAppend(a: string, b: string, c: char)
    ensures Count(a + b, c) == Count(a, c) + Count(b, c)
  {
    if a == [] {
      assert a + b == b;
    } else {
      assert (a + b)[1..] == a[1..] + b;
      CountAppend(a[1..], b, c);
    }
  }

  /** `n` copies of `c`. */
  function Repeat(c: char, n: nat): (r: string)
    ensures |r| == n && forall i :: 0 <= i < n ==> r[i] == c
  {
    seq(n, _ => c)
  }

  /** `parts.join(sep)`. */
  function Join(parts: seq<string>, sep: char): string
  {
    if parts == [] then ""
    else if |parts| == 1 then parts[0]
    else parts[0] + [sep] + Join(parts[1..], sep)
  }

  /**
   * `s.split(sep)`: the maximal separator-free pieces of `s`, in order.
   * There is always one more piece than there are separators, and joining
   * the pieces again gives back `s`.
   */
  function Split(s: string, sep: char): (parts: seq<string>)
    ensures |parts| == Count(s, sep) + 1
    ensures forall i :: 0 <= i < |parts| ==> sep !in parts[i]
    ensures Join(parts, sep) == s
  {
    if s == [] then [""]
    else if s[0] == sep then
      var rest := Split(s[1..], sep);
      assert [sep] + s[1..] == s;
      [""] + rest
    else
      var rest := Split(s[1..], sep);
      var parts := [[s[0]] + rest[0]] + rest[1..];
      assert parts[1..] == rest[1..];
      assert [s[0]] + s[1..] == s;
      parts
  }

  lemma {:induction false} SplitWithoutSeparator(p: string, sep: char)
    requires sep !in p
    ensures Split(p, sep) == [p]
  {
    if p != [] {
      assert p[0] in p;
      assert forall c :: c in p[1..] ==> c in p;
      SplitWithoutSeparator(p[1..], sep);
      assert [p[0]] + p[1..] == p;
    }
  }

  lemma {:induction false} SplitAtSeparator(p: string, sep: char, t: string)
    requires sep !in p
    ensures Split(p + [sep] + t, sep) == [p] + Split(t, sep)
  {
    var s := p + [sep] + t;
    if p == [] {
      assert s[1..] == t;
    } else {
      assert p[0] in p;
      assert forall c :: c in p[1..] ==> c in p;
      assert s[1..] == p[1..] + [sep] + t;
      SplitAtSeparator(p[1..], sep, t);
      assert [p[0]] + p[1..] == p;
    }
  }

  /** `split` undoes `join` when no piece contains the separator. */
  lemma {:induction false} SplitJoin(parts: seq<string>, sep: char)
    requires |parts| >= 1
    requires forall i :: 0 <= i < |parts| ==> sep !in parts[i]
    ensures Split(Join(parts, sep), sep) == parts
  {
    if |parts| == 1 {
      SplitWithoutSeparator(parts[0], sep);
    } else {
      SplitJoin(parts[1..], sep);
      SplitAtSeparator(parts[0], sep, Join(parts[1..], sep));
      assert [parts[0]] + parts[1..] == parts;
    }
  }

  lemma JoinFour(a: string, b: string, c: string, d: string, sep: char)
    ensures Join([a, b, c, d], sep) == a + [sep] + b + [sep] + c + [sep] + d
  {
    assert Join([d], sep) == d;
    assert Join([c, d], sep) == c + [sep] + d by { assert [c, d][1..] == [d]; }
    assert Join([b, c, d], sep) == b + [sep] + (c + [sep] + d) by { assert [b, c, d][1..] == [c, d]; }
    assert Join([a, b, c, d], sep) == a + [sep] + (b + [sep] + (c + [sep] + d)) by {
      assert [a, b, c, d][1..] == [b, c, d];
    }
  }

  /** `s.padStart(width, fill)`: `s` preceded by enough fill to reach `width`. */
  function PadStart(s: string, width: nat, fill: char): (r: string)
    ensures |r| == if |s| >= width then |s| else width
    ensures r[|r| - |s|..] == s
    ensures forall i :: 0 <= i < |r| - |s| ==> r[i] == fill
  {
    if |s| >= width then s else Repeat(fill, width - |s|) + s
  }

  /** The concatenation of `parts`, that is `parts.join('')`. */
  function Concat(parts: seq<string>): string
  {
    if parts == [] then "" else parts[0] + Concat(parts[1..])
  }

  /** `xs.reduce(f, acc)` with a natural accumulator, folding from the left. */
  function Reduce<T>(xs: seq<T>, f: (nat, T) -> nat, acc: nat): nat
    decreases |xs|
  {
    if xs == [] then acc else Reduce(xs[1..], f, f(acc, xs[0]))
  }

  lemma ReduceFour<T>(xs: seq<T>, f: (nat, T) -> nat, acc: nat)
    requires |xs| == 4
    ensures Reduce(xs, f, acc) == f(f(f(f(acc, xs[0]), xs[1]), xs[2]), xs[3])
  {
    var a1 := f(acc, xs[0]);
    var a2 := f(a1, xs[1]);
    var a3 := f(a2, xs[2]);
    var a4 := f(a3, xs[3]);
    assert Reduce(xs[4..], f, a4) == a4;
    assert Reduce(xs[3..], f, a3) == a4 by { assert xs[3..][1..] == xs[4..]; }
    assert Reduce(xs[2..], f, a2) == a4 by { assert xs[2..][1..] == xs[3..]; }
    assert Reduce(xs[1..], f, a1) == a4 by { assert xs[1..][1..] == xs[2..]; }
  }

  // ---------------------------------------------------------------------------
  // Decimal text

  predicate IsDigit(c: char) { '0' <= c <= '9' }

  predicate AllDigits(s: string) { forall i :: 0 <= i < |s| ==> IsDigit(s[i]) }

  function DigitValue(c: char): nat
    requires IsDigit(c)
  {
    c as int - '0' as int
  }

  function DigitChar(d: nat): (c: char)
    requires d < 10
    ensures IsDigit(c) && DigitValue(c) == d
  {
    ('0' as int + d) as char
  }

  /** The length of the longest prefix of `s` made of decimal digits. */
  function DigitPrefixLength(s: string): (k: nat)
    ensures k <= |s|
    ensures forall i :: 0 <= i < k ==> IsDigit(s[i])
    ensures k < |s| ==> !IsDigit(s[k])
  {
    if s == [] || !IsDigit(s[0]) then 0 else 1 + DigitPrefixLength(s[1..])
  }

  /** The value of a string of decimal digits, most significant first. */
  function DecimalValue(d: string): nat
    requires AllDigits(d)
  {
    if d == [] then 0 else 10 * DecimalValue(d[..|d| - 1]) + DigitValue(d[|d| - 1])
  }

  /**
   * `parseInt(s)` on unsigned decimal text: the value of the leading run of
   * digits, or None (JavaScript's NaN) when `s` does not start with a digit.
   * Whatever follows the digits is ignored, so "12abc" reads as 12.
   */
  function ParseInt(s: string): (r: Option<nat>)
    ensures r.None? <==> s == [] || !IsDigit(s[0])
    ensures r.Some? ==> r.value == DecimalValue(s[..DigitPrefixLength(s)])
  {
    var k := DigitPrefixLength(s);
    if k == 0 then None else Some(DecimalValue(s[..k]))
  }

  /** `n.toString()`: decimal digits, most significant first, no leading zero. */
  function ToDecimal(n: nat): (r: string)
    ensures r != [] && AllDigits(r)
    ensures DecimalValue(r) == n
    ensures r[0] == '0' ==> r == "0"
  {
    if n < 10 then [DigitChar(n)]
    else
      var r := ToDecimal(n / 10) + [DigitChar(n % 10)];
      assert r[..|r| - 1] == ToDecimal(n / 10);
      r
  }

  /** Reading back what `toString` wrote gives the number. */
  lemma ParseIntToDecimal(n: nat)
    ensures ParseInt(ToDecimal(n)) == Some(n)
  {
    var r := ToDecimal(n);
    assert DigitPrefixLength(r) == |r|;
    assert r[..|r|] == r;
  }

  /** `parseInt` reads the leading digits and ignores whatever follows them. */
  lemma ParseIntIgnoresSuffix(d: string, rest: string)
    requires d != [] && AllDigits(d)
    requires rest == [] || !IsDigit(rest[0])
    ensures ParseInt(d + rest) == Some(DecimalValue(d))
  {
    var s := d + rest;
    assert forall i :: 0 <= i < |d| ==> IsDigit(s[i]);
    assert s[..|d|] == d;
  }

  /** `xs.join(sep)` on an array of numbers: each number in decimal, joined. */
  function JoinDecimal(xs: seq<nat>, sep: char): string
  {
    Join(seq(|xs|, i requires 0 <= i < |xs| => ToDecimal(xs[i])), sep)
  }

  // ---------------------------------------------------------------------------
  // Binary text

  function BitChar(b: nat): char
    requires b < 2
  {
    if b == 0 then '0' else '1'
  }

  /** `n.toString(2)`: binary digits, most significant first, no leading zero. */
  function ToBinary(n: nat): (r: string)
    ensures r != [] && forall i :: 0 <= i < |r| ==> r[i] == '0' || r[i] == '1'
    ensures r[0] == '0' ==> n == 0
  {
    if n < 2 then [BitChar(n)] else ToBinary(n / 2) + [BitChar(n % 2)]
  }
}
