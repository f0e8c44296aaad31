# Subnet calculator core, in Dafny

A model of the subnetting utilities of a small web calculator (`src/lib/utils.ts`):

- `isValidIP` and `isValidMask` validate dotted-decimal addresses and masks.
- `getIPClass` and `getDefaultMask` do the classful lookup.
- `maskToCIDR` and `cidrToMask` convert between a dotted mask and a prefix length.
- `calculateSubnets` borrows enough host bits for a requested number of subnets. It reports:
  - the class;
  - the borrowed bits;
  - the subnet and host counts, with and without the two reserved values;
  - the new mask;
  - the jump between subnets.
- The form's submit handler `handleCalculate` (`src/app/page.tsx`) collects validation messages before it calls the calculation.

The project has five modules:

- `JsBuiltins` (`js_builtins.dfy`) covers the JavaScript built-ins the code relies on:
  - `split` and `join` with a one-character separator;
  - `padStart`;
  - `parseInt` on unsigned decimal text;
  - `toString` in bases 10 and 2;
  - `Math.min`, `Math.max` and `Math.pow(2, k)`;
  - `reduce`.

  Each comes with the facts the rest of the model needs, for example that `split` undoes `join`.
- `Binary` (`binary.dfy`) holds bit strings:
  - the value a string of '0'/'1' denotes;
  - popcount;
  - the 8-character octet text `n.toString(2).padStart(8, '0')`;
  - the pattern `^1*0*$` as the predicate `OnesThenZeros`.
- `Subnet` (`subnet.dfy`) models `utils.ts`: the `SubnetResult` record (`src/lib/utils.ts:9-20`) and every function of the file except `cn`.
  - `cidrToMask` builds its mask with a loop, so it is a method with that loop. It is proved equal to the function `CidrMask`, and the lemmas state their properties about `CidrMask`.
  - The calculation is split in two parts:
    - `Subnetting` is everything after the first bindings, taking the class and the original prefix length as inputs.
    - `CalculateSubnets` applies it to `getIPClass(ip)` and `maskToCIDR(mask)`.
- `Form` (`form.dfy`) models `handleCalculate` as a function from the three text fields to the state the handler leaves behind: the list of messages and the result or its absence.
- `WorkedExamples` (`worked_examples.dfy`) states what the model gives for concrete inputs:
  - the form's defaults, 12.3.2.5 / 255.0.0.0 / 5, which give class A, 3 borrowed bits, 255.224.0.0, 8 subnets (6 usable) and 2097152 addresses per subnet (2097150 usable);
  - the boundaries of each class;
  - rejected addresses and masks.

Three behaviours of the code are easy to miss; the model follows the code.

1. `cidrToMask` clamps each octet's bit count to [0, 8] (`Math.min(8, Math.max(0, …))` at `src/lib/utils.ts:48`). So every integer prefix, even one outside [0, 32], gives a valid canonical mask: the one for the clamped prefix (`Subnet.CidrMaskIsValid`).
2. The round trip `cidrToMask(maskToCIDR(m)) == m` holds only for masks written canonically.
   - `isValidMask` accepts "255.255.255.00", because `parseInt` reads "00" as 0. That mask comes back as 255.255.255.0 (`WorkedExamples.PaddedMaskRoundTrip`).
   - `Subnet.MaskRoundTrip` therefore requires canonical text.
3. `isValidIP` accepts parts with trailing non-digits, such as "12abc.1.1.1", because `parseInt` stops at the first non-digit (`WorkedExamples.TrailingGarbageAccepted`).

## Model

| member | source | states |
|---|---|---|
| Subnet.IsValidIP | src/lib/utils.ts:88-96 | the definition: four dot-separated parts, each read by `parseInt` as a number in [0, 255]. It has no contract of its own; `Octets`, `FormatOctets` and `CanonicalIsFormatted` state its properties |
| Subnet.Octets | src/lib/utils.ts:88-96 | a valid address has exactly four parts, each of which `parseInt` reads as a number in [0, 255]; the result is those four numbers |
| Subnet.FormatOctets | src/lib/utils.ts:88-96 | any four numbers in [0, 255] written in decimal and joined by dots form a valid, canonical address whose octets are those numbers |
| Subnet.CanonicalIsFormatted | src/lib/utils.ts:88-96 | a canonical valid address equals its own octets joined in decimal, the inverse of `FormatOctets` |
| Subnet.BinaryExpansion | src/lib/utils.ts:101-103 | the definition: each part's `parseInt(..).toString(2).padStart(8, '0')`, concatenated. It has no contract of its own; `ExpansionOfValidIP` states its value on valid addresses |
| Subnet.ExpansionOfValidIP | src/lib/utils.ts:101-103 | the binary text of a valid address is the concatenation of its four octets' 8-bit padded binary texts |
| Subnet.IsValidMask | src/lib/utils.ts:98-108 | the definition: a valid address whose binary text matches `^1*0*$`. It has no contract of its own; `ValidMaskIffPrefixOctets` and `ValidMaskIffNoZeroBeforeOne` state its properties |
| Subnet.ValidMaskIffPrefixOctets | src/lib/utils.ts:98-108 | `isValidMask(m)` holds exactly when `m` is a valid address whose octets are those of the prefix mask of some length in [0, 32] |
| Subnet.ValidMaskIffNoZeroBeforeOne | src/lib/utils.ts:98-108 | for a valid address, `isValidMask` holds exactly when in its 32-bit text no '0' comes before a '1' |
| Subnet.ValidMaskOctets | src/lib/utils.ts:98-108 | a valid mask has a prefix length of at most 32, and its octets are those of the prefix mask of that length |
| Subnet.PrefixOctetsAreValidMask | src/lib/utils.ts:98-108 | a valid address whose octets are those of a prefix mask is accepted as a mask |
| Binary.OnesThenZerosIffNoZeroBeforeOne | src/lib/utils.ts:106 | a string matches `^1*0*$` exactly when it is made of bits and no '0' precedes a '1' |
| Binary.OctetBitsOfOctet | src/lib/utils.ts:102 | for an octet, `n.toString(2).padStart(8, '0')` is exactly 8 bits, denotes `n`, and has popcount(n) ones |
| Binary.OctetBitsPrefix | src/lib/utils.ts:102 | an octet's padded binary text is `k` ones then zeros exactly when the octet is 256 - 2^(8-k) |
| Binary.FromBinaryToBinary | src/lib/utils.ts:41 | `n.toString(2)` read back in binary is `n` |
| Binary.CountOnesToBinary | src/lib/utils.ts:41 | the number of '1' characters in `n.toString(2)` is the number of set bits of `n` |
| Subnet.GetIPClass | src/lib/utils.ts:22-28 | class A exactly when the first part reads 1..126, B exactly for 128..191, C exactly for 192..223, and "Unknown" exactly when it is not a number, 0, 127 or at least 224 |
| Subnet.GetDefaultMask | src/lib/utils.ts:30-37 | the definition: the switch on the class. It has no contract of its own; `DefaultMaskIsPrefixMask` and `DefaultMaskIsValid` state its properties |
| Subnet.DefaultMaskIsPrefixMask | src/lib/utils.ts:30-37 | the default mask of A is the /8 mask, of B the /16 mask, and of C and of any other class the /24 mask |
| Subnet.DefaultMaskIsValid | src/lib/utils.ts:30-37 | every default mask is a valid, canonical mask whose prefix length is 8, 16 or 24 by class |
| Subnet.ClassfulMaskTexts | src/lib/utils.ts:32-35 | the /8, /16 and /24 prefix masks are written 255.0.0.0, 255.255.0.0 and 255.255.255.0 |
| Subnet.SetBits | src/lib/utils.ts:41 | the definition: `parseInt(octet).toString(2).split('1').length - 1`. It has no contract of its own; `CountOnesToBinary` and `MaskToCIDRCountsSetBits` state that it counts set bits |
| Subnet.MaskToCIDR | src/lib/utils.ts:39-43 | the definition: the `reduce` of `SetBits` over the parts. It has no contract of its own; `MaskToCIDRCountsSetBits` and `CidrRoundTrip` state its properties |
| Subnet.MaskToCIDRCountsSetBits | src/lib/utils.ts:39-43 | for a valid address, `maskToCIDR` is the sum of the popcounts of its four octets, hence at most 32 |
| Subnet.CidrMask | src/lib/utils.ts:45-52 | the function the loop of `cidrToMask` computes, the four octets of `MaskOctets` joined by dots. It has no contract of its own; `CidrToMask` ties the loop to it and `CidrMaskIsValid` states its properties |
| Subnet.CidrToMask | src/lib/utils.ts:45-52 | the loop pushes octet i of the mask, 256 - 2^(8 - clamp(cidr - 8i, 0, 8)), for i = 0..3, and returns them joined by dots (`CidrMask`) |
| Subnet.MaskOctetValues | src/lib/utils.ts:48-49 | every octet `cidrToMask` pushes is one of 0, 128, 192, 224, 240, 248, 252, 254, 255 |
| Subnet.CidrMaskIsValid | src/lib/utils.ts:45-52 | for any integer prefix, the mask is valid and canonical, its octets are the pushed ones, and its prefix length is the prefix clamped to [0, 32] |
| Subnet.MaskOctetsOfClamped | src/lib/utils.ts:48 | the mask of a prefix equals the mask of that prefix clamped to [0, 32] |
| Subnet.PrefixTextIsMask | src/lib/utils.ts:98-108 | a valid address whose octets are those of the prefix mask for k is a valid mask, and `maskToCIDR` gives k |
| Subnet.CidrRoundTrip | src/lib/utils.ts:39-52 | `maskToCIDR(cidrToMask(c)) == c` for every c in [0, 32] |
| Subnet.MaskRoundTrip | src/lib/utils.ts:39-52 | `cidrToMask(maskToCIDR(m)) == m` for every valid, canonically written mask |
| Subnet.CeilLog2 | src/lib/utils.ts:60 | the borrowed bits k satisfy 2^k >= n, and k = 0 or 2^(k-1) < n |
| Subnet.CeilLog2Unique | src/lib/utils.ts:60 | those two conditions determine k: any k meeting them is `CeilLog2(n)` |
| Subnet.Subnetting | src/lib/utils.ts:57-85 | the calculation succeeds exactly when original prefix + borrowed bits <= 32. Then: k is the least with 2^k >= n; subnets = 2^k; usable subnets = max(0, 2^k - 2); addresses per subnet = 2^(32 - prefix - k); usable = max(0, that - 2); jump = addresses per subnet; new mask = the mask of prefix + k; class, original mask and requested count are echoed |
| Subnet.CalculateSubnets | src/lib/utils.ts:54-86 | the outcome is a result exactly when `maskToCIDR(mask)` plus the borrowed bits is at most 32; the result carries `getIPClass(ip)` and the original mask |
| Subnet.CalculatedMaskIsValid | src/lib/utils.ts:61-62 | the new mask of a calculation is a valid canonical mask of prefix length original + borrowed bits |
| Subnet.CalculatedCoversHostSpace | src/lib/utils.ts:65-68 | subnets x addresses per subnet = 2^(32 - original prefix): the subnets exactly cover the original network |
| JsBuiltins.Split | src/lib/utils.ts:89 | `split` gives one more piece than there are separators, no piece holds the separator, and joining the pieces gives the text back |
| JsBuiltins.SplitJoin | src/lib/utils.ts:89 | splitting pieces without the separator, joined by it, gives the pieces back |
| JsBuiltins.ParseInt | src/lib/utils.ts:93 | NaN exactly when the text is empty or does not start with a digit; otherwise the value of the leading digits |
| JsBuiltins.ParseIntIgnoresSuffix | src/lib/utils.ts:93 | digits followed by a non-digit read as the digits' value |
| JsBuiltins.ToDecimal | src/lib/utils.ts:51 | a number's decimal text is non-empty, all digits, without a leading zero, and denotes the number |
| JsBuiltins.ParseIntToDecimal | src/lib/utils.ts:51 | `parseInt` reads back what `toString` wrote |
| Form.IsValidCount | src/app/page.tsx:28-29 | the definition: `parseInt` gives a number greater than 0. It has no contract of its own; `HandleCalculate` states what follows from it |
| Form.Messages | src/app/page.tsx:18-31 | the list is empty exactly when all three checks pass; each message is present exactly when its check fails; only those three appear, in that order |
| Form.HandleCalculate | src/app/page.tsx:17-40 | the address, mask and count messages are present exactly when their checks fail; only those three appear, in that order; a result is present exactly when there is no message, and it is `calculateSubnets` on the parsed count |
| WorkedExamples.DefaultFormValues | src/lib/utils.ts:54-86 | 12.3.2.5 / 255.0.0.0 / 5 gives class A, 3 bits, 8 subnets (6 usable), 2097152 addresses (2097150 usable), 255.224.0.0, jump 2097152 |
| WorkedExamples.Prefix11Mask | src/lib/utils.ts:45-52 | the /11 mask is 255.224.0.0 |
| WorkedExamples.BorrowedBitsForFive | src/lib/utils.ts:60 | five subnets need three borrowed bits |
| WorkedExamples.ValidAddress | src/lib/utils.ts:88-96 | 192.168.1.1 is valid and canonical with octets 192, 168, 1, 1 |
| WorkedExamples.WrongPartCount | src/lib/utils.ts:89-90 | "1.2.3", "1.2.3.4.5" and "" are rejected |
| WorkedExamples.OctetOutOfRange | src/lib/utils.ts:92-95 | "256.1.1.1" is rejected |
| WorkedExamples.OctetNotANumber | src/lib/utils.ts:92-95 | "1.1.1.-1" is rejected |
| WorkedExamples.TrailingGarbageAccepted | src/lib/utils.ts:92-95 | "12abc.1.1.1" is accepted, as octets 12, 1, 1, 1, though not canonical |
| WorkedExamples.ContiguousMask | src/lib/utils.ts:98-108 | 255.255.255.0 is a valid mask of prefix length 24 |
| WorkedExamples.MaskWithGap | src/lib/utils.ts:98-108 | 255.0.255.0 is a valid address but not a mask, yet `maskToCIDR` counts 16 bits in it |
| WorkedExamples.PaddedMaskRoundTrip | src/lib/utils.ts:39-52 | 255.255.255.00 is a valid mask of length 24, and `cidrToMask(24)` is not that text |
| WorkedExamples.FirstClassA | src/lib/utils.ts:24 | 1.0.0.1 is class A |
| WorkedExamples.LastClassA | src/lib/utils.ts:24 | 126.0.0.1 is class A |
| WorkedExamples.FirstClassB | src/lib/utils.ts:25 | 128.0.0.1 is class B |
| WorkedExamples.LastClassB | src/lib/utils.ts:25 | 191.255.0.1 is class B |
| WorkedExamples.FirstClassC | src/lib/utils.ts:26 | 192.0.0.1 is class C |
| WorkedExamples.LastClassC | src/lib/utils.ts:26 | 223.255.255.1 is class C |
| WorkedExamples.ZeroHasNoClass | src/lib/utils.ts:27 | 0.1.2.3 has class "Unknown" |
| WorkedExamples.LoopbackHasNoClass | src/lib/utils.ts:27 | 127.0.0.1 has class "Unknown" |
| WorkedExamples.MulticastHasNoClass | src/lib/utils.ts:27 | 224.0.0.1 has class "Unknown" |
| WorkedExamples.HostNameHasNoClass | src/lib/utils.ts:23-27 | a host name, whose first part is not a number, has class "Unknown" |
| WorkedExamples.DefaultFormAccepted | src/app/page.tsx:17-40 | the form's default values give no message and the worked result |
| WorkedExamples.FormWithEveryError | src/app/page.tsx:17-40 | "1.2.3", "255.0.255.0", "0" give all three messages, in order, and no result |

## Left out

- `cn` (`src/lib/utils.ts:4-6`): it merges CSS class names through two foreign libraries and has nothing to do with subnetting.
- The page, apart from `handleCalculate`: rendering, input handling, `toLocaleString` formatting and the jump shown as `salto/8`. The `setErrors` and `setResult` calls of `handleCalculate` become the returned `FormState`.
- Floating point: `Math.ceil(Math.log2(n))` is `CeilLog2`, the least k with 2^k >= n, and `Math.pow(2, k)` is `Pow2`. Every value is at most 2^32, so it is exact as a JavaScript number.
- `CalculateSubnets`, `Subnetting`: require a count of at least 1. For 0, negative or NaN counts the source computes -Infinity or NaN fields. The form rejects those counts before calling.
- `Subnetting`: when original prefix + borrowed bits exceeds 32, the source returns a record with fractional address counts and a clamped /32 mask. The model returns `PrefixOverflow(newCidr)` instead of that record.
- `ParseInt`: models `parseInt` on unsigned decimal text only. Leading white space, a sign, and the "0x" prefix are not read as JavaScript reads them, so " 1" and "+1" are NaN here but 1 in JavaScript, and "-0" is NaN here but -0 there. "-1" and other negative parts are rejected either way.
- `ParseInt`: values are unbounded naturals. JavaScript's loss of precision above 2^53 only matters for parts that are already out of range.
- The regular-expression engine: `/^1*0*$/` is the predicate `OnesThenZeros`.
- `CalculateSubnets`: its own contract states only the outcome condition, the class and the original mask. The counts, the new mask and the jump are stated on `Subnetting`, which `CalculateSubnets` applies to `maskToCIDR(mask)`.
