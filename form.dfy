/**
 * The calculator form's submit handler: every check that fails adds its
 * message, in the order address, mask, subnet count, and the calculation
 * runs only when no message was added.
 */
module Form {
  import opened JsBuiltins
  import opened Subnet

  const InvalidAddress: string := "Dirección IP inválida"
  const InvalidMask: string := "Máscara de subred inválida"
  const InvalidCount: string := "Número de subredes debe ser mayor a 0"

  /** The position of a message in the order the handler checks. */
  function Rank(message: string): nat
  {
    if message == InvalidAddress then 0 else if message == InvalidMask then 1 else 2
  }

  /** `parseInt(desiredSubnets)` is neither NaN nor at most 0. */
  predicate IsValidCount(desiredSubnets: string)
  {
    var n := ParseInt(desiredSubnets);
    n.Some? && n.value > 0
  }

  /** What the handler leaves in the form's state: the messages and the result. */
  datatype FormState = FormState(errors: seq<string>, result: Option<Calculation>)

  /**
   * The messages `handleCalculate` pushes, given the outcome of its three
   * checks in the order it makes them.
   */
  function Messages(addressOk: bool, maskOk: bool, countOk: bool): (errors: seq<string>)
    ensures errors == [] <==> addressOk && maskOk && countOk
    ensures InvalidAddress in errors <==> !addressOk
    ensures InvalidMask in errors <==> !maskOk
    ensures InvalidCount in errors <==> !countOk
    ensures forall i :: 0 <= i < |errors| ==> errors[i] in [InvalidAddress, InvalidMask, InvalidCount]
    ensures forall i, j :: 0 <= i < j < |errors| ==> Rank(errors[i]) < Rank(errors[j])
  {
    assert InvalidAddress[0] == 'D' && InvalidMask[0] == 'M' && InvalidCount[0] == 'N';
    (if !addressOk then [InvalidAddress] else []) +
    (if !maskOk then [InvalidMask] else []) +
    (if !countOk then [InvalidCount] else [])
  }

  /** `handleCalculate` on the three text fields of the form. */
  function HandleCalculate(ip: string, mask: string, desiredSubnets: string): (s: FormState)
    ensures s.result.Some? <==> s.errors == []
    ensures InvalidAddress in s.errors <==> !IsValidIP(ip)
    ensures InvalidMask in s.errors <==> !IsValidMask(mask)
    ensures InvalidCount in s.errors <==> !IsValidCount(desiredSubnets)
    ensures forall i :: 0 <= i < |s.errors| ==> s.errors[i] in [InvalidAddress, InvalidMask, InvalidCount]
    ensures forall i, j :: 0 <= i < j < |s.errors| ==> Rank(s.errors[i]) < Rank(s.errors[j])
    ensures s.result.Some? ==>
      IsValidCount(desiredSubnets) &&
      s.result.value == CalculateSubnets(ip, mask, ParseInt(desiredSubnets).value)
  {
    var newErrors := Messages(IsValidIP(ip), IsValidMask(mask), IsValidCount(desiredSubnets));
    if newErrors == [] then FormState(newErrors, Some(CalculateSubnets(ip, mask, ParseInt(desiredSubnets).value)))
    else FormState(newErrors, None)
  }
}
