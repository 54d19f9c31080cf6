/** The host's numeric return codes and the error each one stands for. */
module ReturnCodes {
  import opened Types

  /** Every error a host function can hand back to a contract. The two deprecated
      variants keep their discriminants (4 and 6) but are never produced. */
  datatype Error =
    | CalleeTrapped
    | CalleeReverted
    | KeyNotFound
    | BelowSubsistenceThreshold
    | TransferFailed
    | EndowmentTooLow
    | CodeNotFound
    | NotCallable
    | LoggingDisabled
    | EcdsaRecoveryFailed
    | Unknown

  datatype Result<+T> = Ok(value: T) | Err(error: Error)

  /** The `repr(u32)` discriminant of each variant. `Unknown` is declared without one
      and so follows `EcdsaRecoveryFailed = 11`. */
  function Discriminant(e: Error): (d: u32)
    ensures 1 <= d <= 12 && d != 10
    ensures d == 12 <==> e == Unknown
  {
    match e
    case CalleeTrapped => 1
    case CalleeReverted => 2
    case KeyNotFound => 3
    case BelowSubsistenceThreshold => 4
    case TransferFailed => 5
    case EndowmentTooLow => 6
    case CodeNotFound => 7
    case NotCallable => 8
    case LoggingDisabled => 9
    case EcdsaRecoveryFailed => 11
    case Unknown => 12
  }

  /** `From<ReturnCode> for Result`: 0 is success, each declared discriminant is its own
      variant, anything else is `Unknown`. */
  function FromReturnCode(code: u32): (r: Result<()>)
    ensures r == Ok(()) <==> code == 0
    ensures forall e: Error :: e != Unknown ==> (r == Err(e) <==> code == Discriminant(e))
    ensures r == Err(Unknown) <==> code == 10 || code >= 12
  {
    match code
    case 0 => Ok(())
    case 1 => Err(CalleeTrapped)
    case 2 => Err(CalleeReverted)
    case 3 => Err(KeyNotFound)
    case 4 => Err(BelowSubsistenceThreshold)
    case 5 => Err(TransferFailed)
    case 6 => Err(EndowmentTooLow)
    case 7 => Err(CodeNotFound)
    case 8 => Err(NotCallable)
    case 9 => Err(LoggingDisabled)
    case 11 => Err(EcdsaRecoveryFailed)
    case _ => Err(Unknown)
  }

  /** Every variant, read back from its own discriminant, is itself; for `Unknown` this
      holds because its implicit discriminant 12 is not declared. */
  lemma DiscriminantRoundTrip(e: Error)
    ensures FromReturnCode(Discriminant(e)) == Err(e)
  {
  }

  /** Two variants never share a discriminant. */
  lemma DiscriminantInjective(e1: Error, e2: Error)
    requires Discriminant(e1) == Discriminant(e2)
    ensures e1 == e2
  {
    DiscriminantRoundTrip(e1);
    DiscriminantRoundTrip(e2);
  }
}
