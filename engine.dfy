/** The off-chain engine: one object owning the database, the execution context, the debug
    recorder, the chain specification and the contract bookkeeping, with the host
    functions as methods that update them step by step. Each method is proved to perform
    the transition the `Host` module defines. */
module OffChainEngine {
  import opened Types
  import opened ReturnCodes
  import opened Scale
  import opened Events
  import opened ChainSpecs
  import opened Reentrancy
  import opened HostState
  import opened Output
  import Host

  class Engine {
    var database: Database
    var execContext: ExecContext
    var debugInfo: DebugInfo
    var chainSpec: ChainSpec
    const contracts: ContractStorage

    /** The engine's whole state as a value. */
    function Value(): State
      reads this, contracts
    {
      State(database, execContext, debugInfo, chainSpec, contracts.Value())
    }

    /** The bookkeeping's invariant: no permission is stored as `false`. */
    ghost predicate Valid()
      reads this, contracts
    {
      contracts.Valid()
    }

    /** `Engine::new`. */
    constructor ()
      ensures Valid()
      ensures Value() == InitialState()
      ensures fresh(contracts)
    {
      database := Database(map[], map[]);
      execContext := ExecContext(None, None, [], []);
      debugInfo := DebugInfo(map[], map[], [], map[], []);
      chainSpec := DefaultChainSpec();
      contracts := new ContractStorage();
    }

    /** `get_callee`: the executing contract; unset is a fatal error. */
    method GetCallee() returns (callee: AccountId)
      requires execContext.callee.Some?
      ensures callee == execContext.callee.value
    {
      callee := execContext.callee.value;
    }

    /** `get_balance`: fails when the account has no record. */
    method GetBalance(account: AccountId) returns (balance: Option<u128>)
      ensures balance == database.GetBalance(account)
    {
      balance := if account in database.balances then Some(database.balances[account]) else None;
    }

    method Transfer(dest: AccountId, value: Bytes) returns (r: Result<()>)
      requires Host.TransferInRange(Value(), dest, value)
      requires Valid()
      modifies this
      ensures Valid()
      ensures var o := Host.Transfer(old(Value()), dest, value); Value() == o.state && r == o.value
    {
      var decoded := DecodeU128(value);
      if decoded.None? {
        return Err(TransferFailed);
      }
      var increment := decoded.value;
      var destBalance := GetBalance(dest);
      var destOld := destBalance.GetOr(0);
      var contract := GetCallee();
      var contractBalance := GetBalance(contract);
      if contractBalance.None? {
        return Err(TransferFailed);
      }
      var contractOld := contractBalance.value;
      database := database.SetBalance(contract, contractOld - increment);
      database := database.SetBalance(dest, destOld + increment);
      r := Ok(());
    }

    /** `terminate`: returns the outcome that the source carries out of the call by
        unwinding. */
    method Terminate(beneficiary: AccountId) returns (t: Host.Termination)
      requires Host.HasCallee(Value()) && Host.TerminateInRange(Value(), beneficiary)
      requires Valid()
      modifies this
      ensures Valid()
      ensures var o := Host.Terminate(old(Value()), beneficiary); Value() == o.state && t == o.value
    {
      var contract := GetCallee();
      var balance := GetBalance(contract);
      var all := balance.value;
      var value := EncodeU128(all);
      DecodeOfEncodeU128(all, []);
      assert value + [] == value;
      var r := Transfer(beneficiary, value);
      assert r.Ok?;
      t := Host.Terminated(all, beneficiary);
    }

    method DepositEvent(topics: Bytes, data: Bytes)
      requires TopicsDecodable(topics)
      requires Valid()
      modifies this
      ensures Valid()
      ensures Value() == Host.DepositEvent(old(Value()), topics, data).state
    {
      var topicsVec := SplitTopics(topics);
      debugInfo := debugInfo.RecordEvent(EmittedEvent(topicsVec, data));
    }

    method SetStorage(key: Bytes, encodedValue: Bytes) returns (size: Option<u32>)
      requires Host.HasCallee(Value()) && Host.SetStorageInRange(Value(), key)
      requires Valid()
      modifies this
      ensures Valid()
      ensures var o := Host.SetStorage(old(Value()), key, encodedValue); Value() == o.state && size == o.value
    {
      var callee := GetCallee();
      debugInfo := debugInfo.IncWrites(callee);
      debugInfo := debugInfo.RecordCellForAccount(callee, key);
      var previous := database.GetFromContractStorage(callee, key);
      database := database.InsertIntoContractStorage(callee, key, encodedValue);
      size := if previous.Some? then Some(|previous.value| as u32) else None;
    }

    method GetStorage(key: Bytes, output: array<u8>) returns (r: Result<()>)
      requires Host.HasCallee(Value())
      requires var v := Host.Stored(Value(), key); v.Some? ==> |v.value| <= output.Length
      requires Valid()
      modifies this, output
      ensures Valid()
      ensures var o := Host.GetStorage(old(Value()), key);
        && Value() == o.state
        && r == (if o.value.Ok? then Ok(()) else Err(o.value.error))
        && output[..] == if o.value.Ok? then CopyPrefix(old(output[..]), o.value.value) else old(output[..])
    {
      var callee := GetCallee();
      debugInfo := debugInfo.IncReads(callee);
      match database.GetFromContractStorage(callee, key)
      case Some(val) =>
        SetOutput(output, val);
        r := Ok(());
      case None =>
        r := Err(KeyNotFound);
    }

    method TakeStorage(key: Bytes, output: array<u8>) returns (r: Result<()>)
      requires Host.HasCallee(Value())
      requires var v := Host.Stored(Value(), key); v.Some? ==> |v.value| <= output.Length
      requires Valid()
      modifies this, output
      ensures Valid()
      ensures var o := Host.TakeStorage(old(Value()), key);
        && Value() == o.state
        && r == (if o.value.Ok? then Ok(()) else Err(o.value.error))
        && output[..] == if o.value.Ok? then CopyPrefix(old(output[..]), o.value.value) else old(output[..])
    {
      var callee := GetCallee();
      debugInfo := debugInfo.IncWrites(callee);
      var removed := database.GetFromContractStorage(callee, key);
      database := database.RemoveContractStorage(callee, key);
      match removed
      case Some(val) =>
        SetOutput(output, val);
        r := Ok(());
      case None =>
        r := Err(KeyNotFound);
    }

    method ContainsStorage(key: Bytes) returns (size: Option<u32>)
      requires Host.HasCallee(Value())
      requires Valid()
      modifies this
      ensures Valid()
      ensures var o := Host.ContainsStorage(old(Value()), key); Value() == o.state && size == o.value
    {
      var callee := GetCallee();
      debugInfo := debugInfo.IncReads(callee);
      var val := database.GetFromContractStorage(callee, key);
      size := if val.Some? then Some(|val.value| % U32_LIMIT) else None;
    }

    method ClearStorage(key: Bytes) returns (size: Option<u32>)
      requires Host.HasCallee(Value())
      requires Valid()
      modifies this
      ensures Valid()
      ensures var o := Host.ClearStorage(old(Value()), key); Value() == o.state && size == o.value
    {
      var callee := GetCallee();
      debugInfo := debugInfo.IncWrites(callee);
      debugInfo := debugInfo.RemoveCellForAccount(callee, key);
      var removed := database.GetFromContractStorage(callee, key);
      database := database.RemoveContractStorage(callee, key);
      size := if removed.Some? then Some(|removed.value| % U32_LIMIT) else None;
    }

    method DebugMessage(message: string)
      requires Valid()
      modifies this
      ensures Valid()
      ensures Value() == Host.DebugMessage(old(Value()), message).state
    {
      debugInfo := debugInfo.RecordDebugMessage(message);
    }

    /** `weight_to_fee`: the saturated fee, encoded as a `u128`, copied into `output`. */
    method WeightToFee(gas: u64, output: array<u8>)
      requires output.Length >= U128_BYTES
      modifies output
      ensures output[..] == CopyPrefix(old(output[..]), EncodeU128(ChainSpecs.WeightToFee(chainSpec.gasPrice, gas)))
    {
      var fee := ChainSpecs.WeightToFee(chainSpec.gasPrice, gas);
      SetOutput(output, EncodeU128(fee));
    }

    method ApplyCodeFlagsBeforeCall(caller: Option<AccountId>, callee: AccountId, callFlags: bv32, input: Bytes)
      returns (r: Result<Bytes>)
      requires Host.CanEnter(Value(), caller, callee, callFlags)
      requires Valid()
      modifies this, contracts
      ensures Valid()
      ensures var o := Host.BeforeCall(old(Value()), caller, callee, callFlags, input);
        Value() == o.state && r == o.value
    {
      var forwardInput := (callFlags & 1) != 0;
      var cloneInput := ((callFlags & 2) >> 1) != 0;
      var allowReentry := ((callFlags & 8) >> 3) != 0;

      if caller.Some? {
        contracts.SetAllowReentry(caller.value, allowReentry);
      }

      if !contracts.GetAllowReentry(callee) && contracts.GetEntranceCount(callee) > 0 {
        return Err(CalleeTrapped);
      }

      var entered := contracts.IncreaseEntranceCount(callee);

      if forwardInput {
        var previousInput := execContext.input;
        execContext := execContext.(input := []);
        r := Ok(previousInput);
      } else if cloneInput {
        r := Ok(execContext.input);
      } else {
        r := Ok(input);
      }
    }

    method ApplyCodeFlagsAfterCall(caller: Option<AccountId>, callee: AccountId, callFlags: bv32, output: Bytes)
      returns (r: Result<()>)
      requires Valid()
      modifies this, contracts
      ensures Valid()
      ensures var o := Host.AfterCall(old(Value()), caller, callee, callFlags, output);
        Value() == o.state && r == o.value
    {
      var tailCall := ((callFlags & 4) >> 2) != 0;

      if tailCall {
        execContext := execContext.(output := output);
      }

      var decreased := contracts.DecreaseEntranceCount(callee);
      if decreased.Err? {
        return Err(decreased.error);
      }

      if caller.Some? {
        contracts.RemoveAllowReentry(caller.value);
      }
      r := Ok(());
    }
  }
}
