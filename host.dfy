/** The engine's host operations as transitions of its state: each takes the state before
    the call and gives the state after it together with what the call returns. */
module Host {
  import opened Types
  import opened ReturnCodes
  import opened Scale
  import opened Events
  import opened ChainSpecs
  import opened Reentrancy
  import opened HostState

  datatype Out<T> = Out(state: State, value: T)

  /** How `terminate` ends: not by returning but with the balance it sent and the account
      it sent it to. */
  datatype Termination = Terminated(all: u128, beneficiary: AccountId)

  /** Whether `get_callee` succeeds; every operation on the executing contract needs it. */
  predicate HasCallee(s: State)
  {
    s.execContext.callee.Some?
  }

  function Callee(s: State): AccountId
    requires HasCallee(s)
  {
    s.execContext.callee.value
  }

  /** The destination's balance as `transfer` reads it, 0 when it has no record. */
  function BalanceOrZero(db: Database, account: AccountId): u128
  {
    db.GetBalance(account).GetOr(0)
  }

  // ---------------------------------------------------------------------------------------
  // Balance transfer and termination

  /** What `transfer` needs once the amount decodes: a callee is staged (`get_callee` is
      reached only then), and when the payer has a record it can afford the amount and the
      destination's new balance is a `u128`. A short amount fails before any of these. */
  predicate TransferInRange(s: State, dest: AccountId, value: Bytes)
  {
    match DecodeU128(value)
    case None => true
    case Some(v) =>
      && HasCallee(s)
      && (Callee(s) in s.database.balances ==>
            v <= s.database.balances[Callee(s)] && BalanceOrZero(s.database, dest) + v < U128_LIMIT)
  }

  /** `transfer(dest, value)`: decode the amount, read the destination (0 if absent), read the
      payer, write the payer, then write the destination. */
  function Transfer(s: State, dest: AccountId, value: Bytes): (o: Out<Result<()>>)
    requires TransferInRange(s, dest, value)
    ensures o.value == Ok(()) || o.value == Err(TransferFailed)
    ensures o.value.Err? <==> |value| < U128_BYTES || Callee(s) !in s.database.balances
    ensures o.value.Err? ==> o.state == s
    ensures o.state == s.(database := o.state.database)
    ensures o.state.database.storage == s.database.storage
    ensures HasCallee(s) ==> forall a :: a != Callee(s) && a != dest ==>
      o.state.database.GetBalance(a) == s.database.GetBalance(a)
    ensures o.value.Ok? ==>
      var v := DecodeU128(value).value;
      var c := Callee(s);
      var b, b' := s.database.balances, o.state.database.balances;
      && c in b' && dest in b'
      && (dest != c ==> b'[c] == b[c] - v && b'[dest] == BalanceOrZero(s.database, dest) + v)
      && (dest != c ==> b'[c] as int + b'[dest] == b[c] as int + BalanceOrZero(s.database, dest))
      && (dest == c ==> b'[c] == b[c] + v)
  {
    match DecodeU128(value)
    case None => Out(s, Err(TransferFailed))
    case Some(increment) =>
      var destOld := BalanceOrZero(s.database, dest);
      var contract := Callee(s);
      match s.database.GetBalance(contract)
      case None => Out(s, Err(TransferFailed))
      case Some(contractOld) =>
        var db := s.database.SetBalance(contract, contractOld - increment).SetBalance(dest, destOld + increment);
        Out(s.(database := db), Ok(()))
  }

  /** A failed decode is `TransferFailed` and changes nothing, also when no callee is
      staged (as right after `Engine::new`). */
  lemma TransferOfShortAmount(s: State, dest: AccountId, value: Bytes)
    requires |value| < U128_BYTES
    ensures TransferInRange(s, dest, value)
    ensures Transfer(s, dest, value) == Out(s, Err(TransferFailed))
  {
  }

  /** A transfer scenario: the executing account holds 1000000 (the
      default minimum balance) and sends 500000 to an account without a record. */
  lemma TransferScenario(s: State, x: AccountId, y: AccountId)
    requires s.execContext.callee == Some(x) && x != y
    requires s.database.balances == map[x := 1000000]
    ensures DecodeU128(EncodeU128(500000)) == Some(500000)
    ensures TransferInRange(s, y, EncodeU128(500000))
    ensures var o := Transfer(s, y, EncodeU128(500000));
      o.value == Ok(()) && o.state.database.balances == map[x := 500000, y := 500000]
  {
    DecodeOfEncodeU128(500000, []);
    assert EncodeU128(500000) + [] == EncodeU128(500000);
  }

  /** What `terminate` needs: the payer's record exists (`get_balance` must succeed) and the
      beneficiary can receive the whole balance without overflow. */
  predicate TerminateInRange(s: State, beneficiary: AccountId)
    requires HasCallee(s)
  {
    && Callee(s) in s.database.balances
    && BalanceOrZero(s.database, beneficiary) + s.database.balances[Callee(s)] < U128_LIMIT
  }

  /** `terminate(beneficiary)`: the whole balance is encoded and handed to `transfer`, which
      cannot fail here; the call then ends with the balance and the beneficiary. */
  function Terminate(s: State, beneficiary: AccountId): (o: Out<Termination>)
    requires HasCallee(s) && TerminateInRange(s, beneficiary)
    ensures var c, b := Callee(s), s.database.balances;
      && o.value == Terminated(b[c], beneficiary)
      && o.state == s.(database := o.state.database)
      && c in o.state.database.balances && beneficiary in o.state.database.balances
      && (beneficiary != c ==> o.state.database.balances[c] == 0)
      && (beneficiary != c ==>
            o.state.database.balances[beneficiary] == BalanceOrZero(s.database, beneficiary) + b[c])
      && (beneficiary == c ==> o.state.database.balances[c] == 2 * b[c])
    ensures o.state.database.storage == s.database.storage
    ensures forall a :: a != Callee(s) && a != beneficiary ==>
      o.state.database.GetBalance(a) == s.database.GetBalance(a)
  {
    var all := s.database.balances[Callee(s)];
    DecodeOfEncodeU128(all, []);
    assert EncodeU128(all) + [] == EncodeU128(all);
    var t := Transfer(s, beneficiary, EncodeU128(all));
    assert t.value == Ok(());
    Out(t.state, Terminated(all, beneficiary))
  }

  // ---------------------------------------------------------------------------------------
  // Events and debug messages

  /** `deposit_event(topics, data)`: exactly one event is appended, with the split topics and
      the data as given; nothing else changes. */
  function DepositEvent(s: State, topics: Bytes, data: Bytes): (o: Out<()>)
    requires TopicsDecodable(topics)
    ensures var es, es' := s.debugInfo.events, o.state.debugInfo.events;
      && |es'| == |es| + 1
      && es'[..|es|] == es
      && es'[|es|] == EmittedEvent(SplitTopics(topics), data)
    ensures o.state == s.(debugInfo := s.debugInfo.(events := o.state.debugInfo.events))
  {
    Out(s.(debugInfo := s.debugInfo.RecordEvent(EmittedEvent(SplitTopics(topics), data))), ())
  }

  /** `debug_message(text)`: the text is recorded; printing it is not part of this model. */
  function DebugMessage(s: State, message: string): (o: Out<()>)
    ensures o.state.debugInfo.messages == s.debugInfo.messages + [message]
    ensures o.state == s.(debugInfo := s.debugInfo.(messages := o.state.debugInfo.messages))
  {
    Out(s.(debugInfo := s.debugInfo.RecordDebugMessage(message)), ())
  }

  // ---------------------------------------------------------------------------------------
  // Per-contract storage

  /** The value stored under `key` in the executing contract's namespace. */
  function Stored(s: State, key: Bytes): Option<Bytes>
    requires HasCallee(s)
  {
    s.database.GetFromContractStorage(Callee(s), key)
  }

  /** No storage cell except `(account, key)` differs between the two databases. */
  ghost predicate StorageAgreesExcept(db: Database, db': Database, account: AccountId, key: Bytes)
  {
    forall a, k :: (a != account || k != key) ==>
      db'.GetFromContractStorage(a, k) == db.GetFromContractStorage(a, k)
  }

  /** What `set_storage` needs: a previous value's length converts to `u32` (the `expect`). */
  predicate SetStorageInRange(s: State, key: Bytes)
    requires HasCallee(s)
  {
    Stored(s, key).Some? ==> |Stored(s, key).value| < U32_LIMIT
  }

  /** `set_storage(key, value)`: one write is counted and the cell recorded for the callee,
      the value is stored, and the previous value's length is returned. */
  function SetStorage(s: State, key: Bytes, value: Bytes): (o: Out<Option<u32>>)
    requires HasCallee(s) && SetStorageInRange(s, key)
    ensures o.value.Some? <==> Stored(s, key).Some?
    ensures o.value.Some? ==> o.value.value == |Stored(s, key).value|
    ensures o.state.database.GetFromContractStorage(Callee(s), key) == Some(value)
    ensures StorageAgreesExcept(s.database, o.state.database, Callee(s), key)
    ensures o.state.database.balances == s.database.balances
    ensures o.state.debugInfo.Writes(Callee(s)) == s.debugInfo.Writes(Callee(s)) + 1
    ensures o.state.debugInfo.Cells(Callee(s)) == s.debugInfo.Cells(Callee(s)) + {key}
    ensures forall a :: a != Callee(s) ==>
      o.state.debugInfo.Writes(a) == s.debugInfo.Writes(a) && o.state.debugInfo.Cells(a) == s.debugInfo.Cells(a)
    ensures o.state.debugInfo == s.debugInfo.(countWrites := o.state.debugInfo.countWrites, cells := o.state.debugInfo.cells)
    ensures o.state == s.(database := o.state.database, debugInfo := o.state.debugInfo)
  {
    var callee := Callee(s);
    var debug := s.debugInfo.IncWrites(callee).RecordCellForAccount(callee, key);
    var previous := s.database.GetFromContractStorage(callee, key);
    var db := s.database.InsertIntoContractStorage(callee, key, value);
    var size := if previous.Some? then Some(|previous.value| as u32) else None;
    Out(s.(database := db, debugInfo := debug), size)
  }

  /** `get_storage(key, output)`: one read is counted; the stored value is what gets copied
      into the output buffer, and a missing key is `KeyNotFound`. Storage is unchanged. */
  function GetStorage(s: State, key: Bytes): (o: Out<Result<Bytes>>)
    requires HasCallee(s)
    ensures o.value.Ok? <==> Stored(s, key).Some?
    ensures o.value.Ok? ==> o.value.value == Stored(s, key).value
    ensures o.value.Err? ==> o.value.error == KeyNotFound
    ensures o.state.debugInfo.Reads(Callee(s)) == s.debugInfo.Reads(Callee(s)) + 1
    ensures forall a :: a != Callee(s) ==> o.state.debugInfo.Reads(a) == s.debugInfo.Reads(a)
    ensures o.state.debugInfo == s.debugInfo.(countReads := o.state.debugInfo.countReads)
    ensures o.state == s.(debugInfo := o.state.debugInfo)
  {
    var callee := Callee(s);
    var st := s.(debugInfo := s.debugInfo.IncReads(callee));
    match s.database.GetFromContractStorage(callee, key)
    case Some(val) => Out(st, Ok(val))
    case None => Out(st, Err(KeyNotFound))
  }

  /** `take_storage(key, output)`: one write is counted; the value is removed and is what
      gets copied out, and a missing key is `KeyNotFound`. The touched cells are left as
      they were. */
  function TakeStorage(s: State, key: Bytes): (o: Out<Result<Bytes>>)
    requires HasCallee(s)
    ensures o.value.Ok? <==> Stored(s, key).Some?
    ensures o.value.Ok? ==> o.value.value == Stored(s, key).value
    ensures o.value.Err? ==> o.value.error == KeyNotFound
    ensures o.state.database.GetFromContractStorage(Callee(s), key).None?
    ensures StorageAgreesExcept(s.database, o.state.database, Callee(s), key)
    ensures o.state.database.balances == s.database.balances
    ensures o.state.debugInfo.Writes(Callee(s)) == s.debugInfo.Writes(Callee(s)) + 1
    ensures forall a :: a != Callee(s) ==> o.state.debugInfo.Writes(a) == s.debugInfo.Writes(a)
    ensures o.state.debugInfo == s.debugInfo.(countWrites := o.state.debugInfo.countWrites)
    ensures o.state == s.(database := o.state.database, debugInfo := o.state.debugInfo)
  {
    var callee := Callee(s);
    var debug := s.debugInfo.IncWrites(callee);
    var removed := s.database.GetFromContractStorage(callee, key);
    var st := s.(database := s.database.RemoveContractStorage(callee, key), debugInfo := debug);
    match removed
    case Some(val) => Out(st, Ok(val))
    case None => Out(st, Err(KeyNotFound))
  }

  /** `contains_storage(key)`: one read is counted; the stored value's length is returned,
      cut to 32 bits by the `as u32` cast; storage is unchanged. */
  function ContainsStorage(s: State, key: Bytes): (o: Out<Option<u32>>)
    requires HasCallee(s)
    ensures o.value.Some? <==> Stored(s, key).Some?
    ensures o.value.Some? ==> o.value.value == |Stored(s, key).value| % U32_LIMIT
    ensures o.state.debugInfo.Reads(Callee(s)) == s.debugInfo.Reads(Callee(s)) + 1
    ensures forall a :: a != Callee(s) ==> o.state.debugInfo.Reads(a) == s.debugInfo.Reads(a)
    ensures o.state.debugInfo == s.debugInfo.(countReads := o.state.debugInfo.countReads)
    ensures o.state == s.(debugInfo := o.state.debugInfo)
  {
    var callee := Callee(s);
    var st := s.(debugInfo := s.debugInfo.IncReads(callee));
    match s.database.GetFromContractStorage(callee, key)
    case Some(val) => Out(st, Some(|val| % U32_LIMIT))
    case None => Out(st, None)
  }

  /** `clear_storage(key)`: one write is counted, the cell is forgotten, the value removed
      and its length (cut to 32 bits) returned. */
  function ClearStorage(s: State, key: Bytes): (o: Out<Option<u32>>)
    requires HasCallee(s)
    ensures o.value.Some? <==> Stored(s, key).Some?
    ensures o.value.Some? ==> o.value.value == |Stored(s, key).value| % U32_LIMIT
    ensures o.state.database.GetFromContractStorage(Callee(s), key).None?
    ensures StorageAgreesExcept(s.database, o.state.database, Callee(s), key)
    ensures o.state.database.balances == s.database.balances
    ensures o.state.debugInfo.Writes(Callee(s)) == s.debugInfo.Writes(Callee(s)) + 1
    ensures o.state.debugInfo.Cells(Callee(s)) == s.debugInfo.Cells(Callee(s)) - {key}
    ensures forall a :: a != Callee(s) ==>
      o.state.debugInfo.Writes(a) == s.debugInfo.Writes(a) && o.state.debugInfo.Cells(a) == s.debugInfo.Cells(a)
    ensures o.state.debugInfo == s.debugInfo.(countWrites := o.state.debugInfo.countWrites, cells := o.state.debugInfo.cells)
    ensures o.state == s.(database := o.state.database, debugInfo := o.state.debugInfo)
  {
    var callee := Callee(s);
    var debug := s.debugInfo.IncWrites(callee).RemoveCellForAccount(callee, key);
    var removed := s.database.GetFromContractStorage(callee, key);
    var st := s.(database := s.database.RemoveContractStorage(callee, key), debugInfo := debug);
    match removed
    case Some(val) => Out(st, Some(|val| % U32_LIMIT))
    case None => Out(st, None)
  }

  /** A stored value is read back. */
  lemma SetThenGet(s: State, key: Bytes, value: Bytes)
    requires HasCallee(s) && SetStorageInRange(s, key)
    ensures var s1 := SetStorage(s, key, value).state;
      HasCallee(s1) && GetStorage(s1, key).value == Ok(value)
  {
  }

  /** A second `set_storage` returns the length of the first value, not of the new one. */
  lemma SetTwiceReturnsPrevious(s: State, key: Bytes, first: Bytes, second: Bytes)
    requires HasCallee(s) && SetStorageInRange(s, key) && |first| < U32_LIMIT
    ensures var s1 := SetStorage(s, key, first).state;
      HasCallee(s1) && SetStorageInRange(s1, key)
      && SetStorage(s1, key, second).value == Some(|first|)
  {
  }

  /** After `take_storage` or `clear_storage` the key is gone again. */
  lemma RemovedKeyNotFound(s: State, key: Bytes)
    requires HasCallee(s)
    ensures var s1 := TakeStorage(s, key).state; HasCallee(s1) && GetStorage(s1, key).value == Err(KeyNotFound)
    ensures var s2 := ClearStorage(s, key).state; HasCallee(s2) && GetStorage(s2, key).value == Err(KeyNotFound)
  {
  }

  /** Storage operations of the executing contract leave every other account's namespace
      exactly as it was. */
  lemma StorageIsolation(s: State, key: Bytes, value: Bytes, other: AccountId)
    requires HasCallee(s) && SetStorageInRange(s, key) && other != Callee(s)
    ensures SetStorage(s, key, value).state.database.Namespace(other) == s.database.Namespace(other)
    ensures TakeStorage(s, key).state.database.Namespace(other) == s.database.Namespace(other)
    ensures ClearStorage(s, key).state.database.Namespace(other) == s.database.Namespace(other)
  {
  }

  // ---------------------------------------------------------------------------------------
  // Call flags and the reentrancy guard

  /** Bit 0: the callee gets the caller's input, which is then cleared. */
  predicate ForwardsInput(flags: bv32) { (flags & 1) != 0 }
  /** Bit 1: the callee gets a copy of the caller's input. */
  predicate ClonesInput(flags: bv32) { ((flags & 2) >> 1) != 0 }
  /** Bit 2: the callee's output becomes the context's output. */
  predicate TailCall(flags: bv32) { ((flags & 4) >> 2) != 0 }
  /** Bit 3: the caller may be reentered during the call. */
  predicate GrantsReentry(flags: bv32) { ((flags & 8) >> 3) != 0 }

  /** The caller's permission, set or removed according to bit 3. */
  function Granted(r: Registry, caller: Option<AccountId>, flags: bv32): Registry
  {
    if caller.Some? then r.WithAllowReentry(caller.value, GrantsReentry(flags)) else r
  }

  /** The reentrancy guard: the callee is already entered and does not allow reentry. */
  predicate Trapped(r: Registry, callee: AccountId)
  {
    !r.AllowsReentry(callee) && r.EntranceCount(callee) > 0
  }

  /** What `apply_code_flags_before_call` needs: when the guard lets the call in, the
      callee's count can be increased without `u32` overflow. */
  predicate CanEnter(s: State, caller: Option<AccountId>, callee: AccountId, flags: bv32)
  {
    var g := Granted(s.contracts, caller, flags);
    Trapped(g, callee) || g.EntranceCount(callee) < U32_MAX
  }

  /** `apply_code_flags_before_call`. */
  function BeforeCall(s: State, caller: Option<AccountId>, callee: AccountId, flags: bv32, input: Bytes)
    : (o: Out<Result<Bytes>>)
    requires CanEnter(s, caller, callee, flags)
    ensures var r, r' := s.contracts, o.state.contracts;
      && (caller.Some? ==> r'.AllowsReentry(caller.value) == GrantsReentry(flags))
      && (caller.Some? ==> (caller.value in r'.allowReentry <==> GrantsReentry(flags)))
      && (caller.None? ==> r'.allowReentry == r.allowReentry)
      && (forall k :: Some(k) != caller ==> (k in r'.allowReentry <==> k in r.allowReentry))
      && (forall k :: Some(k) != caller ==> r'.AllowsReentry(k) == r.AllowsReentry(k))
      && (r.Sparse() ==> r'.Sparse())
    ensures o.value.Err? <==> !o.state.contracts.AllowsReentry(callee) && s.contracts.EntranceCount(callee) > 0
    ensures o.value.Err? ==>
      && o.value.error == CalleeTrapped
      && o.state.contracts.entranceCount == s.contracts.entranceCount
      && o.state.execContext == s.execContext
    ensures o.value.Ok? ==> o.state.contracts.EntranceCount(callee) == s.contracts.EntranceCount(callee) + 1
    ensures forall k :: k != callee ==> o.state.contracts.EntranceCount(k) == s.contracts.EntranceCount(k)
    ensures o.value.Ok? && ForwardsInput(flags) ==>
      o.value.value == s.execContext.input && o.state.execContext == s.execContext.(input := [])
    ensures o.value.Ok? && !ForwardsInput(flags) && ClonesInput(flags) ==>
      o.value.value == s.execContext.input && o.state.execContext == s.execContext
    ensures o.value.Ok? && !ForwardsInput(flags) && !ClonesInput(flags) ==>
      o.value.value == input && o.state.execContext == s.execContext
    ensures o.state == s.(contracts := o.state.contracts, execContext := o.state.execContext)
  {
    var granted := Granted(s.contracts, caller, flags);
    if Trapped(granted, callee) then
      Out(s.(contracts := granted), Err(CalleeTrapped))
    else
      var entered := granted.Increased(callee);
      if ForwardsInput(flags) then
        Out(s.(contracts := entered, execContext := s.execContext.(input := [])), Ok(s.execContext.input))
      else if ClonesInput(flags) then
        Out(s.(contracts := entered), Ok(s.execContext.input))
      else
        Out(s.(contracts := entered), Ok(input))
  }

  /** `apply_code_flags_after_call`: the tail-call output is written first, so also when the
      decrement then fails; the caller's permission is removed only after a successful
      decrement. */
  function AfterCall(s: State, caller: Option<AccountId>, callee: AccountId, flags: bv32, output: Bytes)
    : (o: Out<Result<()>>)
    ensures o.state.execContext == if TailCall(flags) then s.execContext.(output := output) else s.execContext
    ensures o.value.Ok? <==> s.contracts.EntranceCount(callee) > 0
    ensures o.value.Err? ==> o.value.error == CalleeTrapped && o.state.contracts == s.contracts
    ensures forall k :: Some(k) != caller ==> o.state.contracts.AllowsReentry(k) == s.contracts.AllowsReentry(k)
    ensures s.contracts.Sparse() ==> o.state.contracts.Sparse()
    ensures o.value.Ok? ==>
      && o.state.contracts.EntranceCount(callee) + 1 == s.contracts.EntranceCount(callee)
      && (forall k :: k != callee ==> o.state.contracts.EntranceCount(k) == s.contracts.EntranceCount(k))
      && (caller.Some? ==> caller.value !in o.state.contracts.allowReentry)
      && (forall k :: Some(k) != caller ==> (k in o.state.contracts.allowReentry <==> k in s.contracts.allowReentry))
    ensures o.state == s.(contracts := o.state.contracts, execContext := o.state.execContext)
  {
    var ctx := if TailCall(flags) then s.execContext.(output := output) else s.execContext;
    match s.contracts.Decreased(callee)
    case Err(e) => Out(s.(execContext := ctx), Err(e))
    case Ok(decreased) =>
      var revoked := if caller.Some? then decreased.RevokeReentry(caller.value) else decreased;
      Out(s.(execContext := ctx, contracts := revoked), Ok(()))
  }

  /** A call that got past the guard returns successfully, gives every callee its count back
      and leaves the caller without a reentry permission. */
  lemma {:induction false} CallPairRestores(
    s: State, caller: Option<AccountId>, callee: AccountId,
    flags: bv32, input: Bytes, returnFlags: bv32, output: Bytes)
    requires CanEnter(s, caller, callee, flags)
    requires BeforeCall(s, caller, callee, flags, input).value.Ok?
    ensures var s1 := BeforeCall(s, caller, callee, flags, input).state;
      var o := AfterCall(s1, caller, callee, returnFlags, output);
      && o.value == Ok(())
      && (forall k :: o.state.contracts.EntranceCount(k) == s.contracts.EntranceCount(k))
      && (caller.Some? ==> !o.state.contracts.AllowsReentry(caller.value))
      && (forall k :: Some(k) != caller ==> (k in o.state.contracts.allowReentry <==> k in s.contracts.allowReentry))
  {
    var s1 := BeforeCall(s, caller, callee, flags, input).state;
    var o := AfterCall(s1, caller, callee, returnFlags, output);
    forall k
      ensures o.state.contracts.EntranceCount(k) == s.contracts.EntranceCount(k)
    {
      if k != callee {
        assert s1.contracts.EntranceCount(k) == s.contracts.EntranceCount(k);
      }
    }
  }

  /** The guard in terms of the state before the call: a caller calling itself is judged by
      its own bit 3, any other callee by the permission it already had. */
  lemma GuardOnPriorState(s: State, caller: Option<AccountId>, callee: AccountId, flags: bv32, input: Bytes)
    requires CanEnter(s, caller, callee, flags)
    ensures var allowed := if caller == Some(callee) then GrantsReentry(flags) else s.contracts.AllowsReentry(callee);
      BeforeCall(s, caller, callee, flags, input).value.Err? <==>
        !allowed && s.contracts.EntranceCount(callee) > 0
  {
  }

  /** Bit 0 wins over bit 1: with both set the input is forwarded and cleared. */
  lemma ForwardTakesPrecedence(s: State, caller: Option<AccountId>, callee: AccountId, input: Bytes)
    requires CanEnter(s, caller, callee, 3)
    requires BeforeCall(s, caller, callee, 3, input).value.Ok?
    ensures BeforeCall(s, caller, callee, 3, input).value.value == s.execContext.input
    ensures BeforeCall(s, caller, callee, 3, input).state.execContext.input == []
  {
    assert ForwardsInput(3);
  }

  /** A reentrancy scenario: `a` is executing with one open call and calls
      `b`, granting reentry (bit 3); `b` calls back into `a`, which is let in; once that
      call and the call into `b` have returned, the permission is gone and a further call
      from `b` into `a` is trapped again. */
  lemma ReentryScenario(s: State, a: AccountId, b: AccountId, input: Bytes)
    requires a != b
    requires s.contracts == EmptyRegistry().Increased(a)
    ensures var o1 := BeforeCall(s, Some(a), b, 8, input);
      && o1.value.Ok?
      && var o2 := BeforeCall(o1.state, Some(b), a, 0, input);
      && o2.value.Ok?
      && var o3 := AfterCall(o2.state, Some(b), a, 0, []);
      && o3.value.Ok?
      && var o4 := AfterCall(o3.state, Some(a), b, 0, []);
      && o4.value.Ok?
      && o4.state.contracts.EntranceCount(a) == 1
      && CanEnter(o4.state, Some(b), a, 0)
      && BeforeCall(o4.state, Some(b), a, 0, input).value == Err(CalleeTrapped)
  {
    assert GrantsReentry(8) && !GrantsReentry(0);
    var o1 := BeforeCall(s, Some(a), b, 8, input);
    assert o1.state.contracts.AllowsReentry(a);
    var o2 := BeforeCall(o1.state, Some(b), a, 0, input);
    assert o2.state.contracts.AllowsReentry(a);
    assert o2.state.contracts.EntranceCount(a) == 2;
    var o3 := AfterCall(o2.state, Some(b), a, 0, []);
    var o4 := AfterCall(o3.state, Some(a), b, 0, []);
    assert !o4.state.contracts.AllowsReentry(a);
  }

  /** Without a grant, a second call into an entered callee is trapped. */
  lemma UngrantedReentryTrapped(s: State, caller: Option<AccountId>, callee: AccountId, flags: bv32, input: Bytes)
    requires !GrantsReentry(flags) && s.contracts.EntranceCount(callee) > 0
    requires caller == Some(callee) || !s.contracts.AllowsReentry(callee)
    ensures CanEnter(s, caller, callee, flags)
    ensures BeforeCall(s, caller, callee, flags, input).value == Err(CalleeTrapped)
  {
  }

  // ---------------------------------------------------------------------------------------
  // Declared errors only

  /** No modelled operation produces the deprecated codes 4 and 6, or any error besides
      `CalleeTrapped`, `KeyNotFound` and `TransferFailed`. */
  predicate Produced(e: Error)
  {
    e == CalleeTrapped || e == KeyNotFound || e == TransferFailed
  }

  lemma OnlyDeclaredErrors(s: State, caller: Option<AccountId>, callee: AccountId, flags: bv32, bytes: Bytes, key: Bytes)
    requires HasCallee(s)
    ensures TransferInRange(s, callee, bytes) ==>
      var r := Transfer(s, callee, bytes).value; r.Err? ==> Produced(r.error) && Discriminant(r.error) != 4
    ensures var r := GetStorage(s, key).value; r.Err? ==> Produced(r.error)
    ensures var r := TakeStorage(s, key).value; r.Err? ==> Produced(r.error)
    ensures CanEnter(s, caller, callee, flags) ==>
      var r := BeforeCall(s, caller, callee, flags, bytes).value; r.Err? ==> Produced(r.error)
    ensures var r := AfterCall(s, caller, callee, flags, bytes).value; r.Err? ==> Produced(r.error)
    ensures forall e :: Produced(e) ==> Discriminant(e) != 4 && Discriminant(e) != 6
  {
  }
}
