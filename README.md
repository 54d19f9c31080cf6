# Off-chain contract engine, modelled in Dafny

This project models the off-chain engine of the ink! smart-contract toolchain
(`crates/engine/src/ext.rs`). The engine stands in for the chain's contracts pallet when
contract code runs locally. It owns:

- a balance ledger and one key/value namespace per account;
- the staged call (caller, callee, input and output buffers);
- a debug recorder (read/write counters, events, touched cells, messages);
- the chain specification;
- the reentrancy bookkeeping (`ContractStorage`).

It exposes host functions that read and change this state.

The project has two layers.

- **Specification (values).** Each host operation is a function from the state before the
  call to the state after it plus what the call returns (module `Host`). Its contract says
  what the operation promises. Lemmas relate several operations: a set then a get, a
  before/after call pair, the reentrancy scenario.
- **Implementation (objects).** `Reentrancy.ContractStorage` and `OffChainEngine.Engine`
  are classes whose fields the methods update in place, step by step as the source does.
  Each method is proved to perform exactly the `Host` transition on the object's value
  (`Value()`). The source's `Rc<RefCell<…>>` fields are fields the engine owns directly.
  `ContractStorage` is a separate object created by the engine's constructor. Both classes
  keep the invariant `Valid()`: a reentry permission is stored only as `true`, since
  `false` is stored by deleting the entry. The constructors establish it and every method
  that changes state preserves it.

Panics and `expect`s in the source become `requires` clauses:

- the callee must be set (for `transfer`, only once the amount has decoded: a short amount
  is `TransferFailed` before the callee is read);
- the output buffer must be large enough (`set_output`);
- a transfer may not underflow the payer or overflow the destination (`u128`);
- an entrance count may not overflow (`u32`);
- the topic list of `deposit_event` must decode;
- a previous value's length must convert to `u32` in `set_storage`.

Recoverable failures are the source's own `Result` values. `terminate`, which never
returns, gives back `Terminated(all, beneficiary)` instead of unwinding with that payload.

Behaviour of the code that the model keeps as written:

- `transfer` reads the destination's balance before debiting the payer, and writes the
  destination last. A transfer to the executing contract itself therefore raises its
  balance by the amount. Likewise, `terminate` with the contract as its own beneficiary
  doubles the balance. The sum of the two balances is conserved only when they are
  different accounts (`Host.Transfer`).
- An insufficient balance is not `TransferFailed`: the `u128` subtraction would panic, so
  the model requires it away. `TransferFailed` comes only from an amount shorter than 16
  bytes or a payer without a balance record.
- `contains_storage` and `clear_storage` convert the length with `as u32`, which truncates
  (modulo 2^32). `set_storage` uses a checked conversion, which panics instead.
- `take_storage` counts a write but does not forget the touched cell. `clear_storage` does
  forget it.
- `apply_code_flags_after_call` writes a tail-call output before the decrement. It revokes
  the caller's reentry permission only when the decrement succeeds.
- Increasing and then decreasing an absent entrance count leaves an explicit 0 entry. Every
  count reads as before (`Reentrancy.IncreaseThenDecrease`).
- `deposit_event` panics unless the bytes after the count byte split evenly. The count byte
  must be in SCALE compact single-byte mode (value `b >> 2`). For a count `n > 0`, the
  remaining length must be a positive multiple of `n` (`Events.TopicsDecodableIff`).
- `ChainSpec::default` sets `minimum_balance` to 1000000, although its doc comment says 42.
- At the default gas price of 100, `weight_to_fee` can never saturate for a `u64` gas
  amount (`ChainSpecs.DefaultFeeIsExact`). Saturation needs a gas price of at least 2^64.
- An invalid ECDSA recovery id makes `ecdsa_recover` panic (`RecoveryId::from_i32` is
  unwrapped), rather than return `EcdsaRecoveryFailed`. Only the normalisation of the
  recovery byte is modelled.

Files: `types.dfy`, `return_codes.dfy`, `scale.dfy`, `chain_spec.dfy`, `ecdsa.dfy`,
`events.dfy`, `output.dfy`, `reentrancy.dfy`, `host_state.dfy`, `host.dfy`, `engine.dfy`.

## Model

| member | source | states |
|---|---|---|
| ReturnCodes.FromReturnCode | crates/engine/src/ext.rs:64-75 | 0 is `Ok`; each declared discriminant (1-9, 11) gives its own variant, 4 and 6 the deprecated ones; 10 and every code from 12 up give `Unknown` |
| ReturnCodes.Discriminant | crates/engine/src/ext.rs:78-105 | the `repr(u32)` discriminants lie in 1..12 and skip 10; the discriminant is 12 exactly for `Unknown` |
| ReturnCodes.DiscriminantRoundTrip | crates/engine/src/ext.rs:54-75 | every error read back from its own discriminant is itself |
| ReturnCodes.DiscriminantInjective | crates/engine/src/ext.rs:78-105 | no two variants share a discriminant |
| Scale.LittleEndian | crates/engine/src/ext.rs:246 | a little-endian read of n bytes is below 256^n |
| Scale.EncodeLittleEndian | crates/engine/src/ext.rs:389 | the n-byte encoding has n bytes and reads back as the value |
| Scale.EncodeOfLittleEndian | crates/engine/src/ext.rs:246 | re-encoding what was read gives back the same bytes |
| Scale.DecodeU128 | crates/engine/src/ext.rs:246-247 | the `u128` decode succeeds exactly when at least 16 bytes are given |
| Scale.EncodeU128 | crates/engine/src/ext.rs:389 | a `u128` encodes to exactly 16 bytes |
| Scale.DecodeOfEncodeU128 | crates/engine/src/ext.rs:386-391 | decoding an encoded amount gives it back, whatever bytes follow |
| Scale.EncodeOfDecodeU128 | crates/engine/src/ext.rs:246-247 | a decode reads exactly the first 16 bytes, which the encoding of its value reproduces |
| Scale.DecodeCompactOneByte | crates/engine/src/ext.rs:270-272 | a one-byte compact decodes exactly when its low two bits are 00, to the byte divided by 4 (below 64) |
| ChainSpecs.DefaultChainSpec | crates/engine/src/ext.rs:212-220 | gas price 100, minimum balance 1000000, block time 6 |
| ChainSpecs.WeightToFee | crates/engine/src/ext.rs:531-535 | the fee never exceeds price times gas and is either that product or the largest `u128` |
| ChainSpecs.WeightToFeeMonotone | crates/engine/src/ext.rs:531-535 | more gas never gives a smaller fee |
| ChainSpecs.DefaultFeeIsExact | crates/engine/src/ext.rs:212-220 | at the default price the fee is exactly 100 times the gas |
| ChainSpecs.WeightToFeeSaturates | crates/engine/src/ext.rs:531-535 | at the largest price, gas of 2 or more gives the largest `u128` |
| Ecdsa.NormalizeRecoveryByte | crates/engine/src/ext.rs:581-585 | bytes up to 26 are kept; larger bytes lose 27 |
| Ecdsa.RecoveryConventionsAgree | crates/engine/src/ext.rs:579-585 | ids 0..3 and 27..30 give the same recovery id |
| Ecdsa.NormalizedRange | crates/engine/src/ext.rs:581-588 | a normalised byte is at most 228, and is a valid secp256k1 id (0..3) exactly for bytes 0..3 and 27..30 |
| Events.Chunks | crates/engine/src/ext.rs:277-281 | `chunks` pieces concatenate to the slice, are non-empty and at most the chunk size; all but the last are exactly the chunk size; their number is the rounded-up quotient |
| Events.ChunksOfMultiple | crates/engine/src/ext.rs:277-282 | a slice of count times size bytes gives exactly count pieces of size bytes |
| Events.TopicsDecodableIff | crates/engine/src/ext.rs:270-282 | `deposit_event` does not panic exactly when the count byte is 4n and, for n > 0, the remaining length is a positive multiple of n |
| Events.SplitTopics | crates/engine/src/ext.rs:274-286 | n topics (none for a zero count), all of the same length (remaining length divided by n), concatenating to the bytes after the count byte |
| Events.SplitTopicsExamples | crates/engine/src/ext.rs:268-292 | count 0 on a one-byte list gives no topics; count 2 over 64 bytes gives two 32-byte topics |
| Output.CopyPrefix | crates/engine/src/ext.rs:699-708 | the buffer keeps its length, starts with the slice and is unchanged after it |
| Output.SetOutput | crates/engine/src/ext.rs:699-708 | the slice must fit; the array afterwards is the old buffer with the slice copied into its prefix |
| Reentrancy.Registry.EntranceCount | crates/engine/src/ext.rs:127-129 | an absent entrance count reads 0 |
| Reentrancy.Registry.AllowsReentry | crates/engine/src/ext.rs:131-133 | an absent permission reads false |
| Reentrancy.Registry.RevokeReentry | crates/engine/src/ext.rs:686-691 | removes exactly the key from the permissions and touches no count |
| Reentrancy.Registry.WithAllowReentry | crates/engine/src/ext.rs:135-141 | the permission afterwards reads as requested; the key is present exactly when true (false deletes it); other keys and all counts are untouched; only true values are ever stored |
| Reentrancy.Registry.Increased | crates/engine/src/ext.rs:143-151 | the callee's count rises by exactly one (no `u32` overflow allowed), others and the permissions are untouched |
| Reentrancy.Registry.Decreased | crates/engine/src/ext.rs:153-167 | fails with `CalleeTrapped` exactly when the count is absent or 0; otherwise the count falls by one and nothing else changes |
| Reentrancy.EmptyRegistry | crates/engine/src/ext.rs:118-124 | the default bookkeeping reads 0 and false for every account |
| Reentrancy.IncreaseThenDecrease | crates/engine/src/ext.rs:143-167 | increase then decrease succeeds and restores every count and the permissions, leaving an explicit entry for the callee |
| Reentrancy.RevokeIsDisallow | crates/engine/src/ext.rs:135-141 | removing a permission is the same as setting it to false |
| Reentrancy.ContractStorageScenarios | crates/engine/src/ext.rs:714-740 | the two unit tests: default false, grant reads true, increase to 1 and back to 0; a decrease on the empty bookkeeping is `CalleeTrapped` |
| Reentrancy.ContractStorage.constructor | crates/engine/src/ext.rs:118-124 | starts with empty maps, `Valid()` |
| Reentrancy.ContractStorage.SetAllowReentry | crates/engine/src/ext.rs:135-141 | inserts true or deletes the key, as `Registry.WithAllowReentry` |
| Reentrancy.ContractStorage.RemoveAllowReentry | crates/engine/src/ext.rs:686-691 | deletes the key, as `Registry.RevokeReentry` |
| Reentrancy.ContractStorage.IncreaseEntranceCount | crates/engine/src/ext.rs:143-151 | returns `Ok` and updates the map as `Registry.Increased` |
| Reentrancy.ContractStorage.DecreaseEntranceCount | crates/engine/src/ext.rs:153-167 | as `Registry.Decreased`; on failure the map is unchanged |
| HostState.InitialState | crates/engine/src/ext.rs:224-233 | a new engine has no callee or caller, the default chain specification and empty bookkeeping |
| Host.Transfer | crates/engine/src/ext.rs:244-265 | `TransferFailed` (and no change) exactly when the amount is shorter than 16 bytes or the payer has no record; otherwise the payer loses v and the destination (0 if absent) gains v, the two sum to the same total, and a self-transfer nets old + v; no other balance or storage changes |
| Host.TransferOfShortAmount | crates/engine/src/ext.rs:246-247 | a short amount is `TransferFailed` and leaves the whole state as it was, also with no callee staged |
| Host.TransferScenario | crates/engine/src/ext.rs:244-265 | 1000000 on X, 500000 sent to a new Y: both end at 500000 |
| Host.Terminate | crates/engine/src/ext.rs:383-398 | ends with `Terminated(all, beneficiary)`; the payer is left with 0 and the beneficiary gains all, or, for a self-termination, the balance doubles; storage and every other account's balance are unchanged, and only the database changes |
| Host.DepositEvent | crates/engine/src/ext.rs:268-292 | appends exactly one event, with the split topics and the data verbatim; nothing else changes |
| Host.DebugMessage | crates/engine/src/ext.rs:451-456 | appends the message to the recorded messages; nothing else changes |
| Host.SetStorage | crates/engine/src/ext.rs:296-309 | returns the previous value's length or None; the new value is stored; no other cell of any account changes; one write is counted and the key recorded as touched for the callee; other accounts' counters and cells, the read counters, events and messages are unchanged |
| Host.GetStorage | crates/engine/src/ext.rs:312-328 | yields the stored value or `KeyNotFound`; counts one read for the callee; every other counter, cell, event and message, and the rest of the state, are unchanged |
| Host.TakeStorage | crates/engine/src/ext.rs:332-348 | yields and removes the stored value, or `KeyNotFound`; no other cell changes; counts one write for the callee; other accounts' write counters, the read counters, touched cells, events and messages are unchanged |
| Host.ContainsStorage | crates/engine/src/ext.rs:351-360 | the stored length modulo 2^32, or None; counts one read for the callee; every other counter, cell, event and message, and the rest of the state, are unchanged |
| Host.ClearStorage | crates/engine/src/ext.rs:364-376 | removes the value and returns its length modulo 2^32, or None; no other cell changes; counts one write and removes exactly this key from the callee's touched cells; other accounts' counters and cells, the read counters, events and messages are unchanged |
| Host.SetThenGet | crates/engine/src/ext.rs:296-328 | after `set_storage(k, v)`, `get_storage(k)` yields v |
| Host.SetTwiceReturnsPrevious | crates/engine/src/ext.rs:294-309 | a second `set_storage` returns the first value's length |
| Host.RemovedKeyNotFound | crates/engine/src/ext.rs:332-376 | after `take_storage` or `clear_storage`, `get_storage` is `KeyNotFound` |
| Host.StorageIsolation | crates/engine/src/ext.rs:296-376 | set, take and clear leave every other account's namespace unchanged |
| Host.BeforeCall | crates/engine/src/ext.rs:623-666 | the caller's permission is set or removed per bit 3, even when the call is rejected; `CalleeTrapped` exactly when the callee (after that) is not allowed and its count is positive, and then counts and context are unchanged; other accounts' permissions and counts are unchanged and a sparse registry stays sparse; otherwise the callee's count rises by one; bit 0 returns and clears the context input, else bit 1 returns a copy, else the argument is returned |
| Host.AfterCall | crates/engine/src/ext.rs:669-693 | with bit 2 the context output becomes the given output, also on failure; succeeds exactly when the callee's count is positive, then lowers it by one and removes the caller's permission; on failure the bookkeeping is unchanged; other accounts' permissions are unchanged and a sparse registry stays sparse |
| Host.CallPairRestores | crates/engine/src/ext.rs:623-693 | an admitted call followed by its return succeeds, restores every count and leaves the caller without permission |
| Host.GuardOnPriorState | crates/engine/src/ext.rs:634-646 | `CalleeTrapped` exactly when the callee's count is positive and it is not allowed: by bit 3 when it calls itself, by its prior permission otherwise |
| Host.ForwardTakesPrecedence | crates/engine/src/ext.rs:652-663 | with bits 0 and 1 both set the input is forwarded and cleared |
| Host.ReentryScenario | crates/engine/src/ext.rs:630-691 | a grants reentry and calls b; b's call back into a is admitted; after both return a later call into a is trapped again |
| Host.UngrantedReentryTrapped | crates/engine/src/ext.rs:641-646 | without a grant, a call into an entered callee is `CalleeTrapped` |
| Host.OnlyDeclaredErrors | crates/engine/src/ext.rs:89-95 | the modelled operations only produce `CalleeTrapped`, `KeyNotFound` and `TransferFailed`, never the deprecated codes 4 and 6 |
| OffChainEngine.Engine.constructor | crates/engine/src/ext.rs:224-233 | the new engine's state is `HostState.InitialState` |
| OffChainEngine.Engine.GetCallee | crates/engine/src/ext.rs:253 | returns the staged callee; requires one to be set |
| OffChainEngine.Engine.GetBalance | crates/engine/src/ext.rs:251-256 | the account's balance record, None if it has none |
| OffChainEngine.Engine.Transfer | crates/engine/src/ext.rs:244-265 | performs `Host.Transfer` on the engine's state; a callee is needed only once the amount has decoded |
| OffChainEngine.Engine.Terminate | crates/engine/src/ext.rs:383-398 | performs `Host.Terminate`; its inner transfer is proved to succeed |
| OffChainEngine.Engine.DepositEvent | crates/engine/src/ext.rs:268-292 | performs `Host.DepositEvent` |
| OffChainEngine.Engine.SetStorage | crates/engine/src/ext.rs:296-309 | performs `Host.SetStorage` |
| OffChainEngine.Engine.GetStorage | crates/engine/src/ext.rs:312-328 | performs `Host.GetStorage`; on success the value is copied into the output prefix, otherwise the buffer is untouched |
| OffChainEngine.Engine.TakeStorage | crates/engine/src/ext.rs:332-348 | performs `Host.TakeStorage`, copying the removed value into the output prefix |
| OffChainEngine.Engine.ContainsStorage | crates/engine/src/ext.rs:351-360 | performs `Host.ContainsStorage` |
| OffChainEngine.Engine.ClearStorage | crates/engine/src/ext.rs:364-376 | performs `Host.ClearStorage` |
| OffChainEngine.Engine.DebugMessage | crates/engine/src/ext.rs:451-456 | performs `Host.DebugMessage` |
| OffChainEngine.Engine.WeightToFee | crates/engine/src/ext.rs:529-538 | copies the 16-byte encoding of the saturated fee into the output prefix |
| OffChainEngine.Engine.ApplyCodeFlagsBeforeCall | crates/engine/src/ext.rs:623-666 | performs `Host.BeforeCall` in place, keeping `Valid()` |
| OffChainEngine.Engine.ApplyCodeFlagsAfterCall | crates/engine/src/ext.rs:669-693 | performs `Host.AfterCall` in place, keeping `Valid()` |

## Left out

- Hash functions (`hash_blake2_256`, `hash_blake2_128`, `hash_sha2_256`, `hash_keccak_256`): foreign cryptographic primitives.
- `ecdsa_recover` beyond the recovery byte: parsing the recovery id and the signature and recovering the key are secp256k1 library calls; their panics and `EcdsaRecoveryFailed` are not modelled.
- `call_chain_extension`: its handlers are closures registered in code that is not part of this model.
- `register_contract` and the `deployed`/`instantiated` tables of `ContractStorage`: they hold function pointers and code hashes that nothing modelled reads.
- `gas_left`, `instantiate` and `call`: the source leaves them unimplemented.
- `caller`, `address`, `balance`, `value_transferred`, `block_number`, `block_timestamp` and `minimum_balance`: plain copies of a context or chain-specification field into the output. They are not part of the modelled core, and the types of block numbers and timestamps are defined elsewhere.
- `debug_message` printing to standard output: I/O. The message is only recorded.
- Sharing of the engine's state through `Rc<RefCell<…>>` and `#[derive(Clone)]` on `Engine`: one owned state replaces it, so aliasing between engine clones is not modelled.
- The SCALE encoding of the termination payload `(all, beneficiary)`: the outcome carries the two values themselves.
- Database, execution context and debug recorder internals: their code is not part of this model. They are values with the operations the engine uses (for example, storage is modelled as a map per account rather than as hashed keys).
- Read and write counters are unbounded naturals: in the source they are machine-sized counters whose overflow is not modelled.
- Host.Transfer: an insufficient payer balance or an overflowing destination balance is excluded by a precondition. Overflow of the `u128` arithmetic (a panic in debug builds) is not modelled as a result.
