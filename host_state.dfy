/** The state the engine owns: its database, execution context, debug recorder, chain
    specification and reentrancy bookkeeping. The database, the context and the recorder
    are collaborators whose code is not part of this model; each is kept as a value with
    the operations the engine calls on it. */
module HostState {
  import opened Types
  import opened Events
  import opened ChainSpecs
  import opened Reentrancy

  /** Balances (an absent account has no record) and one key/value namespace per account. */
  datatype Database = Database(balances: map<AccountId, u128>, storage: map<AccountId, map<Bytes, Bytes>>)
  {
    function GetBalance(account: AccountId): Option<u128>
    {
      if account in balances then Some(balances[account]) else None
    }

    function SetBalance(account: AccountId, value: u128): Database
    {
      this.(balances := balances[account := value])
    }

    /** The namespace of `account`; an account that never stored anything has an empty one. */
    function Namespace(account: AccountId): map<Bytes, Bytes>
    {
      if account in storage then storage[account] else map[]
    }

    function GetFromContractStorage(account: AccountId, key: Bytes): Option<Bytes>
    {
      if key in Namespace(account) then Some(Namespace(account)[key]) else None
    }

    function InsertIntoContractStorage(account: AccountId, key: Bytes, value: Bytes): Database
    {
      this.(storage := storage[account := Namespace(account)[key := value]])
    }

    function RemoveContractStorage(account: AccountId, key: Bytes): Database
    {
      this.(storage := storage[account := Namespace(account) - {key}])
    }
  }

  /** The staged call. Block number, timestamp and transferred value are not part of this
      model. */
  datatype ExecContext = ExecContext(caller: Option<AccountId>, callee: Option<AccountId>, input: Bytes, output: Bytes)

  /** Read and write counters per account, emitted events, touched storage cells per
      account and recorded debug messages. */
  datatype DebugInfo = DebugInfo(
    countReads: map<AccountId, nat>,
    countWrites: map<AccountId, nat>,
    events: seq<EmittedEvent>,
    cells: map<AccountId, set<Bytes>>,
    messages: seq<string>)
  {
    function Reads(account: AccountId): nat
    {
      if account in countReads then countReads[account] else 0
    }

    function Writes(account: AccountId): nat
    {
      if account in countWrites then countWrites[account] else 0
    }

    function Cells(account: AccountId): set<Bytes>
    {
      if account in cells then cells[account] else {}
    }

    function IncReads(account: AccountId): DebugInfo
    {
      this.(countReads := countReads[account := Reads(account) + 1])
    }

    function IncWrites(account: AccountId): DebugInfo
    {
      this.(countWrites := countWrites[account := Writes(account) + 1])
    }

    function RecordCellForAccount(account: AccountId, key: Bytes): DebugInfo
    {
      this.(cells := cells[account := Cells(account) + {key}])
    }

    /** Removing a cell of an account with no recorded cells changes nothing. */
    function RemoveCellForAccount(account: AccountId, key: Bytes): DebugInfo
    {
      if account in cells then this.(cells := cells[account := cells[account] - {key}]) else this
    }

    function RecordEvent(event: EmittedEvent): DebugInfo
    {
      this.(events := events + [event])
    }

    function RecordDebugMessage(message: string): DebugInfo
    {
      this.(messages := messages + [message])
    }
  }

  datatype State = State(
    database: Database,
    execContext: ExecContext,
    debugInfo: DebugInfo,
    chainSpec: ChainSpec,
    contracts: Registry)

  /** `Engine::new`: everything empty, the default chain specification. */
  function InitialState(): (s: State)
    ensures s.chainSpec == DefaultChainSpec()
    ensures s.execContext.callee.None? && s.execContext.caller.None?
    ensures s.contracts == EmptyRegistry()
  {
    State(
      Database(map[], map[]),
      ExecContext(None, None, [], []),
      DebugInfo(map[], map[], [], map[], []),
      DefaultChainSpec(),
      EmptyRegistry())
  }
}
