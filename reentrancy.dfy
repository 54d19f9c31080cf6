/** `ContractStorage`'s reentrancy bookkeeping: how many calls into each callee are open,
    and which accounts currently allow themselves to be reentered. */
module Reentrancy {
  import opened Types
  import opened ReturnCodes

  /** The value of the two sparse maps. An absent entrance count means 0; an absent
      permission means "not allowed", and "not allowed" is only ever stored as absence. */
  datatype Registry = Registry(entranceCount: map<AccountId, u32>, allowReentry: map<AccountId, bool>)
  {
    /** `get_entrance_count`. */
    function EntranceCount(callee: AccountId): (n: u32)
      ensures callee !in entranceCount ==> n == 0
      ensures callee in entranceCount ==> n == entranceCount[callee]
    {
      if callee in entranceCount then entranceCount[callee] else 0
    }

    /** `get_allow_reentry`. */
    predicate AllowsReentry(callee: AccountId)
      ensures callee !in allowReentry ==> !AllowsReentry(callee)
    {
      callee in allowReentry && allowReentry[callee]
    }

    /** Every stored permission is `true`. */
    ghost predicate Sparse()
    {
      forall k :: k in allowReentry ==> allowReentry[k]
    }

    /** `allow_reentry.remove(callee)`. */
    function RevokeReentry(callee: AccountId): (r: Registry)
      ensures r.entranceCount == entranceCount
      ensures r.allowReentry.Keys == allowReentry.Keys - {callee}
      ensures forall k :: k in r.allowReentry ==> r.allowReentry[k] == allowReentry[k]
    {
      this.(allowReentry := allowReentry - {callee})
    }

    /** `set_allow_reentry`: `true` is stored, `false` deletes the entry. */
    function WithAllowReentry(callee: AccountId, allow: bool): (r: Registry)
      ensures r.entranceCount == entranceCount
      ensures r.AllowsReentry(callee) == allow
      ensures allow <==> callee in r.allowReentry
      ensures forall k :: k != callee ==> (k in r.allowReentry <==> k in allowReentry)
      ensures forall k :: k != callee && k in r.allowReentry ==> r.allowReentry[k] == allowReentry[k]
      ensures Sparse() ==> r.Sparse()
    {
      if allow then this.(allowReentry := allowReentry[callee := allow])
      else RevokeReentry(callee)
    }

    /** `increase_entrance_count`. The `u32` addition may not overflow. */
    function Increased(callee: AccountId): (r: Registry)
      requires EntranceCount(callee) < U32_MAX
      ensures r.allowReentry == allowReentry
      ensures r.EntranceCount(callee) == EntranceCount(callee) + 1
      ensures forall k :: k != callee ==> r.EntranceCount(k) == EntranceCount(k)
      ensures r.entranceCount.Keys == entranceCount.Keys + {callee}
    {
      this.(entranceCount := entranceCount[callee := EntranceCount(callee) + 1])
    }

    /** `decrease_entrance_count`: an absent or zero count is `CalleeTrapped` and nothing
        is written; otherwise the count goes down by one. */
    function Decreased(callee: AccountId): (r: Result<Registry>)
      ensures r.Ok? <==> EntranceCount(callee) > 0
      ensures r.Err? ==> r.error == CalleeTrapped
      ensures r.Ok? ==> r.value.allowReentry == allowReentry
      ensures r.Ok? ==> r.value.EntranceCount(callee) + 1 == EntranceCount(callee)
      ensures r.Ok? ==> forall k :: k != callee ==> r.value.EntranceCount(k) == EntranceCount(k)
    {
      if callee !in entranceCount || entranceCount[callee] == 0 then Err(CalleeTrapped)
      else Ok(this.(entranceCount := entranceCount[callee := entranceCount[callee] - 1]))
    }
  }

  function EmptyRegistry(): (r: Registry)
    ensures r.Sparse()
    ensures forall k :: r.EntranceCount(k) == 0 && !r.AllowsReentry(k)
  {
    Registry(map[], map[])
  }

  /** Increasing and then decreasing a count succeeds and gives back every count, although
      a callee that had no entry is left with an explicit 0. */
  lemma IncreaseThenDecrease(r: Registry, callee: AccountId)
    requires r.EntranceCount(callee) < U32_MAX
    ensures r.Increased(callee).Decreased(callee).Ok?
    ensures var back := r.Increased(callee).Decreased(callee).value;
      (forall k :: back.EntranceCount(k) == r.EntranceCount(k))
      && back.allowReentry == r.allowReentry
      && back.entranceCount == r.entranceCount[callee := r.EntranceCount(callee)]
  {
  }

  /** Revoking a permission is the same as setting it to `false`. */
  lemma RevokeIsDisallow(r: Registry, callee: AccountId)
    ensures r.RevokeReentry(callee) == r.WithAllowReentry(callee, false)
  {
  }

  /** The unit tests `contract_storage_works` and `decrease_entrance_count_fails`. */
  lemma ContractStorageScenarios(account: AccountId)
    ensures !EmptyRegistry().AllowsReentry(account)
    ensures EmptyRegistry().WithAllowReentry(account, true).AllowsReentry(account)
    ensures var r := EmptyRegistry().WithAllowReentry(account, true).Increased(account);
      r.EntranceCount(account) == 1 && r.Decreased(account).Ok?
      && r.Decreased(account).value.EntranceCount(account) == 0
    ensures EmptyRegistry().Decreased(account) == Err(CalleeTrapped)
  {
  }

  /** `ContractStorage` with the two maps the engine updates in place. The deployed and
      instantiated contract tables are not part of this model. */
  class ContractStorage {
    var entranceCount: map<AccountId, u32>
    var allowReentry: map<AccountId, bool>

    function Value(): Registry
      reads this
    {
      Registry(entranceCount, allowReentry)
    }

    /** Only `true` is ever stored as a permission: `false` is stored by deleting. */
    ghost predicate Valid()
      reads this
    {
      Value().Sparse()
    }

    /** `ContractStorage::default`. */
    constructor ()
      ensures Valid()
      ensures Value() == EmptyRegistry()
    {
      entranceCount := map[];
      allowReentry := map[];
    }

    function GetEntranceCount(callee: AccountId): u32
      reads this
    {
      Value().EntranceCount(callee)
    }

    predicate GetAllowReentry(callee: AccountId)
      reads this
    {
      Value().AllowsReentry(callee)
    }

    method SetAllowReentry(callee: AccountId, allow: bool)
      requires Valid()
      modifies this
      ensures Valid()
      ensures Value() == old(Value()).WithAllowReentry(callee, allow)
    {
      if allow {
        allowReentry := allowReentry[callee := allow];
      } else {
        allowReentry := allowReentry - {callee};
      }
    }

    /** `allow_reentry.remove`, which the engine does directly on the map. */
    method RemoveAllowReentry(callee: AccountId)
      requires Valid()
      modifies this
      ensures Valid()
      ensures Value() == old(Value()).RevokeReentry(callee)
    {
      allowReentry := allowReentry - {callee};
    }

    method IncreaseEntranceCount(callee: AccountId) returns (r: Result<()>)
      requires Valid()
      requires GetEntranceCount(callee) < U32_MAX
      modifies this
      ensures Valid()
      ensures r == Ok(())
      ensures Value() == old(Value()).Increased(callee)
    {
      var count := if callee in entranceCount then entranceCount[callee] + 1 else 1;
      entranceCount := entranceCount[callee := count];
      r := Ok(());
    }

    method DecreaseEntranceCount(callee: AccountId) returns (r: Result<()>)
      requires Valid()
      modifies this
      ensures Valid()
      ensures var d := old(Value()).Decreased(callee);
        if d.Ok? then r == Ok(()) && Value() == d.value
        else r == Err(d.error) && Value() == old(Value())
    {
      if callee !in entranceCount {
        return Err(CalleeTrapped);
      }
      var count := entranceCount[callee];
      if count == 0 {
        return Err(CalleeTrapped);
      }
      entranceCount := entranceCount[callee := count - 1];
      r := Ok(());
    }
  }
}
