/** The simulated chain's parameters and the fee computed from them. */
module ChainSpecs {
  import opened Types

  /** `block_time` is a `BlockTimestamp`, taken here to be a `u64`. */
  datatype ChainSpec = ChainSpec(gasPrice: u128, minimumBalance: u128, blockTime: u64)

  /** `ChainSpec::default`. The code sets the minimum balance to 1000000 (its doc comment
      says 42). */
  function DefaultChainSpec(): (c: ChainSpec)
    ensures c.gasPrice == 100 && c.minimumBalance == 1000000 && c.blockTime == 6
  {
    ChainSpec(100, 1000000, 6)
  }

  /** `gas_price.saturating_mul(gas)` on `u128`: the product when it fits, the largest
      `u128` otherwise. The two clauses pin the result down. */
  function WeightToFee(gasPrice: u128, gas: u64): (fee: u128)
    ensures fee <= gasPrice * gas
    ensures fee == gasPrice * gas || fee == U128_MAX
  {
    if gasPrice * gas < U128_LIMIT then gasPrice * gas else U128_MAX
  }

  /** More gas never costs less. */
  lemma WeightToFeeMonotone(gasPrice: u128, gas1: u64, gas2: u64)
    requires gas1 <= gas2
    ensures WeightToFee(gasPrice, gas1) <= WeightToFee(gasPrice, gas2)
  {
    assert gasPrice * gas1 <= gasPrice * gas2 by {
      assert gasPrice * (gas2 - gas1) >= 0;
    }
  }

  /** At the default gas price the product of a `u64` gas amount never reaches 2^128, so
      the fee is exactly `100 * gas` and never saturates. */
  lemma DefaultFeeIsExact(gas: u64)
    ensures WeightToFee(DefaultChainSpec().gasPrice, gas) == 100 * gas
  {
  }

  /** Saturation does happen once the price is large: at the largest price any gas of 2 or
      more costs the largest `u128`. */
  lemma WeightToFeeSaturates(gas: u64)
    requires gas >= 2
    ensures WeightToFee(U128_MAX, gas) == U128_MAX
  {
    assert U128_MAX * gas >= U128_MAX * 2;
  }
}
