/** The transaction helper: the local `check` call, the gating and fee
    fields of `send`, the gas-limit cap, the confirmation wait and the
    priority-fee clamp. Every chain read (pending block, fee history, gas
    estimate, nonce, broadcast, receipt) is an input. */
module Transaction {
  import opened Wrappers

  /** `CONTRACT_GAS_LIMIT` when the environment does not set it. */
  const DEFAULT_CONTRACT_GAS_LIMIT: nat := 15_000_000

  /** The parameters of a local call or an estimate: a value only when it is
      positive. */
  datatype CallParams = CallParams(from: Option<string>, value: Option<int>)

  function CallParamsFor(from: Option<string>, value: int): (p: CallParams)
    ensures p.from == from
    ensures p.value.Some? <==> value > 0
    ensures p.value.Some? ==> p.value.value == value
  {
    CallParams(from, if value > 0 then Some(value) else None)
  }

  /** How a local `call` ended: normally, or with `ValueError` /
      `ContractLogicError` (a revert). */
  datatype CallOutcome = Returned | Reverted

  /** `check`: `True` exactly when the local call with the value attached
      does not revert. */
  function Check(call: CallParams -> CallOutcome, value: int): (ok: bool)
    ensures ok <==> call(CallParams(None, if value > 0 then Some(value) else None)) == Returned
  {
    call(CallParamsFor(None, value)) == Returned
  }

  /** `_get_priority_fee`: the fee-history reward clamped from below by
      `minFee` and then from above by `maxFee`. */
  function PriorityFee(reward: int, minFee: int, maxFee: int): (r: int)
    ensures minFee <= maxFee ==> minFee <= r <= maxFee
    ensures minFee <= reward <= maxFee ==> r == reward
    ensures r <= maxFee
    ensures r == reward || r == minFee || r == maxFee
  {
    var low := if reward >= minFee then reward else minFee;
    if low <= maxFee then low else maxFee
  }

  /** What `estimate_gas` did: the estimate already inflated by the source's
      factor of 1.3, or a revert. */
  datatype Estimate = Estimated(inflated: nat) | EstimateReverted

  /** `_estimate_gas`: never above the cap; a failed estimate is the cap. */
  function EstimateGas(estimate: Estimate, gasLimitCap: nat): (gas: nat)
    ensures gas <= gasLimitCap
    ensures estimate.EstimateReverted? ==> gas == gasLimitCap
    ensures estimate.Estimated? ==> gas == estimate.inflated || gas == gasLimitCap
    ensures estimate.Estimated? && estimate.inflated <= gasLimitCap ==> gas == estimate.inflated
  {
    match estimate
    case EstimateReverted => gasLimitCap
    case Estimated(g) => if gasLimitCap <= g then gasLimitCap else g
  }

  /** The settings `send` reads. */
  datatype Config = Config(
    account: Option<string>,
    dryRun: bool,
    gasLimitCap: nat,
    minPriorityFee: int,
    maxPriorityFee: int)

  /** The chain as `send` sees it for one transaction. `includedWithin`
      says whether a receipt shows up within the given number of seconds. */
  datatype Chain = Chain(
    baseFeePerGas: int,
    rewardAtPercentile: int,
    nonce: nat,
    estimate: Estimate,
    broadcastSucceeds: bool,
    includedWithin: nat -> bool)

  /** The fields of the built transaction. */
  datatype TxParams = TxParams(
    from: string,
    gas: nat,
    maxFeePerGas: int,
    maxPriorityFeePerGas: int,
    nonce: nat,
    value: Option<int>)

  /** What `send_and_wait` did: how long it waited for the receipt (none if
      the broadcast raised) and whether the transaction was found. */
  datatype Wait = Wait(waitSeconds: Option<nat>, found: bool)

  /** `send_and_wait`: waits `(timeoutInBlocks + 1)` slots for the receipt. */
  function SendAndWait(chain: Chain, timeoutInBlocks: nat, slotTime: nat): (w: Wait)
    ensures !chain.broadcastSucceeds ==> w == Wait(None, false)
    ensures chain.broadcastSucceeds ==> w.waitSeconds == Some((timeoutInBlocks + 1) * slotTime)
    ensures w.found <==> chain.broadcastSucceeds && chain.includedWithin((timeoutInBlocks + 1) * slotTime)
  {
    if !chain.broadcastSucceeds then Wait(None, false)
    else
      var seconds := (timeoutInBlocks + 1) * slotTime;
      Wait(Some(seconds), chain.includedWithin(seconds))
  }

  /** What `send` did: the transaction it built and the wait, when it got
      that far, and its return value. */
  datatype SendOutcome = SendOutcome(built: Option<TxParams>, wait: Option<Wait>, ok: bool)

  /** `send`: without an account, or in dry-run mode, nothing is built and
      the result is `True`; otherwise the EIP-1559 fields are filled in and
      the result is whether the transaction was found in time. */
  function Send(cfg: Config, chain: Chain, timeoutInBlocks: nat, slotTime: nat, value: int): (r: SendOutcome)
    ensures cfg.account.None? ==> r == SendOutcome(None, None, true)
    ensures cfg.account.Some? && cfg.dryRun ==> r == SendOutcome(None, None, true)
    ensures cfg.account.Some? && !cfg.dryRun ==>
      && r.built.Some? && r.wait.Some?
      && var tx := r.built.value;
      var priority := PriorityFee(chain.rewardAtPercentile, cfg.minPriorityFee, cfg.maxPriorityFee);
      && tx.from == cfg.account.value
      && tx.maxPriorityFeePerGas == priority
      && tx.maxFeePerGas == 2 * chain.baseFeePerGas + priority
      && tx.gas == EstimateGas(chain.estimate, cfg.gasLimitCap)
      && tx.nonce == chain.nonce
      && (tx.value.Some? <==> value > 0)
      && (tx.value.Some? ==> tx.value.value == value)
      && r.wait == Some(SendAndWait(chain, timeoutInBlocks, slotTime))
      && (r.ok <==> chain.broadcastSucceeds && chain.includedWithin((timeoutInBlocks + 1) * slotTime))
  {
    if cfg.account.None? then SendOutcome(None, None, true)
    else if cfg.dryRun then SendOutcome(None, None, true)
    else
      var address := cfg.account.value;
      var priority := PriorityFee(chain.rewardAtPercentile, cfg.minPriorityFee, cfg.maxPriorityFee);
      var gas := EstimateGas(chain.estimate, cfg.gasLimitCap);
      var tx := TxParams(address, gas, chain.baseFeePerGas * 2 + priority, priority, chain.nonce,
                         if value > 0 then Some(value) else None);
      var w := SendAndWait(chain, timeoutInBlocks, slotTime);
      SendOutcome(Some(tx), Some(w), w.found)
  }

  /** With a non-negative base fee the fee cap covers the priority fee, as
      EIP-1559 requires of a valid transaction. */
  lemma MaxFeeCoversPriority(cfg: Config, chain: Chain, timeoutInBlocks: nat, slotTime: nat, value: int)
    requires cfg.account.Some? && !cfg.dryRun
    requires chain.baseFeePerGas >= 0
    ensures var tx := Send(cfg, chain, timeoutInBlocks, slotTime, value).built.value;
      tx.maxFeePerGas >= tx.maxPriorityFeePerGas
  {
  }

  /** Whether the transaction is built depends on the account and the
      dry-run flag only; a skipped send always reports success. */
  lemma SendSkippedExactly(cfg: Config, chain: Chain, timeoutInBlocks: nat, slotTime: nat, value: int)
    ensures var r := Send(cfg, chain, timeoutInBlocks, slotTime, value);
      && (r.built.None? <==> cfg.account.None? || cfg.dryRun)
      && (r.built.None? ==> r.ok)
  {
  }
}
