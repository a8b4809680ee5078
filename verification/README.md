# Verified models of the liquidity and yield engine

These Dafny files model the arithmetic and the state machines behind a Soroban yield engine and its
SDK, and prove what they promise:

- **Swap router** (`ConstantProduct`, `Routes`, `SwapRouter`): checked constant-product quotes, depth
  ranking, and the greedy and bounded depth-first search for a route. The search is proved complete
  and sound against a definition of viable routes that knows nothing of the search.
- **Yield vault** (`TokenLedger`, `VaultState`, `VaultAccounting`, `VaultPayouts`, `VaultPrices`,
  `VaultPacing`, `VaultTimelock`, `YieldVault`): the class `YieldVault` performs exactly the
  transitions of a state machine, and the other modules prove solvency, share price, payouts, pacing
  and timelock over all its runs.
- **Event listener** (`EventStream`, `ListenerRuns`, `DeliveryOrder`, `ListenerRestarts`,
  `EventListener`): every poll of
  the class is one step of a system of chain, process and checkpoint; runs with failures, crashes and
  restarts lose no events, deliver no foreign ones, first deliver each in chain order, and the number
  of repeated deliveries is exact.
- **Rebalance engine** (`SquareRoots`, `ImpermanentLoss`, `PacingWindows`, `Breakers`,
  `RebalanceEngine`): Newton's square root, the error of the impermanent-loss formula, outflow budgets
  and breakers over a capped history.
- **Amount text** (`Digits`, `AmountText`): decimal parsing, printing and exponent expansion.
- **Keeper backoff** (`BackoffRuns`, `KeeperBackoff`): durable delays that survive restarts.
- **Oracle registry** (`OracleRegistry`): a bounded observation window that answers like the full
  history.

`Wrappers`, `Integers` and `Reals` hold optional values, addresses, 128-bit and 64-bit limits, truncating division and the
division facts everything rests on. A failing contract call is a failure result with the state
unchanged, as the ledger rolls it back. `dafny verify dfyconfig.toml` checks the whole project.

## What the proofs found

- A pool whose reserve product overflows 128 bits has depth score 0 although it quotes positive
  outputs. The direct quote then misses it while the routed search still uses it
  (`SwapRouter.UnrankedExactlyWhenProductOverflows` gives the exact condition,
  `SwapRouter.DeepPoolsCanBeUnranked` an example).
- Redeemed amounts reduce a position's cost basis, which can fall below zero. The next performance fee
  then charges the same gain again, possibly more than the redemption itself: at a 20% fee, taking 90
  of 100 shares that grew tenfold leaves 10 shares of which no portion can be redeemed at that price
  (`VaultPayouts.PartialExitStrandsRest`); a deposit and a harvest lead every initialized vault with
  that fee there (`VaultPayouts.StrandingIsReached`). `VaultPayouts.ExitSucceedsExactly` says for all inputs when
  an exit works, and `VaultPayouts.FeesAreCoverableExactly` that on a nonnegative basis it always can
  exactly when the two fee rates add up to at most 100%.
- A withdrawal at cost is documented to pay no performance fee (src/yield_vault.rs:1008-1011). Because
  both cost terms are truncated this holds exactly for fee rates below 100%
  (`VaultPayouts.NoFeeAtCostExactly`).
- docs/KEEPER_RECOVERY.md calls `maxMs` a hard ceiling. With a maximum that is not a whole number of
  milliseconds rounding can exceed it; `BackoffRuns.CeilingHoldsExactly` gives the exact condition,
  which every whole `maxMs >= 1` meets.
- docs/KEEPER_RECOVERY.md asks for each event exactly once. Over every run that holds if and only if no
  poll dispatches over allowed events that earlier polls had already reached
  (`DeliveryOrder.EachOnceExactly`, which also counts the repetitions). A crash between dispatch and
  save fails it (`ListenerRuns.CrashRedelivers`), and so does a failed save followed by a restart
  (`DeliveryOrder.FailedSaveRedelivers`) and a checkpoint that cannot be read
  (`ListenerRuns.LostCheckpointReplays`). While checkpoints are read and written, only interrupted polls
  can fail it (`ListenerRuns.DeliveredExactlyOnce`). First deliveries always come in order and without
  gaps (`DeliveryOrder.FirstDeliveriesInOrder`).
- A configured start further ahead than the checkpoint is honoured (sdk/src/eventListener.ts:524-526),
  but one equal to the stored cursor keeps the paging token, so the rest of that token's ledger is
  delivered although it lies before the start (`ListenerRestarts.TokenOutlivesStart`).
  `ListenerRestarts.StartIsHonouredExactly` is the exact condition, and
  `ListenerRestarts.NothingBeforeStart` the guarantee for every other start.
- The execution-time slippage bound of the rebalance engine compares an amount with itself, so the
  configured maximum slippage never decides anything: the check is `0 < min_output <= amount_b`
  (`RebalanceEngine.RebalanceEngine.SlippageAllows`).

## Model

| member | source | states |
|---|---|---|
| ConstantProduct.QuoteIsExact | src/swap_router.rs:1042-1075 | a quote exists exactly when the guards hold and the four checked values fit, and is the floor of the constant-product formula on the reserves oriented by the input token |
| ConstantProduct.QuoteKeepsProduct | src/swap_router.rs:1042-1075 | a quote never drains the output side and never lowers the product of the reserves |
| ConstantProduct.QuoteIsMonotone | src/swap_router.rs:1042-1075 | a larger input never quotes a smaller output |
| ConstantProduct.QuoteIsDownwardClosed | src/swap_router.rs:1058-1074 | when the checked arithmetic accepts an input it accepts every smaller positive one |
| ConstantProduct.SwapBackSameReserves | src/swap_router.rs:1042-1075 | swapping the output back through the same reserves returns at most the input |
| ConstantProduct.SwapBackUpdatedReserves | src/swap_router.rs:1042-1075 | swapping the output back through the reserves left by the first swap returns at most the input |
| ConstantProduct.PriceImpactRange | src/swap_router.rs:1078-1112 | the impact is one minus the execution-to-spot ratio, lies between the pool fee and 100%, its clamp never cuts, and its intermediate values stay below the numerator already checked |
| ConstantProduct.ScaleBps | src/swap_router.rs:1120-1124 | the split computation equals floor(amount*bps/10000) on the whole range and lies between 0 and the amount |
| ConstantProduct.ScaleBpsFits | src/swap_router.rs:1120-1124 | both partial products of the split stay far inside 128 bits |
| ConstantProduct.MinimumOutputIsAntitone | src/swap_router.rs:1114-1118 | more tolerance never raises the minimum output, which is at least floor(99%) of and at most the expected output |
| ConstantProduct.PoolInfo.ComputeDepthScore | src/swap_router.rs:51-65 | the computed score squared is at most the reserve product, which is below the square of the next number; 0 for unusable pools and for products beyond 128 bits |
| ConstantProduct.ScoreIsDepth | src/swap_router.rs:51-65 | the ranking score of a usable pool whose reserve product fits is the floored root of that product, and 0 for every other pool |
| SquareRoots.BinarySearchRoot | src/swap_router.rs:68-88 | the binary search terminates with the floor of the square root, and returns negative inputs unchanged |
| SquareRoots.NewtonRoot | src/rebalance_engine.rs:1088-1099 | the Newton iteration terminates with the same floor on all unsigned 128-bit inputs |
| SquareRoots.StepSumFits | src/rebalance_engine.rs:1088-1099 | the sum inside a Newton step exceeds the input only for the guess one, and then by one |
| SquareRoots.NewtonStepAboveRoot | src/rebalance_engine.rs:1088-1099 | a Newton step from any positive guess never falls below the root |
| SquareRoots.RootIsUnique | src/rebalance_engine.rs:1088-1099 | the floor of the square root is unique, so both square roots agree |
| Routes.ViableLegIsExact | src/swap_router.rs:785-811 | a leg is viable exactly when the pool joins the two tokens, in either order, and its checked quote is positive |
| Routes.RouteLegByLeg | src/swap_router.rs:877-973 | a route is viable exactly when amounts can be carried along it, every pool handing its quote on to the next |
| Routes.ViableRouteReplays | src/swap_router.rs:976-1000 | replaying a viable route pool by pool gives exactly its output |
| Routes.PositiveReplayIsViable | src/swap_router.rs:976-1000 | a path that replays to a positive amount is viable in every leg |
| Routes.UnviablePathReplaysToZero | src/swap_router.rs:976-1000 | a path with a missing, mismatched or unquotable pool replays to zero |
| Routes.RouteIsMonotone | src/swap_router.rs:976-1000 | along one route a larger input never arrives as a smaller output |
| SwapRouter.SwapRouter.AddPool | src/swap_router.rs:220-257 | stores a new empty pool under its own address, exactly for the admin and an unused address |
| SwapRouter.SwapRouter.UpdatePoolReserves | src/swap_router.rs:259-281 | replaces the reserves of an existing pool and nothing else, unless the oracle is paused |
| SwapRouter.SwapRouter.RemovePool | src/swap_router.rs:284-296 | removes exactly the named pool, for the admin only |
| SwapRouter.SortByDepth | src/swap_router.rs:919-931 | the bubble sort returns a permutation ordered by descending depth that keeps the order of ties |
| SwapRouter.SwapRouter.FindDirectPath | src/swap_router.rs:785-811 | finds the deepest viable pool of the pair, lowest address on ties, no other fitting pool having a larger floored root of its reserves; fails only when every viable pool overflows |
| SwapRouter.DeepestHasLargestRoot | src/swap_router.rs:785-811 | no viable pool of the pair whose product fits has a larger floored root of its reserve product than the one picked |
| SwapRouter.SwapRouter.FindXlmHopPath | src/swap_router.rs:815-844 | succeeds exactly when the deepest first leg leads on to a ranked second leg, and then uses the deepest pool on both |
| SwapRouter.SwapRouter.CollectCandidates | src/swap_router.rs:887-917 | collects exactly the pools that lead to a token not yet visited, in ascending order of their addresses |
| SwapRouter.SwapRouter.BfsFindPath | src/swap_router.rs:877-973 | extends the visited tokens by a viable completion whose pool is at each level the deepest one that leads to the target, the lowest address among equals; on failure no completion exists and the shared stack is restored |
| SwapRouter.SwapRouter.FindMultiHopPath | src/swap_router.rs:847-874 | finds a simple route of at most three pools whenever one exists |
| SwapRouter.SwapRouter.FindBestPath | src/swap_router.rs:727-781 | for distinct tokens a path with pools is returned if and only if a simple viable route of one to three pools exists; the route type follows the direct, XLM, search order, and the path is a viable route with its own output |
| SwapRouter.SwapRouter.CalculateOutputAmount | src/swap_router.rs:976-1000 | the loop computes the replay of the path, 0 for malformed paths |
| SwapRouter.SwapRouter.GetQuote | src/swap_router.rs:301-341 | a quote exists exactly for valid requests with a viable route; its expected output is that of its own path, its minimum is within 1% and its fee the floored 25 basis points |
| SwapRouter.SwapRouter.GetDirectQuote | src/swap_router.rs:344-374 | a direct quote exists exactly when a ranked pool serves the pair, and prices the deepest one |
| SwapRouter.DeepestLegIsUnique | src/swap_router.rs:785-811 | the pool the direct search picks is determined by the pool set |
| SwapRouter.DeepestFirstIsUnique | src/swap_router.rs:877-973 | the completion the search prefers is determined by the pool set |
| SwapRouter.BestPathIsUnique | src/swap_router.rs:727-781 | for distinct tokens the routing policy determines path and route type: routing is a function of pools, tokens and amount |
| SwapRouter.UnrankedExactlyWhenProductOverflows | src/swap_router.rs:51-65 | a viable pool is invisible to the direct search exactly when its reserve product does not fit 128 bits |
| SwapRouter.DeepPoolsCanBeUnranked | src/swap_router.rs:51-65 | a concrete pool with a positive quote and depth score 0 |
| ImpermanentLoss.CalculateImpermanentLoss | src/rebalance_engine.rs:1060-1085 | zero for nonpositive ratios, a trap exactly when a product overflows, else 100% less a retained term that never exceeds 100% |
| ImpermanentLoss.RetainedAtMostWhole | src/rebalance_engine.rs:1073-1084 | the retained term never exceeds 10000 in spite of the floors, so no saturation is ever needed |
| ImpermanentLoss.NoLossExactlyAtPar | src/rebalance_engine.rs:1073-1084 | the loss is zero if and only if the scaled price ratio is one |
| ImpermanentLoss.LossErrorBound | src/rebalance_engine.rs:1053-1085 | the loss is never below the real 1 - 2*sqrt(r)/(1+r) and less than 3 basis points above it |
| PacingWindows.ChargeIsTracked | src/rebalance_engine.rs:1027-1051 | admitting a charge keeps windows disjoint, no window overdrawn, and the recorded usage true |
| PacingWindows.ChargeStaysExact | src/rebalance_engine.rs:1027-1051 | a charge keeps the recorded usage equal to the charges labelled with the open window plus what a carried-over window had used, whatever the length in force |
| PacingWindows.WindowSumIsSinceOpened | src/rebalance_engine.rs:1027-1051 | while the length does not change, a window's charges are exactly those made from the time it opened on |
| PacingWindows.AtMostTwoWindows | src/yield_vault.rs:1079-1102 | an interval of one window length meets at most two windows |
| PacingWindows.IntervalBound | src/yield_vault.rs:1079-1129 | such an interval sees at most the caps of the windows charged in it |
| RebalanceEngine.OutflowBound | src/rebalance_engine.rs:1007-1051 | with fixed limits at most twice the budget leaves a pool in any interval of one window length |
| RebalanceEngine.MoveIsAdmittedExactly | src/rebalance_engine.rs:1007-1024 | admission in numbers: usage of the live window plus the amount is within the budget |
| RebalanceEngine.RecordedUsageIsExact | src/rebalance_engine.rs:1027-1051 | under fixed limits the recorded usage equals what left the pool from the time the window opened on, plus what it had used before if it was already open at the start |
| RebalanceEngine.RebalanceEngine.OutflowStaysBounded | src/rebalance_engine.rs:408-461 | the outflow bound holds in every state the engine can reach |
| RebalanceEngine.RebalanceEngine.UsageStaysExact | src/rebalance_engine.rs:957-1051 | in every state the engine can reach the recorded usage is the sum of all charges ever made to the open window, limit changes included, and what left the pool since it opened together with its usage at the last limit change |
| RebalanceEngine.RebalanceEngine.SetRebalancePacing | src/rebalance_engine.rs:957-985 | accepts exactly the documented limits, from the admin only, and carries open windows over |
| RebalanceEngine.RebalanceEngine.PacingAllows | src/rebalance_engine.rs:1007-1024 | allows a move exactly when pacing is off or what was moved in the live window and the new amount fit the budget |
| RebalanceEngine.RebalanceEngine.RecordPacing | src/rebalance_engine.rs:1027-1051 | the amount is added to the live window, or opens a new one; nothing is stored while pacing is off |
| RebalanceEngine.RebalanceEngine.SlippageAllows | src/rebalance_engine.rs:491-513 | the check reduces to a positive minimum that the deposit leg reaches |
| RebalanceEngine.RebalanceEngine.ExecuteRebalance | src/rebalance_engine.rs:408-461 | when a proposal succeeds, is refused, is recorded as failed or traps; only a success is charged, with both legs, to the source pool |
| RebalanceEngine.RebalanceEngine.ExecuteFlashRebalance | src/rebalance_engine.rs:1538-1615 | succeeds exactly when the target feed is not excluded, the vault's cooldown is over, the amount is positive and the budget admits both legs; only a success is charged and restarts the cooldown |
| RebalanceEngine.RebalanceEngine.AddToHistory | src/rebalance_engine.rs:1217-1241 | after appending and trimming, the stored history is the last 1000 entries of the full log |
| RebalanceEngine.RebalanceEngine.GetPoolHistory | src/rebalance_engine.rs:1675-1697 | the newest entries touching the pool, newest first, up to the limit |
| RebalanceEngine.RebalanceEngine.IsPoolEmergencyStopTriggered | src/rebalance_engine.rs:1729-1741 | trips exactly when enough entries touch the pool and the latest threshold of them all failed |
| RebalanceEngine.RebalanceEngine.IsStrategyBreakerTripped | src/rebalance_engine.rs:1783-1818 | the same for all pools of a known strategy |
| RebalanceEngine.RebalanceEngine.IsEmergencyStopTriggered | src/rebalance_engine.rs:1623-1636 | trips exactly when the latest three entries of the full log failed |
| Breakers.RetainedTripsExactly | src/rebalance_engine.rs:1217-1241 | on the retained history a breaker trips if and only if it trips on the full log and enough touching entries are retained |
| Breakers.GlobalTripIgnoresDropped | src/rebalance_engine.rs:1217-1241 | trimming never changes the global breaker |
| Breakers.SuccessHoldsBreaker | src/rebalance_engine.rs:1729-1741 | after a success only later failures count |
| Breakers.OnePoolStrategyAgrees | src/rebalance_engine.rs:1783-1818 | a strategy over one pool trips with that pool's breaker at equal thresholds |
| Breakers.TouchingConcat | src/rebalance_engine.rs:1675-1697 | selecting the touching entries distributes over splitting the history |
| Breakers.TouchingMembers | src/rebalance_engine.rs:1685-1690 | an entry touches a pool as source or as target, and exactly such entries are selected |
| Breakers.TripsExactly | src/rebalance_engine.rs:1729-1741 | a breaker trips exactly when from some point of the history on there are exactly threshold attempts on the pools and all of them failed |
| EventStream.PollConsumesPage | sdk/src/eventListener.ts:684-791 | a poll consumes exactly its page, the cursor never moves back, and a page that is not full leads past the head |
| EventStream.CursorAfterFullPage | sdk/src/eventListener.ts:768-791 | after a full page the cursor stands one past the highest allowed ledger on it, unless it already stood further on |
| EventStream.AppendKeepsCovered | sdk/src/eventListener.ts:695-703 | chain growth beyond the head changes neither what a position denotes nor what it covers |
| EventStream.FullPagesWhileBehind | sdk/src/eventListener.ts:768-791 | while a page is left every poll consumes exactly one page |
| EventStream.CatchUp | sdk/src/eventListener.ts:768-791 | with a fixed head one poll more than the whole pages unread drains the stream, and further polls stay there |
| ListenerRuns.StepKeepsConsistent | sdk/src/eventListener.ts:537-571 | the process's and the stored position make sense on the chain after every step |
| ListenerRuns.NoRunLosesEvents | sdk/src/eventListener.ts:623-666 | whatever fails, every allowed event up to either position has been delivered |
| ListenerRuns.NoRunDeliversForeign | sdk/src/eventListener.ts:706-746 | whatever fails, only allowed events of the chain are delivered |
| ListenerRuns.StepDelivers | sdk/src/eventListener.ts:623-634 | a step delivers what becomes due plus what an interruption hands out in vain, at most a page |
| ListenerRuns.DeliveredExactlyOnce | sdk/src/eventListener.ts:537-571 | while checkpoints are read and written, the deliveries are exactly the allowed events of the consumed prefix if and only if no interrupted poll handed one out in vain; the surplus is exact and at most a page per interruption |
| ListenerRuns.CrashRedelivers | sdk/src/eventListener.ts:623-634 | a crash between dispatch and save delivers an event twice |
| ListenerRuns.LostCheckpointReplays | sdk/src/eventListener.ts:636-654 | a process that cannot read its checkpoint reads from the configured start again |
| ListenerRestarts.PhasesKeepStanding | sdk/src/eventListener.ts:537-571 | whatever configurations processes ran with, a stored token names an event of the chain and the cursor is at most one past its ledger |
| ListenerRestarts.FirstPageExactly | sdk/src/eventListener.ts:545-553 | a new process begins after the stored token, at the stored ledger, or at its configured start when that lies ahead of the checkpoint |
| ListenerRestarts.StartIsHonouredExactly | sdk/src/eventListener.ts:545-553 | its first page holds nothing from before the configured start, except exactly when the start equals the stored cursor and the ledger of the stored token was not finished |
| ListenerRestarts.TokenOutlivesStart | sdk/src/eventListener.ts:548-550 | a concrete run in which an event from before the configured start is delivered |
| ListenerRestarts.NothingBeforeStart | sdk/src/eventListener.ts:537-554 | a process whose start is not the cursor of a checkpoint with a token is handed nothing from before its start, in its whole life |
| DeliveryOrder.AllowedAreKept | sdk/src/eventListener.ts:798-801 | exactly the events of listed contracts are kept, all of them for an empty list |
| DeliveryOrder.FirstDeliveriesInOrder | sdk/src/eventListener.ts:537-571 | in every run, with crashes, failed saves and lost checkpoints, the first deliveries are the allowed events of a prefix of the stream, each once and in order, reaching at least as far as process and checkpoint; the surplus is exactly what was handed out again |
| DeliveryOrder.EachOnceExactly | sdk/src/eventListener.ts:623-666 | over every run the deliveries are the allowed events of the prefix reached, none twice, if and only if no dispatch went over allowed events reached before; the number of repetitions is exact |
| DeliveryOrder.FailedSaveRedelivers | sdk/src/eventListener.ts:656-666 | a swallowed save failure followed by a restart delivers an event twice |
| EventListener.ContractEventListener.constructor | sdk/src/eventListener.ts:406-417 | a new process holds no position of its own and sees the same store, chain and handlers |
| EventListener.ContractEventListener.Restore | sdk/src/eventListener.ts:537-554 | the stored position wins unless the configured start lies ahead of it, and only then keeps its paging token |
| EventListener.ContractEventListener.Persist | sdk/src/eventListener.ts:562-571 | the stored checkpoint denotes the current position |
| EventListener.ContractEventListener.BuildRequest | sdk/src/eventListener.ts:684-704 | the request names the paging token if there is one, else the cursor |
| EventListener.ContractEventListener.ProcessResponse | sdk/src/eventListener.ts:706-746 | allowed events reach handlers in order and the position advances by the page; a throwing handler leaves the position untouched |
| EventListener.ContractEventListener.AdvanceCursor | sdk/src/eventListener.ts:768-791 | the new position is that of the page and the head |
| EventListener.ContractEventListener.RunPoll | sdk/src/eventListener.ts:623-654 | one poll is one step of the system of chain, process and checkpoint, under every fault; a first poll that cannot read its checkpoint is the loss of the checkpoint followed by that step |
| TokenLedger.TransferConserves | src/yield_vault.rs:358-362 | a transfer keeps the total of all balances |
| VaultAccounting.RedemptionRanges | src/yield_vault.rs:421-474 | redemptions stay within the totals, fees are nonnegative, and payout, withdrawal fee and performance fee add up to the redeemed amount of each token |
| VaultAccounting.PayOutConserves | src/yield_vault.rs:501-529 | with enough balance the transfers of a withdrawal fail exactly on a negative payout, and else take exactly the three amounts from the vault |
| VaultAccounting.DepositKeepsSolvent | src/yield_vault.rs:309-385 | a deposit keeps shares summing to their total and balances covering the tracked totals |
| VaultAccounting.WithdrawKeepsSolvent | src/yield_vault.rs:388-537 | a withdrawal keeps the same invariant and conserves both tokens |
| VaultAccounting.TransferFailsOnlyOnNegativePayout | src/yield_vault.rs:476-529 | in a solvent vault a withdrawal never fails for lack of funds, only on a negative payout |
| VaultAccounting.HarvestKeepsSolvent | src/yield_vault.rs:546-613 | a harvest fails only when paused, keeps the invariant and creates only its reward |
| VaultAccounting.StepConserves | src/yield_vault.rs:309-613 | every call keeps the invariant, conserves both tokens up to rewards and never lowers the surplus |
| VaultAccounting.RunConserves | src/yield_vault.rs:309-613 | the same over every run |
| VaultPayouts.MintIsMaximal | src/yield_vault.rs:332-344 | minted shares are the floor of the proportional amount, neither more nor fewer |
| VaultPayouts.MintsNothingExactly | src/yield_vault.rs:332-348 | a deposit mints nothing exactly when it is worth less than one share |
| VaultPayouts.FirstDepositMintsItsValue | src/yield_vault.rs:333-335 | the first deposit mints one share per unit of combined value, to the depositor and in total |
| VaultPayouts.DepositSucceedsExactly | src/yield_vault.rs:309-362 | a deposit succeeds if and only if the vault is not paused, both minima are met, it is worth a share and the shares asked for, and the user has both legs |
| VaultPayouts.DepositRefusals | src/yield_vault.rs:316-352 | which refusal a deposit meets before anything moves |
| VaultPayouts.WithdrawRefusals | src/yield_vault.rs:396-418 | which refusal a withdrawal meets before its amounts are known |
| VaultPayouts.RedeemedExactly | src/yield_vault.rs:420-445 | redeemed amounts are floored proportional parts plus a sweep, and a full exit leaves nothing of a token or more than dust |
| VaultPayouts.RedemptionIsProportional | src/yield_vault.rs:420-471 | both redemptions, both withdrawal fees and the performance split are exact floors |
| VaultPayouts.LastExitEmptiesVault | src/yield_vault.rs:420-494 | when the last shares leave, nothing tracked stays behind |
| VaultPayouts.PerformanceFeeTracksGain | src/yield_vault.rs:1012-1030 | for cost bases of either sign the fee brackets the configured share of the unrounded gain within two units of gain, and never falls below its floor for a nonnegative basis |
| VaultPayouts.PerformanceFeeIsExact | src/yield_vault.rs:1012-1030 | to the unit, the fee is the floored share of the redeemed value over two truncated costs, when that is positive |
| VaultPayouts.NoFeeAtCostExactly | src/yield_vault.rs:1008-1030 | for cost bases of either sign a withdrawal at or below cost pays no fee if and only if the rate is below 100% |
| VaultPayouts.WithdrawPaysExactly | src/yield_vault.rs:476-529 | the user receives both payouts, at least the minima, the treasury all fees, nobody else anything; shares, cost basis and totals fall by exactly what is redeemed |
| VaultPayouts.DepositTakesExactly | src/yield_vault.rs:351-377 | exactly the two legs leave the user, and only the user is credited shares, at least the minimum, and cost basis; totals grow by the same |
| VaultPayouts.HarvestSplitsReward | src/yield_vault.rs:557-607 | each reward is split into the floored fee for the treasury and the rest for the totals |
| VaultPayouts.ExitSucceedsExactly | src/yield_vault.rs:388-537 | for all inputs a withdrawal from a valid vault succeeds if and only if the pause switch, holdings, minima and pacing admit it, it redeems something or is complete, and no payout is negative |
| VaultPayouts.PartialExitStrandsRest | src/yield_vault.rs:485-488 | a profitable partial exit can leave shares of which no portion can be redeemed, at any time and with any minima |
| VaultPayouts.StrandingIsReached | src/yield_vault.rs:309-537 | from every initialized vault with these fees a deposit, a harvest and a partial exit lead there |
| VaultPayouts.FeesAreCoverable | src/yield_vault.rs:447-474 | with a nonnegative basis and rates adding up to at most 100% no payout is negative, whatever the split rounds |
| VaultPayouts.FeesAreCoverableExactly | src/yield_vault.rs:447-474 | every redemption on a nonnegative basis has nonnegative payouts if and only if the two rates add up to at most 100% |
| VaultPrices.DepositKeepsPrice | src/yield_vault.rs:333-344 | a deposit never lowers the value behind a share |
| VaultPrices.WithdrawKeepsPrice | src/yield_vault.rs:421-494 | a withdrawal lowers it at most by the swept dust |
| VaultPrices.HarvestKeepsPrice | src/yield_vault.rs:557-583 | a harvest never lowers it |
| VaultPrices.SweepIsDust | src/yield_vault.rs:425-437 | only a full exit sweeps, and at most the threshold of each token |
| VaultPrices.StepKeepsPrice | src/yield_vault.rs:309-613 | in one step the value behind a share falls at most by the swept dust, compared crosswise |
| VaultPrices.PriceNeverFallsButForDust | src/yield_vault.rs:309-613 | over a run with shares outstanding the value of a share falls at most by the dust swept on the way |
| VaultPrices.NoProfitFromRoundTrip | src/yield_vault.rs:333-468 | depositing and at once withdrawing the minted shares redeems at most the deposit plus swept dust, none when shares were held before; fees only lower the payout |
| VaultPacing.WithdrawalCharges | src/yield_vault.rs:1063-1129 | a successful withdrawal is admitted by and charged to every window that measures it |
| VaultPacing.PacingRefusesExactly | src/yield_vault.rs:1104-1121 | pacing refuses exactly when the user's or the vault's limited window cannot take the shares |
| VaultPacing.PacingRefusesInNumbers | src/yield_vault.rs:1071-1121 | the refusal in numbers: a limit above zero is exceeded by what the live window has used and the shares, measured against the shares held when it opened |
| VaultPacing.WithdrawalChargesExactly | src/yield_vault.rs:1084-1129 | what a successful withdrawal leaves in both windows as soon as one limit is set, and that nothing is recorded without limits |
| VaultPacing.StartSharesOverRuns | src/yield_vault.rs:1079-1102 | windows only ever open on positive holdings, over every run |
| VaultPacing.AllowanceIsCeiling | src/yield_vault.rs:1102-1121 | the allowance is the rounded-up share of the holding, at least one share and at most the holding |
| VaultPacing.ChargesAreTracked | src/yield_vault.rs:1063-1129 | over any run with fixed limits the recorded windows match the charged withdrawals and are not overdrawn |
| VaultPacing.PlausibleOverRuns | src/yield_vault.rs:1063-1129 | over every run, limit changes included, no window lies in the future or has a negative usage |
| VaultPacing.WithdrawalBound | src/yield_vault.rs:1063-1129 | in any interval of one window length a user or the vault withdraws at most the rounded-up allowances of at most two windows that meet the interval, each of the shares held by the withdrawal that opened it; one allowance if only one window meets it |
| VaultPacing.ReachedVaultsArePaced | src/yield_vault.rs:1063-1129 | the bound and the exact usage hold in every vault an initialized one can become, after any changes of the limits |
| VaultPacing.RecordedWithdrawalsAreExact | src/yield_vault.rs:1063-1129 | over every run, limit changes included, the recorded usage equals the shares charged to the open window, plus what a window open at the start had used |
| VaultPacing.RecordedIsWithdrawnSinceOpened | src/yield_vault.rs:1063-1129 | under fixed limits the recorded usage equals what the party withdrew from the time its window opened on, plus what a window open at the start had used |
| VaultTimelock.ExecutionIsExact | src/yield_vault.rs:908-932 | the owner can execute a queued action exactly from its time on, which removes it and sets its own fields and no others |
| VaultTimelock.ProposalIsExact | src/yield_vault.rs:658-696 | which proposals are accepted, under which id and for when they are queued, and that nothing else changes |
| VaultTimelock.CancellationIsExact | src/yield_vault.rs:935-950 | the owner can cancel what is queued, which only removes it |
| VaultTimelock.LimitsAreExact | src/yield_vault.rs:716-752 | which withdrawal limits are accepted, and that each is stored as given for its party |
| VaultTimelock.DirectSettingsAreExact | src/yield_vault.rs:831-851 | prices and the pause switch are set by the owner alone, and nothing else with them |
| VaultTimelock.OnlyExecutionChangesParams | src/yield_vault.rs:908-932 | minima, treasury and delay change only by a successful execution |
| VaultTimelock.QueuedWasProposed | src/yield_vault.rs:1153-1180 | every queued action was proposed earlier in the run under the delay then in force |
| VaultTimelock.ChangeWasQueued | src/yield_vault.rs:908-932 | a change sets exactly the fields of an action proposed at least that delay before |
| VaultTimelock.SettledOnce | src/yield_vault.rs:908-950 | no action is executed twice or executed after being cancelled |
| VaultTimelock.RetiredForever | src/yield_vault.rs:1140-1150 | an action id that left the queue never comes back |
| VaultTimelock.NothingChangesEarly | src/yield_vault.rs:893-932 | nothing changes sooner than the initial delay after the first proposal, even when the delay is shortened |
| YieldVault.YieldVault.constructor | src/yield_vault.rs:184-261 | a new vault satisfies the invariant, with an empty queue, no pacing, no open windows and the default parameters |
| YieldVault.YieldVault.Deposit | src/yield_vault.rs:309-385 | performs exactly the deposit transition or fails with the prescribed error and unchanged state |
| YieldVault.YieldVault.Withdraw | src/yield_vault.rs:388-537 | performs exactly the withdrawal transition or fails with the prescribed error and unchanged state |
| YieldVault.YieldVault.CalculateRedemption | src/yield_vault.rs:420-471 | amounts and fees are those of the specified redemption |
| YieldVault.YieldVault.ConsumeWithdrawPacing | src/yield_vault.rs:1063-1129 | both windows after the charge, or a refusal |
| YieldVault.YieldVault.Harvest | src/yield_vault.rs:546-613 | performs exactly the harvest transition or fails unchanged |
| YieldVault.YieldVault.SetWithdrawPacing | src/yield_vault.rs:716-752 | accepts exactly valid limits from the admin and keeps open windows |
| YieldVault.YieldVault.Enqueue | src/yield_vault.rs:1153-1180 | queues the action under the next id with the saturating delay in force |
| YieldVault.YieldVault.Propose | src/yield_vault.rs:658-696 | checks the admin and the proposed values, then queues |
| YieldVault.YieldVault.ExecutePendingAction | src/yield_vault.rs:908-932 | removes and applies a due action, or fails unchanged |
| YieldVault.YieldVault.CancelPendingAction | src/yield_vault.rs:935-950 | removes a queued action without effect, or fails unchanged |
| BackoffRuns.CeilingHoldsExactly | sdk/src/keeperBackoff.ts:85-92 | the ceiling holds if and only if the largest raw delay does not round above `maxMs`; every whole maximum of at least 1 ms qualifies |
| BackoffRuns.HalfMillisecondBreaksCeiling | sdk/src/keeperBackoff.ts:85-92 | a policy whose delay exceeds its maximum |
| BackoffRuns.DelayWithinMax | sdk/src/keeperBackoff.ts:85-92 | under that condition every delay is at most `maxMs`, and at least 1 ms once backing off |
| BackoffRuns.DelayGrows | sdk/src/keeperBackoff.ts:85-92 | more failures never wait less under the same randomness, and only failures below the threshold do not wait |
| BackoffRuns.DelayIsGrown | sdk/src/keeperBackoff.ts:85-92 | the delay starts at `baseMs`, grows by `factor` with each failure, is capped at `maxMs`, cut by the jitter share, and rounded to the nearest millisecond, at least one |
| BackoffRuns.RunStaysDurable | sdk/src/keeperBackoff.ts:112-187 | memory and store agree and no wait reaches further than `maxMs` ahead, over every run |
| BackoffRuns.RestartsAreInvisible | sdk/src/keeperBackoff.ts:112-187 | a run with restarts has the same tick results and states as the run without them |
| BackoffRuns.TickIsExact | sdk/src/keeperBackoff.ts:175-187 | when a tick is skipped and for how long, and what success and failure leave behind |
| BackoffRuns.FailuresAreCounted | sdk/src/keeperBackoff.ts:145-169 | over every run, restarts included, the state counts exactly the failures since the last success |
| BackoffRuns.NthFailureWaitsNthDelay | sdk/src/keeperBackoff.ts:153-169 | the n-th failure in a row waits the n-th delay |
| BackoffRuns.WaitIsHonoured | sdk/src/keeperBackoff.ts:141-187 | a scheduled attempt stays in force, across restarts and skipped ticks, until it is due |
| BackoffRuns.ExecutedTicksAreSpaced | sdk/src/keeperBackoff.ts:141-187 | two executed ticks are at least the delay of the failure at the first apart |
| BackoffRuns.SkippedTickChangesNothing | sdk/src/keeperBackoff.ts:175-179 | a skipped tick changes neither the state nor the store |
| KeeperBackoff.ValidatePolicy | sdk/src/keeperBackoff.ts:71-82 | accepts exactly the policies the constructor promises |
| KeeperBackoff.KeeperBackoff.Init | sdk/src/keeperBackoff.ts:112-134 | restores once, repairs corrupt stored numbers, and clamps the wait to `maxMs` from now |
| KeeperBackoff.KeeperBackoff.RecordSuccess | sdk/src/keeperBackoff.ts:145-151 | resets state and stored copy unless there is nothing to reset |
| KeeperBackoff.KeeperBackoff.RecordFailure | sdk/src/keeperBackoff.ts:153-169 | counts the failure, schedules the next attempt and stores both |
| KeeperBackoff.KeeperBackoff.Tick | sdk/src/keeperBackoff.ts:175-187 | one tick of the run model, also with failing saves |
| OracleRegistry.NewestDecides | src/oracle_registry.rs:428-438 | in time order the newest observation alone decides the latest fresh price |
| OracleRegistry.WindowAnswersLikeHistory | src/oracle_registry.rs:326-366 | the last ten publications give the same latest fresh price as all of them |
| OracleRegistry.OracleRegistry.RegisterFeed | src/oracle_registry.rs:151-187 | adds an empty feed with the default threshold for zero, exactly for the admin and a new pool |
| OracleRegistry.OracleRegistry.SetFreshnessThreshold | src/oracle_registry.rs:194-211 | changes the threshold of one feed only |
| OracleRegistry.OracleRegistry.PublishPrice | src/oracle_registry.rs:326-366 | the window becomes the last ten publications in order, exactly for authorised feeders of a known feed |
| OracleRegistry.OracleRegistry.LatestFreshPrice | src/oracle_registry.rs:428-438 | the backward scan finds the latest fresh price |
| OracleRegistry.OracleRegistry.GetPrice | src/oracle_registry.rs:387-415 | the answer on the windows is the answer on the unbounded histories: the newest publication if young enough, else the fallback, else the stated failure |
| OracleRegistry.OracleRegistry.PriceIsAnswered | src/oracle_registry.rs:387-415 | the price is that of the pool's newest publication if young enough, else that of its fallback's, if it has one; else it fails |
| OracleRegistry.OracleRegistry.LatestAnswers | src/oracle_registry.rs:428-438 | a feed answers exactly with its newest publication, if that is no older than its threshold |
| OracleRegistry.OracleRegistry.WindowsAnswerLikeHistories | src/oracle_registry.rs:387-438 | windows and histories agree on every pool at every time |
| Digits.TextDenotes | sdk/src/governance.ts:1256-1259 | the decimal text of a number denotes it and has no leading zero |
| Digits.CanonicalText | sdk/src/governance.ts:1256-1259 | digit text without a leading zero is the text of the number it denotes |
| AmountText.MatchIsExact | sdk/src/governance.ts:1301-1306 | the matcher accepts exactly `digits`, `digits.` and `digits.digits`, with a unique split |
| AmountText.ParsedIsFloor | sdk/src/governance.ts:1308-1317 | an accepted amount parses to the floor of its decimal times ten to the decimals |
| AmountText.ParsesExactly | sdk/src/governance.ts:1299-1306 | exactly the empty text, a lone point and the amount pattern parse, the first two to zero |
| AmountText.SpacesAreExact | sdk/src/governance.ts:1296 | the characters trimmed, by code point |
| AmountText.OuterSpacesDoNotMatter | sdk/src/governance.ts:1296 | spaces around an amount do not change what it parses to |
| AmountText.SeparatorsDoNotMatter | sdk/src/governance.ts:1296 | a thousands separator inside an amount does not change what it parses to |
| AmountText.BareTextIsParsed | sdk/src/governance.ts:1296-1306 | text without separators and outer spaces is parsed as it stands |
| AmountText.ExponentialParts | sdk/src/governance.ts:1327-1333 | every expanded text is of the exponent pattern, with its own parts |
| AmountText.MatchExponentIsExact | sdk/src/governance.ts:1327-1333 | the exponent matcher accepts exactly optionally signed digits, with the integer they denote |
| AmountText.ExponentialMatchIsExact | sdk/src/governance.ts:1327-1333 | the matcher accepts exactly the texts of the exponent pattern |
| AmountText.ExpansionPreservesValue | sdk/src/governance.ts:1324-1342 | moving the point preserves the denoted value in all three positions |
| AmountText.NumberParsesToFloor | sdk/src/governance.ts:1291-1317 | every nonnegative number of the exponent pattern parses to the floor of its scaled value |
| AmountText.PlainNumbersAreKept | sdk/src/governance.ts:1324-1331 | a number written without an exponent is parsed as it stands |
| AmountText.NegativeNumbersAreRejected | sdk/src/governance.ts:1301-1306 | a negative number is rejected, with or without an exponent |
| AmountText.RoundTrip | sdk/src/governance.ts:1252-1318 | parsing a printed nonnegative amount gives it back, for every number of decimals |
| AmountText.NegativePrintIsRejected | sdk/src/governance.ts:1252-1318 | a printed negative amount is rejected |
| AmountText.PrintedNegative | sdk/src/governance.ts:1253-1259 | a negative amount prints as a minus sign and its magnitude |
| AmountText.FormatIsInjective | sdk/src/governance.ts:1252-1260 | different amounts print differently |
| AmountText.NormalTextRoundTrips | sdk/src/governance.ts:1252-1318 | text input without superfluous zeros survives parsing and printing |

## Assumptions

- Ledger time never decreases where a theorem speaks of intervals, and the pacing bounds are about a
  stretch with fixed limits; the exactness of recorded usage needs no fixed limits.
- Vault amounts are unbounded integers. An overflow in the contract traps and rolls back, so every run
  of the contract is a run of the model with that call left out. The router, the square roots and the
  impermanent loss model their 128-bit limits explicitly.
- The vault's own account makes no deposit and no transfer outside the vault's code
  (`VaultState.External`); the two tokens are different; fee rates are at most 10000 basis points and
  `initialize` runs once.
- The harvest reward is a parameter that arrives in the vault's balance, in place of the constant
  placeholder at src/yield_vault.rs:1033-1037.
- The RPC node keeps its log ordered by ledger with unique ids, adds nothing at or below a reported
  head, and returns the first events from the requested place.
- Addresses are natural numbers, and ledger maps iterate in ascending key order.

## Left out

- SwapRouter.SwapRouter.FindBestPath: completeness is stated for distinct tokens, the only ones `get_quote` passes on; with equal tokens the XLM hop could repeat a token.
- VaultTimelock.OnlyExecutionChangesParams: token prices are outside the timelocked parameters, because `set_prices` (src/yield_vault.rs:831-851) writes them directly.
- YieldVault.YieldVault.Harvest: `last_harvest`, APY and TVL reporting and events are not modelled.
- RebalanceEngine.RebalanceEngine.ExecuteRebalance: the APY fields of a history entry are not modelled, and the outcome of the token transfers is a parameter.
- RebalanceEngine.RebalanceEngine.ExecuteFlashRebalance: the vault's current pool is a parameter instead of a call into the vault, and the set of excluded feeds is given.
- EventStream.PollConsumesPage: events without ids, whose last ledger on a full page is not tracked by the listener.
- EventListener.ContractEventListener.ProcessResponse: one handler stands for all that are registered, so an event seen by some handlers before another one throws is not recorded as delivered.
- EventListener.ContractEventListener.RunPoll: handler typing, address case, timers, the `autoRestore` and `persistOnPoll` switches and checkpoint validation are not modelled; polls never overlap.
- BackoffRuns.CeilingHoldsExactly: delays are exact reals, not IEEE doubles.
- KeeperBackoff.KeeperBackoff.Tick: the `onBackoff` and `onRecover` callbacks are not modelled.
- AmountText.NumberParsesToFloor: a number is given by the decimal text JavaScript prints for it; floating-point conversion is not modelled.
- Router execution and retry (`swap`, `try_swap`, `retry_failed_swaps`): it takes the first matching pool instead of the quoted one.
- Oracle feeder management and fallback changes, router pause switches and default-slippage changes, breaker pausing: guards and setters.
- Strategy creation, opportunity scanning and APY feeds of the rebalance engine.
- Reward distributor, governance, risk engine, insurance, actuary, strategy registry, upgrade and emergency multisig: incomplete in the source or easy guards.
- Authorisation signatures, ledger events and storage layout.
