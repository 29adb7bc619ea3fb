# Faucet contract model

A Dafny model of the CosmWasm faucet contract. The contract pools one token,
`cgas`, that anyone deposits. It accepts address registrations only from
one auction contract. Once the owner opens the release, it pays each
registered address an equal floor share of the pool.

The persisted state is a singleton `State` record (auction address, owner,
total rewards, total addresses, the `allowed` phase flag) plus the `rewards`
map from address to a presence marker. `allowed == false` is the
accumulation phase and `allowed == true` the distribution phase.

- `faucet_types.dfy` (module `FaucetTypes`): `Uint128` (a `nat` at most
  2^128 - 1), `Coin`, `State`, `Storage`, the error kinds `Unauthorized`,
  `WrongDenom` and `Allowed`, and the inbound and outbound messages. Rust
  panics become `Outcome.Abort` with one of three reasons: `unwrap` of the
  first coin of empty funds, `checked_div(..).unwrap()` by zero, and
  `Uint128` addition overflow. An abort commits nothing, like an error.
- `faucet_logic.dfy` (module `FaucetLogic`): every handler as a function
  from storage to outcome and next storage. It also holds the read-only
  paths (`release_rewards` and the queries), the `execute` dispatch, and
  `Run`, which folds a sequence of calls.
- `faucet_contract.dfy` (module `FaucetContract`): class `Faucet`. Its
  fields `state` and `rewards` are updated in place by the handlers that
  write storage. Each handler is proved to commit exactly what the
  matching `FaucetLogic` function describes.
- `faucet_properties.dfy` (module `FaucetProperties`): lemmas about single
  calls and about arbitrary call sequences.

Behaviour of the code worth knowing:

- `add_rewards` has no owner check, although its comment says it has.
- Registering an address that is already present still increments
  `total_addresses`. So the counter equals the number of registered
  addresses only until an address is registered twice. The invariant
  proved is the weaker `|keys| <= total_addresses`.
- `release_rewards` records no claim. A registered address can claim the
  same share again and again.
- As written, `instantiate` moves `msg.auction_contract` into the new
  record (contract.rs:22) and then reads it again for a response
  attribute (contract.rs:34), which Rust rejects as a use of a moved
  value. The model takes the evident reading: the auction address is the
  message's, and the attribute is not modelled.
- `WrongDenom` is returned for a wrong first denom, and `Allowed` for a
  deposit or registration refused in the distribution phase.

## Model

| member | source | states |
|---|---|---|
| `FaucetContract.Faucet.Instantiate` | faucet-contract/src/contract.rs:15-35 | the sender becomes owner and the auction address is the message's; both totals are zero; `allowed` is false; the rewards map is empty |
| `FaucetLogic.AddRewards` | faucet-contract/src/contract.rs:53-73 | empty funds abort; a first coin not in `cgas` gives `WrongDenom` before the phase is checked; in the distribution phase the result is `Allowed`; a sum beyond `Uint128` aborts with `Overflow`; success exactly when none of these applies, and then only `total_rewards` grows, by the first coin's amount; every failure leaves storage unchanged |
| `FaucetContract.Faucet.AddRewards` | faucet-contract/src/contract.rs:53-73 | the in-place update commits what `FaucetLogic.AddRewards` describes; on failure state and map are unchanged; on success only `total_rewards` changes, by the amount |
| `FaucetLogic.SetAllowed` | faucet-contract/src/contract.rs:75-101 | success exactly when the sender is the owner, and then only `allowed` changes, to the requested value; otherwise `Unauthorized` with storage unchanged |
| `FaucetContract.Faucet.AllowRelease` | faucet-contract/src/contract.rs:75-87 | the owner sets `allowed` to true and nothing else changes; any other sender gets `Unauthorized` and nothing changes |
| `FaucetContract.Faucet.RefuseRelease` | faucet-contract/src/contract.rs:89-101 | the owner sets `allowed` to false and nothing else changes; any other sender gets `Unauthorized` and nothing changes |
| `FaucetLogic.RegisterAddress` | faucet-contract/src/contract.rs:123-144 | a sender other than the auction address gets `Unauthorized`, checked before the phase; in the distribution phase the result is `Allowed`; a counter already at the `Uint128` maximum aborts with `Overflow`; on success `total_addresses` grows by exactly one, the `address` argument (not the sender) maps to true, and no other field or entry changes; failures change nothing |
| `FaucetContract.Faucet.RegisterAddress` | faucet-contract/src/contract.rs:123-144 | the in-place update commits what `FaucetLogic.RegisterAddress` describes: the counter plus one and `rewards[address] := true` on success, nothing on failure |
| `FaucetLogic.ReleaseRewards` | faucet-contract/src/contract.rs:103-121 | an unregistered sender, or a registered one before the release opens, gets `Unauthorized`; a zero counter aborts; otherwise exactly one send of `cgas` to the sender, whose amount q satisfies q * total_addresses <= total_rewards < (q + 1) * total_addresses |
| `FaucetLogic.Execute` | faucet-contract/src/contract.rs:37-52 | for every message the owner and auction address are unchanged, both totals do not decrease, and no registration is removed; `release_rewards` leaves storage untouched |
| `FaucetContract.Faucet.Execute` | faucet-contract/src/contract.rs:37-52 | dispatching a call on the object commits what `FaucetLogic.Execute` describes |
| `FaucetProperties.InstantiateEstablishesInv` | faucet-contract/src/contract.rs:21-29 | the initial storage satisfies the invariant, and both queries answer zero |
| `FaucetProperties.RegisterPreservesInv` | faucet-contract/src/contract.rs:137-141 | a registration keeps all markers true and the counter at least the number of registered addresses |
| `FaucetProperties.ExecutePreservesInv` | faucet-contract/src/contract.rs:44-51 | every execute call preserves the invariant |
| `FaucetProperties.RunPreservesInv` | faucet-contract/src/contract.rs:37-52 | any sequence of execute calls preserves the invariant |
| `FaucetProperties.InvRulesOutDivideByZero` | faucet-contract/src/contract.rs:114 | under the invariant, `release_rewards` never divides by zero |
| `FaucetProperties.ReachableNeverDividesByZero` | faucet-contract/src/contract.rs:103-121 | after `instantiate` and any sequence of calls, `release_rewards` never aborts on division by zero |
| `FaucetProperties.OneClaimEachFitsPool` | faucet-contract/src/contract.rs:114-120 | one claim per registered address would pay out at most `total_rewards` |
| `FaucetProperties.RunMonotone` | faucet-contract/src/contract.rs:37-52 | across any sequence of calls the roles are fixed, the totals never decrease, and registrations are never removed |
| `FaucetProperties.ExecuteFrozenWhileAllowed` | faucet-contract/src/contract.rs:53-144 | in the distribution phase, every call except `refuse_release` leaves storage unchanged |
| `FaucetProperties.RunFrozenWhileAllowed` | faucet-contract/src/contract.rs:37-52 | in the distribution phase, any sequence of calls without `refuse_release` leaves storage unchanged |
| `FaucetProperties.PhasesExclusive` | faucet-contract/src/contract.rs:53-144 | deposits and registrations never succeed in the distribution phase; claims never succeed in the accumulation phase |
| `FaucetProperties.ReleaseToggleIdempotent` | faucet-contract/src/contract.rs:75-101 | opening or closing the release twice equals doing it once |
| `FaucetProperties.AllowThenRefuseRestores` | faucet-contract/src/contract.rs:75-101 | from the accumulation phase, opening then closing the release restores the storage |
| `FaucetProperties.AddRewardsIgnoresSender` | faucet-contract/src/contract.rs:53-69 | the outcome of a deposit does not depend on who sends it |
| `FaucetProperties.ReleaseRepeatable` | faucet-contract/src/contract.rs:103-121 | a second identical claim has the same outcome and storage as the first |
| `FaucetLogic.Query` | faucet-contract/src/contract.rs:147-165 | `GetRewards` answers with a rewards response carrying `total_rewards` and `GetAddresses` with an addresses response carrying `total_addresses`; after `instantiate` both are zero and each successful deposit or registration moves exactly one of them (`InstantiateEstablishesInv`, `QueriesTrackCounters`) |
| `FaucetProperties.QueriesTrackCounters` | faucet-contract/src/contract.rs:156-165 | after a successful deposit the rewards query grows by the amount while the addresses query is unchanged; after a successful registration it is the other way round, with growth by one |
| `FaucetProperties.ReRegistrationOvercounts` | faucet-contract/src/contract.rs:137-141 | registering one address twice leaves `total_addresses == 2` with a single map entry |
| `FaucetProperties.RepeatedClaimsOverdraw` | faucet-contract/src/contract.rs:103-121 | after depositing 100 and registering one address, that address is paid 100 per claim and may claim again, so payouts can exceed the pool |

## Left out

- Storage failures (`StdError` from loading or saving state and the map): storage is treated as always succeeding.
- Contract version metadata (`set_contract_version`), the JSON encoding of query answers, and the entry-point wiring: host framework plumbing.
- `Response` attributes (`method`, `amount`, `owner`, `auction_address`): audit strings with no effect on state or messages. For the same reason the constructor returns no response.
- Execution of the emitted bank send and the ledger's balance check: the send is modelled as returned data only.
- Funds attached to calls other than `add_rewards`: the contract ignores them, and so does the model.
- The test module at the end of `contract.rs`: it refers to a message and a query that the contract no longer has.
