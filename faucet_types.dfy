/** Values of the faucet contract: the persisted `State` record, the `rewards`
    registration map, the contract's error kinds, the runtime aborts (Rust
    panics), and the inbound and outbound messages. */
module FaucetTypes {

  /** Largest value of CosmWasm's `Uint128`, 2^128 - 1. */
  const MaxUint128: nat := 0xffff_ffff_ffff_ffff_ffff_ffff_ffff_ffff

  /** `Uint128`: an unsigned 128-bit amount; arithmetic that leaves this range panics. */
  type Uint128 = n: nat | n <= MaxUint128

  /** The only denomination the faucet accepts and pays out. */
  const Denom: string := "cgas"

  datatype Coin = Coin(denom: string, amount: Uint128)

  /** The singleton record stored under the key "state". */
  datatype State = State(
    auctionAddress: string,
    totalRewards: Uint128,
    totalAddresses: Uint128,
    allowed: bool,
    owner: string)

  /** Everything the contract persists: the record and the "rewards" map
      from address to presence marker. */
  datatype Storage = Storage(state: State, rewards: map<string, bool>)

  /** The recoverable errors a handler returns (storage errors are not modelled). */
  datatype ContractError = Unauthorized | WrongDenom | Allowed

  /** The panics that abort a call: `unwrap` of the first coin of empty funds,
      `checked_div(..).unwrap()` by zero, and `Uint128` addition overflow. */
  datatype Panic = EmptyFunds | DivideByZero | Overflow

  /** The one kind of outbound instruction the contract emits. */
  datatype BankMsg = Send(toAddress: string, amount: seq<Coin>)

  datatype Response = Response(messages: seq<BankMsg>)

  /** What one call ends in: success with its response, an error, or an abort.
      Only `Ok` commits storage changes. */
  datatype Outcome = Ok(response: Response) | Err(error: ContractError) | Abort(panic: Panic)

  datatype InstantiateMsg = InstantiateMsg(auctionContract: string)

  datatype ExecuteMsg =
    | AddRewards
    | ReleaseRewards
    | Register(address: string)
    | AllowRelease
    | RefuseRelease

  datatype QueryMsg = GetRewards | GetAddresses

  datatype QueryResponse =
    | RewardsResponse(totalRewards: Uint128)
    | AddressesResponse(totalAddresses: Uint128)

  /** One execute call as the host delivers it: verified sender, attached funds, message. */
  datatype Call = Call(sender: string, funds: seq<Coin>, msg: ExecuteMsg)
}
