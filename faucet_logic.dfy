/** The faucet's transitions as functions on storage values: the reference
    definition the imperative handlers of `FaucetContract` are proved against,
    and the read-only paths (`release_rewards` and the two queries), which the
    contract computes without writing anything. */
module FaucetLogic {
  import opened FaucetTypes

  /** The result of one handler: its outcome and the storage committed after it. */
  datatype Step = Step(outcome: Outcome, post: Storage)

  /** `instantiate`: the caller becomes the owner, both totals start at zero
      in the accumulation phase, and no address is registered. */
  function Instantiate(sender: string, msg: InstantiateMsg): (st: Storage)
  {
    Storage(State(msg.auctionContract, 0, 0, false, sender), map[])
  }

  /** `add_rewards`: only the first attached coin is looked at; its denom is
      checked before the phase, and there is no check on the sender. */
  function AddRewards(st: Storage, funds: seq<Coin>): (s: Step)
    ensures !s.outcome.Ok? ==> s.post == st
    ensures funds == [] ==> s.outcome == Abort(EmptyFunds)
    ensures funds != [] && funds[0].denom != Denom ==> s.outcome == Err(WrongDenom)
    ensures funds != [] && funds[0].denom == Denom && st.state.allowed ==> s.outcome == Err(Allowed)
    ensures funds != [] && funds[0].denom == Denom && !st.state.allowed
              && st.state.totalRewards + funds[0].amount > MaxUint128
            ==> s.outcome == Abort(Overflow)
    ensures s.outcome.Ok? <==>
              funds != [] && funds[0].denom == Denom && !st.state.allowed
              && st.state.totalRewards + funds[0].amount <= MaxUint128
    ensures s.outcome.Ok? ==>
              && s.outcome.response.messages == []
              && s.post.state.totalRewards == st.state.totalRewards + funds[0].amount
              && s.post.state.(totalRewards := st.state.totalRewards) == st.state
              && s.post.rewards == st.rewards
  {
    if funds == [] then Step(Abort(EmptyFunds), st)
    else if funds[0].denom != Denom then Step(Err(WrongDenom), st)
    else if st.state.allowed then Step(Err(Allowed), st)
    else if st.state.totalRewards + funds[0].amount > MaxUint128 then Step(Abort(Overflow), st)
    else
      var total := st.state.totalRewards + funds[0].amount;
      Step(Ok(Response([])), st.(state := st.state.(totalRewards := total)))
  }

  /** Shared body of `allow_release` and `refuse_release`: an owner-only write
      of the phase flag. */
  function SetAllowed(st: Storage, sender: string, allowed: bool): (s: Step)
    ensures s.outcome.Ok? <==> sender == st.state.owner
    ensures !s.outcome.Ok? ==> s.outcome == Err(Unauthorized) && s.post == st
    ensures s.outcome.Ok? ==>
              && s.outcome.response.messages == []
              && s.post.state.allowed == allowed
              && s.post.state.(allowed := st.state.allowed) == st.state
              && s.post.rewards == st.rewards
  {
    if sender != st.state.owner then Step(Err(Unauthorized), st)
    else Step(Ok(Response([])), st.(state := st.state.(allowed := allowed)))
  }

  /** `allow_release`: the owner opens the distribution phase. */
  function AllowRelease(st: Storage, sender: string): (s: Step)
  {
    SetAllowed(st, sender, true)
  }

  /** `refuse_release`: the owner returns to the accumulation phase. */
  function RefuseRelease(st: Storage, sender: string): (s: Step)
  {
    SetAllowed(st, sender, false)
  }

  /** `register_address`: the sender is checked before the phase; the map key
      is `address`, not the sender, and an address already present is counted again. */
  function RegisterAddress(st: Storage, sender: string, address: string): (s: Step)
    ensures !s.outcome.Ok? ==> s.post == st
    ensures sender != st.state.auctionAddress ==> s.outcome == Err(Unauthorized)
    ensures sender == st.state.auctionAddress && st.state.allowed ==> s.outcome == Err(Allowed)
    ensures sender == st.state.auctionAddress && !st.state.allowed
              && st.state.totalAddresses == MaxUint128
            ==> s.outcome == Abort(Overflow)
    ensures s.outcome.Ok? <==>
              sender == st.state.auctionAddress && !st.state.allowed
              && st.state.totalAddresses < MaxUint128
    ensures s.outcome.Ok? ==>
              && s.outcome.response.messages == []
              && s.post.state.totalAddresses == st.state.totalAddresses + 1
              && s.post.state.(totalAddresses := st.state.totalAddresses) == st.state
              && s.post.rewards.Keys == st.rewards.Keys + {address}
              && s.post.rewards[address]
              && forall a :: a in st.rewards && a != address ==> s.post.rewards[a] == st.rewards[a]
  {
    if sender != st.state.auctionAddress then Step(Err(Unauthorized), st)
    else if st.state.allowed then Step(Err(Allowed), st)
    else if st.state.totalAddresses + 1 > MaxUint128 then Step(Abort(Overflow), st)
    else
      var count := st.state.totalAddresses + 1;
      Step(Ok(Response([])), Storage(st.state.(totalAddresses := count), st.rewards[address := true]))
  }

  /** `release_rewards`: writes nothing; a registered sender in the
      distribution phase is sent the floor of `total_rewards / total_addresses`
      of the faucet denom. Both refusals are `Unauthorized`. */
  function ReleaseRewards(st: Storage, sender: string): (r: Outcome)
    ensures sender !in st.rewards ==> r == Err(Unauthorized)
    ensures sender in st.rewards && !st.state.allowed ==> r == Err(Unauthorized)
    ensures sender in st.rewards && st.state.allowed && st.state.totalAddresses == 0 ==>
              r == Abort(DivideByZero)
    ensures r.Ok? <==> sender in st.rewards && st.state.allowed && st.state.totalAddresses > 0
    ensures r.Ok? ==>
              && |r.response.messages| == 1
              && r.response.messages[0].toAddress == sender
              && |r.response.messages[0].amount| == 1
              && r.response.messages[0].amount[0].denom == Denom
              && var share := r.response.messages[0].amount[0].amount;
                 share * st.state.totalAddresses <= st.state.totalRewards
                 < (share + 1) * st.state.totalAddresses
  {
    if sender !in st.rewards then Err(Unauthorized)
    else if !st.state.allowed then Err(Unauthorized)
    else if st.state.totalAddresses == 0 then Abort(DivideByZero)
    else
      var share := st.state.totalRewards / st.state.totalAddresses;
      Ok(Response([Send(sender, [Coin(Denom, share)])]))
  }

  /** `execute`: dispatch on the message. Whatever the message, the two roles
      never change, the totals never decrease and no address is ever unregistered. */
  function Execute(st: Storage, c: Call): (s: Step)
    ensures c.msg.ReleaseRewards? ==> s.post == st
    ensures s.post.state.owner == st.state.owner
    ensures s.post.state.auctionAddress == st.state.auctionAddress
    ensures s.post.state.totalRewards >= st.state.totalRewards
    ensures s.post.state.totalAddresses >= st.state.totalAddresses
    ensures st.rewards.Keys <= s.post.rewards.Keys
  {
    if c.msg.AddRewards? then AddRewards(st, c.funds)
    else if c.msg.ReleaseRewards? then Step(ReleaseRewards(st, c.sender), st)
    else if c.msg.Register? then RegisterAddress(st, c.sender, c.msg.address)
    else if c.msg.AllowRelease? then AllowRelease(st, c.sender)
    else RefuseRelease(st, c.sender)
  }

  /** The storage after a sequence of execute calls, each applied to the
      storage its predecessor committed. */
  function Run(st: Storage, calls: seq<Call>): (last: Storage)
    decreases |calls|
  {
    if calls == [] then st else Run(Execute(st, calls[0]).post, calls[1..])
  }

  /** `query`: the two public counters, each answered with the response
      type that belongs to its request. */
  function Query(st: Storage, msg: QueryMsg): (r: QueryResponse)
    ensures r.RewardsResponse? <==> msg.GetRewards?
  {
    match msg
    case GetRewards => RewardsResponse(st.state.totalRewards)
    case GetAddresses => AddressesResponse(st.state.totalAddresses)
  }
}
