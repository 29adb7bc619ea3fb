/** The contract as the host drives it: one object whose two fields are the
    persisted record and the registration map. The handlers that write storage
    update these fields in place; each is proved to commit exactly what the
    matching function of `FaucetLogic` describes. */
module FaucetContract {
  import opened FaucetTypes
  import L = FaucetLogic

  class Faucet {
    var state: State
    var rewards: map<string, bool>

    /** The storage as a value, for the specification functions. */
    function Snapshot(): Storage
      reads this
    {
      Storage(state, rewards)
    }

    /** `instantiate`. */
    constructor Instantiate(sender: string, msg: InstantiateMsg)
      ensures state.owner == sender && state.auctionAddress == msg.auctionContract
      ensures state.totalAddresses == 0 && state.totalRewards == 0 && !state.allowed
      ensures rewards == map[]
      ensures Snapshot() == L.Instantiate(sender, msg)
    {
      state := State(msg.auctionContract, 0, 0, false, sender);
      rewards := map[];
    }

    /** `add_rewards`. */
    method AddRewards(funds: seq<Coin>) returns (r: Outcome)
      modifies this
      ensures L.Step(r, Snapshot()) == L.AddRewards(old(Snapshot()), funds)
      ensures !r.Ok? ==> state == old(state) && rewards == old(rewards)
      ensures r.Ok? ==> state.totalRewards == old(state.totalRewards) + funds[0].amount
      ensures r.Ok? ==> state.(totalRewards := old(state.totalRewards)) == old(state)
      ensures rewards == old(rewards)
    {
      if funds == [] {
        return Abort(EmptyFunds);
      }
      if funds[0].denom != Denom {
        return Err(WrongDenom);
      }
      if state.allowed {
        return Err(Allowed);
      }
      var amount := funds[0].amount;
      if state.totalRewards + amount > MaxUint128 {
        return Abort(Overflow);
      }
      state := state.(totalRewards := state.totalRewards + amount);
      r := Ok(Response([]));
    }

    /** `allow_release`. */
    method AllowRelease(sender: string) returns (r: Outcome)
      modifies this
      ensures L.Step(r, Snapshot()) == L.AllowRelease(old(Snapshot()), sender)
      ensures r.Ok? <==> sender == old(state.owner)
      ensures r.Ok? ==> state == old(state).(allowed := true)
      ensures !r.Ok? ==> r == Err(Unauthorized) && state == old(state)
      ensures rewards == old(rewards)
    {
      if sender != state.owner {
        return Err(Unauthorized);
      }
      state := state.(allowed := true);
      r := Ok(Response([]));
    }

    /** `refuse_release`. */
    method RefuseRelease(sender: string) returns (r: Outcome)
      modifies this
      ensures L.Step(r, Snapshot()) == L.RefuseRelease(old(Snapshot()), sender)
      ensures r.Ok? <==> sender == old(state.owner)
      ensures r.Ok? ==> state == old(state).(allowed := false)
      ensures !r.Ok? ==> r == Err(Unauthorized) && state == old(state)
      ensures rewards == old(rewards)
    {
      if sender != state.owner {
        return Err(Unauthorized);
      }
      state := state.(allowed := false);
      r := Ok(Response([]));
    }

    /** `register_address`. */
    method RegisterAddress(sender: string, address: string) returns (r: Outcome)
      modifies this
      ensures L.Step(r, Snapshot()) == L.RegisterAddress(old(Snapshot()), sender, address)
      ensures !r.Ok? ==> state == old(state) && rewards == old(rewards)
      ensures r.Ok? ==> state == old(state).(totalAddresses := old(state.totalAddresses) + 1)
      ensures r.Ok? ==> rewards == old(rewards)[address := true]
    {
      if sender != state.auctionAddress {
        return Err(Unauthorized);
      }
      if state.allowed {
        return Err(Allowed);
      }
      if state.totalAddresses + 1 > MaxUint128 {
        return Abort(Overflow);
      }
      state := state.(totalAddresses := state.totalAddresses + 1);
      rewards := rewards[address := true];
      r := Ok(Response([]));
    }

    /** `execute`: dispatch one call to its handler; `release_rewards` only reads. */
    method Execute(c: Call) returns (r: Outcome)
      modifies this
      ensures L.Step(r, Snapshot()) == L.Execute(old(Snapshot()), c)
    {
      if c.msg.AddRewards? {
        r := AddRewards(c.funds);
      } else if c.msg.ReleaseRewards? {
        r := L.ReleaseRewards(Snapshot(), c.sender);
      } else if c.msg.Register? {
        r := RegisterAddress(c.sender, c.msg.address);
      } else if c.msg.AllowRelease? {
        r := AllowRelease(c.sender);
      } else {
        r := RefuseRelease(c.sender);
      }
    }
  }

  /** The life of one faucet: deposit 100 cgas, register one address, open the
      release, and pay that address the whole pool. */
  method DepositRegisterRelease()
  {
    var f := new Faucet.Instantiate("admin", InstantiateMsg("A1"));
    var r := f.AddRewards([Coin(Denom, 100)]);
    assert r.Ok? && f.state.totalRewards == 100;
    r := f.RegisterAddress("A1", "user1");
    assert r.Ok? && f.state.totalAddresses == 1;
    r := f.AllowRelease("admin");
    assert r.Ok? && f.state.allowed;
    r := f.Execute(Call("user1", [], ExecuteMsg.ReleaseRewards));
    assert r == Ok(Response([Send("user1", [Coin(Denom, 100)])]));
    r := f.Execute(Call("admin", [Coin(Denom, 5)], ExecuteMsg.AddRewards));
    assert r == Err(Allowed) && f.state.totalRewards == 100;
  }
}
