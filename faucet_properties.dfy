/** Properties of the faucet over one call and over whole sequences of calls. */
module FaucetProperties {
  import opened FaucetTypes
  import L = FaucetLogic

  /** What every reachable storage satisfies: each registration marker is
      `true`, and the counter is at least the number of registered addresses.
      It is not equality: registering an address twice counts it twice
      (see `ReRegistrationOvercounts`). */
  ghost predicate Inv(st: Storage)
  {
    && (forall a :: a in st.rewards ==> st.rewards[a])
    && |st.rewards.Keys| <= st.state.totalAddresses
  }

  lemma InstantiateEstablishesInv(sender: string, msg: InstantiateMsg)
    ensures Inv(L.Instantiate(sender, msg))
    ensures L.Query(L.Instantiate(sender, msg), GetRewards) == RewardsResponse(0)
    ensures L.Query(L.Instantiate(sender, msg), GetAddresses) == AddressesResponse(0)
  {
  }

  /** Adding one key to a set grows it by at most one. */
  lemma {:induction false} AddOneKey(keys: set<string>, k: string)
    ensures |keys + {k}| <= |keys| + 1
  {
    if k in keys {
      assert keys + {k} == keys;
    } else {
      assert |keys + {k}| == |keys| + |{k}|;
    }
  }

  lemma RegisterPreservesInv(st: Storage, sender: string, address: string)
    requires Inv(st)
    ensures Inv(L.RegisterAddress(st, sender, address).post)
  {
    var s := L.RegisterAddress(st, sender, address);
    if s.outcome.Ok? {
      AddOneKey(st.rewards.Keys, address);
      assert s.post.rewards.Keys == st.rewards.Keys + {address};
      forall a | a in s.post.rewards
        ensures s.post.rewards[a]
      {
        if a != address {
          assert a in st.rewards;
        }
      }
    }
  }

  lemma ExecutePreservesInv(st: Storage, c: Call)
    requires Inv(st)
    ensures Inv(L.Execute(st, c).post)
  {
    if c.msg.Register? {
      RegisterPreservesInv(st, c.sender, c.msg.address);
    }
  }

  lemma {:induction false} RunPreservesInv(st: Storage, calls: seq<Call>)
    requires Inv(st)
    ensures Inv(L.Run(st, calls))
    decreases |calls|
  {
    if calls != [] {
      ExecutePreservesInv(st, calls[0]);
      RunPreservesInv(L.Execute(st, calls[0]).post, calls[1..]);
    }
  }

  /** Under the invariant a registered address implies a non-zero counter, so
      the division in `release_rewards` never panics. */
  lemma InvRulesOutDivideByZero(st: Storage, sender: string)
    requires Inv(st)
    ensures L.ReleaseRewards(st, sender) != Abort(DivideByZero)
  {
    if sender in st.rewards {
      assert {sender} <= st.rewards.Keys;
      assert |{sender}| <= |st.rewards.Keys|;
    }
  }

  /** From `instantiate`, no sequence of execute calls leads to a storage in
      which `release_rewards` divides by zero. */
  lemma {:induction false} ReachableNeverDividesByZero(
    owner: string, msg: InstantiateMsg, calls: seq<Call>, claimant: string)
    ensures L.ReleaseRewards(L.Run(L.Instantiate(owner, msg), calls), claimant) != Abort(DivideByZero)
  {
    InstantiateEstablishesInv(owner, msg);
    RunPreservesInv(L.Instantiate(owner, msg), calls);
    InvRulesOutDivideByZero(L.Run(L.Instantiate(owner, msg), calls), claimant);
  }

  /** Multiplying by a fixed factor preserves `<=`. */
  lemma MulMonotone(k: nat, n: nat, q: nat)
    requires k <= n
    ensures k * q <= n * q
  {
  }

  /** At most `n` floor shares of `r` split `n` ways fit in `r`. */
  lemma FloorSharesFit(r: nat, n: nat, k: nat)
    requires 0 < n && k <= n
    ensures k * (r / n) <= r
  {
    MulMonotone(k, n, r / n);
    assert r == n * (r / n) + r % n;
  }

  /** If every registered address claimed exactly once, the payouts would fit
      in the pool: the floor share times the number of registered addresses
      is at most `total_rewards`. */
  lemma OneClaimEachFitsPool(st: Storage)
    requires Inv(st)
    requires st.state.totalAddresses > 0
    ensures |st.rewards.Keys| * (st.state.totalRewards / st.state.totalAddresses)
            <= st.state.totalRewards
  {
    FloorSharesFit(st.state.totalRewards, st.state.totalAddresses, |st.rewards.Keys|);
  }

  /** Across any sequence of calls the roles never change, the totals never
      decrease, and no registration is ever removed. */
  lemma {:induction false} RunMonotone(st: Storage, calls: seq<Call>)
    ensures L.Run(st, calls).state.owner == st.state.owner
    ensures L.Run(st, calls).state.auctionAddress == st.state.auctionAddress
    ensures L.Run(st, calls).state.totalRewards >= st.state.totalRewards
    ensures L.Run(st, calls).state.totalAddresses >= st.state.totalAddresses
    ensures st.rewards.Keys <= L.Run(st, calls).rewards.Keys
    decreases |calls|
  {
    if calls != [] {
      RunMonotone(L.Execute(st, calls[0]).post, calls[1..]);
    }
  }

  /** While the distribution phase is open, no call other than
      `refuse_release` changes storage. */
  lemma ExecuteFrozenWhileAllowed(st: Storage, c: Call)
    requires st.state.allowed
    requires !c.msg.RefuseRelease?
    ensures L.Execute(st, c).post == st
  {
    if c.msg.AllowRelease? && c.sender == st.state.owner {
      assert st.state.(allowed := true) == st.state;
    }
  }

  lemma {:induction false} RunFrozenWhileAllowed(st: Storage, calls: seq<Call>)
    requires st.state.allowed
    requires forall i :: 0 <= i < |calls| ==> !calls[i].msg.RefuseRelease?
    ensures L.Run(st, calls) == st
    decreases |calls|
  {
    if calls != [] {
      ExecuteFrozenWhileAllowed(st, calls[0]);
      assert forall i :: 0 <= i < |calls[1..]| ==> calls[1..][i] == calls[i + 1];
      RunFrozenWhileAllowed(st, calls[1..]);
    }
  }

  /** The two phases exclude each other: deposits and registrations succeed
      only in accumulation, claims only in distribution. */
  lemma PhasesExclusive(st: Storage, sender: string, funds: seq<Coin>, address: string)
    ensures st.state.allowed ==> !L.AddRewards(st, funds).outcome.Ok?
    ensures st.state.allowed ==> !L.RegisterAddress(st, sender, address).outcome.Ok?
    ensures !st.state.allowed ==> !L.ReleaseRewards(st, sender).Ok?
  {
  }

  /** Opening or closing the release twice is the same as doing it once. */
  lemma ReleaseToggleIdempotent(st: Storage, sender: string)
    ensures L.AllowRelease(L.AllowRelease(st, sender).post, sender) == L.AllowRelease(st, sender)
    ensures L.RefuseRelease(L.RefuseRelease(st, sender).post, sender) == L.RefuseRelease(st, sender)
  {
  }

  /** Closing the release right after opening it restores the storage. */
  lemma AllowThenRefuseRestores(st: Storage, sender: string)
    requires !st.state.allowed
    ensures L.RefuseRelease(L.AllowRelease(st, sender).post, sender).post == st
  {
  }

  /** `add_rewards` does not look at the sender: anyone may deposit. */
  lemma AddRewardsIgnoresSender(st: Storage, a: string, b: string, funds: seq<Coin>)
    ensures L.Execute(st, Call(a, funds, ExecuteMsg.AddRewards)) == L.Execute(st, Call(b, funds, ExecuteMsg.AddRewards))
  {
  }

  /** `release_rewards` leaves storage as it was, so a second claim by the same
      sender pays the same share again. */
  lemma ReleaseRepeatable(st: Storage, c: Call)
    requires c.msg.ReleaseRewards?
    ensures L.Execute(L.Execute(st, c).post, c) == L.Execute(st, c)
  {
  }

  /** A successful deposit or registration moves exactly one public counter. */
  lemma QueriesTrackCounters(st: Storage, c: Call)
    requires L.Execute(st, c).outcome.Ok?
    ensures c.msg.AddRewards? ==>
              && L.Query(L.Execute(st, c).post, GetRewards)
                 == RewardsResponse(st.state.totalRewards + c.funds[0].amount)
              && L.Query(L.Execute(st, c).post, GetAddresses) == L.Query(st, GetAddresses)
    ensures c.msg.Register? ==>
              && L.Query(L.Execute(st, c).post, GetAddresses)
                 == AddressesResponse(st.state.totalAddresses + 1)
              && L.Query(L.Execute(st, c).post, GetRewards) == L.Query(st, GetRewards)
  {
  }

  /** Registering the same address twice counts it twice while the map holds
      it once: the counter exceeds the number of registered addresses. */
  lemma ReRegistrationOvercounts()
    ensures var s0 := L.Instantiate("admin", InstantiateMsg("auction"));
            var s1 := L.Execute(s0, Call("auction", [], ExecuteMsg.Register("user1"))).post;
            var s2 := L.Execute(s1, Call("auction", [], ExecuteMsg.Register("user1"))).post;
            s2.state.totalAddresses == 2 && s2.rewards == map["user1" := true]
  {
    var s0 := L.Instantiate("admin", InstantiateMsg("auction"));
    var s1 := L.Execute(s0, Call("auction", [], ExecuteMsg.Register("user1"))).post;
    assert s1.rewards == map["user1" := true];
  }

  /** Deposit 100, register one address, open the release: that address is
      paid the whole pool, and can claim it again, so two claims pay out twice
      what was deposited. */
  lemma RepeatedClaimsOverdraw()
    ensures var s0 := L.Instantiate("admin", InstantiateMsg("A1"));
            var s1 := L.Execute(s0, Call("admin", [Coin(Denom, 100)], ExecuteMsg.AddRewards)).post;
            var s2 := L.Execute(s1, Call("A1", [], ExecuteMsg.Register("user1"))).post;
            var s3 := L.Execute(s2, Call("admin", [], ExecuteMsg.AllowRelease)).post;
            var claim := Call("user1", [], ExecuteMsg.ReleaseRewards);
            && s3.state.totalRewards == 100
            && L.Execute(s3, claim).outcome == Ok(Response([Send("user1", [Coin(Denom, 100)])]))
            && L.Execute(L.Execute(s3, claim).post, claim).outcome == L.Execute(s3, claim).outcome
  {
  }
}
