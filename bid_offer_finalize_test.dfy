/**
 * The module's ordered tests against one deployed registry: ownership,
 * register then bidinfo, offer, and finalize with 1005 attached.
 */
module BidOfferFinalizeTest {
  import opened Wrappers
  import opened Registry
  import Claim

  /**
   * Deploys from `accounts[0]`, registers a bid of `accounts[1]` over the
   * signed claim of `specFile` expiring at `timestamp`, has `accounts[2]`
   * offer 1005 on it, and lets `accounts[1]` finalize with 1005 attached.
   * The ensures are the tests' assertions.
   */
  method OrderedTests(accounts: seq<Address>, initial: map<Address, nat>, p: Claim.Primitives,
                      specFile: string, timestamp: string)
    returns (owner: Address, registered: BidRegistered, info: Result<Bid, Error>,
             placed: OfferPlaced, before: nat, after: nat)
    requires |accounts| >= 3 && accounts[1] != accounts[2]
    requires BalanceIn(initial, accounts[1]) >= 1005
    ensures owner == accounts[0]
    ensures registered == BidRegistered(accounts[1], 0)
    ensures info.Ok? && info.value.expiryDate == timestamp && info.value.amount == 1000
    ensures placed.offerer == accounts[2] && placed.bidder == accounts[1] && placed.value == 1005
    ensures after == before + 1005
  {
    var chain := new Accounts(initial);
    var registry := new DatasetBidRegistry(accounts[0]);
    // test_ownership
    owner := registry.owner;
    // test_register
    var claimHash := Claim.CreateSignedClaimHash(p, specFile);
    registered := registry.Register(timestamp, claimHash, 1000, "SNOMED_ID:394732004", accounts[1]);
    info := registry.BidInfo(registered.who, registered.position);
    // test_offer
    placed := registry.Offer(accounts[2], accounts[1], 0, 1005);
    // test_finalize
    before := chain.Balance(accounts[2]);
    var settled := registry.Finalize(accounts[2], 0, 0, accounts[1], 1005, chain);
    after := chain.Balance(accounts[2]);
  }
}
