/**
 * The `DatasetBidRegistry` ledger as the tests drive it: an owned contract
 * that records bids per bidder, offers per (offerer, bidder) pair, and
 * settles an offer by paying the value attached to `finalize` to the
 * offerer. Account balances belong to the chain, modelled by `Accounts`.
 */
module Registry {
  import opened Wrappers
  import opened Bytes

  /** An Ethereum account: a 160-bit address. */
  type Address = a: nat | a < 0x1_0000_0000_0000_0000_0000_0000_0000_0000_0000_0000

  /** What `bidinfo` reports for a bid. */
  datatype Bid = Bid(expiryDate: string, claimHash: seq<byte>, amount: nat, tag: string)

  /** An offer recorded against the bid `bidNumber` of its bidder. */
  datatype OfferRecord = OfferRecord(bidNumber: nat, value: nat)

  /** The event `register` emits. */
  datatype BidRegistered = BidRegistered(who: Address, position: nat)

  /** The event `offer` emits, its fields in the order the tests unpack them. */
  datatype OfferPlaced = OfferPlaced(offerer: Address, bidder: Address, bidNumber: nat, offerNumber: nat, value: nat)

  /** A completed `finalize`: who paid whom, for which bid and offer, and how much. */
  datatype Settlement = Settlement(offerer: Address, bidder: Address, bidNumber: nat, offerNumber: nat, value: nat)

  datatype Error =
    | BidNotFound        // `bidinfo` on a position the bidder never registered
    | InsufficientFunds  // the caller cannot attach the value it names

  /** The balance of `a` in a balance table; accounts never seen hold nothing. */
  function BalanceIn(table: map<Address, nat>, a: Address): nat {
    if a in table then table[a] else 0
  }

  /** The balance table after `value` moves from `source` to `target`. */
  function Moved(table: map<Address, nat>, source: Address, target: Address, value: nat): (after: map<Address, nat>)
    requires BalanceIn(table, source) >= value
    ensures source != target ==> BalanceIn(after, source) == BalanceIn(table, source) - value
    ensures source != target ==> BalanceIn(after, target) == BalanceIn(table, target) + value
    ensures forall a :: a != source && a != target ==> BalanceIn(after, a) == BalanceIn(table, a)
    ensures source == target ==> forall a :: BalanceIn(after, a) == BalanceIn(table, a)
  {
    var debited := table[source := BalanceIn(table, source) - value];
    debited[target := BalanceIn(debited, target) + value]
  }

  /** The chain's account balances. */
  class Accounts {
    var balances: map<Address, nat>

    constructor (initial: map<Address, nat>)
      ensures balances == initial
    {
      balances := initial;
    }

    /** `account.balance()`. */
    function Balance(a: Address): nat
      reads this
    {
      BalanceIn(balances, a)
    }

    /** A value transfer; it fails, changing nothing, when the source cannot cover it. */
    method Transfer(source: Address, target: Address, value: nat) returns (ok: bool)
      modifies this
      ensures ok <==> old(Balance(source)) >= value
      ensures balances == if ok then Moved(old(balances), source, target, value) else old(balances)
    {
      ok := Balance(source) >= value;
      if ok {
        balances := Moved(balances, source, target, value);
      }
    }
  }

  class DatasetBidRegistry {
    /** The deploying account (the contract is Ownable). */
    const owner: Address
    var bids: map<Address, seq<Bid>>
    var offers: map<(Address, Address), seq<OfferRecord>>
    var settlements: seq<Settlement>

    /** Deployment by `deployer`. */
    constructor (deployer: Address)
      ensures owner == deployer
      ensures bids == map[] && offers == map[] && settlements == []
    {
      owner := deployer;
      bids := map[];
      offers := map[];
      settlements := [];
    }

    /** The bids of `who`, in registration order. */
    function BidsOf(who: Address): seq<Bid>
      reads this
    {
      if who in bids then bids[who] else []
    }

    /** The offers `offerer` made to `bidder`, in order. */
    function OffersOf(offerer: Address, bidder: Address): seq<OfferRecord>
      reads this
    {
      if (offerer, bidder) in offers then offers[(offerer, bidder)] else []
    }

    /** `bidinfo(who, position)`: the stored bid, or BidNotFound. */
    function BidInfo(who: Address, position: nat): (r: Result<Bid, Error>)
      reads this
      ensures r.Ok? <==> position < |BidsOf(who)|
      ensures r.Ok? ==> r.value == BidsOf(who)[position]
      ensures r.Err? ==> r.error == BidNotFound
    {
      if position < |BidsOf(who)| then Ok(BidsOf(who)[position]) else Err(BidNotFound)
    }

    /** `register`: a new bid of `caller` at the next free position; bidinfo then reports it unchanged. */
    method Register(expiryDate: string, claimHash: seq<byte>, amount: nat, tag: string, caller: Address)
      returns (event: BidRegistered)
      modifies this
      ensures event == BidRegistered(caller, |old(BidsOf(caller))|)
      ensures bids == old(bids)[caller := old(BidsOf(caller)) + [Bid(expiryDate, claimHash, amount, tag)]]
      ensures offers == old(offers) && settlements == old(settlements)
      ensures BidInfo(event.who, event.position) == Ok(Bid(expiryDate, claimHash, amount, tag))
      ensures forall who, i :: old(BidInfo(who, i)).Ok? ==> BidInfo(who, i) == old(BidInfo(who, i))
    {
      var mine := BidsOf(caller);
      event := BidRegistered(caller, |mine|);
      bids := bids[caller := mine + [Bid(expiryDate, claimHash, amount, tag)]];
    }

    /** `offer`: records the offer and reports offerer, bidder, bid and value unchanged. */
    method Offer(offerer: Address, bidder: Address, bidNumber: nat, value: nat) returns (event: OfferPlaced)
      modifies this
      ensures event == OfferPlaced(offerer, bidder, bidNumber, |old(OffersOf(offerer, bidder))|, value)
      ensures offers == old(offers)[(offerer, bidder) := old(OffersOf(offerer, bidder)) + [OfferRecord(bidNumber, value)]]
      ensures bids == old(bids) && settlements == old(settlements)
    {
      var made := OffersOf(offerer, bidder);
      event := OfferPlaced(offerer, bidder, bidNumber, |made|, value);
      offers := offers[(offerer, bidder) := made + [OfferRecord(bidNumber, value)]];
    }

    /**
     * `finalize(offerer, bidNumber, offerNumber)` sent by `caller` with `amount`
     * attached: the amount goes to the offerer and the settlement is recorded.
     * It fails, changing nothing, when the caller cannot pay the amount.
     */
    method Finalize(offerer: Address, bidNumber: nat, offerNumber: nat, caller: Address, amount: nat, chain: Accounts)
      returns (r: Result<Settlement, Error>)
      modifies this, chain
      ensures r.Ok? <==> old(chain.Balance(caller)) >= amount
      ensures r.Ok? ==> r.value == Settlement(offerer, caller, bidNumber, offerNumber, amount)
      ensures r.Ok? ==> chain.balances == Moved(old(chain.balances), caller, offerer, amount)
      ensures r.Ok? ==> settlements == old(settlements) + [r.value]
      ensures r.Ok? && caller != offerer ==> chain.Balance(offerer) == old(chain.Balance(offerer)) + amount
      ensures r.Err? ==> r.error == InsufficientFunds
      ensures r.Err? ==> chain.balances == old(chain.balances) && settlements == old(settlements)
      ensures bids == old(bids) && offers == old(offers)
    {
      var paid := chain.Transfer(caller, offerer, amount);
      if paid {
        var s := Settlement(offerer, caller, bidNumber, offerNumber, amount);
        settlements := settlements + [s];
        r := Ok(s);
      } else {
        r := Err(InsufficientFunds);
      }
    }
  }
}
