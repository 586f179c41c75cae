/** The shared data types of crates/dl-state: pools, legs and cycles. */
module State {
  import opened Words

  datatype AmmKind = RaydiumAmmV4 | OrcaWhirlpool | MeteoraDlmm

  datatype Pool = Pool(
    address: Pubkey,
    kind: AmmKind,
    baseMint: Pubkey,
    quoteMint: Pubkey,
    baseReserve: u64,
    quoteReserve: u64,
    feeBps: u16,
    lastUpdateSlot: u64)

  datatype Direction = BaseToQuote | QuoteToBase

  datatype Leg = Leg(pool: Pubkey, direction: Direction, weight: i64)

  /** A candidate arbitrage: its legs in order and the sum of their weights. */
  datatype Cycle = Cycle(legs: seq<Leg>, weightSum: int)

  ghost predicate DistinctAddresses(pools: seq<Pool>) {
    forall i, j :: 0 <= i < j < |pools| ==> pools[i].address != pools[j].address
  }
}
