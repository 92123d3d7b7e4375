/**
 Token records delivered by the launch platform's new-token feed, and the
 screening rule the bot applies to each of them before trading.

 Market cap, volume and wallet percentages are JavaScript numbers in the bot;
 the rule only ever compares them with constants, so they are modelled here as
 exact reals.
 */
module Tokens {

  /** One entry of a token's declared wallet distribution. */
  datatype Wallet = Wallet(percent: real)

  /** A token as returned by the new-token feed. */
  datatype Token = Token(
    name: string,
    marketCap: real,
    volume: real,
    walletDistribution: seq<Wallet>
  )

  /** Exclusive lower and upper bounds on the market cap. */
  const MinMarketCap: real := 10000.0
  const MaxMarketCap: real := 20000.0

  /** Every wallet must hold strictly less than this percentage. */
  const WalletPercentCap: real := 3.0

  /** Volume must be strictly greater than this. */
  const MinVolume: real := 10.0

  /** The market cap lies strictly inside the 10k-20k band. */
  predicate InMarketCapBand(marketCap: real) {
    MinMarketCap < marketCap && marketCap < MaxMarketCap
  }

  /** Left-to-right, short-circuiting check that every wallet is below the cap,
      in the manner of `Array.prototype.every` (true on an empty array). */
  function AllWalletsBelowCap(ws: seq<Wallet>): (b: bool)
    ensures b <==> forall i :: 0 <= i < |ws| ==> ws[i].percent < WalletPercentCap
  {
    if |ws| == 0 then true
    else ws[0].percent < WalletPercentCap && AllWalletsBelowCap(ws[1..])
  }

  /** The volume is strictly above the minimum. */
  predicate HasVolume(volume: real) {
    volume > MinVolume
  }

  /** The screening rule: all three conditions must hold. */
  predicate Eligible(t: Token) {
    && InMarketCapBand(t.marketCap)
    && AllWalletsBelowCap(t.walletDistribution)
    && HasVolume(t.volume)
  }

  /** The rule spelled out in terms of the raw fields: strict market-cap band,
      every wallet strictly below 3 percent, volume strictly above 10. */
  lemma EligibleIff(t: Token)
    ensures Eligible(t) <==>
      && 10000.0 < t.marketCap < 20000.0
      && (forall i :: 0 <= i < |t.walletDistribution| ==> t.walletDistribution[i].percent < 3.0)
      && t.volume > 10.0
  {
  }

  /** Both ends of the market-cap band are excluded. */
  lemma MarketCapBoundsExcluded(t: Token)
    requires t.marketCap == 10000.0 || t.marketCap == 20000.0
    ensures !Eligible(t)
  {
  }

  /** Values just inside the band pass the market-cap condition, so the
      decision rests on the other two conditions alone. */
  lemma MarketCapJustInsidePasses(t: Token)
    requires t.marketCap == 10001.0 || t.marketCap == 19999.0
    ensures Eligible(t) <==> AllWalletsBelowCap(t.walletDistribution) && HasVolume(t.volume)
  {
  }

  /** One wallet at or above 3 percent, including exactly 3, rejects the token. */
  lemma ConcentratedWalletRejects(t: Token, i: int)
    requires 0 <= i < |t.walletDistribution|
    requires t.walletDistribution[i].percent >= 3.0
    ensures !Eligible(t)
  {
  }

  /** An empty wallet distribution passes the wallet condition. */
  lemma EmptyDistributionPasses(t: Token)
    requires t.walletDistribution == []
    ensures Eligible(t) <==> InMarketCapBand(t.marketCap) && HasVolume(t.volume)
  {
  }

  /** A volume of exactly 10, or less, rejects the token. */
  lemma LowVolumeRejects(t: Token)
    requires t.volume <= 10.0
    ensures !Eligible(t)
  {
  }

  /** A token in the middle of the band, with 1 and 2 percent wallets and a
      volume of 50, is eligible. */
  lemma ExampleTokenPasses(name: string)
    ensures Eligible(Token(name, 15000.0, 50.0, [Wallet(1.0), Wallet(2.0)]))
  {
  }
}
