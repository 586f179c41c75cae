/** The paper-trading wallet of crates/dl-paper/src/lib.rs. */
module PaperWallet {
  import opened Words

  datatype Side = BaseToQuote | QuoteToBase

  datatype TradeFill = TradeFill(
    pair: string, side: Side, input: u64, output: u64, profit: i64, tip: u64, cycleHashHex: string)

  datatype Trade = Trade(
    id: nat, timestamp: int, pair: string, side: Side, input: u64, output: u64,
    profit: i64, tip: u64, balanceAfter: u64, cycleHashHex: string)

  datatype PaperError = InsufficientFunds(needed: u64, available: u64)

  datatype WalletStats = WalletStats(
    currentBalance: u64, startingBalance: u64, totalTrades: nat, wins: nat, losses: nat,
    totalPnl: i64, maxDrawdown: u64, peakBalance: u64)

  function UnsignedAbs(x: i64): (r: u64)
    ensures r == x || r == -(x as int)
  {
    if x < 0 then 0 - x as int else x
  }

  /** A balance after a profit or a loss, saturating at both ends of the word. */
  function Credit(balance: u64, profit: i64): u64 {
    if profit >= 0 then SaturatingAddU64(balance, profit) else SaturatingSubU64(balance, UnsignedAbs(profit))
  }

  /** The balance after the first `n` trades. */
  function Balance(start: u64, trades: seq<Trade>, n: nat): u64
    requires n <= |trades|
  {
    if n == 0 then start else Credit(Balance(start, trades, n - 1), trades[n - 1].profit)
  }

  /** The same without saturation. */
  function Exact(start: u64, trades: seq<Trade>, n: nat): int
    requires n <= |trades|
  {
    if n == 0 then start else Exact(start, trades, n - 1) + trades[n - 1].profit
  }

  /** The profits of the first `n` trades, added up with saturation. */
  function TotalPnl(trades: seq<Trade>, n: nat): i64
    requires n <= |trades|
  {
    if n == 0 then 0 else SaturatingAddI64(TotalPnl(trades, n - 1), trades[n - 1].profit)
  }

  function Wins(trades: seq<Trade>, n: nat): nat
    requires n <= |trades|
  {
    if n == 0 then 0 else Wins(trades, n - 1) + if trades[n - 1].profit > 0 then 1 else 0
  }

  function Losses(trades: seq<Trade>, n: nat): nat
    requires n <= |trades|
  {
    if n == 0 then 0 else Losses(trades, n - 1) + if trades[n - 1].profit < 0 then 1 else 0
  }

  lemma {:induction false} BalanceOfPrefix(start: u64, trades: seq<Trade>, t: Trade, n: nat)
    requires n <= |trades|
    ensures Balance(start, trades + [t], n) == Balance(start, trades, n)
  {
    if n > 0 { BalanceOfPrefix(start, trades, t, n - 1); }
  }

  /** The starting balance and the balance after each trade. */
  ghost function Balances(start: u64, trades: seq<Trade>): (bs: seq<u64>)
    ensures |bs| == |trades| + 1 && forall i :: 0 <= i < |bs| ==> bs[i] == Balance(start, trades, i)
  {
    seq(|trades| + 1, i requires 0 <= i <= |trades| => Balance(start, trades, i))
  }

  /** `peak` is the largest of the first `n` balances. */
  ghost predicate IsPeak(bs: seq<u64>, n: nat, peak: u64)
    requires n <= |bs|
  {
    && (exists i :: 0 <= i < n && bs[i] == peak)
    && (forall i :: 0 <= i < n ==> bs[i] <= peak)
  }

  /** `dd` is the largest fall from one of the first `n` balances to a later one. */
  ghost predicate IsMaxDrawdown(bs: seq<u64>, n: nat, dd: u64)
    requires n <= |bs|
  {
    && (exists i, j :: 0 <= i <= j < n && bs[i] == bs[j] + dd)
    && (forall i, j :: 0 <= i <= j < n ==> bs[i] <= bs[j] + dd)
  }

  datatype Curve = Curve(running: u64, peak: u64, maxDrawdown: u64)

  function Advance(c: Curve, running: u64): Curve {
    var peak := if running > c.peak then running else c.peak;
    var fall := SaturatingSubU64(peak, running);
    Curve(running, peak, if fall > c.maxDrawdown then fall else c.maxDrawdown)
  }

  function CurveOf(bs: seq<u64>, n: nat): Curve
    requires 1 <= n <= |bs|
  {
    if n == 1 then Curve(bs[0], bs[0], 0) else Advance(CurveOf(bs, n - 1), bs[n - 1])
  }

  /** `c` holds the last, the peak and the largest drawdown of the first `n` balances. */
  ghost predicate Describes(c: Curve, bs: seq<u64>, n: nat)
    requires 1 <= n <= |bs|
  {
    c.running == bs[n - 1] && IsPeak(bs, n, c.peak) && IsMaxDrawdown(bs, n, c.maxDrawdown)
  }

  lemma PeakStep(bs: seq<u64>, n: nat, peak: u64)
    requires n < |bs| && IsPeak(bs, n, peak)
    ensures IsPeak(bs, n + 1, if bs[n] > peak then bs[n] else peak)
  {
    var i :| 0 <= i < n && bs[i] == peak;
    assert bs[n] <= bs[n];
  }

  /** A new balance can only extend the drawdown from the peak so far. */
  lemma DrawdownStep(bs: seq<u64>, n: nat, peak: u64, dd: u64)
    requires n < |bs| && IsPeak(bs, n, peak) && IsMaxDrawdown(bs, n, dd)
    ensures IsMaxDrawdown(bs, n + 1, if bs[n] <= peak && peak - bs[n] > dd then peak - bs[n] else dd)
  {
    var i :| 0 <= i < n && bs[i] == peak;
    if bs[n] <= peak && peak - bs[n] > dd { assert bs[i] == bs[n] + (peak - bs[n]); }
  }

  lemma AdvanceDescribes(c: Curve, bs: seq<u64>, n: nat)
    requires 1 <= n < |bs| && Describes(c, bs, n)
    ensures Describes(Advance(c, bs[n]), bs, n + 1)
  {
    PeakStep(bs, n, c.peak);
    DrawdownStep(bs, n, c.peak, c.maxDrawdown);
  }

  /** One pass finds the peak and the largest drawdown over all pairs of balances. */
  lemma {:induction false} CurveIsExact(bs: seq<u64>, n: nat)
    requires 1 <= n <= |bs|
    ensures Describes(CurveOf(bs, n), bs, n)
  {
    if n == 1 {
      assert bs[0] == bs[0] + 0;
    } else {
      CurveIsExact(bs, n - 1);
      AdvanceDescribes(CurveOf(bs, n - 1), bs, n - 1);
    }
  }

  /** What one pass over the first `n` trades gathers. */
  function Replay(start: u64, trades: seq<Trade>, n: nat): Curve
    requires n <= |trades|
  {
    if n == 0 then Curve(start, start, 0)
    else
      var c := Replay(start, trades, n - 1);
      Advance(c, Credit(c.running, trades[n - 1].profit))
  }

  lemma {:induction false} ReplayIsCurve(start: u64, trades: seq<Trade>, n: nat)
    requires n <= |trades|
    ensures Replay(start, trades, n).running == Balance(start, trades, n)
    ensures Replay(start, trades, n) == CurveOf(Balances(start, trades), n + 1)
  {
    if n > 0 { ReplayIsCurve(start, trades, n - 1); }
  }

  /** The replay ends at the current balance, with the peak and the largest drawdown of the whole history. */
  lemma ReplayIsExact(start: u64, trades: seq<Trade>)
    ensures Replay(start, trades, |trades|).running == Balance(start, trades, |trades|)
    ensures Describes(Replay(start, trades, |trades|), Balances(start, trades), |trades| + 1)
  {
    ReplayIsCurve(start, trades, |trades|);
    CurveIsExact(Balances(start, trades), |trades| + 1);
  }

  /** Each of the first `n` trades carries its index and the balance it left, and no loss exceeded the balance
      before it. */
  ghost predicate Booked(start: u64, trades: seq<Trade>, n: nat)
    requires n <= |trades|
  {
    n == 0 || (Booked(start, trades, n - 1) && BookedAt(start, trades, n - 1))
  }

  ghost predicate BookedAt(start: u64, trades: seq<Trade>, k: nat)
    requires k < |trades|
  {
    && trades[k].id == k
    && trades[k].balanceAfter == Balance(start, trades, k + 1)
    && (trades[k].profit < 0 ==> UnsignedAbs(trades[k].profit) <= Balance(start, trades, k))
  }

  lemma {:induction false} BookedEach(start: u64, trades: seq<Trade>, n: nat, k: nat)
    requires k < n <= |trades| && Booked(start, trades, n)
    ensures BookedAt(start, trades, k)
  {
    if k < n - 1 { BookedEach(start, trades, n - 1, k); }
  }

  lemma {:induction false} BookedPrefix(start: u64, trades: seq<Trade>, t: Trade, n: nat)
    requires n <= |trades| && Booked(start, trades, n)
    ensures Booked(start, trades + [t], n)
  {
    if n > 0 {
      BookedPrefix(start, trades, t, n - 1);
      BalanceOfPrefix(start, trades, t, n - 1);
      BalanceOfPrefix(start, trades, t, n);
      assert (trades + [t])[n - 1] == trades[n - 1];
    }
  }

  lemma BookOne(start: u64, trades: seq<Trade>, t: Trade)
    requires Booked(start, trades, |trades|) && t.id == |trades|
    requires t.balanceAfter == Credit(Balance(start, trades, |trades|), t.profit)
    requires t.profit < 0 ==> UnsignedAbs(t.profit) <= Balance(start, trades, |trades|)
    ensures Booked(start, trades + [t], |trades| + 1)
    ensures Balance(start, trades + [t], |trades| + 1) == t.balanceAfter
  {
    BookedPrefix(start, trades, t, |trades|);
    BalanceOfPrefix(start, trades, t, |trades|);
    assert (trades + [t])[|trades|] == t;
  }

  class Wallet {
    var balance: u64
    const startingBalance: u64
    var trades: seq<Trade>
    var updatedAt: int

    ghost predicate Valid()
      reads this
    {
      balance == Balance(startingBalance, trades, |trades|) && Booked(startingBalance, trades, |trades|)
    }

    constructor (start: u64, now: int)
      ensures Valid() && trades == [] && balance == startingBalance == start && updatedAt == now
    {
      balance, startingBalance, trades, updatedAt := start, start, [], now;
    }

    /** Books a fill, unless its loss exceeds the balance. */
    method Execute(fill: TradeFill, now: int) returns (r: Result<nat, PaperError>)
      requires Valid()
      modifies this
      ensures Valid()
      ensures r.Err? <==> old(balance) + fill.profit < 0
      ensures r.Err? ==> r.error == InsufficientFunds(UnsignedAbs(fill.profit), balance)
      ensures r.Err? ==> trades == old(trades) && balance == old(balance) && updatedAt == old(updatedAt)
      ensures r.Ok? ==> balance == if old(balance) + fill.profit > U64_MAX then U64_MAX else old(balance) + fill.profit
      ensures r.Ok? ==> r.value == |old(trades)| && updatedAt == now
      ensures r.Ok? ==> |trades| == |old(trades)| + 1 && trades[..|old(trades)|] == old(trades)
      ensures r.Ok? ==> var t := trades[|trades| - 1];
        && t.id == r.value && t.timestamp == now && t.balanceAfter == balance
        && t.pair == fill.pair && t.side == fill.side && t.input == fill.input && t.output == fill.output
        && t.profit == fill.profit && t.tip == fill.tip && t.cycleHashHex == fill.cycleHashHex
    {
      if fill.profit < 0 && UnsignedAbs(fill.profit) > balance {
        return Err(InsufficientFunds(UnsignedAbs(fill.profit), balance));
      }
      var id := |trades|;
      var balanceAfter := Credit(balance, fill.profit);
      var trade := TradeOf(fill, id, now, balanceAfter);
      BookOne(startingBalance, trades, trade);
      trades := trades + [trade];
      balance := balanceAfter;
      updatedAt := now;
      return Ok(id);
    }

    /** Statistics in one pass over the trades, which also replays the balance. */
    method Stats() returns (s: WalletStats)
      ensures s.currentBalance == balance && s.startingBalance == startingBalance && s.totalTrades == |trades|
      ensures s.wins == Wins(trades, |trades|) && s.losses == Losses(trades, |trades|)
      ensures s.totalPnl == TotalPnl(trades, |trades|)
      ensures Describes(Curve(Balance(startingBalance, trades, |trades|), s.peakBalance, s.maxDrawdown),
        Balances(startingBalance, trades), |trades| + 1)
    {
      var wins, losses := 0, 0;
      var totalPnl: i64 := 0;
      var peak := startingBalance;
      var maxDd: u64 := 0;
      var running := startingBalance;
      for k := 0 to |trades|
        invariant wins == Wins(trades, k) && losses == Losses(trades, k) && totalPnl == TotalPnl(trades, k)
        invariant Curve(running, peak, maxDd) == Replay(startingBalance, trades, k)
      {
        var t := trades[k];
        if t.profit > 0 { wins := wins + 1; } else if t.profit < 0 { losses := losses + 1; }
        totalPnl := SaturatingAddI64(totalPnl, t.profit);
        running := Credit(running, t.profit);
        if running > peak { peak := running; }
        var dd := SaturatingSubU64(peak, running);
        if dd > maxDd { maxDd := dd; }
      }
      ReplayIsExact(startingBalance, trades);
      return WalletStats(balance, startingBalance, |trades|, wins, losses, totalPnl, maxDd, peak);
    }
  }

  function TradeOf(fill: TradeFill, id: nat, now: int, balanceAfter: u64): Trade {
    Trade(id, now, fill.pair, fill.side, fill.input, fill.output,
          fill.profit, fill.tip, balanceAfter, fill.cycleHashHex)
  }

  ghost function Won(trades: seq<Trade>, n: nat): set<nat>
    requires n <= |trades|
  {
    set i: nat | i < n && trades[i].profit > 0
  }

  ghost function Lost(trades: seq<Trade>, n: nat): set<nat>
    requires n <= |trades|
  {
    set i: nat | i < n && trades[i].profit < 0
  }

  /** Wins are as many as trades with a profit above zero, ... */
  lemma {:induction false} WinsCount(trades: seq<Trade>, n: nat)
    requires n <= |trades|
    ensures Wins(trades, n) == |Won(trades, n)|
  {
    if n == 0 {
      assert Won(trades, n) == {};
    } else {
      WinsCount(trades, n - 1);
      var was := Won(trades, n - 1);
      assert Won(trades, n) == if trades[n - 1].profit > 0 then was + {n - 1} else was;
    }
  }

  /** ... and losses as trades with one below. */
  lemma {:induction false} LossesCount(trades: seq<Trade>, n: nat)
    requires n <= |trades|
    ensures Losses(trades, n) == |Lost(trades, n)|
  {
    if n == 0 {
      assert Lost(trades, n) == {};
    } else {
      LossesCount(trades, n - 1);
      var was := Lost(trades, n - 1);
      assert Lost(trades, n) == if trades[n - 1].profit < 0 then was + {n - 1} else was;
    }
  }

  // ----- what the replay means

  lemma ExactStep(start: u64, trades: seq<Trade>, k: nat)
    requires k < |trades|
    ensures Balance(start, trades, k + 1) == Credit(Balance(start, trades, k), trades[k].profit)
    ensures Exact(start, trades, k + 1) == Exact(start, trades, k) + trades[k].profit
  {
  }

  lemma {:induction false} BalanceAtMostExact(start: u64, trades: seq<Trade>, n: nat)
    requires n <= |trades| && Booked(start, trades, n)
    ensures Balance(start, trades, n) <= Exact(start, trades, n)
  {
    if n > 0 {
      BalanceAtMostExact(start, trades, n - 1);
      CreditFollows(start, trades, n - 1);
    }
  }

  /** A booked trade adds its profit to the balance, short of u64::MAX. */
  lemma CreditFollows(start: u64, trades: seq<Trade>, k: nat)
    requires k < |trades| && BookedAt(start, trades, k)
    ensures var exact := Balance(start, trades, k) + trades[k].profit;
      Balance(start, trades, k + 1) == if exact > U64_MAX then U64_MAX else exact
    ensures Exact(start, trades, k + 1) == Exact(start, trades, k) + trades[k].profit
  {
    ExactStep(start, trades, k);
  }

  ghost predicate NeverSaturates(start: u64, trades: seq<Trade>, n: nat)
    requires n <= |trades|
  {
    forall k :: 0 <= k <= n ==> Exact(start, trades, k) <= U64_MAX
  }

  /** The balance is the starting balance plus all profits exactly when that sum never passed u64::MAX on the
      way: a credit that saturates is lost for good. */
  lemma {:induction false} BalanceIsExactIff(start: u64, trades: seq<Trade>, n: nat)
    requires n <= |trades| && Booked(start, trades, n)
    ensures Balance(start, trades, n) == Exact(start, trades, n) <==> NeverSaturates(start, trades, n)
  {
    if n > 0 {
      BalanceIsExactIff(start, trades, n - 1);
      BalanceAtMostExact(start, trades, n - 1);
      CreditFollows(start, trades, n - 1);
      NeverSaturatesOneMore(start, trades, n - 1);
    }
  }

  lemma NeverSaturatesOneMore(start: u64, trades: seq<Trade>, n: nat)
    requires n < |trades|
    ensures NeverSaturates(start, trades, n + 1) <==>
      NeverSaturates(start, trades, n) && Exact(start, trades, n + 1) <= U64_MAX
  {
  }

  lemma {:induction false} PnlIsExact(start: u64, trades: seq<Trade>, n: nat)
    requires n <= |trades| && forall k :: 0 <= k <= n ==> I64_MIN <= Exact(start, trades, k) - start <= I64_MAX
    ensures TotalPnl(trades, n) == Exact(start, trades, n) - start
  {
    if n > 0 { PnlIsExact(start, trades, n - 1); }
  }

  /** Without saturation of either word, balance equals starting balance plus total PnL. */
  lemma BalanceIsStartPlusPnl(start: u64, trades: seq<Trade>)
    requires Booked(start, trades, |trades|)
    requires forall k :: 0 <= k <= |trades| ==>
      Exact(start, trades, k) <= U64_MAX && I64_MIN <= Exact(start, trades, k) - start <= I64_MAX
    ensures Balance(start, trades, |trades|) == start + TotalPnl(trades, |trades|)
  {
    BalanceIsExactIff(start, trades, |trades|);
    PnlIsExact(start, trades, |trades|);
  }
}
