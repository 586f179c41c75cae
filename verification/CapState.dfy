/** The daily spending cap of crates/dl-signer/src/cap.rs. The current UTC date is a parameter. */
module CapState {
  import opened Words

  datatype CapError =
    | DailyExceeded(attempted: u64, remaining: u64)
    | PerBundleExceeded(attempted: u64, limit: u64)

  datatype CapConfig = CapConfig(daily: u64, perBundle: u64)

  class CapState {
    var spentToday: u64
    var lastReset: int
    const cfg: CapConfig

    ghost predicate Valid()
      reads this
    {
      spentToday <= cfg.daily
    }

    constructor (config: CapConfig, today: int)
      ensures Valid() && spentToday == 0 && lastReset == today && cfg == config
    {
      spentToday, lastReset, cfg := 0, today, config;
    }

    /** Spends `lamports` if both caps allow it, after forgetting what another day spent. A refusal still
        performs that reset. */
    method TryCharge(lamports: u64, today: int) returns (r: Result<(), CapError>)
      requires Valid()
      modifies this
      ensures Valid() && lastReset == today
      ensures var spent := if today == old(lastReset) then old(spentToday) else 0;
        && (r.Ok? <==> lamports <= cfg.perBundle && spent + lamports <= cfg.daily)
        && spentToday == (if r.Ok? then spent + lamports else spent)
        && (r.Err? ==> r.error == if lamports > cfg.perBundle
              then PerBundleExceeded(lamports, cfg.perBundle) else DailyExceeded(lamports, cfg.daily - spent))
    {
      ResetIfNewDay(today);
      if lamports > cfg.perBundle {
        return Err(PerBundleExceeded(lamports, cfg.perBundle));
      }
      var remaining := SaturatingSubU64(cfg.daily, spentToday);
      if lamports > remaining {
        return Err(DailyExceeded(lamports, remaining));
      }
      spentToday := SaturatingAddU64(spentToday, lamports);
      return Ok(());
    }

    method ResetIfNewDay(today: int)
      requires Valid()
      modifies this
      ensures Valid() && lastReset == today
      ensures spentToday == if today == old(lastReset) then old(spentToday) else 0
    {
      if today != lastReset {
        spentToday := 0;
        lastReset := today;
      }
    }

    method Refund(lamports: u64)
      requires Valid()
      modifies this`spentToday
      ensures Valid()
      ensures spentToday == if lamports > old(spentToday) then 0 else old(spentToday) - lamports
    {
      spentToday := SaturatingSubU64(spentToday, lamports);
    }
  }
}
