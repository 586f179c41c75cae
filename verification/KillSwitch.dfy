/** The loss circuit breaker of crates/dl-executor/src/killswitch.rs. */
module KillSwitch {
  import opened Words

  datatype BundleOutcome = Landed | Lost | Pending

  datatype Tripped = StopFilePresent | ConsecutiveLosses(losses: u32, max: u32)

  class KillSwitch {
    const maxConsecutiveLosses: u32
    var consecutiveLosses: u32

    constructor (maxLosses: u32)
      ensures maxConsecutiveLosses == maxLosses && consecutiveLosses == 0
    {
      maxConsecutiveLosses, consecutiveLosses := maxLosses, 0;
    }

    /** Counts a loss, forgets all losses on a landing, and ignores a pending bundle. Only a loss trips. */
    method Record(outcome: BundleOutcome) returns (r: Result<(), Tripped>)
      modifies this`consecutiveLosses
      ensures outcome.Landed? ==> consecutiveLosses == 0
      ensures outcome.Pending? ==> consecutiveLosses == old(consecutiveLosses)
      ensures outcome.Lost? ==>
        consecutiveLosses == if old(consecutiveLosses) == U32_MAX then U32_MAX else old(consecutiveLosses) + 1
      ensures r.Err? <==> outcome.Lost? && consecutiveLosses >= maxConsecutiveLosses
      ensures r.Err? ==> r.error == ConsecutiveLosses(consecutiveLosses, maxConsecutiveLosses)
    {
      match outcome
      case Landed =>
        consecutiveLosses := 0;
        return Ok(());
      case Lost =>
        consecutiveLosses := if consecutiveLosses + 1 > U32_MAX then U32_MAX else consecutiveLosses + 1;
        if consecutiveLosses >= maxConsecutiveLosses {
          return Err(ConsecutiveLosses(consecutiveLosses, maxConsecutiveLosses));
        }
        return Ok(());
      case Pending =>
        return Ok(());
    }

    /** Refuses while the stop file exists or the breaker is open; the stop file is looked at first. */
    method Check(stopFile: bool) returns (r: Result<(), Tripped>)
      ensures r.Ok? <==> !stopFile && consecutiveLosses < maxConsecutiveLosses
      ensures r.Err? && stopFile ==> r.error == StopFilePresent
      ensures r.Err? && !stopFile ==> r.error == ConsecutiveLosses(consecutiveLosses, maxConsecutiveLosses)
    {
      if stopFile { return Err(StopFilePresent); }
      if consecutiveLosses >= maxConsecutiveLosses {
        return Err(ConsecutiveLosses(consecutiveLosses, maxConsecutiveLosses));
      }
      return Ok(());
    }

    method Reset()
      modifies this`consecutiveLosses
      ensures consecutiveLosses == 0
    {
      consecutiveLosses := 0;
    }
  }
}
