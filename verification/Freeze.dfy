/**
  The freeze lifecycle of an account, billing/src/freeze.rs. Instants are nanoseconds and
  are passed in.
 */
module Freeze {
  import opened Basics

  datatype FreezeState = Active | FrozenExport | HardDeleted

  const NANOS_PER_SEC: nat := 1_000_000_000

  const NANOS_PER_HOUR: nat := 3600 * NANOS_PER_SEC

  datatype Status = Status(state: FreezeState, frozenAt: Option<int>, exportDuration: int)

  const NEW_STATUS: Status := Status(Active, None, 48 * NANOS_PER_HOUR)

  function StartFreeze(s: Status, now: int): Status {
    if s.state == Active then s.(state := FrozenExport, frozenAt := Some(now)) else s
  }

  /** The export window is over. */
  predicate Expired(s: Status, now: int) {
    s.state == FrozenExport && s.frozenAt.Some? && now >= s.frozenAt.value + s.exportDuration
  }

  function Expire(s: Status, now: int): Status {
    if Expired(s, now) then s.(state := HardDeleted) else s
  }

  function Thaw(s: Status): Status {
    if s.state == FrozenExport then s.(state := Active, frozenAt := None) else s
  }

  /** Whole seconds, rounded towards zero. */
  function Seconds(nanos: int): int {
    if nanos >= 0 then nanos / NANOS_PER_SEC else -(-nanos / NANOS_PER_SEC)
  }

  function Remaining(s: Status, now: int): int {
    if s.state != FrozenExport || s.frozenAt.None? then 0
    else Max(Seconds(s.frozenAt.value + s.exportDuration - now), 0)
  }

  class FreezeManager {
    var state: FreezeState
    var frozenAt: Option<int>
    const exportDuration: int

    function GetStatus(): Status
      reads this
    {
      Status(state, frozenAt, exportDuration)
    }

    constructor ()
      ensures GetStatus() == NEW_STATUS
      ensures state == Active && frozenAt == None && exportDuration == 172_800_000_000_000
    {
      state, frozenAt, exportDuration := Active, None, 48 * NANOS_PER_HOUR;
    }

    constructor WithExportDuration(hours: int)
      ensures GetStatus() == Status(Active, None, hours * 3_600_000_000_000)
    {
      state, frozenAt, exportDuration := Active, None, hours * NANOS_PER_HOUR;
    }

    method TriggerFreeze(now: int)
      modifies this
      ensures GetStatus() == StartFreeze(old(GetStatus()), now)
      ensures old(state) == Active ==> state == FrozenExport && frozenAt == Some(now)
      ensures old(state) != Active ==> state == old(state) && frozenAt == old(frozenAt)
    {
      if state == Active {
        state := FrozenExport;
        frozenAt := Some(now);
      }
    }

    method CheckExportExpiry(now: int) returns (deleted: bool)
      modifies this`state
      ensures GetStatus() == Expire(old(GetStatus()), now)
      ensures deleted <==> Expired(old(GetStatus()), now)
      ensures deleted <==> old(state) == FrozenExport && frozenAt.Some? && now >= frozenAt.value + exportDuration
      ensures state == if deleted then HardDeleted else old(state)
    {
      if state != FrozenExport {
        return false;
      }
      if frozenAt.Some? {
        if now >= frozenAt.value + exportDuration {
          state := HardDeleted;
          return true;
        }
      }
      deleted := false;
    }

    method RemainingExportSeconds(now: int) returns (seconds: int)
      ensures seconds == Remaining(GetStatus(), now)
    {
      if state != FrozenExport {
        return 0;
      }
      if frozenAt.Some? {
        var remaining := Seconds(frozenAt.value + exportDuration - now);
        seconds := Max(remaining, 0);
      } else {
        seconds := 0;
      }
    }

    method Unfreeze()
      modifies this
      ensures GetStatus() == Thaw(old(GetStatus()))
      ensures old(state) == FrozenExport ==> state == Active && frozenAt == None
      ensures old(state) != FrozenExport ==> state == old(state) && frozenAt == old(frozenAt)
    {
      if state == FrozenExport {
        state := Active;
        frozenAt := None;
      }
    }
  }

  /** The countdown shows the whole seconds left until the window is over. */
  lemma CountdownInSeconds(s: Status, now: int)
    ensures s.state != FrozenExport ==> Remaining(s, now) == 0
    ensures s.state == FrozenExport && s.frozenAt.Some? ==>
              var left := s.frozenAt.value + s.exportDuration - now;
              if left < 0 then Remaining(s, now) == 0
              else Remaining(s, now) * 1_000_000_000 <= left < (Remaining(s, now) + 1) * 1_000_000_000
  {
  }

  /** The countdown of a frozen account: it shows zero once deletion is due, and otherwise
      only within the last second before. */
  lemma CountdownAgreesWithExpiry(s: Status, now: int)
    requires s.state == FrozenExport && s.frozenAt.Some?
    ensures Expired(s, now) ==> Remaining(s, now) == 0
    ensures Remaining(s, now) == 0 <==> Expired(s, now + NANOS_PER_SEC - 1)
  {
  }
}
