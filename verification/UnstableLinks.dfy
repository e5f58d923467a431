/** The marker of a recovered, unconfirmed connectivity failure. */
module UnstableLinks {
  import opened Basics

  /** How long the marker stays on after the UP that set it. */
  const UNSTABLE_LINK_TTL: nat := 60 * MINUTE

  datatype LinkMark = LinkMark(pendingDown: bool, until: Option<Time>)

  /**
   * The marker after one stored result.  `wasOpen` and `isOpen` tell whether an incident of
   * the source was open before and after the result was processed.
   */
  function MarkAfter(mark: LinkMark, down: bool, up: bool, wasOpen: bool, isOpen: bool, at: Time): LinkMark {
    if down then
      if isOpen then LinkMark(false, None) else mark.(pendingDown := true)
    else if up then
      if !wasOpen && mark.pendingDown then LinkMark(false, Some(at + UNSTABLE_LINK_TTL))
      else mark.(pendingDown := false)
    else mark
  }

  /** Whether the marker shows at an instant. */
  predicate ShowsAt(mark: LinkMark, now: Time) {
    mark.until.Some? && mark.until.value > now
  }

  class UnstableLink {
    var pendingDown: bool
    var until: Option<Time>

    constructor ()
      ensures Mark() == LinkMark(false, None)
    {
      pendingDown, until := false, None;
    }

    function Mark(): LinkMark
      reads this
    {
      LinkMark(pendingDown, until)
    }

    method Reset()
      modifies this
      ensures Mark() == LinkMark(false, None)
    {
      pendingDown := false;
      until := None;
    }

    method RecordUnconfirmedDown()
      modifies this
      ensures Mark() == old(Mark()).(pendingDown := true)
    {
      pendingDown := true;
    }

    /** A real outage takes precedence over the informational marker. */
    method RecordConfirmedDown()
      modifies this
      ensures Mark() == LinkMark(false, None)
    {
      Reset();
    }

    method RecordRecoveredUp(observedAt: Time, recoveryFromConfirmedIncident: bool)
      modifies this
      ensures Mark() == MarkAfter(old(Mark()), false, true, recoveryFromConfirmedIncident, false, observedAt)
      ensures !pendingDown
      ensures until == if old(pendingDown) && !recoveryFromConfirmedIncident then Some(observedAt + 3_600_000_000)
                       else old(until)
    {
      if recoveryFromConfirmedIncident {
        pendingDown := false;
        return;
      }
      if pendingDown {
        until := Some(observedAt + UNSTABLE_LINK_TTL);
        pendingDown := false;
      }
    }

    predicate Active(now: Time)
      reads this
    {
      ShowsAt(Mark(), now)
    }
  }
}
