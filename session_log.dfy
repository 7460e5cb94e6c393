/** The list of visits the server keeps in each visitor's session. */
module SessionLog {
  import opened JsValues

  /** One entry of a session's visit list. */
  datatype LogEntry = LogEntry(timestamp: int, ip: string)

  /** The session state the log-visit endpoint touches: its `visits` list, absent at first. */
  class Session {
    var visits: Option<seq<LogEntry>>

    /** A fresh session has no visit list yet. */
    constructor ()
      ensures visits == None
    {
      visits := None;
    }

    /** The entries logged so far; an absent list has none. */
    function Entries(): (es: seq<LogEntry>)
      reads this
      ensures visits.Some? ==> es == visits.value
      ensures visits.None? ==> es == []
    {
      if visits.Some? then visits.value else []
    }

    /** Creates the list when it is absent, then appends exactly one entry for this visit. */
    method Record(timestamp: int, ip: string)
      modifies this
      ensures visits == Some(old(Entries()) + [LogEntry(timestamp, ip)])
      ensures |Entries()| == |old(Entries())| + 1
      ensures forall i :: 0 <= i < |old(Entries())| ==> Entries()[i] == old(Entries())[i]
      ensures Entries()[|Entries()| - 1] == LogEntry(timestamp, ip)
    {
      if visits.None? {
        visits := Some([]);
      }
      visits := Some(visits.value + [LogEntry(timestamp, ip)]);
    }
  }
}
