/** The log-visit endpoint: what one request adds to its session and what visit it stores. */
module LogVisit {
  import opened JsValues
  import opened ClientAddress
  import opened Geolocation
  import opened Visits
  import opened SessionLog

  /**
   * Handles one visit. `sessionId` is the session's id, `logTime` and `visitTime` are the two
   * clock readings the handler takes, and `lookup` is what the geolocation call comes to.
   * `visit` is the document the handler builds and tries to save; `status` is the response code,
   * 500 when the schema's required-field check rejects the document at save time. The session
   * entry is appended before the save, so it stays even when the save is rejected.
   */
  method HandleLogVisit(session: Session, req: Request, sessionId: string,
                        logTime: int, visitTime: int, lookup: Lookup) returns (visit: Visit, status: int)
    modifies session
    ensures session.visits == Some(old(session.Entries()) + [LogEntry(logTime, ClientIp(req))])
    ensures visit == Visit(ClientIp(req), Some(sessionId), visitTime, Geolocate(ClientIp(req), lookup))
    ensures IsLocal(visit.ip) ==> visit.geolocation == AllNull
    ensures status == 200 <==> ClientIp(req) != "" && sessionId != ""
    ensures status == 200 || status == 500
  {
    var ip := CleanIp(RawIp(req));
    session.Record(logTime, ip);
    var geo := Geolocate(ip, lookup);
    visit := Visit(ip, Some(sessionId), visitTime, geo);
    if SatisfiesSchema(visit) {
      status := 200;
    } else {
      status := 500;
    }
  }

  /** A request whose address is the bare mapped prefix yields an empty address, which the
      schema rejects: that request is answered with an error. */
  lemma BarePrefixAddressIsRejected(req: Request, sessionId: string, visitTime: int, lookup: Lookup)
    requires req.forwardedFor == Some(MappedPrefix)
    ensures ClientIp(req) == ""
    ensures !SatisfiesSchema(Visit(ClientIp(req), Some(sessionId), visitTime, Geolocate(ClientIp(req), lookup)))
  {
  }

  /** An IPv4-mapped loopback address is local once cleaned, so it is never looked up. */
  lemma MappedLoopbackIsLocal(req: Request, lookup: Lookup)
    requires req.forwardedFor == Some("::ffff:127.0.0.1")
    ensures ClientIp(req) == "127.0.0.1" && Geolocate(ClientIp(req), lookup) == AllNull
  {
    assert "::ffff:127.0.0.1"[..|MappedPrefix|] == MappedPrefix;
    assert "::ffff:127.0.0.1"[|MappedPrefix|..] == "127.0.0.1";
  }
}
