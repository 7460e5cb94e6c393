/** How the log-visit endpoint decides which address a request came from, and how it cleans it. */
module ClientAddress {
  import opened JsValues

  /** The underlying socket of a connection, when the connection has one. */
  datatype Socket = Socket(remoteAddress: Option<string>)

  /** The parts of an incoming request that can name the client's address. */
  datatype Request = Request(
    forwardedFor: Option<string>,           // the `x-forwarded-for` header, kept whole
    realIp: Option<string>,                 // the `x-real-ip` header
    connectionRemoteAddress: Option<string>,
    socketRemoteAddress: Option<string>,
    connectionSocket: Option<Socket>)

  /** The address sources in the order the server consults them. */
  function Candidates(req: Request): (cs: seq<Option<string>>)
    ensures |cs| == 5
    ensures cs[0] == req.forwardedFor && cs[1] == req.realIp
    ensures cs[2] == req.connectionRemoteAddress && cs[3] == req.socketRemoteAddress
    ensures req.connectionSocket.Some? ==> cs[4] == req.connectionSocket.value.remoteAddress
    ensures req.connectionSocket.None? ==> cs[4] == None
  {
    [req.forwardedFor, req.realIp, req.connectionRemoteAddress, req.socketRemoteAddress,
     if req.connectionSocket.Some? then req.connectionSocket.value.remoteAddress else None]
  }

  /**
   * The value of a chain `c0 || c1 || ...` as far as a truthiness test on it is concerned:
   * the first truthy operand, or None when every operand is falsy.
   */
  function FirstTruthy(cs: seq<Option<string>>): (r: Option<string>)
    ensures r.None? <==> (forall i :: 0 <= i < |cs| ==> !TruthyString(cs[i]))
    ensures r.Some? ==> TruthyString(r)
    ensures forall i :: 0 <= i < |cs| && TruthyString(cs[i]) && (forall j :: 0 <= j < i ==> !TruthyString(cs[j]))
                        ==> r == cs[i]
  {
    if cs == [] then None
    else if TruthyString(cs[0]) then cs[0]
    else
      assert forall j :: 0 <= j < |cs| - 1 ==> cs[1..][j] == cs[j + 1];
      FirstTruthy(cs[1..])
  }

  /** The raw client address: the first truthy source, proxy headers before socket addresses. */
  function RawIp(req: Request): (r: Option<string>)
    ensures TruthyString(req.forwardedFor) ==> r == req.forwardedFor
    ensures !TruthyString(req.forwardedFor) && TruthyString(req.realIp) ==> r == req.realIp
    ensures (!TruthyString(req.forwardedFor) && !TruthyString(req.realIp)
             && TruthyString(req.connectionRemoteAddress)) ==> r == req.connectionRemoteAddress
    ensures (!TruthyString(req.forwardedFor) && !TruthyString(req.realIp)
             && !TruthyString(req.connectionRemoteAddress) && TruthyString(req.socketRemoteAddress))
            ==> r == req.socketRemoteAddress
    ensures r.None? <==> forall i :: 0 <= i < 5 ==> !TruthyString(Candidates(req)[i])
    ensures (!TruthyString(req.forwardedFor) && !TruthyString(req.realIp)
             && !TruthyString(req.connectionRemoteAddress) && !TruthyString(req.socketRemoteAddress)
             && req.connectionSocket.Some?) ==> r == StringOrNull(req.connectionSocket.value.remoteAddress)
    ensures r.Some? ==> TruthyString(r)
  {
    var cs := Candidates(req);
    assert cs[0] == req.forwardedFor && cs[1] == req.realIp;
    assert cs[2] == req.connectionRemoteAddress && cs[3] == req.socketRemoteAddress;
    assert req.connectionSocket.Some? ==> cs[4] == req.connectionSocket.value.remoteAddress;
    FirstTruthy(cs)
  }

  /** The IPv4-mapped IPv6 prefix that the server strips. */
  const MappedPrefix: string := "::ffff:"

  predicate HasMappedPrefix(s: string)
  {
    |MappedPrefix| <= |s| && s[..|MappedPrefix|] == MappedPrefix
  }

  /**
   * `ip ? ip.replace(/^::ffff:/, '') : 'unknown'`: a falsy address becomes `unknown`,
   * otherwise one leading mapped prefix is removed and nothing else changes.
   */
  function CleanIp(raw: Option<string>): (r: string)
    ensures !TruthyString(raw) ==> r == "unknown"
    ensures TruthyString(raw) && HasMappedPrefix(raw.value) ==> MappedPrefix + r == raw.value
    ensures TruthyString(raw) && !HasMappedPrefix(raw.value) ==> r == raw.value
  {
    if !TruthyString(raw) then "unknown"
    else if HasMappedPrefix(raw.value) then raw.value[|MappedPrefix|..]
    else raw.value
  }

  /** The address the server records for a request. */
  function ClientIp(req: Request): (r: string)
    ensures RawIp(req).None? ==> r == "unknown"
    ensures RawIp(req).Some? && HasMappedPrefix(RawIp(req).value) ==> MappedPrefix + r == RawIp(req).value
    ensures RawIp(req).Some? && !HasMappedPrefix(RawIp(req).value) ==> r == RawIp(req).value
  {
    CleanIp(RawIp(req))
  }

  /** The prefix alone cleans to the empty string, not to `unknown`. */
  lemma PrefixAloneCleansToEmpty()
    ensures CleanIp(Some(MappedPrefix)) == ""
  {
  }

  /** Only one prefix is removed: a doubly mapped address keeps its second prefix. */
  lemma CleanIpStripsOnce(s: string)
    ensures CleanIp(Some(MappedPrefix + MappedPrefix + s)) == MappedPrefix + s
  {
  }

  /** Cleaning is the inverse of adding the prefix, for every address. */
  lemma CleanIpInvertsMapping(s: string)
    ensures CleanIp(Some(MappedPrefix + s)) == s
  {
  }
}
