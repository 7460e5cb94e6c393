/** The geolocation record attached to each visit, and how the server derives it from a lookup. */
module Geolocation {
  import opened JsValues

  /** Where and through whom a visitor connects; every field may be null. */
  datatype GeoRecord = GeoRecord(
    country: Option<string>,
    city: Option<string>,
    region: Option<string>,
    latitude: Option<real>,
    longitude: Option<real>,
    timezone: Option<string>,
    isp: Option<string>)

  /** The record with every field null: the answer whenever nothing is known. */
  const AllNull: GeoRecord := GeoRecord(None, None, None, None, None, None, None)

  /** The body of a lookup service answer, with the field names the service uses. */
  datatype ApiAnswer = ApiAnswer(
    status: Option<string>,
    message: Option<string>,
    country: Option<string>,
    city: Option<string>,
    regionName: Option<string>,
    lat: Option<real>,
    lon: Option<real>,
    timezone: Option<string>,
    isp: Option<string>)

  /** What the remote lookup came to: an answer, or an exception (network error, timeout, bad reply). */
  datatype Lookup = Threw | Answered(answer: ApiAnswer)

  /** Addresses the server never sends to the lookup service. */
  predicate IsLocal(ip: string)
    ensures IsLocal(ip) ==> TruthyString(Some(ip))
    ensures IsLocal(ip) ==> ip != "unknown"
  {
    ip == "127.0.0.1" || ip == "::1" || ip == "localhost"
  }

  /** A string field of the answer is copied when truthy and becomes null otherwise. */
  predicate CopiedString(src: Option<string>, dst: Option<string>)
  {
    if TruthyString(src) then dst == src else dst == None
  }

  /** A numeric field of the answer is copied when non-zero and becomes null otherwise. */
  predicate CopiedNumber(src: Option<real>, dst: Option<real>)
  {
    if TruthyNumber(src) then dst == src else dst == None
  }

  /** No field of the record holds a falsy value: each is null or a truthy value. */
  predicate NoFalsyField(g: GeoRecord)
  {
    (g.country.Some? ==> TruthyString(g.country)) && (g.city.Some? ==> TruthyString(g.city))
    && (g.region.Some? ==> TruthyString(g.region)) && (g.latitude.Some? ==> TruthyNumber(g.latitude))
    && (g.longitude.Some? ==> TruthyNumber(g.longitude))
    && (g.timezone.Some? ==> TruthyString(g.timezone)) && (g.isp.Some? ==> TruthyString(g.isp))
  }

  /** Every field of the answer that the record takes is falsy. */
  predicate NothingUsable(a: ApiAnswer)
  {
    !TruthyString(a.country) && !TruthyString(a.city) && !TruthyString(a.regionName)
    && !TruthyNumber(a.lat) && !TruthyNumber(a.lon)
    && !TruthyString(a.timezone) && !TruthyString(a.isp)
  }

  /** Shapes a service answer: a `success` status copies the fields, any other status is a failure. */
  function FromAnswer(a: ApiAnswer): (g: GeoRecord)
    ensures a.status != Some("success") ==> g == AllNull
    ensures a.status == Some("success") ==>
      CopiedString(a.country, g.country) && CopiedString(a.city, g.city)
      && CopiedString(a.regionName, g.region) && CopiedNumber(a.lat, g.latitude)
      && CopiedNumber(a.lon, g.longitude) && CopiedString(a.timezone, g.timezone)
      && CopiedString(a.isp, g.isp)
    ensures NoFalsyField(g)
  {
    if a.status == Some("success") then
      GeoRecord(StringOrNull(a.country), StringOrNull(a.city), StringOrNull(a.regionName),
                NumberOrNull(a.lat), NumberOrNull(a.lon), StringOrNull(a.timezone), StringOrNull(a.isp))
    else
      AllNull
  }

  /**
   * The geolocation of an address: local addresses and every failure give the all-null record;
   * `lookup` is what the remote call would come to, and it is consulted only for other addresses.
   */
  function Geolocate(ip: string, lookup: Lookup): (g: GeoRecord)
    ensures IsLocal(ip) ==> g == AllNull
    ensures !IsLocal(ip) && lookup.Threw? ==> g == AllNull
    ensures !IsLocal(ip) && lookup.Answered? ==> g == FromAnswer(lookup.answer)
    ensures NoFalsyField(g)
  {
    if IsLocal(ip) then AllNull
    else match lookup
      case Threw => AllNull
      case Answered(a) => FromAnswer(a)
  }

  /** A local address is answered without looking at the lookup at all. */
  lemma LocalSkipsLookup(ip: string, l1: Lookup, l2: Lookup)
    requires IsLocal(ip)
    ensures Geolocate(ip, l1) == Geolocate(ip, l2) == AllNull
  {
  }

  /** The all-null record comes back exactly when the address is local, the lookup failed,
      or the answer carried nothing usable. */
  lemma AllNullExactly(ip: string, lookup: Lookup)
    ensures Geolocate(ip, lookup) == AllNull <==>
      IsLocal(ip) || lookup.Threw? || lookup.answer.status != Some("success")
      || NothingUsable(lookup.answer)
  {
    if !IsLocal(ip) && lookup.Answered? && lookup.answer.status == Some("success") {
      var a, g := lookup.answer, Geolocate(ip, lookup);
      if g == AllNull {
        assert !TruthyString(a.country) by { assert g.country == None; }
        assert !TruthyNumber(a.lat) by { assert g.latitude == None; }
      }
    }
  }

  /** A latitude of zero is falsy, so a successful answer at latitude 0 is recorded as null. */
  lemma ZeroLatitudeBecomesNull(a: ApiAnswer)
    requires a.status == Some("success") && a.lat == Some(0.0)
    ensures FromAnswer(a).latitude == None
  {
  }
}
