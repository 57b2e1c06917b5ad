/** The origin resolver `get_geolocation`. The request to the lookup
    service is not made here: its outcome is an input, either the exception
    it raised or a response carrying a status code and a decoded JSON object. */
module Geolocation {
  import opened Seqs
  import opened Text
  import opened Json

  datatype Lookup =
    | Raised(message: string)
    | Response(status: int, payload: map<string, Value>)

  /** The location dict: country, city, latitude, longitude. */
  datatype Geo = Geo(country: Value, city: Value, latitude: Value, longitude: Value)

  const Local := Geo(Str("Local"), Str("Local"), Num(0), Num(0))
  const Unknown := Geo(Str("Unknown"), Str("Unknown"), Num(0), Num(0))

  /** The two addresses answered without a lookup (note: "::1" is not one). */
  predicate IsLoopback(ip: string) {
    ip == "127.0.0.1" || ip == "localhost"
  }

  /** Where resolution ended: the location, whether the lookup service was
      queried, and the error message logged when the query raised. */
  datatype Resolution = Resolution(geo: Geo, queried: bool, logged: Option<string>)

  /** Python's `dict.get(key, default)`. */
  function Get(payload: map<string, Value>, key: string, default: Value): Value {
    if key in payload then payload[key] else default
  }

  /** The message `get_geolocation` logs when the lookup raises. */
  function ErrorMessage(ip: string, message: string): string {
    "Error getting geolocation for IP " + ip + ": " + message
  }

  function Resolve(ip: string, lookup: Lookup): (r: Resolution)
    ensures r.queried <==> !IsLoopback(ip)
    ensures !r.queried ==> r.geo == Local && r.logged == None
    ensures r.queried && lookup.Raised? ==>
              r.geo == Unknown && r.logged == Some(ErrorMessage(ip, lookup.message))
    ensures r.queried && lookup.Response? && lookup.status != 200 ==>
              r.geo == Unknown && r.logged == None
    ensures r.queried && lookup.Response? && lookup.status == 200 ==>
              && r.logged == None
              && ("country_name" in lookup.payload ==> r.geo.country == lookup.payload["country_name"])
              && ("country_name" !in lookup.payload ==> r.geo.country == Str("Unknown"))
              && ("city" in lookup.payload ==> r.geo.city == lookup.payload["city"])
              && ("city" !in lookup.payload ==> r.geo.city == Str("Unknown"))
              && ("latitude" in lookup.payload ==> r.geo.latitude == lookup.payload["latitude"])
              && ("latitude" !in lookup.payload ==> r.geo.latitude == Num(0))
              && ("longitude" in lookup.payload ==> r.geo.longitude == lookup.payload["longitude"])
              && ("longitude" !in lookup.payload ==> r.geo.longitude == Num(0))
  {
    if IsLoopback(ip) then Resolution(Local, false, None)
    else
      match lookup
      case Raised(message) => Resolution(Unknown, true, Some(ErrorMessage(ip, message)))
      case Response(status, payload) =>
        if status == 200 then
          var geo := Geo(
            Get(payload, "country_name", Str("Unknown")),
            Get(payload, "city", Str("Unknown")),
            Get(payload, "latitude", Num(0)),
            Get(payload, "longitude", Num(0)));
          Resolution(geo, true, None)
        else Resolution(Unknown, true, None)
  }

  /** A loopback address resolves the same whatever the lookup would have
      answered: no lookup takes part. */
  lemma LoopbackIgnoresLookup(ip: string, a: Lookup, b: Lookup)
    requires IsLoopback(ip)
    ensures Resolve(ip, a) == Resolve(ip, b) == Resolution(Local, false, None)
  {
  }

  /** The error message, when there is one, names the address. */
  lemma ErrorMentionsIp(ip: string, lookup: Lookup)
    requires Resolve(ip, lookup).logged.Some?
    ensures Contains(Resolve(ip, lookup).logged.value, ip)
  {
    var prefix := "Error getting geolocation for IP ";
    var m := Resolve(ip, lookup).logged.value;
    assert m == prefix + ip + (": " + lookup.message);
    ContainsAt(ip, ip, 0);
    ContainsWithin(prefix, ip, ": " + lookup.message, ip);
  }
}
