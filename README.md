# Visitor logger: request logic

A Dafny model of the in-memory request logic of the visitor-logging service in `server.js`.
Four parts are modelled:

- how the log-visit endpoint picks the client's address and cleans it;
- how it shapes the geolocation record from the lookup service's answer;
- how it appends the visit to the visitor's session;
- how the statistics endpoint groups the stored visits by session, counts them and orders the groups.

Modules, one per concern, all in plain files at the top level:

- `js_values.dfy` (`JsValues`): absent values (`Option`) and JavaScript truthiness for strings and numbers.
- `client_address.dfy` (`ClientAddress`): the `||` chain over headers and socket addresses, and `cleanIP`.
- `geolocation.dfy` (`Geolocation`): the geolocation record, the service answer and `getGeolocationFromIP`.
- `visits.dfy` (`Visits`): the stored visit document.
- `session_log.dfy` (`SessionLog`): the session's `visits` list, as a class whose method appends in place.
- `log_visit.dfy` (`LogVisit`): the log-visit handler tying the three parts above together.
- `visit_stats.dfy` (`VisitStats`): the statistics endpoint.

The main pieces of `VisitStats`:

- A reference definition of the grouping: `Members` and `KeyOrder` are filters over the visit list; `GroupOf` builds one group from its members.
- The imperative `forEach` loop of the handler is `GroupVisits`, with `AddToGroups` as its body. It keeps a `map` from key to group and a sequence of keys in insertion order. The order of the keys is what `Array.from(map.values())` follows.
- `GroupVisits` is proved equal to the reference definition.
- The properties the endpoint promises are lemmas about the reference definition: partitioning, count conservation, time bounds, identity from the first visit, and the unique-session count.

Dates are integer milliseconds. Numbers are `real`. Headers and optional fields are `Option` values.
The remote lookup is a `Lookup` input: either it threw, or it is the answer it returned. The stored
visits are an input sequence.

## Model

| member | source | states |
|---|---|---|
| `ClientAddress.FirstTruthy` | server.js:131-135 | the value of an `a \|\| b \|\| …` chain under a truthiness test: None exactly when every operand is falsy, otherwise the first truthy operand |
| `ClientAddress.RawIp` | server.js:131-135 | the raw address is `x-forwarded-for` if truthy, else `x-real-ip`, else the connection's, else the socket's, else the connection socket's remote address; it is None only when all five are falsy |
| `ClientAddress.CleanIp` | server.js:138 | a falsy raw address gives `unknown`; otherwise the prefix `::ffff:` plus the result is the raw address when it has that prefix, and the result is the raw address unchanged when it does not |
| `ClientAddress.ClientIp` | server.js:131-138 | the recorded address is `unknown` when no source is truthy; when the raw address carries the prefix `::ffff:`, the prefix plus the result is the raw address; otherwise the result is the raw address itself |
| `ClientAddress.PrefixAloneCleansToEmpty` | server.js:138 | `::ffff:` alone cleans to the empty string, not to `unknown` |
| `ClientAddress.CleanIpStripsOnce` | server.js:138 | only one leading prefix is removed: a doubly prefixed address keeps its second prefix |
| `ClientAddress.CleanIpInvertsMapping` | server.js:138 | cleaning undoes prepending the prefix, for every string |
| `JsValues.StringOrNull` | server.js:101-107 | `s \|\| null` is a value exactly when `s` is truthy, and then it is `s` |
| `JsValues.NumberOrNull` | server.js:104-105 | `x \|\| null` is a value exactly when `x` is a non-zero number, and then it is `x` |
| `Geolocation.FromAnswer` | server.js:99-111 | a status other than `success` gives the all-null record; on `success` each field is copied when truthy and null otherwise (`regionName` to `region`, `lat`/`lon` to `latitude`/`longitude`); no field of the result is falsy |
| `Geolocation.Geolocate` | server.js:76-125 | local addresses give the all-null record; so does a lookup that threw; otherwise the answer is shaped by `FromAnswer`; no field of the result is falsy |
| `Geolocation.IsLocal` | server.js:79 | the local addresses are truthy strings, and the `unknown` placeholder is not one of them, so it goes to the lookup |
| `Geolocation.LocalSkipsLookup` | server.js:79-89 | for `127.0.0.1`, `::1` and `localhost` the result is all-null whatever the lookup would return |
| `Geolocation.AllNullExactly` | server.js:76-125 | the all-null record comes back exactly when the address is local, the lookup threw, the status is not `success`, or every copied field of the answer is falsy |
| `Geolocation.ZeroLatitudeBecomesNull` | server.js:104 | a successful answer with latitude 0 records a null latitude |
| `SessionLog.Session.constructor` | server.js:144 | a new session has no visit list |
| `SessionLog.Session.Record` | server.js:144-150 | the list exists afterwards and is the old entries plus exactly one `{timestamp, ip}` entry; its length grows by one and earlier entries are unchanged |
| `LogVisit.HandleLogVisit` | server.js:128-177 | one request appends the cleaned address to the session log and builds the visit document from the cleaned address, the session id, the visit time and the geolocation of the cleaned address; the answer is 200 exactly when the address and the session id are non-empty, and 500 otherwise, after the session entry was appended |
| `LogVisit.BarePrefixAddressIsRejected` | server.js:138-176 | a raw address that is the bare prefix `::ffff:` is recorded as the empty string, and the visit built from it fails the required `ip` field |
| `LogVisit.MappedLoopbackIsLocal` | server.js:79-138 | `::ffff:127.0.0.1` is cleaned to `127.0.0.1`, which is local, so no lookup happens |
| `VisitStats.Earliest` | server.js:217-219 | the earliest time is no later than every member's time and is some member's time |
| `VisitStats.Latest` | server.js:220-222 | the latest time is no earlier than every member's time and is some member's time |
| `VisitStats.SessionKey` | server.js:198 | the key is the session id when it is truthy, and otherwise `legacy-` followed by the address |
| `VisitStats.LegacyKeyIsPerAddress` | server.js:198 | records without a session id share a key exactly when they share an address |
| `VisitStats.SessionKeyIsSessionId` | server.js:198 | visits with a session id share a key exactly when they share the id |
| `VisitStats.UniqueSessions` | server.js:193 | the number of distinct session ids is at most the number of visits, and at least one when there is a visit |
| `VisitStats.MembersExactly` | server.js:197-213 | a group holds exactly the visits whose key (session id, or `legacy-` and the address) is the group's key |
| `VisitStats.MembersConcat` | server.js:197-213 | members keep input order: the members of a concatenation are the members of the first part followed by those of the second |
| `VisitStats.KeyOrderFacts` | server.js:196-210 | the keys are distinct and are exactly the keys some visit has |
| `VisitStats.FirstMemberIsFirstVisit` | server.js:200-209 | a group's first member is the first visit in the input with that key |
| `VisitStats.KeyOrderPartitions` | server.js:190-214 | the sizes of the groups over all distinct keys add up to the number of visits |
| `VisitStats.GroupCountsAddUp` | server.js:190-214 | each group's `totalVisits` is the length of its `visits`, and the counts over all groups add up to `totalRecords` |
| `VisitStats.EveryVisitInOneGroup` | server.js:197-213 | every visit is in some group and in no two groups |
| `VisitStats.GroupTimeSpan` | server.js:207-222 | a group's `firstVisit` and `lastVisit` bound every member's time and are both members' times |
| `VisitStats.GroupFromFirstVisit` | server.js:200-209 | a group's `sessionId`, `ip` and `geolocation` are those of the first visit with its key |
| `VisitStats.UniqueSessionsCountGroups` | server.js:193-198 | when every visit has a session id, `uniqueSessions` equals the number of groups |
| `VisitStats.LegacyVisitsCountOnceButGroupApart` | server.js:193-198 | two records without a session id from different addresses count as one unique session but form two groups |
| `VisitStats.MembersKeepNewestFirst` | server.js:189-213 | for input ordered newest first, every group's visits are ordered newest first |
| `VisitStats.NewestFirstInputSpans` | server.js:189-222 | for input ordered newest first, a group's `lastVisit` is its first member's time and `firstVisit` its last member's |
| `VisitStats.InsertAddsOne` | server.js:226-228 | inserting adds exactly the one group to the multiset |
| `VisitStats.InsertKeepsOrder` | server.js:226-228 | inserting into a list ordered latest first keeps it ordered |
| `VisitStats.InsertKeepsTies` | server.js:226-228 | inserting places the new group before the groups with the same last visit |
| `VisitStats.SortIsPermutation` | server.js:226-228 | the sorted groups are a permutation of the input groups |
| `VisitStats.SortIsOrdered` | server.js:226-228 | the sorted groups are ordered by `lastVisit`, latest first |
| `VisitStats.SortIsStable` | server.js:226-228 | groups with equal `lastVisit` keep their relative order |
| `VisitStats.StatsShape` | server.js:189-234 | the answer's `totalRecords` is the number of visits; its `sessions` are the groups in key order, reordered latest first, with ties in key order |
| `VisitStats.ValuesInOrder` | server.js:226 | the map's values are listed in key insertion order |
| `VisitStats.NewGroup` | server.js:201-209 | a new group, once the visit is added to it, is exactly the reference group of a key whose only visit is this one |
| `VisitStats.AddVisit` | server.js:212-222 | adding a visit appends it and counts it once more, keeps the group's id, address and geolocation, and widens the time span just enough to cover the visit's time |
| `VisitStats.GroupOfFirst` | server.js:200-214 | a key's first visit makes a group holding that visit alone, with both times equal to its time |
| `VisitStats.GroupOfNext` | server.js:212-222 | a later visit with a key is appended to that key's group, which is counted once more and has its time span widened |
| `VisitStats.GroupOfOther` | server.js:197-213 | a visit with another key leaves a group unchanged |
| `VisitStats.StepHolds` | server.js:197-223 | one callback run turns the grouping of the visits so far into the grouping with the next visit |
| `VisitStats.AddToGroups` | server.js:198-222 | the callback creates the group of a new key at the end of the key order, then adds the visit to the key's group |
| `VisitStats.GroupVisits` | server.js:196-223 | the loop yields the distinct keys in first-occurrence order and, for each key, exactly the reference group of that key |
| `VisitStats.ComputeStats` | server.js:186-234 | the handler's answer is the record count, the number of distinct session ids, and the reference groups sorted latest first |

## Left out

- `public/fragment-shader.js`, `public/mandelbrot_webgl.js`, `public/sketch.js`: GPU floating-point rendering, WebGL setup and drawing calls. This is host plumbing and floating-point numerics, not request logic.
- `models/Visit.js`: the schema's field defaults, indexes and timestamps. Its fields shape the `Visit` and `GeoRecord` datatypes; its one behaviour that matters here, the required `ip` and `sessionId` strings (models/Visit.js:14-23), is `Visits.SatisfiesSchema`.
- `HandleLogVisit`: a save that fails for a database reason also yields 500; only the schema's required-field rejection is modelled. The response body of either answer is not modelled.
- Express, CORS and session middleware setup; the database connection and `process.exit`; the static and HTML routes; the health check; `app.listen`; `res.json` serialisation; the async sequencing. These are I/O and configuration.
- The HTTP call to the geolocation service. It is the `Lookup` input. Network errors, timeouts, non-2xx replies and a missing body all surface as `Threw`. The error message the handler logs is not modelled.
- `visit.save()` and `Visit.find().sort()`. The visits come in as a sequence. `NewestVisitFirst` describes the query's order where a lemma needs it.
- The session id and the two `new Date()` readings are parameters of `HandleLogVisit`. The id is generated from random bytes; the dates come from the clock.
- The persistence of the session between requests by the session store.
- `RawIp`: when every source is falsy, JavaScript yields the last falsy operand. The model yields None instead, since `cleanIP` only tests its truthiness.
- `ClientAddress.Request`: header values are strings. The `x-forwarded-for` header is kept whole, comma-separated list included, as the source does.
- `VisitStats.UniqueSessions`: JavaScript's `Set` counts a missing `sessionId` read as `undefined` and one stored as `null` as two values. The model has one `None` for both, so any number of missing ids counts as one value.
- `JsValues.NumberOrNull`: NaN is also falsy in JavaScript, but numbers are `real` here, so NaN is not modelled.
- Answer fields of other JSON types than the ones the service documents are not modelled.
- Invalid dates are not modelled. A date is an integer, and `new Date(x) < new Date(y)` compares those integers.
- `VisitStats.GroupVisits`: the source mutates group objects held in a `Map`. The model stores group values in a Dafny `map` and reassigns the changed entry. Object identity and aliasing are not modelled; nothing else holds a reference to a group.
- `VisitStats.SortByLastVisit`: the engine's sort is modelled as a stable insertion sort. A stable sort under the comparator has only one possible result, so the two agree.
