/** The nearby-search lookup of getLocation (photos.go): the request it builds
    and the chain of status tests that turns the decoded reply into a result. */
module Places {

  /** The -key flag as flag.String hands it out: a pointer, rendered by fmt as
      `addr`, to the string `value` the user gave. */
  datatype KeyFlag = KeyFlag(addr: string, value: string)

  /** The parameters of one nearby-search request. */
  datatype Query = Query(lat: real, long: real, radius: nat, key: string)

  const SearchRadius: nat := 500

  /** An operand of fmt's %s verb: a string, or a pointer to one. */
  datatype Operand = Str(s: string) | StrPtr(addr: string)

  /** fmt's rendering of an operand under %s: a string is copied, and a pointer
      to a string is a bad operand that fmt reports in place of the value. */
  function FormatS(v: Operand): string
  {
    match v
    case Str(s) => s
    case StrPtr(a) => "%!s(*string=" + a + ")"
  }

  /** The request as photos.go:147 builds it: the flag pointer itself is
      formatted into the key parameter. */
  function RequestAsWritten(lat: real, long: real, key: KeyFlag): (q: Query)
  {
    Query(lat, long, SearchRadius, FormatS(StrPtr(key.addr)))
  }

  /** As written, the key the service receives does not depend on the key the
      user configured, and it is never that key unless the key itself starts with '%'. */
  lemma RequestAsWrittenLosesKey(lat: real, long: real, key: KeyFlag, other: string)
    requires key.value == [] || key.value[0] != '%'
    ensures RequestAsWritten(lat, long, key).key != key.value
    ensures RequestAsWritten(lat, long, key) == RequestAsWritten(lat, long, KeyFlag(key.addr, other))
  {
    var sent := RequestAsWritten(lat, long, key).key;
    assert sent[0] == '%';
  }

  /** The corrected request: the flag is dereferenced before formatting. */
  function Request(lat: real, long: real, key: KeyFlag): (q: Query)
    ensures q.key == key.value
    ensures q.lat == lat && q.long == long && q.radius == 500
  {
    Query(lat, long, SearchRadius, FormatS(Str(key.value)))
  }

  /** What the model keeps of the decoded GoogleMapsResp: the status string
      and the Name of each result, in order. */
  datatype PlacesResponse = PlacesResponse(status: string, names: seq<string>)

  /** The service answers "OK" only with at least one result; getLocation
      indexes Results[0] without checking. */
  predicate WellFormed(resp: PlacesResponse)
  {
    resp.status == "OK" ==> resp.names != []
  }

  /** The replies the model admits. */
  type Reply = resp: PlacesResponse | WellFormed(resp) witness PlacesResponse("", [])

  /** What getLocation reports for a reply. */
  datatype Outcome =
    | Located(name: string)
    | NotFound
    | Denied
    | Invalid
    | Unknown
    | QuotaExceeded

  /** The six independent `if`s of getLocation, in source order; each that
      fires contributes its outcome. */
  function GetLocation(resp: Reply): (r: seq<Outcome>)
    ensures |r| <= 1
    ensures QuotaExceeded in r <==> resp.status == "OVER_QUERY_LIMIT"
  {
    var s := resp.status;
    (if s == "OK" then [Located(resp.names[0])] else [])
    + (if s == "ZERO_RESULTS" then [NotFound] else [])
    + (if s == "REQUEST_DENIED" then [Denied] else [])
    + (if s == "INVALID_REQUEST" then [Invalid] else [])
    + (if s == "UNKNOWN_ERROR" || s == "" then [Unknown] else [])
    + (if s == "OVER_QUERY_LIMIT" then [QuotaExceeded] else [])
  }

  /** The status strings getLocation tests for. */
  const KnownStatuses: set<string> :=
    {"OK", "ZERO_RESULTS", "REQUEST_DENIED", "INVALID_REQUEST", "UNKNOWN_ERROR", "", "OVER_QUERY_LIMIT"}

  /** The dispatch table, row by row: one outcome per known status, the first
      result's name for "OK", and nothing for any other status. */
  lemma StatusTable(resp: Reply)
    ensures resp.status == "OK" ==> GetLocation(resp) == [Located(resp.names[0])]
    ensures resp.status == "ZERO_RESULTS" ==> GetLocation(resp) == [NotFound]
    ensures resp.status == "REQUEST_DENIED" ==> GetLocation(resp) == [Denied]
    ensures resp.status == "INVALID_REQUEST" ==> GetLocation(resp) == [Invalid]
    ensures resp.status == "UNKNOWN_ERROR" ==> GetLocation(resp) == [Unknown]
    ensures resp.status == "" ==> GetLocation(resp) == [Unknown]
    ensures resp.status == "OVER_QUERY_LIMIT" ==> GetLocation(resp) == [QuotaExceeded]
    ensures GetLocation(resp) == [] <==> resp.status !in KnownStatuses
  {
  }
}
