/**
 The request-header check of the mock server: compares the headers a test
 expects (name and value) and the names it wants absent against the headers
 the server actually received, and appends one structured error per failed
 check. Error text, colouring and the `context` prefix are presentation and
 are not modelled; the errors carry the data the messages print.
 */
module Header {
  import Lex
  import Sorting

  newtype byte = b: int | 0 <= b < 256

  /** One header as a name and its raw value bytes. */
  datatype HttpHeader = HttpHeader(name: string, value: seq<byte>)

  /** The raw lines stored for one received header; the store never keeps an empty list. */
  type RawValues = lines: seq<seq<byte>> | |lines| > 0 witness [[]]

  /**
   The received headers, keyed by name. Names are taken to be normalised
   already, so a lookup is plain map membership.
   */
  type Headers = map<string, RawValues>

  /** One failed check; `expected` and `actual` are the bytes the message shows. */
  datatype HeaderError =
    | Missing(name: string)
    | ValueMismatch(name: string, expected: seq<byte>, actual: seq<byte>)
    | UnexpectedPresent(name: string)

  /** What a validation call leaves behind: the error list and the absent-list, now sorted. */
  datatype Validation = Validation(errors: seq<HeaderError>, unexpected: seq<string>)

  /** Splits a header into its name and value. */
  function IntoTuple(header: HttpHeader): (t: (string, seq<byte>))
    ensures HttpHeader(t.0, t.1) == header
  {
    (header.name, header.value)
  }

  function NameOf(header: HttpHeader): string
  {
    header.name
  }

  function Identity(name: string): string
  {
    name
  }

  /** No two expected headers share a name, as in any header collection. */
  predicate DistinctNames(headers: seq<HttpHeader>)
  {
    Sorting.DistinctKeys(headers, NameOf)
  }

  /** `actual` holds `header`: the name is present and its first raw line equals the value byte for byte. */
  predicate Carries(actual: Headers, header: HttpHeader)
  {
    header.name in actual && actual[header.name][0] == header.value
  }

  /** `e` is the error owed for expected `header`: missing, or a mismatch against the first raw line. */
  predicate Explains(actual: Headers, header: HttpHeader, e: HeaderError)
  {
    || (header.name !in actual && e == Missing(header.name))
    || (header.name in actual && actual[header.name][0] != header.value
        && e == ValueMismatch(header.name, header.value, actual[header.name][0]))
  }

  /** The errors' names ascend. */
  predicate NamesAscending(es: seq<HeaderError>)
  {
    forall i, j :: 0 <= i < j < |es| ==> Lex.Le(es[i].name, es[j].name)
  }

  /** The errors' names strictly ascend, so no name occurs twice. */
  predicate NamesStrictlyAscending(es: seq<HeaderError>)
  {
    forall i, j :: 0 <= i < j < |es| ==> Lex.Lt(es[i].name, es[j].name)
  }

  /** The check of one expected header against the received ones. */
  function CheckExpected(actual: Headers, header: HttpHeader): (r: seq<HeaderError>)
    ensures |r| <= 1
    ensures r == [] <==> Carries(actual, header)
    ensures forall e :: e in r ==> Explains(actual, header, e)
  {
    if header.name in actual then
      var raw := actual[header.name];
      if raw[0] != header.value then [ValueMismatch(header.name, header.value, raw[0])] else []
    else
      [Missing(header.name)]
  }

  /** The errors of the expected headers, checked in the order given. */
  function ExpectedErrors(actual: Headers, headers: seq<HttpHeader>): (r: seq<HeaderError>)
    ensures |r| <= |headers|
    decreases |headers|
  {
    if |headers| == 0 then [] else CheckExpected(actual, headers[0]) + ExpectedErrors(actual, headers[1..])
  }

  /** The errors of the absent-list: one per listed name that was received, in list order. */
  function AbsentErrors(actual: Headers, names: seq<string>): (r: seq<HeaderError>)
    ensures |r| <= |names|
    decreases |names|
  {
    if |names| == 0 then
      []
    else
      (if names[0] in actual then [UnexpectedPresent(names[0])] else []) + AbsentErrors(actual, names[1..])
  }

  /**
   Validates the received headers: the expected headers sorted by name, each
   checked against the first raw line received under that name; then the
   absent-list sorted, each listed name that was received reported. Errors
   are appended to `errors`.
   */
  function ValidateRequestHeaders(errors: seq<HeaderError>, actual: Headers,
                                  expected: seq<HttpHeader>, unexpected: seq<string>): (r: Validation)
    ensures |r.errors| >= |errors| && r.errors[..|errors|] == errors
    ensures |r.errors| <= |errors| + |expected| + |unexpected|
    ensures Sorting.SortedBy(r.unexpected, Identity) && multiset(r.unexpected) == multiset(unexpected)
  {
    var headers := Sorting.SortBy(expected, NameOf);
    var absent := Sorting.SortBy(unexpected, Identity);
    Sorting.SortedByMembers(expected, headers);
    Sorting.SortedByMembers(unexpected, absent);
    Validation(errors + ExpectedErrors(actual, headers) + AbsentErrors(actual, absent), absent)
  }
}
