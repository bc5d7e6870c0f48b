/** The `opts['http']` array handed to the stream context, and the payload
    a verb call may carry. */
module RequestOptions {
  import opened Wrappers

  /** Used when the caller never set a timeout. */
  const DefaultTimeout: int := 30

  /** `opts['http']`: three fixed transport flags, then the slots the
      client writes (PHP `null` or unset is `None`). */
  datatype HttpOptions = HttpOptions(
    ignoreErrors: bool,
    requestFullUri: bool,
    protocolVersion: string,
    httpMethod: Option<string>,
    header: Option<seq<string>>,
    content: Option<string>,
    timeout: Option<int>)

  /** The options as the class declares them: 4xx/5xx are not transport
      errors, the request line carries the absolute URI, HTTP/1.0. */
  const InitialOptions: HttpOptions :=
    HttpOptions(true, true, "1.0", None, None, None, None)

  predicate FixedFlags(o: HttpOptions) {
    o.ignoreErrors && o.requestFullUri && o.protocolVersion == "1.0"
  }

  /** The second argument of a verb call. A string is sent verbatim; any
      other value is sent as its JSON encoding, which `json` holds (the
      encoder itself is outside this model). */
  datatype Payload = Absent | Text(text: string) | Structured(json: string) {
    /** The request body this payload becomes. */
    function Body(): string
      requires !Absent?
    {
      if Text? then text else json
    }
  }
}
