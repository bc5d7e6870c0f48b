/** The `FGCClient` object: its fields, the verb call with the transport's
    outcome as a parameter, the setters, the getters and `close`. */
module Client {
  import opened Wrappers
  import opened Strings
  import opened HeaderCodec
  import opened RequestOptions
  import opened Dispatch
  import PhpArray

  /** `$this->result`: `null` before any request, `false` when the
      transport failed with a warning, otherwise the body text. */
  datatype RawResponse = Null | False | Body(text: string)

  /** What the transport (`file_get_contents` with the stream context) did
      in one call, with the lines it left in `$http_response_header`.
      - Completed: it returned the body without raising anything.
      - Warned: it raised a warning or notice, which the installed handler
        turned into error state, and then returned `returned`: a body
        (possibly partial, as after a failed read) or `false` (None).
      - Thrown: it threw; the catch block records the code and message. */
  datatype Outcome =
    | Completed(body: string, headerLines: seq<string>)
    | Warned(level: int, message: string, returned: Option<string>, headerLines: seq<string>)
    | Thrown(code: int, message: string)
  {
    /** `$http_response_header ?? []` after the call. */
    function ResponseLines(): (lines: seq<string>)
      ensures Thrown? ==> lines == []
      ensures !Thrown? ==> lines == headerLines
    {
      if Thrown? then [] else headerLines
    }
  }

  class FGCClient {
    /** The URL given to the constructor, never reassigned. */
    const url: Option<string>
    var opts: HttpOptions
    var errNo: Option<int>
    var errStr: Option<string>
    var requestHeaders: map<string, string>
    var responseHeaders: seq<string>
    var result: RawResponse

    /** The fixed transport flags never change, and whenever header lines
        are set they end with the forced `Connection: close`, which the
        index mirrors. */
    ghost predicate Valid()
      reads this
    {
      && FixedFlags(opts)
      && (opts.header.Some? ==>
            && |opts.header.value| >= 1
            && opts.header.value[|opts.header.value| - 1] == ConnectionClose
            && "Connection" in requestHeaders
            && requestHeaders["Connection"] == "close")
    }

    constructor (url: Option<string>)
      ensures Valid()
      ensures this.url == url && opts == InitialOptions
      ensures errNo == None && errStr == None
      ensures requestHeaders == map[] && responseHeaders == [] && result == Null
    {
      this.url := url;
      opts := InitialOptions;
      errNo, errStr := None, None;
      requestHeaders, responseHeaders := map[], [];
      result := Null;
    }

    /** `__call($verb, [$urlArg, $payload])`. Either check failing throws
        before any field is touched. Otherwise the options are prepared, the
        transport runs, and its outcome lands in `result`, `responseHeaders`
        and the error pair; the error pair is only ever overwritten here,
        never cleared. The success value is the URL handed to the transport. */
    method Request(verb: string, urlArg: Option<string>, payload: Payload, outcome: Outcome)
      returns (r: Result<string, UsageError>)
      requires Valid()
      modifies this
      ensures Valid()
      ensures r == Validate(verb, urlArg, url)
      ensures r.Failure? ==> unchanged(this)
      ensures r.Success? ==> opts == old(opts).(
        httpMethod := Some(ToUpper(verb)),
        content := if ToUpper(verb) != "DELETE" && !payload.Absent? then Some(payload.Body()) else old(opts.content),
        timeout := if old(opts.timeout).Some? then old(opts.timeout) else Some(DefaultTimeout))
      ensures r.Success? ==> requestHeaders == old(requestHeaders)
      ensures r.Success? ==> responseHeaders == outcome.ResponseLines()
      ensures r.Success? ==> result == match outcome
        case Completed(body, _) => Body(body)
        case Warned(_, _, returned, _) => if returned.Some? then Body(returned.value) else False
        case Thrown(_, _) => old(result)
      ensures r.Success? ==> (errNo, errStr) == match outcome
        case Completed(_, _) => (old(errNo), old(errStr))
        case Warned(level, message, _, _) => (Some(level), Some(message))
        case Thrown(code, message) => (Some(code), Some(message))
    {
      if !IsAllowedMethod(verb) {
        return Failure(UnsupportedMethod);
      }
      var arg := ArgumentUrl(urlArg);
      if arg.None? && (url.None? || url.value == "") {
        return Failure(MissingUrl);
      }
      PrepareRequestOptions(verb, payload);
      var target := if arg.Some? then arg.value else url.value;
      RecordOutcome(outcome);
      r := Success(target);
    }

    /** The `try`/`catch` around the transport call and the capture of
        `$http_response_header` that follows it. */
    method RecordOutcome(outcome: Outcome)
      modifies this`result, this`responseHeaders, this`errNo, this`errStr
      ensures responseHeaders == outcome.ResponseLines()
      ensures result == match outcome
        case Completed(body, _) => Body(body)
        case Warned(_, _, returned, _) => if returned.Some? then Body(returned.value) else False
        case Thrown(_, _) => old(result)
      ensures (errNo, errStr) == match outcome
        case Completed(_, _) => (old(errNo), old(errStr))
        case Warned(level, message, _, _) => (Some(level), Some(message))
        case Thrown(code, message) => (Some(code), Some(message))
    {
      match outcome {
        case Completed(body, lines) =>
          result := Body(body);
          responseHeaders := lines;
        case Warned(level, message, returned, lines) =>
          WarningHandler(Some(level), Some(message));
          result := if returned.Some? then Body(returned.value) else False;
          responseHeaders := lines;
        case Thrown(code, message) =>
          errNo := Some(code);
          errStr := Some(message);
          responseHeaders := [];
      }
    }

    /** `setTimeout`: overwrites the timeout unconditionally. */
    method SetTimeout(seconds: int)
      requires Valid()
      modifies this`opts
      ensures Valid()
      ensures opts == old(opts).(timeout := Some(seconds))
    {
      opts := opts.(timeout := Some(seconds));
    }

    /** `setHeaders`: the wire lines are replaced wholesale, the index only
        gains or overwrites keys; both end with `Connection: close`. */
    method SetHeaders(headers: HeaderArray)
      requires Valid() && WellFormed(headers)
      modifies this`opts, this`requestHeaders
      ensures Valid()
      ensures opts == old(opts).(header := Some(RequestLines(headers)))
      ensures requestHeaders == RequestIndex(old(requestHeaders), headers)
    {
      var parsed := ParseEntries(headers);
      parsed := parsed + [ConnectionClose];
      assert parsed == RequestLines(headers);
      requestHeaders := requestHeaders["Connection" := "close"];
      opts := opts.(header := Some(parsed));
    }

    /** The loop of `setHeaders`: every entry, split as an associative or a
        list array dictates, goes through the closure in order. */
    method ParseEntries(headers: HeaderArray) returns (parsed: seq<string>)
      requires WellFormed(headers)
      modifies this`requestHeaders
      ensures parsed == RequestLines(headers)[..|headers|]
      ensures requestHeaders == PhpArray.Store(old(requestHeaders), IndexPairs(headers))
    {
      ghost var pairs := IndexPairs(headers);
      ghost var lines := RequestLines(headers);
      parsed := [];
      var assoc := IsAssoc(headers);
      var i := 0;
      while i < |headers|
        invariant 0 <= i <= |headers|
        invariant parsed == lines[..i]
        invariant requestHeaders == PhpArray.Store(old(requestHeaders), pairs[..i])
      {
        var key, value;
        if assoc {
          key, value := headers[i].0.text, headers[i].1;
        } else {
          var kv := SplitFirst(headers[i].1, ':').value;
          key, value := kv.0, kv.1;
        }
        assert (key, value) == Entry(headers, i);
        parsed := ParseHeader(key, value, parsed);
        PhpArray.TakeSnoc(pairs, i);
        PhpArray.StoreSnoc(old(requestHeaders), pairs[..i], pairs[i]);
        PhpArray.TakeSnoc(lines, i);
        i := i + 1;
      }
      assert pairs[..|headers|] == pairs;
    }

    /** The closure `$parseHeaders` of `setHeaders`: index the trimmed pair,
        append the untrimmed wire line. */
    method ParseHeader(key: string, value: string, parsed: seq<string>) returns (parsed': seq<string>)
      modifies this`requestHeaders
      ensures requestHeaders == old(requestHeaders)[Trimmed((key, value)).0 := Trimmed((key, value)).1]
      ensures parsed' == parsed + [WireLine((key, value))]
    {
      requestHeaders := requestHeaders[Trim(key) := Trim(value)];
      parsed' := parsed + [key + ": " + value];
    }

    /** `getHttpStatusCode`: the first three-digit run of the Status-Line
        (see `HeaderCodec.StatusCodeValue`), 0 before any response. */
    function GetHttpStatusCode(): (code: int)
      reads this
      ensures 0 <= code <= 999
      ensures responseHeaders == [] ==> code == 0
    {
      StatusCode(responseHeaders)
    }

    /** `getRawResponse`: the stored result as it is. */
    function GetRawResponse(): (r: RawResponse)
      reads this
      ensures r == result
    {
      result
    }

    /** `getErrorCode`: the stored code, `null` when nothing was recorded. */
    function GetErrorCode(): (code: Option<int>)
      reads this
      ensures code == errNo
    {
      errNo
    }

    /** `getErrorMessage`: the stored message, `null` when nothing was
        recorded. */
    function GetErrorMessage(): (message: Option<string>)
      reads this
      ensures message == errStr
    {
      errStr
    }

    /** `getResponseHeaders`: the loop over lines 1 .. n-1. */
    method GetResponseHeaders() returns (out: map<string, string>)
      ensures out == ResponseHeaderMap(responseHeaders)
    {
      ghost var pairs := ResponsePairs(responseHeaders);
      out := map[];
      var count := |responseHeaders|;
      var i := 1;
      while i < count
        invariant 1 <= i && i - 1 <= |pairs|
        invariant out == PhpArray.Store(map[], pairs[..i - 1])
      {
        var kv := ExplodedLine(responseHeaders[i]);
        assert kv == pairs[i - 1];
        out := out[kv.0 := kv.1];
        PhpArray.TakeSnoc(pairs, i - 1);
        PhpArray.StoreSnoc(map[], pairs[..i - 1], pairs[i - 1]);
        i := i + 1;
      }
      assert pairs[..i - 1] == pairs;
    }

    /** `getRequestHeaders`: the index as `setHeaders` left it. */
    function GetRequestHeaders(): (index: map<string, string>)
      reads this
      ensures index == requestHeaders
    {
      requestHeaders
    }

    /** `close`: clears response, error and request-header state and the
        method, body and header slots; the URL, the timeout and the fixed
        flags stay. */
    method Close()
      requires Valid()
      modifies this
      ensures Valid()
      ensures result == Null && errNo == None && errStr == None
      ensures responseHeaders == [] && requestHeaders == map[]
      ensures opts == old(opts).(httpMethod := None, content := None, header := None)
    {
      result := Null;
      errNo, errStr := None, None;
      responseHeaders := [];
      requestHeaders := map[];
      opts := opts.(httpMethod := None, content := None, header := None);
    }

    /** `prepareRequestOptions`: the verb upper-cased; the body written only
        for a non-DELETE verb with a payload, else left as it was; the
        timeout defaulted only when unset. */
    method PrepareRequestOptions(verb: string, payload: Payload)
      requires Valid()
      modifies this`opts
      ensures Valid()
      ensures opts == old(opts).(
        httpMethod := Some(ToUpper(verb)),
        content := if ToUpper(verb) != "DELETE" && !payload.Absent? then Some(payload.Body()) else old(opts.content),
        timeout := if old(opts.timeout).Some? then old(opts.timeout) else Some(DefaultTimeout))
    {
      var m := ToUpper(verb);
      opts := opts.(httpMethod := Some(m));
      if m != "DELETE" && !payload.Absent? {
        opts := opts.(content := Some(payload.Body()));
      }
      opts := opts.(timeout := if opts.timeout.Some? then opts.timeout else Some(DefaultTimeout));
    }

    /** `warningHandler`: the effect of the installed error handler. */
    method WarningHandler(level: Option<int>, message: Option<string>)
      modifies this`errNo, this`errStr
      ensures errNo == level && errStr == message
    {
      errNo, errStr := level, message;
    }
  }

  /** An allowed verb upper-cases to one of the four HTTP methods, and it
      is `DELETE` exactly for `delete`. */
  lemma UpperAllowed(verb: string)
    requires IsAllowedMethod(verb)
    ensures ToUpper(verb) in ["POST", "GET", "PUT", "DELETE"]
    ensures ToUpper(verb) == "DELETE" <==> verb == "delete"
  {
    if verb == "post" {
      UpperPost();
    } else if verb == "get" {
      UpperGet();
    } else if verb == "put" {
      UpperPut();
    } else {
      UpperDelete();
    }
  }

  lemma UpperPost() ensures ToUpper("post") == "POST" {}
  lemma UpperGet() ensures ToUpper("get") == "GET" {}
  lemma UpperPut() ensures ToUpper("put") == "PUT" {}
  lemma UpperDelete() ensures ToUpper("delete") == "DELETE" {}
}

/** A caller's view: what the contracts above let a client of the class
    conclude about one configured client across two requests and a reset. */
module ClientUsage {
  import opened Wrappers
  import opened HeaderCodec
  import opened RequestOptions
  import opened Dispatch
  import opened Client

  /** Upper-case verbs are refused before anything changes; headers set
      before stay in place. */
  method UpperCaseVerbChangesNothing()
  {
    var c := new FGCClient(Some("http://example.test/"));
    c.SetHeaders([(Name("Accept"), "application/json")]);
    assert c.requestHeaders["Connection"] == "close";
    UpperCaseVerbRejected(None, c.url);
    assert c.errNo == None;
    var r := c.Request("GET", None, Absent, Completed("", []));
    assert r == Failure(UnsupportedMethod);
    assert r.error.Message() == "HTTP method must be one of: [\"post\",\"get\",\"put\",\"delete\"]";
    assert c.errNo == None && c.requestHeaders["Connection"] == "close";
  }

  /** A 404 is a completed response, not a transport error. */
  method NotFoundIsNotAnError()
  {
    var c := new FGCClient(Some("http://example.test/"));
    assert IsAllowedMethod("post");
    var r := c.Request("post", None, Text("{\"a\":1}"), Completed("{}", ["HTTP/1.0 404 Not Found"]));
    assert r == Success("http://example.test/");
    NotFoundIs404();
    assert c.GetHttpStatusCode() == 404;
    assert c.GetErrorCode() == None;
    assert c.opts.content == Some("{\"a\":1}") && c.opts.timeout == Some(DefaultTimeout);
  }

  /** A DELETE after a POST still carries the POST's body; a thrown
      transport error keeps the earlier raw response; close keeps the
      timeout. */
  method DeleteAfterPostThenClose()
  {
    var c := new FGCClient(None);
    c.SetTimeout(5);
    assert IsAllowedMethod("post") && IsAllowedMethod("delete");
    var r := c.Request("post", Some("http://example.test/"), Text("x"), Completed("{}", ["HTTP/1.0 200 OK"]));
    assert c.opts.content == Some("x");
    UpperAllowed("delete");
    r := c.Request("delete", Some("http://other.test/"), Text("ignored"), Thrown(7, "refused"));
    assert r == Success("http://other.test/");
    assert c.opts.content == Some("x");
    assert c.GetRawResponse() == Body("{}");
    assert c.GetErrorCode() == Some(7) && c.GetHttpStatusCode() == 0;
    c.Close();
    assert c.opts.timeout == Some(5) && c.opts.content == None;
    assert c.GetErrorCode() == None && c.GetRequestHeaders() == map[];
  }
}
