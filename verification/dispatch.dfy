/** The checks `__call` makes before it touches any state: the verb
    allow-list and the choice of URL. */
module Dispatch {
  import opened Wrappers

  /** The verbs `__call` accepts, compared case-sensitively. */
  const AllowedMethods: seq<string> := ["post", "get", "put", "delete"]

  /** The two exceptions `__call` throws at its caller. */
  datatype UsageError = UnsupportedMethod | MissingUrl {
    function Message(): string {
      match this
      case UnsupportedMethod => "HTTP method must be one of: [\"post\",\"get\",\"put\",\"delete\"]"
      case MissingUrl => "URL must be passed either in constructor or in the method call!"
    }
  }

  predicate IsAllowedMethod(name: string) {
    name in AllowedMethods
  }

  /** The URL argument counts only when it is present and not empty. */
  function ArgumentUrl(urlArg: Option<string>): Option<string> {
    if urlArg.Some? && urlArg.value != "" then urlArg else None
  }

  /** `__call`'s validation: the verb first, then the URL, where the
      argument wins over the constructor's URL. On success, the URL the
      transport is called with. */
  function Validate(name: string, urlArg: Option<string>, bound: Option<string>): (r: Result<string, UsageError>)
    ensures r.Failure? && r.error == UnsupportedMethod <==> name !in AllowedMethods
    ensures r.Failure? && r.error == MissingUrl <==>
      name in AllowedMethods && (urlArg.None? || urlArg.value == "") && (bound.None? || bound.value == "")
    ensures r.Success? ==> r.value != ""
    ensures r.Success? && urlArg.Some? && urlArg.value != "" ==> r.value == urlArg.value
    ensures r.Success? && (urlArg.None? || urlArg.value == "") ==> bound == Some(r.value)
  {
    var arg := ArgumentUrl(urlArg);
    if !IsAllowedMethod(name) then Failure(UnsupportedMethod)
    else if arg.None? && (bound.None? || bound.value == "") then Failure(MissingUrl)
    else Success(if arg.Some? then arg.value else bound.value)
  }

  /** Verb names are matched exactly: upper- or mixed-case spellings are
      rejected even with a URL at hand. */
  lemma UpperCaseVerbRejected(urlArg: Option<string>, bound: Option<string>)
    ensures Validate("GET", urlArg, bound) == Failure(UnsupportedMethod)
    ensures Validate("Post", urlArg, bound) == Failure(UnsupportedMethod)
  {
  }
}
