/**
 The shared HTTP helper: how a request URL is formed from the base address,
 which body is sent, and how a non-2xx answer becomes an error carrying a
 message and the status. The transport itself is a parameter: a call is
 modelled from the response it received.
 */
module ApiClient {
  import opened Options
  import opened Text

  const DefaultBaseUrl := "http://localhost:5001"

  /** The constructor's choice: the argument, else the build-time setting, else the local default. */
  function BaseUrl(given: Option<string>, configured: Option<string>): (r: string)
    ensures given.Some? ==> r == given.value
    ensures given.None? && configured.Some? ==> r == configured.value
    ensures given.None? && configured.None? ==> r == DefaultBaseUrl
  {
    given.GetOr(configured.GetOr(DefaultBaseUrl))
  }

  predicate IsAbsolute(path: string) {
    StartsWith(path, "http://") || StartsWith(path, "https://")
  }

  /** `buildUrl`: absolute URLs pass through; anything else is joined to the base with exactly one added `/` at most. */
  function BuildUrl(base: string, path: string): (r: string)
    ensures IsAbsolute(path) ==> r == path
    ensures !IsAbsolute(path) && StartsWith(path, "/") ==> r == base + path
    ensures !IsAbsolute(path) && !StartsWith(path, "/") ==> r == base + "/" + path
  {
    if IsAbsolute(path) then path
    else base + (if StartsWith(path, "/") then path else "/" + path)
  }

  /** A relative path lands under the base: the URL starts with the base, ends with the path, and has a `/` between. */
  lemma RelativeUrlShape(base: string, path: string)
    requires !IsAbsolute(path)
    ensures var r := BuildUrl(base, path);
      && StartsWith(r, base) && EndsWith(r, path)
      && |r| > |base| && r[|base|] == '/'
  {
    var r := BuildUrl(base, path);
    assert r[..|base|] == base;
    assert r[|r| - |path|..] == path;
  }

  /** A leading `/` on a relative path is optional: both spellings reach the same URL. */
  lemma LeadingSlashOptional(base: string, path: string)
    requires !IsAbsolute(path) && !StartsWith(path, "/")
    ensures BuildUrl(base, "/" + path) == BuildUrl(base, path)
  {
    var p := "/" + path;
    assert StartsWith(p, "/") && p[0] == '/';
  }

  /** With an absolute base, a URL built once is absolute, so building it again leaves it alone. */
  lemma BuildUrlSettles(base: string, path: string)
    requires IsAbsolute(base)
    ensures BuildUrl(base, BuildUrl(base, path)) == BuildUrl(base, path)
  {
    var r := BuildUrl(base, path);
    if !IsAbsolute(path) {
      if StartsWith(base, "http://") {
        assert r[..7] == base[..7];
      } else {
        assert r[..8] == base[..8];
      }
    }
  }

  /**
   The default client reaches the local server by absolute URLs, while a given
   empty base is kept (`??` only skips a missing value) and sends relative paths
   to the page's own origin.
   */
  lemma BaseUrlChoiceReachesServer(configured: Option<string>, path: string)
    requires !IsAbsolute(path)
    ensures IsAbsolute(BuildUrl(BaseUrl(None, None), path))
    ensures StartsWith(BuildUrl(BaseUrl(None, None), path), DefaultBaseUrl + "/")
    ensures BaseUrl(Some(""), configured) == ""
    ensures StartsWith(BuildUrl(BaseUrl(Some(""), configured), path), "/")
  {
    var r := BuildUrl(DefaultBaseUrl, path);
    assert r[..|DefaultBaseUrl| + 1] == DefaultBaseUrl + "/";
    assert r[..7] == "http://";
    var e := BuildUrl("", path);
    assert e[..1] == "/";
  }

  // ----- requests -----

  datatype Method = Get | Post | Put | Delete | Patch

  function MethodName(m: Method): string {
    match m
    case Get => "GET"
    case Post => "POST"
    case Put => "PUT"
    case Delete => "DELETE"
    case Patch => "PATCH"
  }

  /** A request body as given by the caller: whether JavaScript treats it as true, and its JSON text. */
  datatype Payload = Payload(truthy: bool, json: string)

  /**
   The body actually sent: none for GET and DELETE; for POST only a truthy
   body; PUT and PATCH serialise whatever they are given.
   */
  function SentBody(m: Method, body: Option<Payload>): (r: Option<string>)
    ensures (m == Get || m == Delete) ==> r.None?
    ensures m == Post ==> (r.Some? <==> body.Some? && body.value.truthy)
    ensures (m == Put || m == Patch) ==> (r.Some? <==> body.Some?)
    ensures r.Some? ==> body.Some? && r.value == body.value.json
  {
    match m
    case Get => None
    case Delete => None
    case Post => if body.Some? && body.value.truthy then Some(body.value.json) else None
    case Put => if body.Some? then Some(body.value.json) else None
    case Patch => if body.Some? then Some(body.value.json) else None
  }

  /**
   The methods differ only in what they drop: POST sends what PUT sends except a
   falsy body, PUT and PATCH always agree, and GET and DELETE never send one.
   */
  lemma SentBodyAcrossMethods(body: Option<Payload>)
    ensures SentBody(Post, body) == SentBody(Put, body) <==> body.None? || body.value.truthy
    ensures SentBody(Put, body) == SentBody(Patch, body)
    ensures SentBody(Get, body) == SentBody(Delete, body) == None
  {
  }

  // ----- responses and errors -----

  /**
   A property of the parsed error body: a string, or another JSON value with
   its truthiness and the text `String(value)` gives it.
   */
  datatype Field = TextField(text: string) | OtherField(truthy: bool, shown: string)

  predicate FieldTruthy(f: Option<Field>) {
    match f
    case None => false
    case Some(TextField(s)) => s != ""
    case Some(OtherField(t, _)) => t
  }

  /** The text an `Error` built from the field carries. */
  function FieldText(f: Field): string {
    match f
    case TextField(s) => s
    case OtherField(_, shown) => shown
  }

  /** The parsed response body, of which only `detail` and `message` are read; both are missing when it is not an object. */
  datatype ResponseBody = ResponseBody(detail: Option<Field>, message: Option<Field>)

  /** A response: the status code and the body, `None` when it does not parse as JSON. */
  datatype Response = Response(status: int, body: Option<ResponseBody>)

  predicate IsOk(status: int) {
    200 <= status <= 299
  }

  datatype ApiError = ApiError(message: string, status: int)

  /** The fallback text when the body names no reason. */
  function DefaultMessage(m: Method, path: string, status: int): (r: string)
    ensures StartsWith(r, MethodName(m) + " " + path + " ")
    ensures EndsWith(r, IntToString(status))
  {
    var r := MethodName(m) + " " + path + " failed with " + IntToString(status);
    assert r[..|MethodName(m) + " " + path + " "|] == MethodName(m) + " " + path + " ";
    assert r[|r| - |IntToString(status)|..] == IntToString(status);
    r
  }

  /** `detail || message || default`: the first truthy field wins, and an empty string counts as missing. */
  function FailureMessage(m: Method, path: string, status: int, body: Option<ResponseBody>): (r: string)
    ensures body.Some? && FieldTruthy(body.value.detail) ==> r == FieldText(body.value.detail.value)
    ensures body.Some? && !FieldTruthy(body.value.detail) && FieldTruthy(body.value.message)
            ==> r == FieldText(body.value.message.value)
    ensures body.None? || (!FieldTruthy(body.value.detail) && !FieldTruthy(body.value.message))
            ==> r == DefaultMessage(m, path, status)
  {
    match body
    case None => DefaultMessage(m, path, status)
    case Some(b) =>
      if FieldTruthy(b.detail) then FieldText(b.detail.value)
      else if FieldTruthy(b.message) then FieldText(b.message.value)
      else DefaultMessage(m, path, status)
  }

  /** The message an error shows is never empty when its reason came from a text field. */
  lemma TextReasonNeverBlank(m: Method, path: string, status: int, body: Option<ResponseBody>)
    requires body.Some? ==> (body.value.detail.Some? ==> body.value.detail.value.TextField?)
    requires body.Some? ==> (body.value.message.Some? ==> body.value.message.value.TextField?)
    ensures FailureMessage(m, path, status, body) != ""
  {
  }

  /**
   What a call ends in: the parsed body; nothing, when DELETE gets a success
   answer without a readable body; `Unreadable`, the rejection without a status
   that `res.json()` raises for a success answer without a readable body to any
   other method; or a thrown error carrying the message and the status.
   */
  datatype CallResult = Returned(body: ResponseBody) | ReturnedNothing | Unreadable | Thrown(error: ApiError)

  /** One call, from the response it received. */
  function Complete(m: Method, path: string, res: Response): (r: CallResult)
    ensures r.Thrown? <==> !IsOk(res.status)
    ensures r.Thrown? ==> r.error == ApiError(FailureMessage(m, path, res.status, res.body), res.status)
    ensures r.Returned? ==> res.body == Some(r.body)
    ensures r.ReturnedNothing? <==> m == Delete && IsOk(res.status) && res.body.None?
    ensures r.Unreadable? <==> m != Delete && IsOk(res.status) && res.body.None?
  {
    if !IsOk(res.status) then Thrown(ApiError(FailureMessage(m, path, res.status, res.body), res.status))
    else match res.body
      case Some(b) => Returned(b)
      case None => if m == Delete then ReturnedNothing else Unreadable
  }

  /** The method changes only the fallback message: a body with a reason gives the same error for every method. */
  lemma ReasonIndependentOfMethod(m: Method, n: Method, path: string, res: Response)
    requires !IsOk(res.status) && res.body.Some?
    requires FieldTruthy(res.body.value.detail) || FieldTruthy(res.body.value.message)
    ensures Complete(m, path, res) == Complete(n, path, res)
  {
  }
}
