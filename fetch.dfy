/**
 * The HTTP client wrapper of src/lib/fetch.ts. `Request` builds what the wrapper hands
 * to `fetch` (the call is returned instead of sent) and `Receive` turns how that call
 * settles into the wrapper's result. GET and DELETE put their parameters in the path;
 * POST and PUT go through `HttpSend`, which sends the parameters as a JSON body, or,
 * when the EdgeOne compatibility flag is set, as a query string appended to the path
 * and no body at all.
 */
module Fetch {

  import opened Wrappers
  import opened JsValues
  import Utf8
  import FormUrlencoded

  /** `Object.entries(params)`: the parameter object's own keys and values, in enumeration order. */
  type Params = seq<(string, JsValue)>

  type Headers = map<string, string>

  /** The arguments of one `fetch(url, init)` call. */
  datatype FetchCall = FetchCall(url: string, verb: string, cache: string, headers: Headers, body: Option<string>)

  /** The collaborators the wrapper uses but does not define. */
  datatype Host = Host(
    edgeCompat: Option<string>,            // process.env.NEXT_PUBLIC_EDGE_COMPAT
    stringify: JsValue -> string,          // JSON.stringify
    buildPath: (string, Params) -> string) // buildPath of @/lib/url

  const Json := "application/json"

  const DefaultHeaders: Headers := map["Accept" := Json, "Content-Type" := Json]

  //
  // request
  //

  /** `{ Accept, 'Content-Type', ...headers }`: the two JSON defaults, overridden key by key by the caller. */
  function MergeHeaders(headers: Headers): (r: Headers)
    ensures r.Keys == headers.Keys + {"Accept", "Content-Type"}
    ensures forall k :: k in headers ==> r[k] == headers[k]
    ensures "Accept" !in headers ==> r["Accept"] == Json
    ensures "Content-Type" !in headers ==> r["Content-Type"] == Json
  {
    DefaultHeaders + headers
  }

  /**
   * The `fetch` call that `request` makes: `cache: 'no-cache'` (every call revalidates with
   * the server before a cached response is used), merged headers, the body as given.
   */
  function Request(verb: string, url: string, body: Option<string>, headers: Headers): (r: FetchCall)
    ensures r.verb == verb && r.url == url && r.body == body
    ensures r.cache == "no-cache" && r.headers == MergeHeaders(headers)
  {
    FetchCall(url, verb, "no-cache", MergeHeaders(headers), body)
  }

  /** How the `fetch` promise settles: a response with its status and body text, or a network error. */
  datatype Transport = Delivered(status: int, text: string) | NetworkError

  /** The two ways `request` rejects: the transport failed, or `res.json()` found no JSON. */
  datatype RequestError = TransportFailed | BodyNotJson

  /** The `FetchResponse` that `request` resolves to. */
  datatype FetchResponse = FetchResponse(ok: bool, status: int, data: JsValue)

  /** `Response.ok` of the Fetch Standard: the status is an ok status, 200 to 299. */
  predicate OkStatus(status: int)
  {
    200 <= status <= 299
  }

  /** The second half of `request`: the response's `ok` and `status`, and its body parsed as JSON. */
  function Receive(t: Transport, parseJson: string -> Option<JsValue>): (r: Result<FetchResponse, RequestError>)
    ensures t.NetworkError? ==> r == Failure(TransportFailed)
    ensures t.Delivered? ==> (r.Success? <==> parseJson(t.text).Some?)
    ensures t.Delivered? && parseJson(t.text).None? ==> r == Failure(BodyNotJson)
    ensures r.Success? ==> t.Delivered? && r.value.status == t.status && r.value.data == parseJson(t.text).value
    ensures r.Success? ==> (r.value.ok <==> OkStatus(t.status))
  {
    match t
    case NetworkError => Failure(TransportFailed)
    case Delivered(status, text) =>
      match parseJson(text)
      case None => Failure(BodyNotJson)
      case Some(data) => Success(FetchResponse(OkStatus(status), status, data))
  }

  //
  // httpGet and httpDelete
  //

  function HttpGet(path: string, params: Params, headers: Headers, host: Host): (r: FetchCall)
    ensures r.verb == "GET" && r.body == None && r.cache == "no-cache"
    ensures r.url == host.buildPath(path, params) && r.headers == MergeHeaders(headers)
  {
    Request("GET", host.buildPath(path, params), None, headers)
  }

  function HttpDelete(path: string, params: Params, headers: Headers, host: Host): (r: FetchCall)
    ensures r.verb == "DELETE" && r.body == None && r.cache == "no-cache"
    ensures r.url == host.buildPath(path, params) && r.headers == MergeHeaders(headers)
  {
    Request("DELETE", host.buildPath(path, params), None, headers)
  }

  //
  // httpSend, httpPost and httpPut
  //

  /** JavaScript truthiness of an environment variable: set and not the empty string. */
  predicate Truthy(flag: Option<string>)
  {
    flag.Some? && flag.value != ""
  }

  /** The query value of a parameter: JSON text when `typeof` says "object", `String(value)` otherwise. */
  function QueryValue(v: JsValue, stringify: JsValue -> string): string
  {
    if TypeOf(v) == "object" then stringify(v) else ToString(v)
  }

  /** The query pairs, in order: one per parameter whose value is not undefined. */
  function QueryEntries(params: Params, stringify: JsValue -> string): seq<(string, string)>
  {
    if params == [] then []
    else
      var (key, value) := params[|params| - 1];
      QueryEntries(params[..|params| - 1], stringify)
        + (if value.Undefined? then [] else [(key, QueryValue(value, stringify))])
  }

  /** How many parameters have a value other than undefined. */
  function DefinedCount(params: Params): nat
  {
    if params == [] then 0
    else DefinedCount(params[..|params| - 1]) + (if params[|params| - 1].1.Undefined? then 0 else 1)
  }

  function Separator(path: string): char
  {
    if '?' in path then '&' else '?'
  }

  /** What `httpSend` hands to `fetch`. */
  function Send(verb: string, path: string, params: Params, headers: Headers, host: Host): FetchCall
  {
    if Truthy(host.edgeCompat) then
      var query := FormUrlencoded.Serialize(QueryEntries(params, host.stringify));
      Request(verb, path + [Separator(path)] + query, None, headers)
    else
      Request(verb, path, Some(host.stringify(Object(params))), headers)
  }

  /** `httpSend`: fills a URLSearchParams object parameter by parameter, or sends the JSON body. */
  method HttpSend(verb: string, path: string, params: Params, headers: Headers, host: Host)
    returns (r: FetchCall)
    ensures r == Send(verb, path, params, headers, host)
  {
    if Truthy(host.edgeCompat) {
      var searchParams := new FormUrlencoded.SearchParams();
      var i := 0;
      while i < |params|
        invariant 0 <= i <= |params|
        invariant searchParams.list == QueryEntries(params[..i], host.stringify)
      {
        var (key, value) := params[i];
        assert params[..i + 1][..i] == params[..i];
        if !value.Undefined? {
          if TypeOf(value) == "object" {
            searchParams.Append(key, host.stringify(value));
          } else {
            searchParams.Append(key, ToString(value));
          }
        }
        i := i + 1;
      }
      assert params[..i] == params;
      var separator := Separator(path);
      var urlWithParams := path + [separator] + searchParams.ToString();
      r := Request(verb, urlWithParams, None, headers);
    } else {
      r := Request(verb, path, Some(host.stringify(Object(params))), headers);
    }
  }

  method HttpPost(path: string, params: Params, headers: Headers, host: Host) returns (r: FetchCall)
    ensures r == Send("POST", path, params, headers, host) && r.verb == "POST"
  {
    r := HttpSend("POST", path, params, headers, host);
  }

  method HttpPut(path: string, params: Params, headers: Headers, host: Host) returns (r: FetchCall)
    ensures r == Send("PUT", path, params, headers, host) && r.verb == "PUT"
  {
    r := HttpSend("PUT", path, params, headers, host);
  }

  //
  // What the encoding guarantees
  //

  /**
   * The query pairs correspond one to one, in order, to the parameters whose value is
   * not undefined: the parameter at index i lands at position DefinedCount(params[..i]),
   * a count that never decreases along the parameters.
   */
  lemma {:induction false} QueryEntriesExact(params: Params, stringify: JsValue -> string)
    ensures |QueryEntries(params, stringify)| == DefinedCount(params)
    ensures forall i :: 0 <= i < |params| && !params[i].1.Undefined? ==>
              DefinedCount(params[..i]) < |QueryEntries(params, stringify)|
              && QueryEntries(params, stringify)[DefinedCount(params[..i])]
                 == (params[i].0, QueryValue(params[i].1, stringify))
    ensures forall i, j :: 0 <= i <= j <= |params| ==> DefinedCount(params[..i]) <= DefinedCount(params[..j])
  {
    QueryEntriesLength(params, stringify);
    forall i | 0 <= i < |params| && !params[i].1.Undefined?
      ensures DefinedCount(params[..i]) < |QueryEntries(params, stringify)|
              && QueryEntries(params, stringify)[DefinedCount(params[..i])]
                 == (params[i].0, QueryValue(params[i].1, stringify))
    {
      QueryEntryAt(params, i, stringify);
    }
    forall i, j | 0 <= i <= j <= |params|
      ensures DefinedCount(params[..i]) <= DefinedCount(params[..j])
    {
      DefinedCountMonotone(params, i, j);
    }
  }

  lemma {:induction false} QueryEntriesLength(params: Params, stringify: JsValue -> string)
    ensures |QueryEntries(params, stringify)| == DefinedCount(params)
  {
    if params != [] {
      QueryEntriesLength(params[..|params| - 1], stringify);
    }
  }

  lemma {:induction false} QueryEntryAt(params: Params, i: nat, stringify: JsValue -> string)
    requires i < |params| && !params[i].1.Undefined?
    ensures DefinedCount(params[..i]) < |QueryEntries(params, stringify)|
    ensures QueryEntries(params, stringify)[DefinedCount(params[..i])]
            == (params[i].0, QueryValue(params[i].1, stringify))
  {
    var n := |params| - 1;
    var init := params[..n];
    QueryEntriesLength(init, stringify);
    QueryEntriesLength(params, stringify);
    if i < n {
      QueryEntryAt(init, i, stringify);
      assert init[..i] == params[..i];
      var q0 := QueryEntries(init, stringify);
      assert QueryEntries(params, stringify)[..|q0|] == q0;
    } else {
      assert params[..i] == init;
    }
  }

  lemma {:induction false} DefinedCountMonotone(params: Params, i: nat, j: nat)
    requires i <= j <= |params|
    ensures DefinedCount(params[..i]) <= DefinedCount(params[..j])
    decreases j - i
  {
    if i < j {
      DefinedCountMonotone(params, i, j - 1);
      assert params[..j][..j - 1] == params[..j - 1];
    }
  }

  /** Compatibility mode: no body, and the URL is the path, the separator and the serialized query. */
  lemma SendCompat(verb: string, path: string, params: Params, headers: Headers, host: Host)
    requires Truthy(host.edgeCompat)
    ensures var r := Send(verb, path, params, headers, host);
      && r.body == None
      && r.url == path + [Separator(path)] + FormUrlencoded.Serialize(QueryEntries(params, host.stringify))
      && |path| < |r.url| && r.url[..|path|] == path
      && (r.url[|path|] == '&' <==> '?' in path)
      && (r.url[|path|] == '?' <==> '?' !in path)
  {
    var r := Send(verb, path, params, headers, host);
    assert r.url[..|path|] == path;
  }

  /** With the flag unset or empty, the URL is the path as given and the body is the JSON text of the parameters. */
  lemma SendBody(verb: string, path: string, params: Params, headers: Headers, host: Host)
    requires !Truthy(host.edgeCompat)
    ensures var r := Send(verb, path, params, headers, host);
      r.url == path && r.body == Some(host.stringify(Object(params)))
  {
  }

  /** The text after the first "?" of a URL, its query; empty when there is no "?". */
  function QueryOf(url: string): string
  {
    if url == [] then []
    else if url[0] == '?' then url[1..]
    else QueryOf(url[1..])
  }

  lemma {:induction false} QueryOfFirstMark(a: string, b: string)
    requires '?' !in a
    ensures QueryOf(a + "?" + b) == b
  {
    if a == [] {
      assert a + "?" + b == ['?'] + b;
    } else {
      var u := a + "?" + b;
      assert u[0] == a[0] && u[1..] == a[1..] + "?" + b;
      QueryOfFirstMark(a[1..], b);
    }
  }

  lemma {:induction false} QueryOfExtend(a: string, x: string)
    requires '?' in a
    ensures QueryOf(a + x) == QueryOf(a) + x
  {
    var u := a + x;
    assert u[0] == a[0] && u[1..] == a[1..] + x;
    if a[0] != '?' {
      QueryOfExtend(a[1..], x);
    }
  }

  /**
   * Compatibility mode on a path without a query: parsing the text after the URL's first
   * `?` gives exactly the query pairs of the parameters, in order.
   */
  lemma CompatQueryDelivered(verb: string, path: string, params: Params, headers: Headers, host: Host)
    requires Truthy(host.edgeCompat) && '?' !in path
    ensures var r := Send(verb, path, params, headers, host);
      FormUrlencoded.Parse(Utf8.Encode(QueryOf(r.url))) == QueryEntries(params, host.stringify)
  {
    var list := QueryEntries(params, host.stringify);
    QueryOfFirstMark(path, FormUrlencoded.Serialize(list));
    FormUrlencoded.ParseSerialize(list);
  }

  /**
   * Compatibility mode on a path that already has a query: parsing the text after the
   * URL's first `?` gives the path's own pairs first, then exactly the query pairs of the
   * parameters.
   */
  lemma CompatQueryAppended(verb: string, path: string, params: Params, headers: Headers, host: Host)
    requires Truthy(host.edgeCompat) && '?' in path
    ensures var r := Send(verb, path, params, headers, host);
      FormUrlencoded.Parse(Utf8.Encode(QueryOf(r.url)))
      == FormUrlencoded.Parse(Utf8.Encode(QueryOf(path))) + QueryEntries(params, host.stringify)
  {
    var list := QueryEntries(params, host.stringify);
    var query := FormUrlencoded.Serialize(list);
    var r := Send(verb, path, params, headers, host);
    assert r.url == path + ("&" + query);
    QueryOfExtend(path, "&" + query);
    EncodeJoin(QueryOf(path), query);
    FormUrlencoded.ParseJoin(Utf8.Encode(QueryOf(path)), Utf8.Encode(query));
    FormUrlencoded.ParseSerialize(list);
  }

  lemma EncodeJoin(a: string, b: string)
    ensures Utf8.Encode(a + ("&" + b)) == Utf8.Encode(a) + [FormUrlencoded.Ampersand] + Utf8.Encode(b)
  {
    Utf8.EncodeAppend(a, "&" + b);
    Utf8.EncodeAppend("&", b);
    assert Utf8.Encode("&") == [FormUrlencoded.Ampersand];
  }
}
