/** Assembling the request descriptor handed to the transport: the flat
    parameter list, the configuration, the route template and the HTTP method
    become one URL, one header map, an optional body and an optional cookie
    map. The transport call itself is not part of this model. */
module RequestAssembly {
  import opened Values
  import opened UriEncoding
  import opened ParameterBuilding

  /** The configuration fields the assembly reads. */
  datatype Configuration = Configuration(
    basePath: Option<string>,
    servers: seq<string>,
    selectedServerIndex: int,
    bearerToken: Option<string>)

  /** The descriptor given to the transport. */
  datatype RequestParameters = RequestParameters(
    url: string,
    httpMethod: string,
    headers: map<string, Value>,
    body: Option<Value>,
    cookies: Option<map<string, Value>>)

  const JsonMediaType := "application/json"

  /** `config.bearerToken` is truthy: present and not empty. */
  predicate HasToken(config: Configuration)
  {
    config.bearerToken.Some? && config.bearerToken.value != ""
  }

  /** `config.basePath ?? ""`. */
  function BasePath(config: Configuration): string
  {
    if config.basePath.Some? then config.basePath.value else ""
  }

  // ---------------------------------------------------------------------
  // Reading the parameter list

  /** Some parameter has this location. */
  ghost predicate AnyAt(ps: seq<Parameter>, loc: string)
  {
    exists i :: 0 <= i < |ps| && ps[i].location == loc
  }

  /** Some parameter has this location and this name. */
  ghost predicate HasAt(ps: seq<Parameter>, loc: string, k: string)
  {
    exists i :: 0 <= i < |ps| && ps[i].location == loc && ps[i].name == k
  }

  /** `ps[i]` is the last parameter with this location and this name. */
  ghost predicate IsLastAt(ps: seq<Parameter>, loc: string, k: string, i: int)
  {
    0 <= i < |ps| && ps[i].location == loc && ps[i].name == k &&
    forall j :: i < j < |ps| ==> !(ps[j].location == loc && ps[j].name == k)
  }

  /** `ps[i]` is the first parameter with this location. */
  ghost predicate IsFirstAt(ps: seq<Parameter>, loc: string, i: int)
  {
    0 <= i < |ps| && ps[i].location == loc &&
    forall j :: 0 <= j < i ==> ps[j].location != loc
  }

  /** `params.filter((p) => p.location === loc)`. */
  function AtLocation(ps: seq<Parameter>, loc: string): (r: seq<Parameter>)
    // it keeps exactly the parameters at the location
    ensures forall p :: p in r ==> p in ps && p.location == loc
    ensures forall p :: p in ps && p.location == loc ==> p in r
  {
    if ps == [] then []
    else
      assert ps == ps[..|ps| - 1] + [ps[|ps| - 1]];
      AtLocation(ps[..|ps| - 1], loc) + (if ps[|ps| - 1].location == loc then [ps[|ps| - 1]] else [])
  }

  /** Filtering a list made of two parts filters each part and keeps them in
      that order: the filter keeps list order. */
  lemma {:induction false} AtLocationAppend(a: seq<Parameter>, b: seq<Parameter>, loc: string)
    ensures AtLocation(a + b, loc) == AtLocation(a, loc) + AtLocation(b, loc)
    decreases |b|
  {
    if b == [] {
      assert a + b == a;
    } else {
      var init, last := b[..|b| - 1], b[|b| - 1];
      assert (a + b)[..|a + b| - 1] == a + init && (a + b)[|a + b| - 1] == last;
      AtLocationAppend(a, init, loc);
    }
  }

  /** The filter keeps something exactly when some parameter has the location. */
  lemma {:induction false} AtLocationEmpty(ps: seq<Parameter>, loc: string)
    ensures AtLocation(ps, loc) == [] <==> !AnyAt(ps, loc)
  {
    if ps != [] {
      var init := ps[..|ps| - 1];
      AtLocationEmpty(init, loc);
      if AnyAt(init, loc) {
        var i :| 0 <= i < |init| && init[i].location == loc;
        assert ps[i].location == loc;
      }
      if ps[|ps| - 1].location != loc && AnyAt(ps, loc) {
        var i :| 0 <= i < |ps| && ps[i].location == loc;
        assert init[i].location == loc;
      }
    }
  }

  /** Filtering a list that is all at one location keeps all of it. */
  lemma {:induction false} AtLocationAll(ps: seq<Parameter>, loc: string)
    requires forall i :: 0 <= i < |ps| ==> ps[i].location == loc
    ensures AtLocation(ps, loc) == ps
  {
    if ps != [] {
      var init, last := ps[..|ps| - 1], ps[|ps| - 1];
      calc {
        AtLocation(ps, loc);
        { assert last.location == loc; }
        AtLocation(init, loc) + [last];
        { AtLocationAll(init, loc); }
        init + [last];
        { assert init + [last] == ps; }
        ps;
      }
    }
  }

  /** The names of the parameters. */
  function Names(ps: seq<Parameter>): set<string>
  {
    set i | 0 <= i < |ps| :: ps[i].name
  }

  /** `.reduce((acc, param) => { acc[param.name] = param.value; return acc; }, {})`:
      the parameters written into a map one after the other. */
  function Collect(ps: seq<Parameter>): (r: map<string, Value>)
    // its keys are exactly the parameters' names
    ensures r.Keys == Names(ps)
  {
    if ps == [] then map[]
    else Collect(ps[..|ps| - 1])[ps[|ps| - 1].name := ps[|ps| - 1].value]
  }

  /** Filtering then collecting one more parameter: it is written last. */
  lemma CollectSnoc(ps: seq<Parameter>, loc: string)
    requires ps != []
    ensures var init, last := ps[..|ps| - 1], ps[|ps| - 1];
      Collect(AtLocation(ps, loc)) ==
        if last.location == loc then Collect(AtLocation(init, loc))[last.name := last.value]
        else Collect(AtLocation(init, loc))
  {
    var a, last := AtLocation(ps[..|ps| - 1], loc), ps[|ps| - 1];
    if last.location == loc {
      assert AtLocation(ps, loc) == a + [last];
      assert (a + [last])[..|a|] == a;
    } else {
      assert AtLocation(ps, loc) == a + [];
      assert a + [] == a;
    }
  }

  /** A name occurs at a location in a list with one more parameter exactly
      when it occurs earlier or the new parameter is it. */
  lemma HasAtSnoc(ps: seq<Parameter>, loc: string, k: string)
    requires ps != []
    ensures var init, last := ps[..|ps| - 1], ps[|ps| - 1];
      HasAt(ps, loc, k) <==> HasAt(init, loc, k) || (last.location == loc && last.name == k)
  {
    var init := ps[..|ps| - 1];
    if HasAt(init, loc, k) {
      var i :| 0 <= i < |init| && init[i].location == loc && init[i].name == k;
      assert ps[i] == init[i];
    }
    if HasAt(ps, loc, k) {
      var i :| 0 <= i < |ps| && ps[i].location == loc && ps[i].name == k;
      if i < |ps| - 1 {
        assert init[i] == ps[i];
      }
    }
  }

  /** The map built from the parameters at one location has exactly their
      names as keys. */
  lemma {:induction false} CollectKeys(ps: seq<Parameter>, loc: string, k: string)
    ensures k in Collect(AtLocation(ps, loc)) <==> HasAt(ps, loc, k)
  {
    if ps != [] {
      CollectSnoc(ps, loc);
      CollectKeys(ps[..|ps| - 1], loc, k);
      HasAtSnoc(ps, loc, k);
    }
  }

  /** Under each name, that map holds the value of the last parameter with
      the name: a later parameter overwrites an earlier one. */
  lemma {:induction false} CollectLastWins(ps: seq<Parameter>, loc: string, k: string, i: int)
    requires IsLastAt(ps, loc, k, i)
    ensures k in Collect(AtLocation(ps, loc)) && Collect(AtLocation(ps, loc))[k] == ps[i].value
  {
    var init, last := ps[..|ps| - 1], ps[|ps| - 1];
    CollectSnoc(ps, loc);
    if i < |ps| - 1 {
      assert IsLastAt(init, loc, k, i) by {
        assert init[i] == ps[i];
        forall j | i < j < |init| ensures !(init[j].location == loc && init[j].name == k) {
          assert init[j] == ps[j];
        }
      }
      CollectLastWins(init, loc, k, i);
      assert !(last.location == loc && last.name == k);
    }
  }

  /** Whenever a name occurs at a location, one of its occurrences is the last. */
  lemma {:induction false} LastExists(ps: seq<Parameter>, loc: string, k: string)
    requires HasAt(ps, loc, k)
    ensures exists i :: IsLastAt(ps, loc, k, i)
  {
    var init, last := ps[..|ps| - 1], ps[|ps| - 1];
    if last.location == loc && last.name == k {
      assert IsLastAt(ps, loc, k, |ps| - 1);
    } else {
      var j :| 0 <= j < |ps| && ps[j].location == loc && ps[j].name == k;
      assert init[j].location == loc && init[j].name == k;
      LastExists(init, loc, k);
      var i :| IsLastAt(init, loc, k, i);
      assert IsLastAt(ps, loc, k, i);
    }
  }

  /** `params.find((p) => p.location === loc)`: the first parameter at the
      location, if there is one. */
  function Find(ps: seq<Parameter>, loc: string): (r: Option<Parameter>)
    ensures r.Some? <==> AnyAt(ps, loc)
    ensures r.Some? ==> exists i :: IsFirstAt(ps, loc, i)
    ensures forall i :: IsFirstAt(ps, loc, i) ==> r == Some(ps[i])
  {
    if ps == [] then None
    else if ps[0].location == loc then
      assert IsFirstAt(ps, loc, 0);
      Some(ps[0])
    else
      var r := Find(ps[1..], loc);
      assert forall i :: IsFirstAt(ps, loc, i) ==> IsFirstAt(ps[1..], loc, i - 1);
      assert forall i :: IsFirstAt(ps[1..], loc, i) ==> IsFirstAt(ps, loc, i + 1);
      assert AnyAt(ps, loc) ==> AnyAt(ps[1..], loc) by {
        if AnyAt(ps, loc) {
          var i :| 0 <= i < |ps| && ps[i].location == loc;
          assert ps[1..][i - 1].location == loc;
        }
      }
      r
  }

  // ---------------------------------------------------------------------
  // Path substitution

  /** `pat` occurs in `s` starting at index `i`. */
  predicate OccursAt(s: string, pat: string, i: int)
  {
    0 <= i && i + |pat| <= |s| && s[i..i + |pat|] == pat
  }

  /** `i` is where `pat` first occurs in `s`. */
  ghost predicate IsFirstOccurrence(s: string, pat: string, i: int)
  {
    OccursAt(s, pat, i) && forall j :: 0 <= j < i ==> !OccursAt(s, pat, j)
  }

  /** `s.indexOf(pat, from)`, as an option. */
  function IndexOf(s: string, pat: string, from: nat): (r: Option<nat>)
    requires from <= |s|
    ensures r.Some? ==> from <= r.value && OccursAt(s, pat, r.value) &&
                        forall j :: from <= j < r.value ==> !OccursAt(s, pat, j)
    ensures r.None? ==> forall j :: from <= j ==> !OccursAt(s, pat, j)
    decreases |s| - from
  {
    if OccursAt(s, pat, from) then Some(from)
    else if from == |s| then None
    else IndexOf(s, pat, from + 1)
  }

  /** `s.replace(pat, rep)` with a text pattern: only the first occurrence is
      replaced, and text without one is returned as it is. The replacement
      holds no `$`, so it is inserted literally. */
  function ReplaceFirst(s: string, pat: string, rep: string): (r: string)
    requires '$' !in rep
    ensures (forall j :: 0 <= j ==> !OccursAt(s, pat, j)) ==> r == s
    ensures forall i :: IsFirstOccurrence(s, pat, i) ==> r == s[..i] + rep + s[i + |pat|..]
  {
    match IndexOf(s, pat, 0)
    case None => s
    case Some(i) => s[..i] + rep + s[i + |pat|..]
  }

  /** The placeholder of a path parameter in the route template. */
  function Placeholder(name: string): (r: string)
    ensures |r| == |name| + 2 && r[0] == '{' && r[|r| - 1] == '}' && r[1..|r| - 1] == name
  {
    "{" + name + "}"
  }

  /** Different names have different placeholders, so two path parameters
      never compete for one placeholder. */
  lemma PlaceholderInjective(a: string, b: string)
    ensures Placeholder(a) == Placeholder(b) ==> a == b
  {
    assert Placeholder(a)[1..|Placeholder(a)| - 1] == a;
    assert Placeholder(b)[1..|Placeholder(b)| - 1] == b;
  }

  /** Every path parameter carries text. */
  predicate PathValuesAreText(ps: seq<Parameter>)
  {
    forall p :: p in ps && p.location == "path" ==> p.value.Str?
  }

  /** The route template after each path parameter, in list order, has
      replaced the first occurrence of its placeholder by its encoded value. */
  function Substitute(path: string, pathParams: seq<Parameter>): (r: string)
    requires forall p :: p in pathParams ==> p.value.Str?
    // a template without placeholders comes back as it is
    ensures '{' !in path ==> r == path
    decreases |pathParams|
  {
    if pathParams == [] then path
    else
      var p := pathParams[0];
      NoBraceNoPlaceholder(path, p.name);
      Substitute(ReplaceFirst(path, Placeholder(p.name), EncodeUriComponent(p.value.s)), pathParams[1..])
  }

  /** A placeholder starts with `{`, so text without `{` holds none. */
  lemma NoBraceNoPlaceholder(path: string, name: string)
    ensures '{' !in path ==> forall j :: 0 <= j ==> !OccursAt(path, Placeholder(name), j)
  {
    forall j | 0 <= j && OccursAt(path, Placeholder(name), j) ensures '{' in path {
      assert path[j..j + |Placeholder(name)|][0] == path[j];
    }
  }

  // ---------------------------------------------------------------------
  // The descriptor

  /** `[p.name, p.value]` for each query parameter, the value as
      `URLSearchParams` converts it to text. */
  function QueryPairs(qs: seq<Parameter>): (r: seq<(string, string)>)
    ensures |r| == |qs|
  {
    seq(|qs|, i requires 0 <= i < |qs| => (qs[i].name, ToText(qs[i].value)))
  }

  /** The URL: base path, the selected server, the substituted path, and for a
      `get` with query parameters `?` and all of them, in order. */
  ghost predicate UrlIs(config: Configuration, path: string, httpMethod: string, params: seq<Parameter>, url: string)
    requires 0 <= config.selectedServerIndex < |config.servers|
    requires PathValuesAreText(params)
  {
    url == BasePath(config) + config.servers[config.selectedServerIndex]
             + Substitute(path, AtLocation(params, "path"))
             + (if httpMethod == "get" && AnyAt(params, "query")
                then "?" + FormSerialize(QueryPairs(AtLocation(params, "query")))
                else "")
  }

  /** The headers: `accept` and `Content-Type` set to JSON, every header
      parameter's name with the value of the last one of that name (which may
      replace a baseline header), and, with a bearer token, `Authorization`
      set to `Bearer <token>` whatever the header parameters say. */
  ghost predicate HeadersAre(config: Configuration, params: seq<Parameter>, headers: map<string, Value>)
  {
    (forall k :: k in headers <==>
       k == "accept" || k == "Content-Type" || HasAt(params, "header", k) || (k == "Authorization" && HasToken(config))) &&
    (HasToken(config) ==>
       "Authorization" in headers && headers["Authorization"] == Str("Bearer " + config.bearerToken.value)) &&
    (forall k, i :: IsLastAt(params, "header", k, i) && !(k == "Authorization" && HasToken(config)) ==>
       k in headers && headers[k] == params[i].value) &&
    (!HasAt(params, "header", "accept") ==> "accept" in headers && headers["accept"] == Str(JsonMediaType)) &&
    (!HasAt(params, "header", "Content-Type") ==> "Content-Type" in headers && headers["Content-Type"] == Str(JsonMediaType))
  }

  /** The body is the value of the first body parameter, absent without one. */
  ghost predicate BodyIs(params: seq<Parameter>, body: Option<Value>)
  {
    (body.Some? <==> AnyAt(params, "body")) &&
    (forall i :: IsFirstAt(params, "body", i) ==> body == Some(params[i].value))
  }

  /** The cookies are present exactly when some cookie parameter is; they map
      each cookie name to the value of the last cookie parameter of that name. */
  ghost predicate CookiesAre(params: seq<Parameter>, cookies: Option<map<string, Value>>)
  {
    (cookies.Some? <==> AnyAt(params, "cookie")) &&
    (cookies.Some? ==>
       (forall k :: k in cookies.value <==> HasAt(params, "cookie", k)) &&
       (forall k, i :: IsLastAt(params, "cookie", k, i) ==> k in cookies.value && cookies.value[k] == params[i].value))
  }

  /** Everything `request` promises about the descriptor it builds. */
  ghost predicate Describes(config: Configuration, path: string, httpMethod: string, params: seq<Parameter>, rp: RequestParameters)
    requires 0 <= config.selectedServerIndex < |config.servers|
    requires PathValuesAreText(params)
  {
    rp.httpMethod == httpMethod && UrlIs(config, path, httpMethod, params, rp.url) &&
    HeadersAre(config, params, rp.headers) && BodyIs(params, rp.body) && CookiesAre(params, rp.cookies)
  }

  /** The keys of the header map `request` builds: the baseline names, the
      header-parameter names and, with a token, `Authorization`. */
  lemma HeaderKeys(config: Configuration, params: seq<Parameter>)
    ensures
      var collected := Collect(AtLocation(params, "header"));
      var additional := if HasToken(config)
        then collected["Authorization" := Str("Bearer " + config.bearerToken.value)]
        else collected;
      var headers := map["accept" := Str(JsonMediaType), "Content-Type" := Str(JsonMediaType)] + additional;
      forall k :: k in headers <==>
        k == "accept" || k == "Content-Type" || HasAt(params, "header", k) || (k == "Authorization" && HasToken(config))
  {
    forall k ensures k in Collect(AtLocation(params, "header")) <==> HasAt(params, "header", k) {
      CollectKeys(params, "header", k);
    }
  }

  /** The header map `request` builds (the baseline, then the collected header
      parameters, then the bearer token) meets `HeadersAre`. */
  lemma BaselineThenHeaders(config: Configuration, params: seq<Parameter>)
    ensures
      var collected := Collect(AtLocation(params, "header"));
      var additional := if HasToken(config)
        then collected["Authorization" := Str("Bearer " + config.bearerToken.value)]
        else collected;
      HeadersAre(config, params, map["accept" := Str(JsonMediaType), "Content-Type" := Str(JsonMediaType)] + additional)
  {
    var collected := Collect(AtLocation(params, "header"));
    var additional := if HasToken(config)
      then collected["Authorization" := Str("Bearer " + config.bearerToken.value)]
      else collected;
    var headers := map["accept" := Str(JsonMediaType), "Content-Type" := Str(JsonMediaType)] + additional;
    HeaderKeys(config, params);
    forall k, i | IsLastAt(params, "header", k, i) && !(k == "Authorization" && HasToken(config))
      ensures k in headers && headers[k] == params[i].value
    {
      CollectLastWins(params, "header", k, i);
    }
    CollectKeys(params, "header", "accept");
    CollectKeys(params, "header", "Content-Type");
  }

  /** The body `request` picks meets `BodyIs`. */
  lemma FirstBody(params: seq<Parameter>)
    ensures var found := Find(params, "body");
      BodyIs(params, if found.Some? then Some(found.value.value) else None)
  {
  }

  /** The cookie map `request` builds meets `CookiesAre`. */
  lemma CookieMap(params: seq<Parameter>)
    ensures CookiesAre(params, if Find(params, "cookie").Some? then Some(Collect(AtLocation(params, "cookie"))) else None)
  {
    var collected := Collect(AtLocation(params, "cookie"));
    forall k ensures k in collected <==> HasAt(params, "cookie", k) {
      CollectKeys(params, "cookie", k);
    }
    forall k, i | IsLastAt(params, "cookie", k, i) ensures k in collected && collected[k] == params[i].value {
      CollectLastWins(params, "cookie", k, i);
    }
  }

  /** The loop over the path parameters, reassigning the path: the result is
      the template with each placeholder substituted, in list order. */
  method ReplacePathParameters(path: string, pathParams: seq<Parameter>) returns (substituted: string)
    requires forall p :: p in pathParams ==> p.value.Str?
    ensures substituted == Substitute(path, pathParams)
  {
    substituted := path;
    var i := 0;
    while i < |pathParams|
      invariant 0 <= i <= |pathParams|
      invariant Substitute(substituted, pathParams[i..]) == Substitute(path, pathParams)
    {
      var pathParam := pathParams[i];
      assert pathParams[i..][1..] == pathParams[i + 1..];
      substituted := ReplaceFirst(substituted, Placeholder(pathParam.name), EncodeUriComponent(pathParam.value.s));
      i := i + 1;
    }
    assert pathParams[i..] == [];
  }

  /** `request(config, path, httpMethod, params)` up to the transport call: the
      descriptor it hands to `config.transport`. */
  method Request(config: Configuration, path: string, httpMethod: string, params: seq<Parameter>)
    returns (rp: RequestParameters)
    requires 0 <= config.selectedServerIndex < |config.servers|
    requires PathValuesAreText(params)
    ensures rp.httpMethod == httpMethod
    ensures UrlIs(config, path, httpMethod, params, rp.url)
    ensures HeadersAre(config, params, rp.headers)
    ensures BodyIs(params, rp.body)
    ensures CookiesAre(params, rp.cookies)
  {
    // replace path parameters with values
    var substituted := ReplacePathParameters(path, AtLocation(params, "path"));

    var url := BasePath(config) + config.servers[config.selectedServerIndex] + substituted;

    // build the query string
    var queryParams := AtLocation(params, "query");
    AtLocationEmpty(params, "query");
    if httpMethod == "get" && |queryParams| > 0 {
      url := url + ("?" + FormSerialize(QueryPairs(queryParams)));
    }
    assert UrlIs(config, path, httpMethod, params, url);

    // add additional headers, then the bearer token
    var additionalHeaders := Collect(AtLocation(params, "header"));
    if HasToken(config) {
      additionalHeaders := additionalHeaders["Authorization" := Str("Bearer " + config.bearerToken.value)];
    }

    rp := RequestParameters(url, httpMethod,
      map["accept" := Str(JsonMediaType), "Content-Type" := Str(JsonMediaType)] + additionalHeaders,
      None, None);

    var bodyParam := Find(params, "body");
    if bodyParam.Some? {
      rp := rp.(body := Some(bodyParam.value.value));
    }

    // add cookie params if they exist
    var cookieParam := Find(params, "cookie");
    if cookieParam.Some? {
      rp := rp.(cookies := Some(Collect(AtLocation(params, "cookie"))));
    }

    BaselineThenHeaders(config, params);
    FirstBody(params);
    CookieMap(params);
  }

  /** The promises of `request` leave no freedom: two descriptors that both
      meet them for the same configuration, template, method and parameters
      are the same descriptor. So assembling a request twice from the same
      inputs gives the same descriptor. */
  lemma {:induction false} DescriptorDetermined(config: Configuration, path: string, httpMethod: string,
                                                params: seq<Parameter>, a: RequestParameters, b: RequestParameters)
    requires 0 <= config.selectedServerIndex < |config.servers|
    requires PathValuesAreText(params)
    requires Describes(config, path, httpMethod, params, a)
    requires Describes(config, path, httpMethod, params, b)
    ensures a == b
  {
    forall k | k in a.headers ensures k in b.headers && a.headers[k] == b.headers[k] {
      if !(k == "Authorization" && HasToken(config)) && HasAt(params, "header", k) {
        LastExists(params, "header", k);
      }
    }
    assert a.headers == b.headers;
    if a.body.Some? {
      var found := Find(params, "body");
      var i :| IsFirstAt(params, "body", i);
    }
    assert a.body == b.body;
    if a.cookies.Some? {
      forall k | k in a.cookies.value ensures a.cookies.value[k] == b.cookies.value[k] {
        LastExists(params, "cookie", k);
      }
      assert a.cookies.value == b.cookies.value;
    }
  }
}
