# Request assembly of a generated API client

This project models the request-assembly layer of a generated TypeScript API
client and proves properties of the model in Dafny. The layer has two steps.

1. `ParameterBuilder.add(name, value, type, location)` turns one typed method
   argument into zero or more flat `{name, value, location}` parameters. It
   appends them to the one list the builder owns. There are three cases:
   - A registered model type is exploded into one parameter per property, or
     joined into one parameter (in a path, or serialized whole in a body).
   - An array type (`T[]`) gives one parameter per element, or one
     comma-separated parameter in a path.
   - Any other type is a scalar and gives one serialized parameter.
2. `request(config, path, method, params)` folds that list into the request
   descriptor handed to the transport:
   - the URL, with path placeholders substituted and, for `get`, the query
     string;
   - the header map, made of the JSON baseline, then the header parameters,
     then the bearer token;
   - the optional body, which is the first body parameter;
   - the optional cookie map.

Modules:

- `Values` (`values.dfy`): the JavaScript values an argument may hold. It
  defines `String(v)` as `ToText` and `Array.prototype.join` as `Join`.
- `UriEncoding` (`uri_encoding.dfy`): the two standard encoders, written out
  over Unicode scalar values through UTF-8:
  - ECMA-262 `encodeURIComponent`, with a decoder and a round-trip proof;
  - the application/x-www-form-urlencoded serializer of the WHATWG URL
    Standard, section 5.2, which is how `URLSearchParams` becomes text. Each
    name and value has a decoder and a round-trip proof. The whole query text
    is proved to be the `&`-join of the encoded `name=value` pairs, in order.
- `ParameterBuilding` (`parameter_builder.dfy`): the `ParameterBuilder` class.
  It has a `seq<Parameter>` field and the `Add` method. `Add` is proved
  against the specification function `Expansion`.
- `RequestAssembly` (`request.dfy`): the `Request` method. It is proved
  against the predicates `UrlIs`, `HeadersAre`, `BodyIs` and `CookiesAre`.
  Lemmas show that these predicates leave exactly one possible descriptor.
- `Scenarios` (`scenarios.dfy`): properties that span both steps. It includes
  a generated API method, which builds the list with the class and hands it
  to `Request`. It also works through three examples: a `/users/{id}` path
  argument, a `filter` model exploded into the query, and two query
  parameters with the same name.

Some collaborators are passed in rather than modelled:
- The serializer is a function parameter of type `(Value, string) -> string`.
- The model registry is a `map` from type name to its declared properties.
- The configuration holds only the fields `request` reads.

Two behaviours of the code are worth stating outright:
- **`Authorization` precedence.** A header parameter named `Authorization`
  does not win over a non-empty bearer token. The token is assigned after
  the header parameters are collected (template/request.ts:56-58).
  `HeadersAre` states that.
- **Absent placeholder.** A path parameter whose placeholder does not occur
  in the template leaves the path unchanged and raises no error.
  `ReplaceFirst` states that.

## Model

| member | source | states |
|---|---|---|
| ParameterBuilding.ParameterBuilder.constructor | template/parameterBuilder.ts:13 | A new builder holds no parameters, so it trivially keeps its invariant that path and body parameters carry text. |
| ParameterBuilding.ParameterBuilder.Add | template/parameterBuilder.ts:15-81 | `add` only appends: the new list is the old list, unchanged, followed by exactly `Expansion` of the argument. Path and body parameters keep carrying text. Both `forEach` loops are proved against `ExplodeProperties` and `ExplodeItems`. |
| ParameterBuilding.Expansion | template/parameterBuilder.ts:17-80 | Lists the parameters one `add` appends, branch by branch. Every one carries the `location` argument. The model check comes before the `[]` check, so a model type whose name ends in `[]` is treated as a model. Model at `path`: one parameter whose value is the comma-join of the alternating property names and serialized values. Model at `body`: one parameter, `serialize(value, type)`. Model elsewhere: one parameter per property, named after it, holding the raw property value. Array at `path`: one parameter, the comma-join of the serialized elements. Array elsewhere: one parameter per element, all named `name`, the i-th holding `serialize(value[i], T)`. Scalar: exactly one parameter `{name, serialize(value, type), location}`. |
| ParameterBuilding.PathValueAlternates | template/parameterBuilder.ts:24-28 | Joining the `name,value` texts with `,` gives the same text as joining the alternating list name1, value1, name2, value2, … with `,`. |
| ParameterBuilding.AlternationLength | template/parameterBuilder.ts:24-28 | The alternating list has two entries per property. |
| ParameterBuilding.ExplodeProperties | template/parameterBuilder.ts:44-50 | There is one parameter per declared property, in declaration order. The i-th is named after property i and holds its raw value. |
| ParameterBuilding.ItemTexts | template/parameterBuilder.ts:57 | There is one text per element, in order. The i-th is `serialize(items[i], itemType)`. |
| ParameterBuilding.ExplodeItems | template/parameterBuilder.ts:65-71 | There is one parameter per element, in order. All are named after the argument, and the i-th holds the serialized element i. |
| ParameterBuilding.IsArrayType | template/parameterBuilder.ts:52 | `endsWith("[]")` holds exactly for the type names of the form `T[]`, for some type name `T`. |
| ParameterBuilding.ArrayTypeRoundTrip | template/parameterBuilder.ts:52-53 | For every type `t`, `t[]` is an array type and its element type is `t` again. |
| ParameterBuilding.PropertyTexts | template/parameterBuilder.ts:24-27 | There is one text per declared property, in order. The i-th is `name,serialize(value[name], type)` of property i. |
| ParameterBuilding.ItemType | template/parameterBuilder.ts:53 | The element type followed by `[]` is the array type, so the slice drops exactly the marker. |
| RequestAssembly.AtLocation | template/request.ts:38 | The filter keeps exactly the parameters of the list that are at the location: nothing else, and none of them is dropped. |
| RequestAssembly.AtLocationAppend | template/request.ts:38 | Filtering two lists placed one after the other gives the two filtered lists in that order, so the filter keeps list order. |
| RequestAssembly.AtLocationEmpty | template/request.ts:38-39 | The filtered list is empty exactly when no parameter is at the location. |
| RequestAssembly.AtLocationAll | template/request.ts:38 | Filtering a list whose parameters are all at the location returns the list unchanged, order included. |
| RequestAssembly.Collect | template/request.ts:48-53 | The reduced map has exactly the parameters' names as keys. |
| RequestAssembly.CollectSnoc | template/request.ts:48-53 | When the list grows by one parameter, the map is rewritten only if that parameter is at the location, and only under its name. |
| RequestAssembly.CollectKeys | template/request.ts:48-53 | The keys of the map reduced from the parameters at a location are exactly their names. |
| RequestAssembly.CollectLastWins | template/request.ts:50-52 | Under each name, the reduced map holds the value of the last parameter with that name: a later one overwrites an earlier one. |
| RequestAssembly.Find | template/request.ts:70 | `find` gives a result exactly when some parameter is at the location. That result is the first such parameter. |
| RequestAssembly.PlaceholderInjective | template/request.ts:29 | Different names have different `{name}` placeholders, so two path parameters with different names never compete for one placeholder. |
| RequestAssembly.IndexOf | template/request.ts:28-31 | Either it gives an index where the pattern occurs with no occurrence between `from` and that index, or it gives none and the pattern does not occur at or after `from`. |
| RequestAssembly.ReplaceFirst | template/request.ts:28-31 | Only the first occurrence of the placeholder is replaced. Text without one is returned unchanged, with no error. |
| RequestAssembly.Substitute | template/request.ts:27-32 | A template without `{` comes back unchanged, whatever the path parameters. |
| RequestAssembly.ReplacePathParameters | template/request.ts:27-32 | The loop processes the path parameters in list order. Each one replaces the first occurrence of its placeholder with its `encodeURIComponent` text, which is `Substitute`. |
| RequestAssembly.QueryPairs | template/request.ts:43 | There is one `[name, value]` pair per query parameter. |
| RequestAssembly.HeaderKeys | template/request.ts:48-68 | The header map `request` builds has exactly the baseline names, the header-parameter names and, with a non-empty token, `Authorization` as keys. |
| RequestAssembly.BaselineThenHeaders | template/request.ts:48-68 | The header map `request` builds has: `accept` and `Content-Type` set to `application/json` unless a header parameter of that name overrides them; for each header name, the value of its last parameter; with a non-empty token, `Authorization` set to `Bearer <token>`, overriding any parameter; and exactly the baseline names, the header-parameter names and `Authorization` (when a token is set) as keys. |
| RequestAssembly.FirstBody | template/request.ts:70-73 | The body is the value of the first body parameter, and is absent when there is none. |
| RequestAssembly.CookieMap | template/request.ts:75-84 | The cookies are present exactly when a cookie parameter exists. They map each cookie name to the value of the last cookie parameter of that name, and have no other keys. |
| RequestAssembly.Request | template/request.ts:20-85 | The descriptor keeps the input method. Its URL is `(basePath ?? "") + servers[selectedServerIndex] + substituted path`, where `BasePath` is the definition of `??` and `HasToken` is the definition of the token's truthiness (present and not empty). For `get` with at least one query parameter, `"?"` and all query pairs follow, in list order, duplicates included. Headers, body and cookies are as above. |
| RequestAssembly.DescriptorDetermined | template/request.ts:20-85 | At most one descriptor meets all these promises for the same configuration, template, method and parameters. So two assemblies from the same inputs give the same descriptor. |
| UriEncoding.EncodeUriComponent | template/request.ts:30 | The result holds only unreserved characters, `%` and hexadecimal digits, so it holds no `$`, `{` or `}`. Text needing no escape is unchanged. |
| UriEncoding.EncodeUriWellEscaped | template/request.ts:30 | Every `%` in `encodeURIComponent(s)` starts a complete `%XX` escape: no bare `%` comes out. |
| UriEncoding.UriRoundTrip | template/request.ts:30 | Percent-decoding `encodeURIComponent(s)` gives exactly the UTF-8 bytes of `s`. |
| UriEncoding.FormEncode | template/request.ts:42-44 | An encoded name or value holds only form-safe characters, `+`, `%` and hexadecimal digits, and no `&` or `=`. |
| UriEncoding.FormEncodeWellEscaped | template/request.ts:42-44 | Every `%` in an encoded name or value starts a complete `%XX` escape. |
| UriEncoding.FormRoundTrip | template/request.ts:42-44 | Form-decoding an encoded name or value gives exactly its UTF-8 bytes. |
| UriEncoding.FormSerialize | template/request.ts:42-44 | The query text is empty exactly when there are no pairs. |
| UriEncoding.EncodedPairs | template/request.ts:42-44 | There is one `name=value` text per pair, in order. |
| UriEncoding.SerializeIsJoin | template/request.ts:42-44 | The query text is every pair's encoded `name=value`, in order, joined with `&`, duplicate names included. |
| UriEncoding.SerializeKeepsEveryPair | template/request.ts:42-44 | The query text holds exactly one `=` per pair, and exactly one `&` fewer than there are pairs. |
| UriEncoding.FormEncodeSafeText | template/request.ts:42-44 | Text made only of safe characters is encoded as itself. |
| UriEncoding.SerializeTwo | template/request.ts:42-44 | Two pairs are written as the first, `&`, then the second. |
| Values.ToText | template/request.ts:43 | `String(v)` returns a string as itself. A number becomes its decimal notation (digits only, no leading zero), with `-` in front when negative, and that notation reads back to the number. |
| Values.Join | template/parameterBuilder.ts:28 | `join(sep)` keeps every part: the result is as long as all parts together plus one separator between each two neighbours. |
| Values.JoinCons | template/parameterBuilder.ts:57 | Read from the front, a join of two or more parts is the first part, the separator, then the join of the rest. |
| Scenarios.ExplodedModelQuery | template/parameterBuilder.ts:42-50 | A model argument in the query yields one query pair per declared property, in order: the property's name and its value as text. |
| Scenarios.ExplodedArrayQuery | template/parameterBuilder.ts:63-71 | An array argument in the query yields one query pair per element, all under the argument's name. |
| Scenarios.ScalarPathArgument | template/request.ts:27-32 | A scalar path argument fills the first occurrence of its placeholder with its serialized, URI-encoded value. |
| Scenarios.BuiltPathValuesAreText | template/parameterBuilder.ts:30-79 | The builder's invariant gives what `request` needs: every path parameter holds text. |
| Scenarios.Expansions | template/parameterBuilder.ts:15-81 | The parameters of a sequence of arguments keep path and body parameters textual. |
| Scenarios.ExpansionsStep | template/parameterBuilder.ts:15-81 | One more argument appends its own expansion after the parameters of the earlier ones. |
| Scenarios.BuildParameters | template/parameterBuilder.ts:15-81 | One `add` per argument on a fresh builder gives the arguments' parameters, argument by argument. |
| Scenarios.CallOperation | template/request.ts:20-85 | A generated API method gives the one descriptor that `Request` promises for the parameters of its arguments. |
| Scenarios.UserIdExample | template/request.ts:27-32 | `id` = `"42"` in `/users/{id}` gives `/users/42`. |
| Scenarios.SafePairs | template/request.ts:39-44 | Two pairs of safe text give `n1=v1&n2=v2`. |
| Scenarios.DuplicateQueryExample | template/request.ts:39-44 | Two query parameters named `a` give `a=1&a=2`: both are kept, in order. |
| Scenarios.FilterPairs | template/parameterBuilder.ts:42-50 | The model value `{status: "active", limit: 5}` in the query gives the pairs `status`/`active` and `limit`/`5`, in declaration order. |
| Scenarios.FiveText | template/request.ts:43 | `String(5)` is `5`. |
| Scenarios.FilterQueryText | template/request.ts:42-44 | Those two pairs are written `status=active&limit=5`. |
| Scenarios.FilterModelExample | template/request.ts:42-44 | Together: the `filter` model argument placed in the query serializes as `status=active&limit=5`. |

## Left out

- The transport call, `await config.transport(requestParams)` (template/request.ts:86). It is an asynchronous network call. `Request` returns the descriptor it would be given.
- The serializer and the model module are not part of this model; they are passed in. Their internals, including any error the serializer raises for an unknown type, are outside it.
- The configuration module is not part of this model. Only the four fields `request` reads are modelled.
- Numbers are integers only. Fractions, exponent notation, `NaN` and infinities are not modelled, so neither is how `String(v)` writes them.
- `undefined` is not a value here. The cases where the code would read it are excluded by preconditions, as are `.toString()` on a non-text path value and `value.map` (template/parameterBuilder.ts:57) or `value.forEach` (template/parameterBuilder.ts:65) on a non-array:
  - `Readable` requires that a model argument has every declared property and that an array argument is an array.
  - `PathValuesAreText` requires that path parameters hold text. The builder's invariant guarantees it.
  - `Request` requires that the selected server index is in range.
- JavaScript strings are UTF-16, but a Dafny `char` is a Unicode scalar value, so lone surrogates are not modelled. In the source, `encodeURIComponent` throws `URIError` on a lone surrogate (template/request.ts:30), and `URLSearchParams` writes it as U+FFFD.
- Object key insertion order and prototype keys such as `__proto__` in the header and cookie objects are not modelled. Maps have no order.
- `Request`: the header and cookie maps hold any `Value`, not only text. A model argument exploded into headers or cookies carries raw property values, whatever the `Headers` type declares.
- `ReplaceFirst`: it requires a replacement without `$`, so the `$` patterns of `String.prototype.replace` are not modelled. Every replacement is an `encodeURIComponent` result, which never holds `$`.
- `Values.ToText`: it renders any object as `[object Object]`. A custom `toString` is not modelled.
