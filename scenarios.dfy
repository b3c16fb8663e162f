/** Properties that span both halves: what `add` appends, as `request`
    later reads it, and three worked examples: a `/users/{id}` path argument,
    a `filter` model exploded into the query, and two query parameters with
    the same name. */
module Scenarios {
  import opened Values
  import opened UriEncoding
  import opened ParameterBuilding
  import opened RequestAssembly

  /** A model argument placed in the query becomes one query pair per
      declared property, in declaration order, each named after the property
      and carrying the property's value as text. */
  lemma ExplodedModelQuery(models: Registry, serialize: Serializer, name: string, value: Value, typ: string)
    requires typ in models
    requires Readable(models, value, typ, "query")
    ensures var props := models[typ];
      var pairs := QueryPairs(AtLocation(Expansion(models, serialize, name, value, typ, "query"), "query"));
      |pairs| == |props| &&
      forall i :: 0 <= i < |props| ==> pairs[i] == (props[i].name, ToText(value.fields[props[i].name]))
  {
    AtLocationAll(Expansion(models, serialize, name, value, typ, "query"), "query");
  }

  /** An array argument placed in the query becomes one query pair per
      element, all under the argument's name: `a=1&a=2`, never merged. */
  lemma ExplodedArrayQuery(models: Registry, serialize: Serializer, name: string, value: Value, typ: string)
    requires typ !in models && IsArrayType(typ)
    requires Readable(models, value, typ, "query")
    ensures var pairs := QueryPairs(AtLocation(Expansion(models, serialize, name, value, typ, "query"), "query"));
      |pairs| == |value.elems| &&
      forall i :: 0 <= i < |pairs| ==> pairs[i] == (name, serialize(value.elems[i], ItemType(typ)))
  {
    AtLocationAll(Expansion(models, serialize, name, value, typ, "query"), "query");
  }

  /** A scalar path argument fills its placeholder with its serialized,
      URI-encoded value. */
  lemma ScalarPathArgument(models: Registry, serialize: Serializer, name: string, value: Value, typ: string, template: string)
    requires typ !in models && !IsArrayType(typ)
    ensures var ps := Expansion(models, serialize, name, value, typ, "path");
      PathValuesAreText(ps) &&
      Substitute(template, AtLocation(ps, "path")) ==
        ReplaceFirst(template, Placeholder(name), EncodeUriComponent(serialize(value, typ)))
  {
    var ps := Expansion(models, serialize, name, value, typ, "path");
    AtLocationAll(ps, "path");
    assert ps == [Parameter(name, Str(serialize(value, typ)), "path")];
  }

  /** The builder's invariant is what `request` needs of its parameters. */
  lemma BuiltPathValuesAreText(ps: seq<Parameter>)
    requires PathAndBodyAreText(ps)
    ensures PathValuesAreText(ps)
  {
  }

  /** One argument of an API method: its name, value, declared type and
      location. */
  datatype Argument = Argument(name: string, value: Value, typ: string, location: string)

  /** Every argument is one the builder can read. */
  predicate AllReadable(models: Registry, args: seq<Argument>)
  {
    forall i :: 0 <= i < |args| ==> Readable(models, args[i].value, args[i].typ, args[i].location)
  }

  /** The parameters of all arguments, argument by argument. */
  function Expansions(models: Registry, serialize: Serializer, args: seq<Argument>): (r: seq<Parameter>)
    requires AllReadable(models, args)
    ensures PathAndBodyAreText(r)
  {
    if args == [] then []
    else
      var a := args[|args| - 1];
      Expansions(models, serialize, args[..|args| - 1]) + Expansion(models, serialize, a.name, a.value, a.typ, a.location)
  }

  /** One argument more adds its own parameters after the others. */
  lemma ExpansionsStep(models: Registry, serialize: Serializer, args: seq<Argument>, i: nat)
    requires AllReadable(models, args) && i < |args|
    ensures Readable(models, args[i].value, args[i].typ, args[i].location)
    ensures Expansions(models, serialize, args[..i + 1]) ==
      Expansions(models, serialize, args[..i]) + Expansion(models, serialize, args[i].name, args[i].value, args[i].typ, args[i].location)
  {
    assert args[..i + 1][..i] == args[..i];
  }

  /** One `add` per argument, in order, on a fresh builder: the list it
      builds is every argument's parameters, argument by argument. */
  method BuildParameters(models: Registry, serialize: Serializer, args: seq<Argument>) returns (ps: seq<Parameter>)
    requires AllReadable(models, args)
    ensures ps == Expansions(models, serialize, args)
  {
    var builder := new ParameterBuilder();
    var i := 0;
    while i < |args|
      invariant 0 <= i <= |args|
      invariant builder.Valid() && builder.parameters == Expansions(models, serialize, args[..i])
    {
      var a := args[i];
      ExpansionsStep(models, serialize, args, i);
      builder.Add(models, serialize, a.name, a.value, a.typ, a.location);
      i := i + 1;
    }
    assert args[..i] == args;
    ps := builder.parameters;
  }

  /** A generated API method: the parameters built from its arguments, then
      `request` on them. */
  method CallOperation(models: Registry, serialize: Serializer, config: Configuration, path: string, httpMethod: string,
                       args: seq<Argument>) returns (rp: RequestParameters)
    requires 0 <= config.selectedServerIndex < |config.servers|
    requires AllReadable(models, args)
    ensures PathValuesAreText(Expansions(models, serialize, args))
    ensures Describes(config, path, httpMethod, Expansions(models, serialize, args), rp)
  {
    var ps := BuildParameters(models, serialize, args);
    BuiltPathValuesAreText(ps);
    rp := Request(config, path, httpMethod, ps);
  }

  /** `id` = `"42"` in the path `/users/{id}` gives `/users/42`. */
  lemma UserIdExample()
    ensures Substitute("/users/{id}", [Parameter("id", Str("42"), "path")]) == "/users/42"
  {
    var s := "/users/{id}";
    assert IsFirstOccurrence(s, "{id}", 7) by {
      assert s[7..11] == "{id}";
      forall j | 0 <= j < 7 ensures !OccursAt(s, "{id}", j) {
        assert s[j] != '{';
        assert j + 4 <= |s| ==> s[j..j + 4][0] == s[j];
      }
    }
    assert EncodeUriComponent("42") == "42";
    assert ReplaceFirst(s, Placeholder("id"), "42") == "/users/42" by {
      assert Placeholder("id") == "{id}";
      assert s[..7] + "42" + s[11..] == "/users/42";
    }
  }

  /** Two pairs of text the form encoding keeps as it is. */
  lemma SafePairs(n1: string, v1: string, n2: string, v2: string)
    requires forall i :: 0 <= i < |n1| ==> IsFormSafe(n1[i])
    requires forall i :: 0 <= i < |v1| ==> IsFormSafe(v1[i])
    requires forall i :: 0 <= i < |n2| ==> IsFormSafe(n2[i])
    requires forall i :: 0 <= i < |v2| ==> IsFormSafe(v2[i])
    ensures FormSerialize([(n1, v1), (n2, v2)]) == n1 + "=" + v1 + "&" + n2 + "=" + v2
  {
    SerializeTwo((n1, v1), (n2, v2));
    FormEncodeSafeText(n1);
    FormEncodeSafeText(v1);
    FormEncodeSafeText(n2);
    FormEncodeSafeText(v2);
  }

  /** Two query pairs under one name both appear, in order. */
  lemma DuplicateQueryExample()
    ensures FormSerialize([("a", "1"), ("a", "2")]) == "a=1&a=2"
  {
    SafePairs("a", "1", "a", "2");
  }

  /** The registry entry and argument of the `filter` example. */
  function FilterModels(): Registry
  {
    map["Filter" := [Property("status", "string"), Property("limit", "number")]]
  }

  function FilterValue(): Value
  {
    Obj(map["status" := Str("active"), "limit" := Num(5)])
  }

  lemma FilterReadable()
    ensures Readable(FilterModels(), FilterValue(), "Filter", "query")
  {
    var props := FilterModels()["Filter"];
    assert props[0].name in FilterValue().fields && props[1].name in FilterValue().fields;
  }

  /** `String(5)` is `5`. */
  lemma FiveText()
    ensures ToText(Num(5)) == "5"
  {
    assert DecimalText(5) == [DigitChar(5)];
  }

  /** The `filter` argument explodes into the pairs `status`/`active` and
      `limit`/`5`, in declaration order. */
  lemma FilterPairs(serialize: Serializer)
    ensures Readable(FilterModels(), FilterValue(), "Filter", "query")
    ensures QueryPairs(AtLocation(Expansion(FilterModels(), serialize, "filter", FilterValue(), "Filter", "query"), "query"))
      == [("status", "active"), ("limit", "5")]
  {
    FilterReadable();
    ExplodedModelQuery(FilterModels(), serialize, "filter", FilterValue(), "Filter");
    FiveText();
  }

  /** Both pairs are plain text, so the query reads `status=active&limit=5`. */
  lemma FilterQueryText()
    ensures FormSerialize([("status", "active"), ("limit", "5")]) == "status" + "=" + "active" + "&" + "limit" + "=" + "5"
  {
    SafePairs("status", "active", "limit", "5");
  }

  /** A `filter` model with properties `status` and `limit`, given
      `{status: "active", limit: 5}` in the query, gives `status=active&limit=5`. */
  lemma FilterModelExample(serialize: Serializer)
    ensures Readable(FilterModels(), FilterValue(), "Filter", "query")
    ensures FormSerialize(QueryPairs(AtLocation(
              Expansion(FilterModels(), serialize, "filter", FilterValue(), "Filter", "query"), "query")))
            == "status" + "=" + "active" + "&" + "limit" + "=" + "5"
  {
    FilterPairs(serialize);
    FilterQueryText();
  }
}
