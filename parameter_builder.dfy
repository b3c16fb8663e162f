/** The parameter builder of the generated client: each API method argument,
    with its declared type and its location, becomes zero or more flat
    `{name, value, location}` parameters appended to one ordered list.
    The model registry and the serializer are passed in. */
module ParameterBuilding {
  import opened Values

  /** One flat request parameter. Its value is serialized text, except for
      the raw property values of a model argument exploded into query,
      header or cookie parameters. */
  datatype Parameter = Parameter(name: string, value: Value, location: string)

  /** A declared property of a model type. */
  datatype Property = Property(name: string, typ: string)

  /** The model registry: every model type name with its properties in
      declaration order. */
  type Registry = map<string, seq<Property>>

  /** `serialize(value, type)`. */
  type Serializer = (Value, string) -> string

  /** `type.endsWith("[]")`: the type name ends in the array marker. */
  predicate IsArrayType(typ: string)
    // exactly the names of the form `T[]`
    ensures IsArrayType(typ) <==> exists t :: typ == t + "[]"
  {
    assert |typ| >= 2 ==> typ == typ[..|typ| - 2] + typ[|typ| - 2..];
    |typ| >= 2 && typ[|typ| - 2..] == "[]"
  }

  /** The element type of an array type: the name without its marker. */
  function ItemType(typ: string): (t: string)
    requires IsArrayType(typ)
    ensures t + "[]" == typ
  {
    typ[..|typ| - 2]
  }

  /** Marking any type as an array type and taking the element type back
      gives the type again. */
  lemma ArrayTypeRoundTrip(t: string)
    ensures IsArrayType(t + "[]") && ItemType(t + "[]") == t
  {
    assert (t + "[]")[..|t|] == t;
  }

  /** The object has every declared property. */
  predicate HasProperties(fields: map<string, Value>, props: seq<Property>)
  {
    forall i :: 0 <= i < |props| ==> props[i].name in fields
  }

  /** What the argument must be for the builder to read it: an object with
      every declared property when a model is exploded or joined, an array
      for an array type. */
  predicate Readable(models: Registry, value: Value, typ: string, location: string)
  {
    if typ in models then location != "body" ==> value.Obj? && HasProperties(value.fields, models[typ])
    else IsArrayType(typ) ==> value.Arr?
  }

  /** Path and body parameters always carry text; only exploded model
      properties may carry a raw value. */
  predicate PathAndBodyAreText(ps: seq<Parameter>)
  {
    forall p :: p in ps && (p.location == "path" || p.location == "body") ==> p.value.Str?
  }

  /** `prop.name + "," + serialize(value[prop.name], prop.type)`, property by property. */
  function PropertyTexts(props: seq<Property>, fields: map<string, Value>, serialize: Serializer): (r: seq<string>)
    requires HasProperties(fields, props)
    ensures |r| == |props|
    ensures forall i :: 0 <= i < |props| ==>
      r[i] == props[i].name + "," + serialize(fields[props[i].name], props[i].typ)
  {
    if props == [] then []
    else
      var p := props[|props| - 1];
      PropertyTexts(props[..|props| - 1], fields, serialize) + [p.name + "," + serialize(fields[p.name], p.typ)]
  }

  /** The reference reading of a model in a path: property name, serialized
      property value, next name, next value, ... */
  function Alternation(props: seq<Property>, fields: map<string, Value>, serialize: Serializer): seq<string>
    requires HasProperties(fields, props)
  {
    if props == [] then []
    else
      var p := props[|props| - 1];
      Alternation(props[..|props| - 1], fields, serialize) + [p.name, serialize(fields[p.name], p.typ)]
  }

  /** Joining the `name,value` texts with commas is the same as joining the
      alternating list of names and values with commas. */
  lemma {:induction false} PathValueAlternates(props: seq<Property>, fields: map<string, Value>, serialize: Serializer)
    requires HasProperties(fields, props)
    ensures Join(PropertyTexts(props, fields, serialize), ",") == Join(Alternation(props, fields, serialize), ",")
  {
    if props != [] {
      var init := props[..|props| - 1];
      var p := props[|props| - 1];
      var v := serialize(fields[p.name], p.typ);
      var texts, alts := PropertyTexts(init, fields, serialize), Alternation(init, fields, serialize);
      assert PropertyTexts(props, fields, serialize) == texts + [p.name + "," + v];
      assert Alternation(props, fields, serialize) == alts + [p.name] + [v];
      if init == [] {
        assert texts == [] && alts == [];
        assert Join([p.name] + [v], ",") == Join([p.name], ",") + "," + v;
      } else {
        PathValueAlternates(init, fields, serialize);
        assert |alts| == 2 * |init| by { AlternationLength(init, fields, serialize); }
        JoinSnoc(alts + [p.name], v, ",");
        JoinSnoc(alts, p.name, ",");
        JoinSnoc(texts, p.name + "," + v, ",");
      }
    }
  }

  lemma {:induction false} AlternationLength(props: seq<Property>, fields: map<string, Value>, serialize: Serializer)
    requires HasProperties(fields, props)
    ensures |Alternation(props, fields, serialize)| == 2 * |props|
  {
    if props != [] {
      AlternationLength(props[..|props| - 1], fields, serialize);
    }
  }

  /** `serialize(item, itemType)`, element by element. */
  function ItemTexts(items: seq<Value>, itemType: string, serialize: Serializer): (r: seq<string>)
    ensures |r| == |items|
    ensures forall i :: 0 <= i < |items| ==> r[i] == serialize(items[i], itemType)
  {
    if items == [] then []
    else ItemTexts(items[..|items| - 1], itemType, serialize) + [serialize(items[|items| - 1], itemType)]
  }

  /** One parameter per declared property, named after the property and
      holding the property's raw value. */
  function ExplodeProperties(props: seq<Property>, fields: map<string, Value>, location: string): (r: seq<Parameter>)
    requires HasProperties(fields, props)
    ensures |r| == |props|
    ensures forall i :: 0 <= i < |props| ==> r[i] == Parameter(props[i].name, fields[props[i].name], location)
  {
    if props == [] then []
    else
      var p := props[|props| - 1];
      ExplodeProperties(props[..|props| - 1], fields, location) + [Parameter(p.name, fields[p.name], location)]
  }

  /** One parameter per array element, all under the argument's name. */
  function ExplodeItems(name: string, items: seq<Value>, itemType: string, location: string, serialize: Serializer): (r: seq<Parameter>)
    ensures |r| == |items|
    ensures forall i :: 0 <= i < |items| ==> r[i] == Parameter(name, Str(serialize(items[i], itemType)), location)
  {
    if items == [] then []
    else
      ExplodeItems(name, items[..|items| - 1], itemType, location, serialize)
        + [Parameter(name, Str(serialize(items[|items| - 1], itemType)), location)]
  }

  /** The parameters one `add(name, value, type, location)` appends. A model
      type is recognised before the array marker is looked at. */
  function Expansion(models: Registry, serialize: Serializer, name: string, value: Value, typ: string, location: string)
    : (r: seq<Parameter>)
    requires Readable(models, value, typ, location)
    // every appended parameter keeps the argument's location
    ensures forall i :: 0 <= i < |r| ==> r[i].location == location
    ensures location == "path" || location == "body" ==> PathAndBodyAreText(r)
    // a model in a path: one parameter, `name1,value1,name2,value2,...`
    ensures typ in models && location == "path" ==>
      |r| == 1 && r[0].name == name &&
      r[0].value == Str(Join(Alternation(models[typ], value.fields, serialize), ","))
    // a model in the body: one parameter, the whole value serialized
    ensures typ in models && location == "body" ==>
      |r| == 1 && r[0].name == name && r[0].value == Str(serialize(value, typ))
    // a model elsewhere: one parameter per property, raw value
    ensures typ in models && location != "path" && location != "body" ==>
      |r| == |models[typ]| &&
      forall i :: 0 <= i < |r| ==> r[i].name == models[typ][i].name && r[i].value == value.fields[models[typ][i].name]
    // an array in a path: one parameter, the serialized elements comma-joined
    ensures typ !in models && IsArrayType(typ) && location == "path" ==>
      |r| == 1 && r[0].name == name && r[0].value == Str(Join(ItemTexts(value.elems, ItemType(typ), serialize), ","))
    // an array elsewhere: one parameter per element, all under the argument's name
    ensures typ !in models && IsArrayType(typ) && location != "path" ==>
      |r| == |value.elems| &&
      forall i :: 0 <= i < |r| ==> r[i].name == name && r[i].value == Str(serialize(value.elems[i], ItemType(typ)))
    // anything else is a scalar: one parameter, the value serialized
    ensures typ !in models && !IsArrayType(typ) ==>
      |r| == 1 && r[0].name == name && r[0].value == Str(serialize(value, typ))
  {
    if typ in models then
      var properties := models[typ];
      if location == "path" then
        PathValueAlternates(properties, value.fields, serialize);
        [Parameter(name, Str(Join(PropertyTexts(properties, value.fields, serialize), ",")), location)]
      else if location == "body" then
        [Parameter(name, Str(serialize(value, typ)), location)]
      else
        ExplodeProperties(properties, value.fields, location)
    else if IsArrayType(typ) then
      if location == "path" then
        [Parameter(name, Str(Join(ItemTexts(value.elems, ItemType(typ), serialize), ",")), location)]
      else
        ExplodeItems(name, value.elems, ItemType(typ), location, serialize)
    else
      [Parameter(name, Str(serialize(value, typ)), location)]
  }

  /** The builder: one ordered list of parameters, only ever appended to. */
  class ParameterBuilder {
    var parameters: seq<Parameter>

    ghost predicate Valid()
      reads this
    {
      PathAndBodyAreText(parameters)
    }

    constructor ()
      ensures Valid() && parameters == []
    {
      parameters := [];
    }

    /** `add(name, value, type, location)`: appends the argument's
        parameters after all earlier ones, which stay as they were. */
    method Add(models: Registry, serialize: Serializer, name: string, value: Value, typ: string, location: string)
      requires Valid()
      requires Readable(models, value, typ, location)
      modifies this
      ensures Valid()
      ensures parameters == old(parameters) + Expansion(models, serialize, name, value, typ, location)
    {
      if typ in models {
        var properties := models[typ];
        if location == "path" {
          var objectValue := Join(PropertyTexts(properties, value.fields, serialize), ",");
          parameters := parameters + [Parameter(name, Str(objectValue), location)];
        } else if location == "body" {
          parameters := parameters + [Parameter(name, Str(serialize(value, typ)), location)];
        } else {
          var i := 0;
          while i < |properties|
            invariant 0 <= i <= |properties|
            invariant parameters == old(parameters) + ExplodeProperties(properties[..i], value.fields, location)
          {
            var prop := properties[i];
            assert properties[..i + 1][..i] == properties[..i];
            parameters := parameters + [Parameter(prop.name, value.fields[prop.name], location)];
            i := i + 1;
          }
          assert properties[..i] == properties;
        }
      } else if IsArrayType(typ) {
        var itemType := ItemType(typ);
        if location == "path" {
          var csv := Join(ItemTexts(value.elems, itemType, serialize), ",");
          parameters := parameters + [Parameter(name, Str(csv), location)];
        } else {
          var items := value.elems;
          var i := 0;
          while i < |items|
            invariant 0 <= i <= |items|
            invariant parameters == old(parameters) + ExplodeItems(name, items[..i], itemType, location, serialize)
          {
            assert items[..i + 1][..i] == items[..i];
            parameters := parameters + [Parameter(name, Str(serialize(items[i], itemType)), location)];
            i := i + 1;
          }
          assert items[..i] == items;
        }
      } else {
        parameters := parameters + [Parameter(name, Str(serialize(value, typ)), location)];
      }
    }
  }
}
