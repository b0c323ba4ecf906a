/**
 * The JSON values the system exchanges through the jopp library: `jopp::value` with its
 * alternatives, and the field lookups of `jopp::object` (`get_field_as<T>`, `get<T>`).
 *
 * jopp stores numbers as `double`; every number the modelled converters write is an integer
 * (a descriptor, a count of whole seconds), so a number is an `int` here.
 */
module Json {
  import opened Wrappers

  datatype Value =
    | Null
    | Bool(b: bool)
    | Number(n: int)
    | Str(s: string)
    | Array(items: seq<Value>)
    | Object(fields: map<string, Value>)

  /** A `jopp::object`: every key appears once. */
  type Object = map<string, Value>

  /** `get_field_as<std::string>(key)`: the string stored under `key`, if there is one. */
  function GetString(obj: Object, key: string): (r: Option<string>)
    ensures r.Some? <==> key in obj && obj[key].Str?
    ensures r.Some? ==> obj[key] == Str(r.value)
  {
    if key in obj && obj[key].Str? then Some(obj[key].s) else None
  }

  /** `get_field_as<jopp::number>(key)`: the number stored under `key`, if there is one. */
  function GetNumber(obj: Object, key: string): (r: Option<int>)
    ensures r.Some? <==> key in obj && obj[key].Number?
    ensures r.Some? ==> obj[key] == Number(r.value)
  {
    if key in obj && obj[key].Number? then Some(obj[key].n) else None
  }

  /** `get_field_as<jopp::object>(key)`: the object stored under `key`, if there is one. */
  function GetObject(obj: Object, key: string): (r: Option<Object>)
    ensures r.Some? <==> key in obj && obj[key].Object?
    ensures r.Some? ==> obj[key] == Object(r.value)
  {
    if key in obj && obj[key].Object? then Some(obj[key].fields) else None
  }

  /** A `jopp::array` of strings. */
  function Strings(items: seq<string>): (r: seq<Value>)
    ensures |r| == |items|
    ensures forall i :: 0 <= i < |items| ==> r[i] == Str(items[i])
  {
    if items == [] then [] else [Str(items[0])] + Strings(items[1..])
  }

  /** Different string lists give different arrays. */
  lemma {:induction false} StringsInjective(a: seq<string>, b: seq<string>)
    requires Strings(a) == Strings(b)
    ensures a == b
  {
    assert |a| == |b|;
    forall i | 0 <= i < |a|
      ensures a[i] == b[i]
    {
      assert Strings(a)[i] == Strings(b)[i];
    }
  }
}
