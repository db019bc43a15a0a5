/** JSON payloads and the strict check they must pass before a handler takes strings out of them. */
module Payload {

  datatype Json =
    | JNull
    | JBool(b: bool)
    | JNumber(n: real)
    | JString(s: string)
    | JArray(items: seq<Json>)
    | JObject(fields: map<string, Json>)

  /** The dynamic type of a decoded value; a null has none. */
  datatype JsonType = NoType | Bool | Number | String | Array | Object

  function TypeOf(value: Json): JsonType {
    match value
    case JNull => NoType
    case JBool(_) => Bool
    case JNumber(_) => Number
    case JString(_) => String
    case JArray(_) => Array
    case JObject(_) => Object
  }

  /** Two values have the same dynamic type exactly if one constructor made both. */
  lemma TypesAreConstructors(a: Json, b: Json)
    ensures TypeOf(a) == TypeOf(b) <==>
      || (a.JNull? && b.JNull?) || (a.JBool? && b.JBool?) || (a.JNumber? && b.JNumber?)
      || (a.JString? && b.JString?) || (a.JArray? && b.JArray?) || (a.JObject? && b.JObject?)
    ensures TypeOf(a) == String <==> a.JString?
    ensures TypeOf(a) == NoType <==> a.JNull?
  {
  }

  /** The input has exactly the template's fields, each of the declared type. */
  ghost predicate Matches(input: map<string, Json>, template: map<string, JsonType>) {
    input.Keys == template.Keys && forall field :: field in template ==> TypeOf(input[field]) == template[field]
  }

  /** A set of the same size that contains another is that other. */
  lemma {:induction false} SameSizeSubset<T>(a: set<T>, b: set<T>)
    requires a <= b && |a| == |b|
    ensures a == b
  {
    if a != {} {
      var x :| x in a;
      SameSizeSubset(a - {x}, b - {x});
      assert a == (a - {x}) + {x} && b == (b - {x}) + {x};
    }
  }

  /** Walks the template in whatever order the map yields its fields, and stops at the first misfit. */
  method EnsureFieldsStrictlyExists(input: map<string, Json>, template: map<string, JsonType>) returns (strict: bool)
    ensures strict <==> Matches(input, template)
  {
    assert |input.Keys| == |input| && |template.Keys| == |template|;
    if |input| != |template| {
      return false;
    }
    var pending := template.Keys;
    while pending != {}
      invariant pending <= template.Keys
      invariant forall field :: field in template && field !in pending ==>
        field in input && TypeOf(input[field]) == template[field]
    {
      var field :| field in pending;
      pending := pending - {field};
      if field !in input {
        return false;
      }
      if TypeOf(input[field]) != template[field] {
        return false;
      }
    }
    SameSizeSubset(template.Keys, input.Keys);
    return true;
  }
}
