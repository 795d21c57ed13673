/** An abstract view of a parsed `System.Text.Json` document. The tokeniser is not modelled:
    a parse is an oracle `string -> ParseResult`. */
module Json {
  import opened Wrappers

  datatype Json =
    | JNull
    | JBool(b: bool)
    | JNumber(literal: string)
    | JString(s: string)
    | JArray(items: seq<Json>)
    | JObject(members: map<string, Json>)

  /** Outcome of `JsonDocument.Parse`: a malformed text throws, anything else gives a root. */
  datatype ParseResult = Malformed | Parsed(root: Json)

  /** The two exceptions that element access can throw. */
  datatype JsonError =
    | KeyNotFound    // `GetProperty` on an object without that member
    | WrongKind      // `GetProperty` on a non-object, `GetString` on a non-string

  /** `JsonElement.GetProperty(name)`. */
  function GetProperty(e: Json, name: string): (r: Result<Json, JsonError>)
    ensures r.Success? <==> e.JObject? && name in e.members
    ensures r.Success? ==> r.value == e.members[name]
    ensures r == Failure(WrongKind) <==> !e.JObject?
  {
    if !e.JObject? then Failure(WrongKind)
    else if name in e.members then Success(e.members[name])
    else Failure(KeyNotFound)
  }

  /** `JsonElement.GetString()`: a string gives its text, JSON `null` gives a .NET `null`
      (`None`), every other kind throws. */
  function GetString(e: Json): (r: Result<Option<string>, JsonError>)
    ensures r.Success? <==> e.JString? || e.JNull?
    ensures r == Success(None) <==> e.JNull?
    ensures e.JString? ==> r == Success(Some(e.s))
  {
    match e
    case JString(s) => Success(Some(s))
    case JNull => Success(None)
    case _ => Failure(WrongKind)
  }

  /** `root` reaches, member by member along `path`, a JSON string whose text is `s`. */
  ghost predicate StringAt(root: Json, path: seq<string>, s: string)
    decreases |path|
  {
    if path == [] then root == JString(s)
    else root.JObject? && path[0] in root.members && StringAt(root.members[path[0]], path[1..], s)
  }

  /** A two-step path reaches `s` exactly when both members exist and the second is that string. */
  lemma StringAtPair(root: Json, outer: string, inner: string)
    ensures forall s :: StringAt(root, [outer, inner], s) <==>
      root.JObject? && outer in root.members && root.members[outer].JObject? &&
      inner in root.members[outer].members && root.members[outer].members[inner] == JString(s)
  {
    assert [outer, inner][1..] == [inner];
    assert [inner][1..] == [];
    forall s
      ensures StringAt(root, [outer, inner], s) <==>
        root.JObject? && outer in root.members && root.members[outer].JObject? &&
        inner in root.members[outer].members && root.members[outer].members[inner] == JString(s)
    {
      if root.JObject? && outer in root.members {
        var mid := root.members[outer];
        assert StringAt(root, [outer, inner], s) <==> StringAt(mid, [inner], s);
        assert StringAt(mid, [inner], s) <==>
          mid.JObject? && inner in mid.members && StringAt(mid.members[inner], [], s);
      }
    }
  }
}
