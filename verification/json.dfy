/** Gson's tree model (`JsonElement` and its subclasses) and the accessors the type adapters call
    on it. The text layer of `toJson`/`fromJson` is an oracle with one law: parsing what was
    rendered gives the tree back. */
module Json {
  import opened Wrappers
  import opened JavaInts
  import Decimal

  /** `JsonPrimitive`: a boolean, a number or a string. Numbers are integers here. */
  datatype Primitive = PBool(b: bool) | PNumber(n: int) | PString(s: string)

  /** `JsonElement`: `JsonNull`, a primitive, `JsonArray` or `JsonObject`. */
  datatype Json = JNull | JPrim(prim: Primitive) | JArray(items: seq<Json>) | JObject(members: map<string, Json>)

  /** `getAsJsonObject`: the members of an object; any other element throws. */
  function AsObject(j: Json): (r: Result<map<string, Json>>)
    ensures r.Ok? <==> j.JObject?
    ensures r.Err? ==> r.error == IllegalStateException
    ensures j.JObject? ==> r == Ok(j.members)
  {
    if j.JObject? then Ok(j.members) else Err(IllegalStateException)
  }

  /** `(JsonPrimitive) object.get(name)`: null when the member is absent; a member that is an
      object, an array or JSON null fails the cast. */
  function PrimitiveMember(members: map<string, Json>, name: string): (r: Result<Option<Primitive>>)
    ensures r == Ok(None) <==> name !in members
    ensures r.Err? <==> name in members && !members[name].JPrim?
    ensures r.Err? ==> r.error == ClassCastException
    ensures name in members && members[name].JPrim? ==> r == Ok(Some(members[name].prim))
  {
    if name !in members then Ok(None)
    else match members[name]
      case JPrim(p) => Ok(Some(p))
      case _ => Err(ClassCastException)
  }

  /** `getAsString` on a primitive reference that may be null: a string is itself, a number its
      decimal text, a boolean `true` or `false`. */
  function GetAsString(p: Option<Primitive>): (r: Result<string>)
    ensures r.Err? <==> p.None?
    ensures r.Err? ==> r.error == NullPointerException
    ensures p.Some? && p.value.PString? ==> r == Ok(p.value.s)
  {
    match p
    case None => Err(NullPointerException)
    case Some(PString(s)) => Ok(s)
    case Some(PNumber(n)) => Ok(Decimal.IntToDecimal(n))
    case Some(PBool(b)) => Ok(if b then "true" else "false")
  }

  /** `getAsLong` on a primitive reference that may be null: a number is narrowed to a long, any
      other primitive goes through `Long.parseLong` of its text. */
  function GetAsLong(p: Option<Primitive>): (r: Result<int>)
    ensures r.Ok? ==> IsLong(r.value)
    ensures p.None? ==> r == Err(NullPointerException)
    ensures p.Some? && p.value.PNumber? && IsLong(p.value.n) ==> r == Ok(p.value.n)
    ensures p.Some? && p.value.PBool? ==> r == Err(NumberFormatException)
  {
    match p
    case None => Err(NullPointerException)
    case Some(PNumber(n)) => Ok(ToLong(n))
    case Some(PString(s)) => Decimal.ParseLong(s)
    case Some(PBool(b)) => Decimal.ParseLong(if b then "true" else "false")
  }

  /** Gson's writer and parser between trees and JSON text. */
  datatype JsonText = JsonText(render: Json -> string, parse: string -> Result<Json>)

  /** What `Gson.fromJson` lets out of the parser and the type adapters it runs: an
      IllegalStateException is rethrown as JsonSyntaxException, and any other exception passes
      unchanged, as Gson 2 does. */
  function FromJson<T>(r: Result<T>): (q: Result<T>)
    ensures q.Ok? <==> r.Ok?
    ensures r.Ok? ==> q == r
    ensures r.Err? && r.error != IllegalStateException ==> q == r
    ensures q.Err? ==> q.error != IllegalStateException
  {
    match r
    case Err(IllegalStateException) => Err(JsonSyntaxException)
    case _ => r
  }

  /** A faithful text layer: every rendered tree parses back to itself, and malformed text is
      reported as `JsonSyntaxException`. */
  ghost predicate LawfulText(t: JsonText) {
    (forall j :: t.parse(t.render(j)) == Ok(j)) &&
    (forall s :: t.parse(s).Err? ==> t.parse(s).error == JsonSyntaxException)
  }

  /** Gson's compact writer puts no line terminator in the text, and its parser ignores a
      trailing newline. */
  ghost predicate CompactText(t: JsonText) {
    forall j :: '\n' !in t.render(j) && '\r' !in t.render(j) && t.parse(t.render(j) + "\n") == t.parse(t.render(j))
  }
}
