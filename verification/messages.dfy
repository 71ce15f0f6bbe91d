/** The messages the sync peers exchange and their Gson type adapters: the class-tagged entity
    envelope (`EntityTypeAdapter`), the request a client sends (`Request`, `RequestTypeAdapter`)
    and the response a server sends back (`Response`, `ResponseTypeAdapter`). An entity
    collection travels as a string holding its own JSON text, nested inside the message. */
module Messages {
  import opened Wrappers
  import opened JavaInts
  import opened Provider
  import opened Records
  import opened Json
  import opened EntityOps

  // ---------------------------------------------------------------------------------------------
  // The class-tagged entity envelope

  const CLASS_NAME := "class_name"
  const ENTITY := "entity"

  /** `getCanonicalName` of each entity class. */
  function CanonicalName(k: Kind): string {
    match k
    case People => "org.societies.android.platform.entity.Person"
    case Communities => "org.societies.android.platform.entity.Community"
    case Memberships => "org.societies.android.platform.entity.Membership"
    case CommunityActivities => "org.societies.android.platform.entity.CommunityActivity"
    case PeopleActivities => "org.societies.android.platform.entity.PersonActivity"
    case Relationships => "org.societies.android.platform.entity.Relationship"
  }

  /** `Class.forName` restricted to the entity classes: the class whose canonical name is `name`. */
  function ClassForName(name: string): (r: Option<Kind>)
    ensures r.Some? ==> CanonicalName(r.value) == name
    ensures r.None? ==> forall k :: CanonicalName(k) != name
  {
    if name == CanonicalName(People) then Some(People)
    else if name == CanonicalName(Communities) then Some(Communities)
    else if name == CanonicalName(Memberships) then Some(Memberships)
    else if name == CanonicalName(CommunityActivities) then Some(CommunityActivities)
    else if name == CanonicalName(PeopleActivities) then Some(PeopleActivities)
    else if name == CanonicalName(Relationships) then Some(Relationships)
    else None
  }

  /** `EntityTypeAdapter.serialize`: an object naming the entity's class beside the entity's own
      reflective serialisation. */
  function EncodeEntity(codec: EntityCodec, e: Entity): (j: Json)
    ensures j.JObject? && j.members.Keys == {CLASS_NAME, ENTITY}
    ensures j.members[CLASS_NAME] == JPrim(PString(CanonicalName(KindOf(e))))
    ensures j.members[ENTITY] == codec.toTree(e)
  {
    JObject(map[CLASS_NAME := JPrim(PString(CanonicalName(KindOf(e)))), ENTITY := codec.toTree(e)])
  }

  /** `EntityTypeAdapter.deserialize`: the element must be an object; its class name is read
      through a primitive cast (a missing name throws NullPointerException), resolved to a class
      (an unknown class throws JsonParseException), and the "entity" member decoded as that
      class. A missing or null "entity" member decodes to null. */
  function DecodeEntity(codec: EntityCodec, j: Json): (r: Result<Option<Entity>>)
    ensures !j.JObject? ==> r == Err(IllegalStateException)
    ensures j.JObject? && CLASS_NAME !in j.members ==> r == Err(NullPointerException)
    ensures j.JObject? && CLASS_NAME in j.members && j.members[CLASS_NAME].JPrim? &&
            j.members[CLASS_NAME].prim.PString? && ClassForName(j.members[CLASS_NAME].prim.s).None?
            ==> r == Err(JsonParseException)
    ensures LawfulCodec(codec) && r.Ok? && r.value.Some? ==>
              CLASS_NAME in j.members && j.members[CLASS_NAME].JPrim? &&
              CanonicalName(KindOf(r.value.value)) == GetAsString(Some(j.members[CLASS_NAME].prim)).value
  {
    var members :- AsObject(j);
    var classPrimitive :- PrimitiveMember(members, CLASS_NAME);
    var className :- GetAsString(classPrimitive);
    match ClassForName(className)
    case None => Err(JsonParseException)
    case Some(k) =>
      if ENTITY !in members || members[ENTITY].JNull? then Ok(None)
      else
        var e :- codec.fromTree(k, members[ENTITY]);
        Ok(Some(e))
  }

  /** The envelope round trip: decoding an encoded entity gives the same entity, hence one of the
      same class. */
  lemma EntityRoundTrip(codec: EntityCodec, e: Entity)
    requires LawfulCodec(codec)
    ensures DecodeEntity(codec, EncodeEntity(codec, e)) == Ok(Some(e))
  {
    assert codec.toTree(e).JObject?;
    assert codec.fromTree(KindOf(e), codec.toTree(e)) == Ok(e);
  }

  // ---------------------------------------------------------------------------------------------
  // Entity collections, as Gson writes `Collection<Entity>` with the envelope adapter registered

  /** A Java `Collection<Entity>` reference: null, or a list of entity references, any of which
      may be null. */
  type Entities = Option<seq<Option<Entity>>>

  /** A non-null list of exactly the given entities, none of them null: every collection the
      engine builds itself is one. */
  function ListOf(es: seq<Entity>): (c: Entities)
    ensures c.Some? && |c.value| == |es|
    ensures forall i :: 0 <= i < |es| ==> c.value[i] == Some(es[i])
  {
    Some(seq(|es|, i requires 0 <= i < |es| => Some(es[i])))
  }

  /** A collection that is not null and holds no null. */
  predicate NoNulls(c: Entities) {
    c.Some? && forall i :: 0 <= i < |c.value| ==> c.value[i].Some?
  }

  /** The entities of a list that come before its first null element: the ones a loop over the
      list reaches before it dereferences a null. */
  function BeforeFirstNull(rs: seq<Option<Entity>>): (r: seq<Entity>)
    ensures |r| <= |rs|
    ensures forall i :: 0 <= i < |r| ==> rs[i] == Some(r[i])
    ensures |r| < |rs| ==> rs[|r|].None?
    decreases |rs|
  {
    if |rs| == 0 || rs[0].None? then []
    else
      var tail := BeforeFirstNull(rs[1..]);
      assert forall i :: 1 <= i < |tail| + 1 ==> rs[i] == rs[1..][i - 1];
      [rs[0].value] + tail
  }

  /** A list holds no null exactly when the loop reaches its end, and a list of entities is
      reached whole. */
  lemma BeforeFirstNullWhole(c: Entities, es: seq<Entity>)
    ensures c.Some? ==> (NoNulls(c) <==> |BeforeFirstNull(c.value)| == |c.value|)
    ensures c.Some? && NoNulls(c) ==> ListOf(BeforeFirstNull(c.value)) == c
    ensures NoNulls(ListOf(es)) && BeforeFirstNull(ListOf(es).value) == es
  {
    if c.Some? && NoNulls(c) {
      var r := BeforeFirstNull(c.value);
      assert ListOf(r).value == c.value;
    }
  }

  /** One element of a collection: JSON null for a null reference, the envelope otherwise. */
  function EncodeItem(codec: EntityCodec, x: Option<Entity>): (j: Json)
    ensures x.None? <==> j.JNull?
  {
    match x
    case None => JNull
    case Some(e) => EncodeEntity(codec, e)
  }

  /** The text of an entity collection: JSON null for a null collection, and otherwise a JSON
      array with one element per reference. */
  function EncodeEntities(t: JsonText, codec: EntityCodec, c: Entities): (s: string)
    ensures LawfulText(t) ==> (t.parse(s) == Ok(JNull) <==> c.None?)
    ensures LawfulText(t) && c.Some? ==>
              t.parse(s).Ok? && t.parse(s).value.JArray? && |t.parse(s).value.items| == |c.value| &&
              forall i :: 0 <= i < |c.value| ==> (t.parse(s).value.items[i].JNull? <==> c.value[i].None?)
  {
    match c
    case None => t.render(JNull)
    case Some(rs) => t.render(JArray(seq(|rs|, i requires 0 <= i < |rs| => EncodeItem(codec, rs[i]))))
  }

  /** One element of an array read as `Entity`: Gson gives JSON null as a null reference without
      consulting the adapter, and hands anything else to the envelope adapter, which may give null
      as well. */
  function DecodeItem(codec: EntityCodec, j: Json): (r: Result<Option<Entity>>)
    ensures j.JNull? ==> r == Ok(None)
    ensures !j.JNull? ==> r == DecodeEntity(codec, j)
  {
    if j.JNull? then Ok(None) else DecodeEntity(codec, j)
  }

  /** Decodes the elements of a collection in order; the first failure is the collection's. */
  function DecodeItems(codec: EntityCodec, items: seq<Json>): (r: Result<seq<Option<Entity>>>)
    ensures r.Ok? <==> forall i :: 0 <= i < |items| ==> DecodeItem(codec, items[i]).Ok?
    ensures r.Ok? ==> |r.value| == |items|
    ensures r.Ok? ==> forall i :: 0 <= i < |items| ==> DecodeItem(codec, items[i]) == Ok(r.value[i])
    ensures r.Err? ==> exists i :: 0 <= i < |items| && DecodeItem(codec, items[i]) == Err(r.error)
    decreases |items|
  {
    if |items| == 0 then Ok([])
    else
      var head :- DecodeItem(codec, items[0]);
      var tail :- DecodeItems(codec, items[1..]);
      DecodedCons(codec, items, head, tail);
      Ok([head] + tail)
  }

  /** The step of `DecodeItems`: a decoded head before the decoded tail. */
  lemma DecodedCons(codec: EntityCodec, items: seq<Json>, head: Option<Entity>, tail: seq<Option<Entity>>)
    requires |items| > 0 && DecodeItem(codec, items[0]) == Ok(head)
    requires |tail| == |items| - 1
    requires forall i :: 0 <= i < |tail| ==> DecodeItem(codec, items[1..][i]) == Ok(tail[i])
    ensures forall i :: 0 <= i < |items| ==> DecodeItem(codec, items[i]) == Ok(([head] + tail)[i])
  {
    forall i | 0 <= i < |items|
      ensures DecodeItem(codec, items[i]) == Ok(([head] + tail)[i])
    {
      if i > 0 {
        assert items[i] == items[1..][i - 1] && ([head] + tail)[i] == tail[i - 1];
      }
    }
  }

  /** `fromJson(text, collectionType)`: JSON null gives a null collection; anything but an array is
      a syntax error. An element the envelope adapter rejects as a non-object fails the whole
      collection with JsonSyntaxException, since this `fromJson` is where its exception leaves Gson. */
  function DecodeEntities(t: JsonText, codec: EntityCodec, text: string): (r: Result<Entities>)
    ensures t.parse(text).Err? ==> r.Err?
    ensures r.Err? ==> r.error != IllegalStateException
    ensures t.parse(text) == Ok(JNull) ==> r == Ok(None)
    ensures t.parse(text).Ok? && !t.parse(text).value.JNull? && !t.parse(text).value.JArray? ==> r == Err(JsonSyntaxException)
    ensures r.Ok? && r.value.Some? ==> t.parse(text).Ok? && t.parse(text).value.JArray? &&
                                       DecodeItems(codec, t.parse(text).value.items) == Ok(r.value.value)
  {
    var tree :- FromJson(t.parse(text));
    match tree
    case JNull => Ok(None)
    case JArray(items) =>
      var rs :- FromJson(DecodeItems(codec, items));
      Ok(Some(rs))
    case _ => Err(JsonSyntaxException)
  }

  lemma {:induction false} DecodeEncodedItems(codec: EntityCodec, rs: seq<Option<Entity>>)
    requires LawfulCodec(codec)
    ensures DecodeItems(codec, seq(|rs|, i requires 0 <= i < |rs| => EncodeItem(codec, rs[i]))) == Ok(rs)
  {
    var items := seq(|rs|, i requires 0 <= i < |rs| => EncodeItem(codec, rs[i]));
    if |rs| > 0 {
      if rs[0].Some? {
        EntityRoundTrip(codec, rs[0].value);
      }
      assert items[1..] == seq(|rs[1..]|, i requires 0 <= i < |rs[1..]| => EncodeItem(codec, rs[1..][i]));
      DecodeEncodedItems(codec, rs[1..]);
      assert [rs[0]] + rs[1..] == rs;
    }
  }

  /** A collection's text decodes to the same collection: null stays null, and a list comes back
      with the same entities and the same nulls, in the same order. */
  lemma EntitiesRoundTrip(t: JsonText, codec: EntityCodec, c: Entities)
    requires LawfulText(t) && LawfulCodec(codec)
    ensures DecodeEntities(t, codec, EncodeEntities(t, codec, c)) == Ok(c)
  {
    match c
    case None =>
      assert t.parse(t.render(JNull)) == Ok(JNull);
    case Some(rs) =>
      var items := seq(|rs|, i requires 0 <= i < |rs| => EncodeItem(codec, rs[i]));
      assert t.parse(t.render(JArray(items))) == Ok(JArray(items));
      DecodeEncodedItems(codec, rs);
  }

  // ---------------------------------------------------------------------------------------------
  // Requests

  datatype RequestType = Handshake | Update

  /** `name()` of the request type constant. */
  function TypeName(t: RequestType): string {
    match t
    case Handshake => "HANDSHAKE"
    case Update => "UPDATE"
  }

  /** `RequestType.valueOf`: the constant with exactly that name. */
  function ValueOf(name: string): (r: Result<RequestType>)
    ensures r.Ok? ==> TypeName(r.value) == name
    ensures r.Err? ==> r.error == IllegalArgumentException && forall t :: TypeName(t) != name
  {
    if name == "HANDSHAKE" then Ok(Handshake)
    else if name == "UPDATE" then Ok(Update)
    else Err(IllegalArgumentException)
  }

  lemma ValueOfName(t: RequestType)
    ensures ValueOf(TypeName(t)) == Ok(t)
  {
  }

  /** A request: the sender's unique id, its type (null in a request made by the default
      constructor), the time of the last request as a Java long, and the entity collection it
      carries. */
  datatype Request = Request(uniqueId: Option<string>, requestType: Option<RequestType>, lastRequestTime: int,
                             updatedEntities: Entities)

  /** `new Request()`: nothing set, and an empty list of entities. */
  function NewRequest(): (r: Request)
    ensures r.uniqueId.None? && r.requestType.None? && r.updatedEntities == Some([])
  {
    Request(None, None, 0, Some([]))
  }

  /** `new Request(uniqueId, type)`: the id and type set, and an empty list of entities. */
  function MakeRequest(uniqueId: Option<string>, t: RequestType): (r: Request)
    ensures r.uniqueId == uniqueId && r.requestType == Some(t) && r.updatedEntities == Some([])
  {
    Request(uniqueId, Some(t), 0, Some([]))
  }

  const PROP_TYPE := "type"
  const PROP_LAST_REQUEST := "last_request"
  const PROP_UPDATED_ENTITIES := "updated_entities"

  /** `RequestTypeAdapter.serialize`: the type's name, the last-request time and the text of the
      entity collection. The unique id is not written. A request without a type throws. */
  function EncodeRequest(t: JsonText, codec: EntityCodec, req: Request): (r: Result<Json>)
    ensures r.Err? <==> req.requestType.None?
    ensures r.Err? ==> r.error == NullPointerException
    ensures r.Ok? ==> r.value.JObject? && r.value.members.Keys == {PROP_TYPE, PROP_LAST_REQUEST, PROP_UPDATED_ENTITIES}
    ensures r.Ok? ==> r.value.members[PROP_TYPE] == JPrim(PString(TypeName(req.requestType.value)))
    ensures r.Ok? ==> r.value.members[PROP_LAST_REQUEST] == JPrim(PNumber(req.lastRequestTime))
    ensures r.Ok? ==> r.value.members[PROP_UPDATED_ENTITIES] ==
                      JPrim(PString(EncodeEntities(t, codec, req.updatedEntities)))
  {
    var entities := EncodeEntities(t, codec, req.updatedEntities);
    match req.requestType
    case None => Err(NullPointerException)
    case Some(rt) =>
      Ok(JObject(map[PROP_TYPE := JPrim(PString(TypeName(rt))),
                     PROP_LAST_REQUEST := JPrim(PNumber(req.lastRequestTime)),
                     PROP_UPDATED_ENTITIES := JPrim(PString(entities))]))
  }

  /** `RequestTypeAdapter.deserialize`, in the adapter's order: the object, the three primitive
      casts, the entity collection, the type through `valueOf`, the time through `getAsLong`. The
      rebuilt request has no unique id, and carries the collection as decoded, null or holding
      nulls included. */
  function DecodeRequest(t: JsonText, codec: EntityCodec, j: Json): (r: Result<Request>)
    ensures !j.JObject? ==> r == Err(IllegalStateException)
    ensures j.JObject? && PROP_UPDATED_ENTITIES !in j.members && (forall p :: p in j.members ==> j.members[p].JPrim?)
            ==> r == Err(NullPointerException)
    ensures r.Ok? ==> r.value.uniqueId.None? && r.value.requestType.Some? && IsLong(r.value.lastRequestTime)
    ensures r.Ok? ==> PROP_TYPE in j.members && j.members[PROP_TYPE].JPrim? &&
                      TypeName(r.value.requestType.value) == GetAsString(Some(j.members[PROP_TYPE].prim)).value
    ensures r.Ok? ==> PROP_UPDATED_ENTITIES in j.members && j.members[PROP_UPDATED_ENTITIES].JPrim? &&
                      DecodeEntities(t, codec, GetAsString(Some(j.members[PROP_UPDATED_ENTITIES].prim)).value) ==
                      Ok(r.value.updatedEntities)
  {
    var members :- AsObject(j);
    var typePrimitive :- PrimitiveMember(members, PROP_TYPE);
    var lastRequestPrimitive :- PrimitiveMember(members, PROP_LAST_REQUEST);
    var entitiesPrimitive :- PrimitiveMember(members, PROP_UPDATED_ENTITIES);
    var entitiesText :- GetAsString(entitiesPrimitive);
    var entities :- DecodeEntities(t, codec, entitiesText);
    var typeName :- GetAsString(typePrimitive);
    var requestType :- ValueOf(typeName);
    var lastRequest :- GetAsLong(lastRequestPrimitive);
    Ok(Request(None, Some(requestType), lastRequest, entities))
  }

  /** `Request.serialize`: the adapter's tree as JSON text. */
  function SerializeRequest(t: JsonText, codec: EntityCodec, req: Request): (r: Result<string>)
    ensures r.Ok? <==> req.requestType.Some?
  {
    var tree :- EncodeRequest(t, codec, req);
    Ok(t.render(tree))
  }

  /** `Request.deserialize`: Gson returns null for JSON null without consulting the adapter, and
      rethrows the adapter's IllegalStateException for a non-object as JsonSyntaxException. */
  function DeserializeRequest(t: JsonText, codec: EntityCodec, text: string): (r: Result<Option<Request>>)
    ensures t.parse(text).Err? ==> r.Err?
    ensures t.parse(text) == Ok(JNull) ==> r == Ok(None)
    ensures t.parse(text).Ok? && !t.parse(text).value.JNull? && !t.parse(text).value.JObject? ==>
              r == Err(JsonSyntaxException)
    ensures r.Err? ==> r.error != IllegalStateException
    ensures r.Ok? && r.value.Some? ==> r.value.value.uniqueId.None?
  {
    var tree :- FromJson(t.parse(text));
    if tree.JNull? then Ok(None)
    else
      var req :- FromJson(DecodeRequest(t, codec, tree));
      Ok(Some(req))
  }

  /** A non-object where an adapter expects an object reaches the caller as a syntax error: a
      request or response text that is an array, and a collection holding an array element. */
  lemma NonObjectIsSyntaxError(t: JsonText, codec: EntityCodec)
    requires LawfulText(t)
    ensures DeserializeRequest(t, codec, t.render(JArray([]))) == Err(JsonSyntaxException)
    ensures DeserializeRequestWithId(t, codec, t.render(JArray([]))) == Err(JsonSyntaxException)
    ensures DeserializeResponse(t, codec, t.render(JArray([]))) == Err(JsonSyntaxException)
    ensures DecodeEntities(t, codec, t.render(JArray([JArray([])]))) == Err(JsonSyntaxException)
  {
    assert t.parse(t.render(JArray([]))) == Ok(JArray([]));
    var items := [JArray([])];
    assert t.parse(t.render(JArray(items))) == Ok(JArray(items));
    assert DecodeItem(codec, items[0]) == Err(IllegalStateException);
    assert DecodeItems(codec, items) == Err(IllegalStateException);
  }

  /** The request round trip as the adapter is written: type, last-request time and entities come
      back, but the unique id is always lost. */
  lemma RequestRoundTripDropsUniqueId(t: JsonText, codec: EntityCodec, req: Request)
    requires LawfulText(t) && LawfulCodec(codec)
    requires req.requestType.Some? && IsLong(req.lastRequestTime)
    ensures SerializeRequest(t, codec, req).Ok?
    ensures DeserializeRequest(t, codec, SerializeRequest(t, codec, req).value) ==
            Ok(Some(Request(None, req.requestType, req.lastRequestTime, req.updatedEntities)))
    ensures req.uniqueId.Some? ==> DeserializeRequest(t, codec, SerializeRequest(t, codec, req).value) != Ok(Some(req))
  {
    var tree := EncodeRequest(t, codec, req).value;
    assert t.parse(t.render(tree)) == Ok(tree);
    EntitiesRoundTrip(t, codec, req.updatedEntities);
    ValueOfName(req.requestType.value);
  }

  const PROP_UNIQUE_ID := "unique_id"

  /** The request encoding with the sender's unique id written as well (JSON null when absent),
      which the server needs to register the sender and to leave it out of the fan-out. */
  function EncodeRequestWithId(t: JsonText, codec: EntityCodec, req: Request): (r: Result<Json>)
    ensures r.Err? <==> req.requestType.None?
    ensures r.Ok? ==> r.value.JObject? &&
                      r.value.members.Keys == {PROP_TYPE, PROP_LAST_REQUEST, PROP_UPDATED_ENTITIES, PROP_UNIQUE_ID}
  {
    var tree :- EncodeRequest(t, codec, req);
    var id := if req.uniqueId.Some? then JPrim(PString(req.uniqueId.value)) else JNull;
    Ok(JObject(tree.members[PROP_UNIQUE_ID := id]))
  }

  /** The matching decoder: the adapter's decoding, then the unique id, which is null when the
      member is absent or JSON null. */
  function DecodeRequestWithId(t: JsonText, codec: EntityCodec, j: Json): (r: Result<Request>)
    ensures DecodeRequest(t, codec, j).Err? ==> r.Err?
    ensures r.Ok? ==> DecodeRequest(t, codec, j) == Ok(r.value.(uniqueId := None))
  {
    var req :- DecodeRequest(t, codec, j);
    var members := j.members;
    if PROP_UNIQUE_ID !in members then Ok(req)
    else match members[PROP_UNIQUE_ID]
      case JNull => Ok(req)
      case JPrim(p) => Ok(req.(uniqueId := Some(GetAsString(Some(p)).value)))
      case _ => Err(ClassCastException)
  }

  function SerializeRequestWithId(t: JsonText, codec: EntityCodec, req: Request): (r: Result<string>)
    ensures r.Ok? <==> req.requestType.Some?
  {
    var tree :- EncodeRequestWithId(t, codec, req);
    Ok(t.render(tree))
  }

  function DeserializeRequestWithId(t: JsonText, codec: EntityCodec, text: string): (r: Result<Option<Request>>)
    ensures t.parse(text).Err? ==> r.Err?
    ensures t.parse(text) == Ok(JNull) ==> r == Ok(None)
    ensures t.parse(text).Ok? && !t.parse(text).value.JNull? && !t.parse(text).value.JObject? ==>
              r == Err(JsonSyntaxException)
    ensures r.Err? ==> r.error != IllegalStateException
  {
    var tree :- FromJson(t.parse(text));
    if tree.JNull? then Ok(None)
    else
      var req :- FromJson(DecodeRequestWithId(t, codec, tree));
      Ok(Some(req))
  }

  /** With the unique id written, every typed request with a long time survives the round trip
      whole. */
  lemma RequestWithIdRoundTrip(t: JsonText, codec: EntityCodec, req: Request)
    requires LawfulText(t) && LawfulCodec(codec)
    requires req.requestType.Some? && IsLong(req.lastRequestTime)
    ensures SerializeRequestWithId(t, codec, req).Ok?
    ensures DeserializeRequestWithId(t, codec, SerializeRequestWithId(t, codec, req).value) == Ok(Some(req))
  {
    var base := EncodeRequest(t, codec, req).value;
    var tree := EncodeRequestWithId(t, codec, req).value;
    assert t.parse(t.render(tree)) == Ok(tree);
    EntitiesRoundTrip(t, codec, req.updatedEntities);
    ValueOfName(req.requestType.value);
    assert tree.members[PROP_TYPE] == base.members[PROP_TYPE];
    assert tree.members[PROP_LAST_REQUEST] == base.members[PROP_LAST_REQUEST];
    assert tree.members[PROP_UPDATED_ENTITIES] == base.members[PROP_UPDATED_ENTITIES];
  }

  // ---------------------------------------------------------------------------------------------
  // Responses

  /** A response: the entity collection a server sends to a client. */
  datatype Response = Response(entities: Entities)

  /** `new Response()`: an empty list of entities. */
  function NewResponse(): (r: Response)
    ensures r.entities == Some([])
  {
    Response(Some([]))
  }

  const PROP_ENTITIES := "entities"

  /** `ResponseTypeAdapter.serialize`: exactly one member, the text of the entity collection. */
  function EncodeResponse(t: JsonText, codec: EntityCodec, resp: Response): (j: Json)
    ensures j.JObject? && j.members.Keys == {PROP_ENTITIES}
    ensures j.members[PROP_ENTITIES] == JPrim(PString(EncodeEntities(t, codec, resp.entities)))
  {
    JObject(map[PROP_ENTITIES := JPrim(PString(EncodeEntities(t, codec, resp.entities)))])
  }

  /** `ResponseTypeAdapter.deserialize`: the object, the primitive cast of "entities", the parse of
      its text, kept as decoded, null or holding nulls included. A missing "entities" member
      throws NullPointerException. */
  function DecodeResponse(t: JsonText, codec: EntityCodec, j: Json): (r: Result<Response>)
    ensures !j.JObject? ==> r == Err(IllegalStateException)
    ensures j.JObject? && PROP_ENTITIES !in j.members ==> r == Err(NullPointerException)
    ensures r.Ok? ==> j.members[PROP_ENTITIES].JPrim? &&
                      DecodeEntities(t, codec, GetAsString(Some(j.members[PROP_ENTITIES].prim)).value) ==
                      Ok(r.value.entities)
  {
    var members :- AsObject(j);
    var entitiesPrimitive :- PrimitiveMember(members, PROP_ENTITIES);
    var entitiesText :- GetAsString(entitiesPrimitive);
    var entities :- DecodeEntities(t, codec, entitiesText);
    Ok(Response(entities))
  }

  /** `Response.serialize`. */
  function SerializeResponse(t: JsonText, codec: EntityCodec, resp: Response): (s: string)
    ensures LawfulText(t) ==>
              (t.parse(s).Ok? && t.parse(s).value.JObject? && t.parse(s).value.members.Keys == {PROP_ENTITIES} &&
               t.parse(s).value.members[PROP_ENTITIES] == JPrim(PString(EncodeEntities(t, codec, resp.entities))))
  {
    t.render(EncodeResponse(t, codec, resp))
  }

  /** `Response.deserialize`: null for JSON null, and JsonSyntaxException for a non-object, whose
      IllegalStateException Gson rethrows. */
  function DeserializeResponse(t: JsonText, codec: EntityCodec, text: string): (r: Result<Option<Response>>)
    ensures t.parse(text).Err? ==> r.Err?
    ensures t.parse(text) == Ok(JNull) ==> r == Ok(None)
    ensures t.parse(text).Ok? && !t.parse(text).value.JNull? && !t.parse(text).value.JObject? ==>
              r == Err(JsonSyntaxException)
    ensures r.Err? ==> r.error != IllegalStateException
  {
    var tree :- FromJson(t.parse(text));
    if tree.JNull? then Ok(None)
    else
      var resp :- FromJson(DecodeResponse(t, codec, tree));
      Ok(Some(resp))
  }

  /** The response round trip: the entity collection comes back whole and in order. */
  lemma ResponseRoundTrip(t: JsonText, codec: EntityCodec, resp: Response)
    requires LawfulText(t) && LawfulCodec(codec)
    ensures DeserializeResponse(t, codec, SerializeResponse(t, codec, resp)) == Ok(Some(resp))
  {
    var tree := EncodeResponse(t, codec, resp);
    assert t.parse(t.render(tree)) == Ok(tree);
    EntitiesRoundTrip(t, codec, resp.entities);
  }
}
