/** The instance operations of the entity base class: `insert`, `update` and `delete` guarded by
    the default-id sentinel, `deleteEntity`, and `serialize`/`deserialize` through Gson, together
    with the hand-written `KEY=value` serialisers that Person, Membership and CommunityActivity
    put in place of the Gson one. */
module EntityOps {
  import opened Wrappers
  import opened JavaInts
  import opened Provider
  import opened EntityBase
  import opened Records
  import opened Json
  import Seqs

  /** Gson's reflective adapter for the entity classes: `toTree` serialises an entity through its
      concrete class, `fromTree(k, j)` builds an instance of the class stored in table `k`. */
  datatype EntityCodec = EntityCodec(toTree: Entity -> Json, fromTree: (Kind, Json) -> Result<Entity>)

  /** A faithful reflective codec: an entity becomes a JSON object that decodes, as its own class,
      to the same entity, and decoding as a class yields an instance of that class. */
  ghost predicate LawfulCodec(c: EntityCodec) {
    (forall e :: c.toTree(e).JObject? && c.fromTree(KindOf(e), c.toTree(e)) == Ok(e)) &&
    (forall k, j :: c.fromTree(k, j).Ok? ==> KindOf(c.fromTree(k, j).value) == k)
  }

  /** `setId`: the same entity under another local id. */
  function WithId(e: Entity, id: int): (r: Entity)
    ensures KindOf(r) == KindOf(e) && r.id == id && r.globalId == e.globalId && Skeleton(r) == Skeleton(e)
    ensures RefLocalIds(r) == RefLocalIds(e) && RefGlobalIds(r) == RefGlobalIds(e)
    ensures id == e.id ==> r == e
  {
    match e
    case Person(_, g, name, description, email, created, modified, flags) =>
      Person(id, g, name, description, email, created, modified, flags)
    case Community(_, g, name, owner, typeName, description, created, modified, flags) =>
      Community(id, g, name, owner, typeName, description, created, modified, flags)
    case Membership(_, g, member, community, typeName, created, modified, flags) =>
      Membership(id, g, member, community, typeName, created, modified, flags)
    case CommunityActivity(_, g, owner, actor, obj, verb, target, created, flags) =>
      CommunityActivity(id, g, owner, actor, obj, verb, target, created, flags)
    case PersonActivity(_, g, owner, actor, obj, verb, target, created, modified, gOwner, flags) =>
      PersonActivity(id, g, owner, actor, obj, verb, target, created, modified, gOwner, flags)
    case Relationship(_, g, p1, p2, typeName, created, modified, g1, g2, flags) =>
      Relationship(id, g, p1, p2, typeName, created, modified, g1, g2, flags)
  }

  /** `setGlobalId`: the same entity under another global id. */
  function WithGlobalId(e: Entity, g: Option<string>): (r: Entity)
    ensures KindOf(r) == KindOf(e) && r.id == e.id && r.globalId == g && Skeleton(r) == Skeleton(e)
    ensures RefLocalIds(r) == RefLocalIds(e) && RefGlobalIds(r) == RefGlobalIds(e)
  {
    match e
    case Person(id, _, name, description, email, created, modified, flags) =>
      Person(id, g, name, description, email, created, modified, flags)
    case Community(id, _, name, owner, typeName, description, created, modified, flags) =>
      Community(id, g, name, owner, typeName, description, created, modified, flags)
    case Membership(id, _, member, community, typeName, created, modified, flags) =>
      Membership(id, g, member, community, typeName, created, modified, flags)
    case CommunityActivity(id, _, owner, actor, obj, verb, target, created, flags) =>
      CommunityActivity(id, g, owner, actor, obj, verb, target, created, flags)
    case PersonActivity(id, _, owner, actor, obj, verb, target, created, modified, gOwner, flags) =>
      PersonActivity(id, g, owner, actor, obj, verb, target, created, modified, gOwner, flags)
    case Relationship(id, _, p1, p2, typeName, created, modified, g1, g2, flags) =>
      Relationship(id, g, p1, p2, typeName, created, modified, g1, g2, flags)
  }

  /** `setDirtyFlag`/`setDeletedFlag`: the same entity with other flags. */
  function WithFlags(e: Entity, f: Flags): (r: Entity)
    ensures KindOf(r) == KindOf(e) && r.id == e.id && r.globalId == e.globalId && r.flags == f
    ensures RefLocalIds(r) == RefLocalIds(e) && RefGlobalIds(r) == RefGlobalIds(e)
    ensures f == e.flags ==> r == e
  {
    match e
    case Person(id, g, name, description, email, created, modified, _) =>
      Person(id, g, name, description, email, created, modified, f)
    case Community(id, g, name, owner, typeName, description, created, modified, _) =>
      Community(id, g, name, owner, typeName, description, created, modified, f)
    case Membership(id, g, member, community, typeName, created, modified, _) =>
      Membership(id, g, member, community, typeName, created, modified, f)
    case CommunityActivity(id, g, owner, actor, obj, verb, target, created, _) =>
      CommunityActivity(id, g, owner, actor, obj, verb, target, created, f)
    case PersonActivity(id, g, owner, actor, obj, verb, target, created, modified, gOwner, _) =>
      PersonActivity(id, g, owner, actor, obj, verb, target, created, modified, gOwner, f)
    case Relationship(id, g, p1, p2, typeName, created, modified, g1, g2, _) =>
      Relationship(id, g, p1, p2, typeName, created, modified, g1, g2, f)
  }

  /** `setDirtyFlag(d)`: the deleted flag is kept. */
  function WithDirty(e: Entity, d: int): (r: Entity)
    ensures KindOf(r) == KindOf(e) && r.id == e.id && r.globalId == e.globalId
    ensures r.flags == Flags(d, e.flags.deleted)
  {
    WithFlags(e, Flags(d, e.flags.deleted))
  }

  /** The values `insert` and `update` hand to the provider. CommunityActivity supplies null, which
      the model takes as no values at all. */
  function ProviderValues(e: Entity): (v: Values)
    ensures Id !in v
    ensures e.CommunityActivity? ==> v == map[]
    ensures !e.CommunityActivity? ==> v == EntityValues(e).value
  {
    match EntityValues(e)
    case None => map[]
    case Some(values) => values
  }

  /** `insert`: only an entity still carrying the default id may be inserted; the provider appends
      a row under a fresh id and returns that id. */
  function Insert(st: Store, e: Entity): (r: Result<(Store, int)>)
    ensures r.Ok? <==> e.id == ENTITY_DEFAULT_ID
    ensures r.Err? ==> r.error == IllegalStateException
    ensures r.Ok? ==> forall i :: 0 <= i < |Rows(st, KindOf(e))| ==> Rows(st, KindOf(e))[i].id != r.value.1
    ensures r.Ok? ==> Rows(r.value.0, KindOf(e)) == Rows(st, KindOf(e)) + [Row(r.value.1, ProviderValues(e))]
    ensures r.Ok? ==> forall k :: k != KindOf(e) ==> Rows(r.value.0, k) == Rows(st, k)
  {
    if e.id == ENTITY_DEFAULT_ID then
      var values := ProviderValues(e);
      assert values - {Id} == values;
      Ok(InsertRow(st, KindOf(e), values))
    else Err(IllegalStateException)
  }

  /** `update`: only an entity with a local id may be updated; the provider overwrites the stored
      columns of the row with that id and returns how many rows it changed. */
  function Update(st: Store, e: Entity): (r: Result<(Store, nat)>)
    ensures r.Ok? <==> e.id != ENTITY_DEFAULT_ID
    ensures r.Err? ==> r.error == IllegalStateException
    ensures r.Ok? ==> r.value.1 == CountId(Rows(st, KindOf(e)), e.id)
    ensures r.Ok? ==> |Rows(r.value.0, KindOf(e))| == |Rows(st, KindOf(e))|
    ensures r.Ok? ==> forall i, col ::
              0 <= i < |Rows(st, KindOf(e))| && Rows(st, KindOf(e))[i].id == e.id && col in ProviderValues(e)
              ==> Cell(Rows(r.value.0, KindOf(e))[i], col) == Some(ProviderValues(e)[col])
    ensures r.Ok? ==> forall i :: 0 <= i < |Rows(st, KindOf(e))| && Rows(st, KindOf(e))[i].id != e.id ==>
              Rows(r.value.0, KindOf(e))[i] == Rows(st, KindOf(e))[i]
    ensures r.Ok? ==> forall k :: k != KindOf(e) ==> Rows(r.value.0, k) == Rows(st, k)
  {
    if e.id != ENTITY_DEFAULT_ID then
      var values := ProviderValues(e);
      assert values - {Id} == values;
      Ok(UpdateRows(st, KindOf(e), e.id, values))
    else Err(IllegalStateException)
  }

  /** `delete`: only an entity with a local id may be deleted; the provider removes the row with
      that id and returns how many rows it removed. */
  function Delete(st: Store, e: Entity): (r: Result<(Store, nat)>)
    ensures r.Ok? <==> e.id != ENTITY_DEFAULT_ID
    ensures r.Err? ==> r.error == IllegalStateException
    ensures r.Ok? ==> r.value.1 == CountId(Rows(st, KindOf(e)), e.id)
    ensures r.Ok? ==> forall i :: 0 <= i < |Rows(r.value.0, KindOf(e))| ==>
              Rows(r.value.0, KindOf(e))[i].id != e.id && Rows(r.value.0, KindOf(e))[i] in Rows(st, KindOf(e))
    ensures r.Ok? ==> forall i :: 0 <= i < |Rows(st, KindOf(e))| && Rows(st, KindOf(e))[i].id != e.id ==>
              Rows(st, KindOf(e))[i] in Rows(r.value.0, KindOf(e))
    ensures r.Ok? ==> forall k :: k != KindOf(e) ==> Rows(r.value.0, k) == Rows(st, k)
  {
    if e.id != ENTITY_DEFAULT_ID then Ok(DeleteRows(st, KindOf(e), e.id))
    else Err(IllegalStateException)
  }

  /** `deleteEntity`: a fresh instance takes the global id, looks up its local id and deletes
      itself. Any failure, including an unknown global id, is caught and counts as 0 rows. (The
      dates `newInstance` stamps play no part, so the clock reads 0 here.) */
  function DeleteEntity(st: Store, k: Kind, g: Option<string>): (r: (Store, nat))
    ensures GetLocalId(st, k, g) == ENTITY_DEFAULT_ID ==> r == (st, 0)
    ensures GetLocalId(st, k, g) != ENTITY_DEFAULT_ID ==> r == DeleteRows(st, k, GetLocalId(st, k, g))
  {
    var e := FetchLocalIds(st, WithGlobalId(NewInstance(k, 0), g));
    match Delete(st, e)
    case Ok(res) => res
    case Err(_) => (st, 0)
  }

  lemma {:induction false} CountIdAppend(rows: seq<Row>, row: Row, id: int)
    ensures CountId(rows + [row], id) == CountId(rows, id) + (if row.id == id then 1 else 0)
  {
    if |rows| > 0 {
      assert (rows + [row])[1..] == rows[1..] + [row];
      CountIdAppend(rows[1..], row, id);
    } else {
      assert (rows + [row])[1..] == [];
    }
  }

  lemma {:induction false} FilterDropsLast(p: Row -> bool, rows: seq<Row>, row: Row)
    requires forall i :: 0 <= i < |rows| ==> p(rows[i])
    requires !p(row)
    ensures Seqs.Filter(p, rows + [row]) == rows
  {
    if |rows| > 0 {
      assert (rows + [row])[1..] == rows[1..] + [row];
      FilterDropsLast(p, rows[1..], row);
    } else {
      assert (rows + [row])[1..] == [];
    }
  }

  /** Deleting an entity right after inserting it, under the id the insertion returned, removes
      exactly the inserted row and leaves every table as it was. */
  lemma InsertThenDelete(st: Store, e: Entity)
    requires e.id == ENTITY_DEFAULT_ID
    ensures var (st', id) := Insert(st, e).value;
            var del := Delete(st', WithId(e, id));
            del.Ok? && del.value.1 == 1 && forall k :: Rows(del.value.0, k) == Rows(st, k)
  {
    var (st', id) := Insert(st, e).value;
    var rows := Rows(st, KindOf(e));
    assert Rows(st', KindOf(e)) == rows + [Row(id, ProviderValues(e))];
    CountIdAppend(rows, Row(id, ProviderValues(e)), id);
    FilterDropsLast((row: Row) => row.id != id, rows, Row(id, ProviderValues(e)));
  }

  /** The row an insertion appends reads back, through the class's `populate`, as the entity
      under its new id, provided that id fits an int. */
  lemma InsertReadsBack(st: Store, e: Entity)
    requires e.id == ENTITY_DEFAULT_ID && !e.CommunityActivity? && StorableNumbers(e)
    ensures var (st', id) := Insert(st, e).value;
            var rows := Rows(st', KindOf(e));
            |rows| > 0 && (IsInt(id) ==> Populate(KindOf(e), rows[|rows| - 1]) == Ok(Stored(e, id)))
  {
    var (st', id) := Insert(st, e).value;
    var rows := Rows(st', KindOf(e));
    assert rows[|rows| - 1] == Row(id, ProviderValues(e));
    if IsInt(id) {
      assert EntityValues(e).value - {Id} == ProviderValues(e);
      PopulateReadsValues(e, id);
    }
  }

  /** With global ids unique in the table, `deleteEntity` of a stored global id removes its row,
      after which the global id no longer resolves to a local id. */
  lemma DeleteEntityRemovesGlobalId(st: Store, k: Kind, g: string, i: int)
    requires UniqueIds(Rows(st, k)) && forall j :: 0 <= j < |Rows(st, k)| ==> IsInt(Rows(st, k)[j].id)
    requires 0 <= i < |Rows(st, k)| && HasGlobalId(Rows(st, k)[i], Some(g)) && Rows(st, k)[i].id != ENTITY_DEFAULT_ID
    requires forall j :: 0 <= j < |Rows(st, k)| && HasGlobalId(Rows(st, k)[j], Some(g)) ==> j == i
    ensures var (st', n) := DeleteEntity(st, k, Some(g));
            n > 0 && GetLocalId(st', k, Some(g)) == ENTITY_DEFAULT_ID
  {
    var rows := Rows(st, k);
    assert IsFirstWithGlobalId(rows, i, Some(g));
    var (st', n) := DeleteEntity(st, k, Some(g));
    var rows' := Rows(st', k);
    forall j | 0 <= j < |rows'| ensures !HasGlobalId(rows'[j], Some(g)) {
      assert rows'[j] in rows && rows'[j].id != rows[i].id;
    }
  }

  // ---------------------------------------------------------------------------------------------
  // Serialisation

  /** The fields of a hand-written serialiser under their contract column names. */
  function NamedFields(names: Column -> string, fields: seq<(Column, Option<string>)>): (r: seq<(string, Option<string>)>)
    ensures |r| == |fields|
    ensures forall i :: 0 <= i < |fields| ==> r[i] == (names(fields[i].0), fields[i].1)
  {
    seq(|fields|, i requires 0 <= i < |fields| => (names(fields[i].0), fields[i].1))
  }

  /** `serialize`: Person, Membership and CommunityActivity write their `KEY=value` lines; every
      other class is rendered by Gson with its local id set to the default id for the duration,
      so the text never carries the local id. The entity itself is left as it was. */
  function Serialize(t: JsonText, codec: EntityCodec, names: Column -> string, e: Entity): (s: string)
    ensures SerializedFields(e).Some? ==> s == RenderLines(NamedFields(names, SerializedFields(e).value))
    ensures SerializedFields(e).None? && LawfulText(t) ==> t.parse(s) == Ok(codec.toTree(WithId(e, ENTITY_DEFAULT_ID)))
  {
    match SerializedFields(e)
    case Some(fields) => RenderLines(NamedFields(names, fields))
    case None => t.render(codec.toTree(WithId(e, ENTITY_DEFAULT_ID)))
  }

  /** `deserialize`: Gson's parse of the text as the given class, or null when the text does not
      parse, is JSON null, or does not decode as that class. */
  function Deserialize(t: JsonText, codec: EntityCodec, text: string, k: Kind): (r: Option<Entity>)
    ensures LawfulCodec(codec) && r.Some? ==> KindOf(r.value) == k
    ensures t.parse(text).Err? ==> r.None?
  {
    match t.parse(text)
    case Err(_) => None
    case Ok(JNull) => None
    case Ok(tree) =>
      match codec.fromTree(k, tree)
      case Err(_) => None
      case Ok(e) => Some(e)
  }

  /** The serialised text of an entity does not depend on its local id. */
  lemma SerializeIgnoresLocalId(t: JsonText, codec: EntityCodec, names: Column -> string, e: Entity, id: int)
    ensures Serialize(t, codec, names, WithId(e, id)) == Serialize(t, codec, names, e)
  {
    assert WithId(WithId(e, id), ENTITY_DEFAULT_ID) == WithId(e, ENTITY_DEFAULT_ID);
  }

  /** For the classes Gson serialises, deserialising the text as the entity's class gives the
      entity back under the default id. */
  lemma SerializeRoundTrip(t: JsonText, codec: EntityCodec, names: Column -> string, e: Entity)
    requires LawfulText(t) && LawfulCodec(codec)
    requires e.Community? || e.PersonActivity? || e.Relationship?
    ensures Deserialize(t, codec, Serialize(t, codec, names, e), KindOf(e)) == Some(WithId(e, ENTITY_DEFAULT_ID))
  {
    var blank := WithId(e, ENTITY_DEFAULT_ID);
    assert t.parse(t.render(codec.toTree(blank))) == Ok(codec.toTree(blank));
    assert codec.fromTree(KindOf(blank), codec.toTree(blank)) == Ok(blank);
  }

  /** For the classes with hand-written serialisers, the text splits back into the class's fields,
      in order, keyed by column name, provided no name contains `=` or a newline and no value a
      newline. */
  lemma SerializeLinesParse(t: JsonText, codec: EntityCodec, names: Column -> string, e: Entity)
    requires e.Person? || e.Membership? || e.CommunityActivity?
    requires LineSafe(NamedFields(names, SerializedFields(e).value))
    ensures ParseLines(Serialize(t, codec, names, e)) == Some(PrintedFields(NamedFields(names, SerializedFields(e).value)))
  {
    ParseRenderLines(NamedFields(names, SerializedFields(e).value));
  }
}
