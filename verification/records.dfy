/** The six entity classes of the social-data platform, seen through one abstract entity interface:
    a local id, a global id, the global ids of the entities it references, and the dirty and
    deleted flags that the synchronisation engine reads and writes.

The classes come from two generations of the code base. Person, Community,
Membership and CommunityActivity keep an `int` id and read and write their own
columns only. PersonActivity and Relationship keep a `long` id, reference
people by local id, and call a base `populate`/`getEntityValues` that the model
takes to read and write the DIRTY and DELETED columns.
 */
module Records {
  import opened Wrappers
  import opened JavaInts
  import opened Provider
  import opened EntityBase

  datatype Flags = Flags(dirty: int, deleted: int)

  const CLEAN := Flags(0, 0)

  datatype Entity =
    | Person(id: int, globalId: Option<string>, name: Option<string>, description: Option<string>,
             email: Option<string>, creationDate: Option<string>, lastModifiedDate: Option<string>,
             flags: Flags)
    | Community(id: int, globalId: Option<string>, name: Option<string>, ownerId: Option<string>,
                typeName: Option<string>, description: Option<string>, creationDate: Option<string>,
                lastModifiedDate: Option<string>, flags: Flags)
    | Membership(id: int, globalId: Option<string>, globalIdMember: Option<string>,
                 globalIdCommunity: Option<string>, typeName: Option<string>,
                 creationDate: Option<string>, lastModifiedDate: Option<string>, flags: Flags)
    | CommunityActivity(id: int, globalId: Option<string>, globalIdFeedOwner: Option<string>,
                        globalIdActor: Option<string>, globalIdObject: Option<string>,
                        globalIdVerb: Option<string>, globalIdTarget: Option<string>,
                        creationDate: Option<string>, flags: Flags)
    | PersonActivity(id: int, globalId: Option<string>, feedOwnerId: int, actor: Option<string>,
                     activityObject: Option<string>, verb: Option<string>, target: Option<string>,
                     createdAt: int, modifiedAt: int, globalIdFeedOwner: Option<string>, flags: Flags)
    | Relationship(id: int, globalId: Option<string>, p1Id: int, p2Id: int, typeName: Option<string>,
                   createdAt: int, modifiedAt: int, globalIdP1: Option<string>, globalIdP2: Option<string>,
                   flags: Flags)

  /** The table (content URI) an entity lives in. */
  function KindOf(e: Entity): Kind {
    match e
    case Person(_, _, _, _, _, _, _, _) => People
    case Community(_, _, _, _, _, _, _, _, _) => Communities
    case Membership(_, _, _, _, _, _, _, _) => Memberships
    case CommunityActivity(_, _, _, _, _, _, _, _, _) => CommunityActivities
    case PersonActivity(_, _, _, _, _, _, _, _, _, _, _) => PeopleActivities
    case Relationship(_, _, _, _, _, _, _, _, _, _) => Relationships
  }

  /** `newInstance()` of the class stored in table `k`. CommunityActivity's id has no initialiser and
      starts at 0; the two long-id classes stamp their dates with the clock, in seconds. */
  function NewInstance(k: Kind, nowMillis: int): (e: Entity)
    ensures KindOf(e) == k
    ensures e.globalId.None? && e.flags == CLEAN
    ensures e.id == (if k == CommunityActivities then 0 else ENTITY_DEFAULT_ID)
    ensures e.PersonActivity? || e.Relationship? ==> e.createdAt == e.modifiedAt == Div(nowMillis, 1000)
  {
    var now := Div(nowMillis, 1000);
    match k
    case People => Person(ENTITY_DEFAULT_ID, None, None, None, None, None, None, CLEAN)
    case Communities => Community(ENTITY_DEFAULT_ID, None, None, None, None, None, None, None, CLEAN)
    case Memberships => Membership(ENTITY_DEFAULT_ID, None, None, None, None, None, None, CLEAN)
    case CommunityActivities => CommunityActivity(0, None, None, None, None, None, None, None, CLEAN)
    case PeopleActivities => PersonActivity(ENTITY_DEFAULT_ID, None, 0, None, None, None, None, now, now, None, CLEAN)
    case Relationships => Relationship(ENTITY_DEFAULT_ID, None, 0, 0, None, now, now, None, None, CLEAN)
  }

  /** The row has every column the class's `populate` reads through `getColumnIndexOrThrow`
      (the `_ID` column is always there). */
  predicate Readable(k: Kind, row: Row) {
    match k
    case People =>
      Cell(row, GlobalId).Some? && Cell(row, Name).Some? && Cell(row, Description).Some? &&
        Cell(row, Email).Some? && Cell(row, CreationDate).Some? && Cell(row, LastModifiedDate).Some?
    case Communities =>
      Cell(row, GlobalId).Some? && Cell(row, Name).Some? && Cell(row, OwnerId).Some? &&
        Cell(row, Type).Some? && Cell(row, Description).Some? && Cell(row, CreationDate).Some? &&
        Cell(row, LastModifiedDate).Some?
    case Memberships =>
      Cell(row, GlobalId).Some? && Cell(row, GlobalIdMember).Some? &&
        Cell(row, GlobalIdCommunity).Some? && Cell(row, Type).Some?
    case CommunityActivities =>
      Cell(row, GlobalId).Some? && Cell(row, GlobalIdFeedOwner).Some? &&
        Cell(row, GlobalIdActor).Some? && Cell(row, GlobalIdObject).Some? &&
        Cell(row, GlobalIdVerb).Some? && Cell(row, GlobalIdTarget).Some? &&
        Cell(row, CreationDate).Some?
    case PeopleActivities =>
      Cell(row, GlobalId).Some? && Cell(row, IdFeedOwner).Some? && Cell(row, Actor).Some? &&
        Cell(row, Object).Some? && Cell(row, Verb).Some? && Cell(row, Target).Some? &&
        Cell(row, CreationDate).Some? && Cell(row, LastModifiedDate).Some?
    case Relationships =>
      Cell(row, GlobalId).Some? && Cell(row, IdP1).Some? && Cell(row, IdP2).Some? &&
        Cell(row, Type).Some? && Cell(row, CreationDate).Some? && Cell(row, LastModifiedDate).Some?
  }

  /** The columns each class's `getEntityValues` writes. */
  function WrittenColumns(k: Kind): set<Column> {
    match k
    case People => {GlobalId, Name, Description, Email, CreationDate, LastModifiedDate}
    case Communities => {GlobalId, Name, OwnerId, Type, Description, CreationDate, LastModifiedDate}
    case Memberships => {GlobalId, GlobalIdMember, GlobalIdCommunity, Type}
    case CommunityActivities => {}
    case PeopleActivities =>
      {Dirty, Deleted, GlobalId, IdFeedOwner, Actor, Object, Verb, Target, CreationDate, LastModifiedDate}
    case Relationships => {Dirty, Deleted, GlobalId, IdP1, IdP2, Type, CreationDate, LastModifiedDate}
  }

  /** A flag column as the base class reads it: 0 when the table has no such column. */
  function FlagOf(row: Row, col: Column): (v: int)
    ensures IsInt(v)
    ensures IsIntegerCell(row, col) && IsInt(Cell(row, col).value.number) ==> v == Cell(row, col).value.number
  {
    match GetInt(row, col)
    case Ok(n) => n
    case Err(_) => 0
  }

  function BaseFlags(row: Row): Flags {
    Flags(FlagOf(row, Dirty), FlagOf(row, Deleted))
  }

  /** A column the row is known to have, read as `getString`, `getLong` and `getInt` read it. */
  function StringAt(row: Row, col: Column): Option<string>
    requires Cell(row, col).Some?
  {
    GetString(row, col).value
  }

  function LongAt(row: Row, col: Column): int
    requires Cell(row, col).Some?
  {
    GetLong(row, col).value
  }

  function IntAt(row: Row, col: Column): int
    requires Cell(row, col).Some?
  {
    GetInt(row, col).value
  }

  /** The `_ID` column read as a long and as an int: the row id, narrowed. */
  lemma IdColumnReads(row: Row)
    ensures IntAt(row, Id) == ToInt(row.id) && LongAt(row, Id) == ToLong(row.id)
  {
    ToIntOfToLong(row.id);
  }

  function PopulatePerson(row: Row): Entity
    requires Readable(People, row)
  {
    Person(IntAt(row, Id), StringAt(row, GlobalId), StringAt(row, Name), StringAt(row, Description),
           StringAt(row, Email), StringAt(row, CreationDate), StringAt(row, LastModifiedDate), CLEAN)
  }

  function PopulateCommunity(row: Row): Entity
    requires Readable(Communities, row)
  {
    Community(IntAt(row, Id), StringAt(row, GlobalId), StringAt(row, Name), StringAt(row, OwnerId),
              StringAt(row, Type), StringAt(row, Description), StringAt(row, CreationDate),
              StringAt(row, LastModifiedDate), CLEAN)
  }

  /** The membership dates are not read (the lines are commented out) and stay null. */
  function PopulateMembership(row: Row): Entity
    requires Readable(Memberships, row)
  {
    Membership(IntAt(row, Id), StringAt(row, GlobalId), StringAt(row, GlobalIdMember),
               StringAt(row, GlobalIdCommunity), StringAt(row, Type), None, None, CLEAN)
  }

  function PopulateCommunityActivity(row: Row): Entity
    requires Readable(CommunityActivities, row)
  {
    CommunityActivity(IntAt(row, Id), StringAt(row, GlobalId), StringAt(row, GlobalIdFeedOwner),
                      StringAt(row, GlobalIdActor), StringAt(row, GlobalIdObject), StringAt(row, GlobalIdVerb),
                      StringAt(row, GlobalIdTarget), StringAt(row, CreationDate), CLEAN)
  }

  /** The feed owner's global id is not stored; it stays null until `fetchGlobalIds`. */
  function PopulatePersonActivity(row: Row): Entity
    requires Readable(PeopleActivities, row)
  {
    PersonActivity(LongAt(row, Id), StringAt(row, GlobalId), LongAt(row, IdFeedOwner), StringAt(row, Actor),
                   StringAt(row, Object), StringAt(row, Verb), StringAt(row, Target),
                   LongAt(row, CreationDate), LongAt(row, LastModifiedDate), None, BaseFlags(row))
  }

  function PopulateRelationship(row: Row): Entity
    requires Readable(Relationships, row)
  {
    Relationship(LongAt(row, Id), StringAt(row, GlobalId), LongAt(row, IdP1), LongAt(row, IdP2),
                 StringAt(row, Type), LongAt(row, CreationDate), LongAt(row, LastModifiedDate), None, None,
                 BaseFlags(row))
  }

  /** `populate` of the class stored in table `k`. Each column is looked up with
      `getColumnIndexOrThrow` in turn and the first missing one throws IllegalArgumentException;
      the reads have no other effect, so the outcome depends only on whether every column is there.
      A populated entity carries the row's global id and a local id that is the row id, narrowed
      to the class's id type. */
  function Populate(k: Kind, row: Row): (r: Result<Entity>)
    ensures r.Ok? <==> Readable(k, row)
    ensures r.Err? ==> r.error == IllegalArgumentException
    ensures r.Ok? ==> KindOf(r.value) == k && Ok(r.value.globalId) == GetString(row, GlobalId)
    ensures r.Ok? ==> r.value.id == (if k in {PeopleActivities, Relationships} then ToLong(row.id) else ToInt(row.id))
    ensures r.Ok? ==> r.value.flags == (if k in {PeopleActivities, Relationships} then BaseFlags(row) else CLEAN)
  {
    if !Readable(k, row) then Err(IllegalArgumentException)
    else
      IdColumnReads(row);
      match k
      case People => Ok(PopulatePerson(row))
      case Communities => Ok(PopulateCommunity(row))
      case Memberships => Ok(PopulateMembership(row))
      case CommunityActivities => Ok(PopulateCommunityActivity(row))
      case PeopleActivities => Ok(PopulatePersonActivity(row))
      case Relationships => Ok(PopulateRelationship(row))
  }

  /** `getEntityValues`: the columns written on insert and update. The local id is never among
      them; CommunityActivity returns null. */
  function EntityValues(e: Entity): (r: Option<Values>)
    ensures r.None? <==> e.CommunityActivity?
    ensures r.Some? ==> Id !in r.value && GlobalId in r.value && r.value[GlobalId] == TextCell(e.globalId)
  {
    match e
    case Person(_, g, name, description, email, created, modified, _) =>
      Some(map[GlobalId := TextCell(g), Name := TextCell(name), Description := TextCell(description),
               Email := TextCell(email), CreationDate := TextCell(created),
               LastModifiedDate := TextCell(modified)])
    case Community(_, g, name, owner, typeName, description, created, modified, _) =>
      Some(map[GlobalId := TextCell(g), Name := TextCell(name), OwnerId := TextCell(owner),
               Type := TextCell(typeName), Description := TextCell(description),
               CreationDate := TextCell(created), LastModifiedDate := TextCell(modified)])
    case Membership(_, g, member, community, typeName, _, _, _) =>
      Some(map[GlobalId := TextCell(g), GlobalIdMember := TextCell(member),
               GlobalIdCommunity := TextCell(community), Type := TextCell(typeName)])
    case CommunityActivity(_, _, _, _, _, _, _, _, _) => None
    case PersonActivity(_, g, owner, actor, obj, verb, target, created, modified, _, flags) =>
      Some(map[Dirty := Integer(flags.dirty), Deleted := Integer(flags.deleted),
               GlobalId := TextCell(g), IdFeedOwner := Integer(owner),
               Actor := TextCell(actor), Object := TextCell(obj), Verb := TextCell(verb),
               Target := TextCell(target), CreationDate := Integer(created),
               LastModifiedDate := Integer(modified)])
    case Relationship(_, g, p1, p2, typeName, created, modified, _, _, flags) =>
      Some(map[Dirty := Integer(flags.dirty), Deleted := Integer(flags.deleted),
               GlobalId := TextCell(g), IdP1 := Integer(p1), IdP2 := Integer(p2),
               Type := TextCell(typeName), CreationDate := Integer(created),
               LastModifiedDate := Integer(modified)])
  }

  /** `getEntityValues` writes exactly the class's columns, never the local id. */
  lemma EntityValuesKeys(e: Entity)
    requires !e.CommunityActivity?
    ensures EntityValues(e).value.Keys == WrittenColumns(KindOf(e)) && Id !in EntityValues(e).value
  {
  }

  /** What a stored entity reads back as: the row id becomes the local id, and the fields the
      class does not store come back at their defaults. */
  function Stored(e: Entity, rowId: int): Entity {
    match e
    case Person(_, g, name, description, email, created, modified, _) =>
      Person(rowId, g, name, description, email, created, modified, CLEAN)
    case Community(_, g, name, owner, typeName, description, created, modified, _) =>
      Community(rowId, g, name, owner, typeName, description, created, modified, CLEAN)
    case Membership(_, g, member, community, typeName, _, _, _) =>
      Membership(rowId, g, member, community, typeName, None, None, CLEAN)
    case CommunityActivity(_, g, owner, actor, obj, verb, target, created, _) =>
      CommunityActivity(rowId, g, owner, actor, obj, verb, target, created, CLEAN)
    case PersonActivity(_, g, owner, actor, obj, verb, target, created, modified, _, flags) =>
      PersonActivity(rowId, g, owner, actor, obj, verb, target, created, modified, None, flags)
    case Relationship(_, g, p1, p2, typeName, created, modified, _, _, flags) =>
      Relationship(rowId, g, p1, p2, typeName, created, modified, None, None, flags)
  }

  /** The numbers an entity stores fit the Java types they are read back into. */
  predicate StorableNumbers(e: Entity) {
    match e
    case PersonActivity(_, _, owner, _, _, _, _, created, modified, _, flags) =>
      IsLong(owner) && IsLong(created) && IsLong(modified) && IsInt(flags.dirty) && IsInt(flags.deleted)
    case Relationship(_, _, p1, p2, _, created, modified, _, _, flags) =>
      IsLong(p1) && IsLong(p2) && IsLong(created) && IsLong(modified) && IsInt(flags.dirty) && IsInt(flags.deleted)
    case _ => true
  }

  /** A text cell written from a string field reads back as that field. */
  lemma StringRead(row: Row, col: Column, v: Option<string>)
    requires col != Id && col in row.cells && row.cells[col] == TextCell(v)
    ensures Cell(row, col).Some? && StringAt(row, col) == v
  {
  }

  /** An integer cell written from a long field reads back as that field. */
  lemma LongRead(row: Row, col: Column, n: int)
    requires col != Id && col in row.cells && row.cells[col] == Integer(n) && IsLong(n)
    ensures Cell(row, col).Some? && LongAt(row, col) == n
  {
  }

  /** A flag written as an int reads back as that int. */
  lemma FlagRead(row: Row, col: Column, n: int)
    requires col != Id && col in row.cells && row.cells[col] == Integer(n) && IsInt(n)
    ensures FlagOf(row, col) == n
  {
  }

  /** The row id reads back as the local id of every class. */
  lemma IdRead(row: Row)
    requires IsInt(row.id)
    ensures LongAt(row, Id) == row.id && IntAt(row, Id) == row.id
  {
  }

  /** `populate` reads back what `getEntityValues` wrote: a row holding an entity's values
      populates to that entity, up to the fields the class does not store. */
  lemma PopulateReadsValues(e: Entity, rowId: int)
    requires !e.CommunityActivity? && StorableNumbers(e) && IsInt(rowId)
    ensures Populate(KindOf(e), Row(rowId, EntityValues(e).value - {Id})) == Ok(Stored(e, rowId))
  {
    var values := EntityValues(e).value;
    assert values - {Id} == values;
    var row := Row(rowId, values);
    match e
    case Person(_, _, _, _, _, _, _, _) => PersonReadsValues(e, row);
    case Community(_, _, _, _, _, _, _, _, _) => CommunityReadsValues(e, row);
    case Membership(_, _, _, _, _, _, _, _) => MembershipReadsValues(e, row);
    case PersonActivity(_, _, _, _, _, _, _, _, _, _, _) => PersonActivityReadsValues(e, row);
    case Relationship(_, _, _, _, _, _, _, _, _, _) => RelationshipReadsValues(e, row);
  }

  lemma PersonReadsValues(e: Entity, row: Row)
    requires e.Person? && IsInt(row.id) && row.cells == EntityValues(e).value
    ensures Readable(People, row) && PopulatePerson(row) == Stored(e, row.id)
  {
    IdRead(row);
    StringRead(row, GlobalId, e.globalId);
    StringRead(row, Name, e.name);
    StringRead(row, Description, e.description);
    StringRead(row, Email, e.email);
    StringRead(row, CreationDate, e.creationDate);
    StringRead(row, LastModifiedDate, e.lastModifiedDate);
  }

  lemma CommunityReadsValues(e: Entity, row: Row)
    requires e.Community? && IsInt(row.id) && row.cells == EntityValues(e).value
    ensures Readable(Communities, row) && PopulateCommunity(row) == Stored(e, row.id)
  {
    IdRead(row);
    StringRead(row, GlobalId, e.globalId);
    StringRead(row, Name, e.name);
    StringRead(row, OwnerId, e.ownerId);
    StringRead(row, Type, e.typeName);
    StringRead(row, Description, e.description);
    StringRead(row, CreationDate, e.creationDate);
    StringRead(row, LastModifiedDate, e.lastModifiedDate);
  }

  lemma MembershipReadsValues(e: Entity, row: Row)
    requires e.Membership? && IsInt(row.id) && row.cells == EntityValues(e).value
    ensures Readable(Memberships, row)
    ensures PopulateMembership(row) == Stored(e, row.id)
  {
    IdRead(row);
    StringRead(row, GlobalId, e.globalId);
    StringRead(row, GlobalIdMember, e.globalIdMember);
    StringRead(row, GlobalIdCommunity, e.globalIdCommunity);
    StringRead(row, Type, e.typeName);
  }

  lemma PersonActivityReadsValues(e: Entity, row: Row)
    requires e.PersonActivity? && StorableNumbers(e) && IsInt(row.id) && row.cells == EntityValues(e).value
    ensures Readable(PeopleActivities, row)
    ensures PopulatePersonActivity(row) == Stored(e, row.id)
  {
    IdRead(row);
    PersonActivityTextsRead(e, row);
    PersonActivityNumbersRead(e, row);
  }

  lemma PersonActivityTextsRead(e: Entity, row: Row)
    requires e.PersonActivity? && row.cells == EntityValues(e).value
    ensures Cell(row, GlobalId).Some? && StringAt(row, GlobalId) == e.globalId
    ensures Cell(row, Actor).Some? && StringAt(row, Actor) == e.actor
    ensures Cell(row, Object).Some? && StringAt(row, Object) == e.activityObject
    ensures Cell(row, Verb).Some? && StringAt(row, Verb) == e.verb
    ensures Cell(row, Target).Some? && StringAt(row, Target) == e.target
  {
    StringRead(row, GlobalId, e.globalId);
    StringRead(row, Actor, e.actor);
    StringRead(row, Object, e.activityObject);
    StringRead(row, Verb, e.verb);
    StringRead(row, Target, e.target);
  }

  lemma PersonActivityNumbersRead(e: Entity, row: Row)
    requires e.PersonActivity? && StorableNumbers(e) && row.cells == EntityValues(e).value
    ensures Cell(row, IdFeedOwner).Some? && LongAt(row, IdFeedOwner) == e.feedOwnerId
    ensures Cell(row, CreationDate).Some? && LongAt(row, CreationDate) == e.createdAt
    ensures Cell(row, LastModifiedDate).Some? && LongAt(row, LastModifiedDate) == e.modifiedAt
    ensures BaseFlags(row) == e.flags
  {
    LongRead(row, IdFeedOwner, e.feedOwnerId);
    LongRead(row, CreationDate, e.createdAt);
    LongRead(row, LastModifiedDate, e.modifiedAt);
    FlagRead(row, Dirty, e.flags.dirty);
    FlagRead(row, Deleted, e.flags.deleted);
  }

  lemma RelationshipReadsValues(e: Entity, row: Row)
    requires e.Relationship? && StorableNumbers(e) && IsInt(row.id) && row.cells == EntityValues(e).value
    ensures Readable(Relationships, row)
    ensures PopulateRelationship(row) == Stored(e, row.id)
  {
    IdRead(row);
    StringRead(row, GlobalId, e.globalId);
    LongRead(row, IdP1, e.p1Id);
    LongRead(row, IdP2, e.p2Id);
    StringRead(row, Type, e.typeName);
    LongRead(row, CreationDate, e.createdAt);
    LongRead(row, LastModifiedDate, e.modifiedAt);
    FlagRead(row, Dirty, e.flags.dirty);
    FlagRead(row, Deleted, e.flags.deleted);
  }

  // ---------------------------------------------------------------------------------------------
  // References between entities

  /** The local ids of the people an entity references: the feed owner of a person activity, the
      two ends of a relationship. */
  function RefLocalIds(e: Entity): seq<int> {
    match e
    case PersonActivity(_, _, owner, _, _, _, _, _, _, _, _) => [owner]
    case Relationship(_, _, p1, p2, _, _, _, _, _, _) => [p1, p2]
    case _ => []
  }

  /** The global ids of the same references, in the same order. */
  function RefGlobalIds(e: Entity): seq<Option<string>> {
    match e
    case PersonActivity(_, _, _, _, _, _, _, _, _, gOwner, _) => [gOwner]
    case Relationship(_, _, _, _, _, _, _, g1, g2, _) => [g1, g2]
    case _ => []
  }

  /** An entity with every id, local or global, of itself and its references erased. Two entities
      with the same skeleton differ only in identifiers. */
  function Skeleton(e: Entity): Entity {
    match e
    case Person(_, _, name, description, email, created, modified, flags) =>
      Person(0, None, name, description, email, created, modified, flags)
    case Community(_, _, name, owner, typeName, description, created, modified, flags) =>
      Community(0, None, name, owner, typeName, description, created, modified, flags)
    case Membership(_, _, member, community, typeName, created, modified, flags) =>
      Membership(0, None, member, community, typeName, created, modified, flags)
    case CommunityActivity(_, _, owner, actor, obj, verb, target, created, flags) =>
      CommunityActivity(0, None, owner, actor, obj, verb, target, created, flags)
    case PersonActivity(_, _, _, actor, obj, verb, target, created, modified, _, flags) =>
      PersonActivity(0, None, 0, actor, obj, verb, target, created, modified, None, flags)
    case Relationship(_, _, _, _, typeName, created, modified, _, _, flags) =>
      Relationship(0, None, 0, 0, typeName, created, modified, None, None, flags)
  }

  /** `fetchLocalIds` (and Community's `fetchLocalId`): the own local id is looked up from the own
      global id in the entity's table, and each reference's local id from its global id among the
      people; an id that cannot be found becomes -1. Person, Membership and CommunityActivity
      define neither method, and are given the same own-id lookup. */
  function FetchLocalIds(st: Store, e: Entity): (r: Entity)
    ensures KindOf(r) == KindOf(e) && r.globalId == e.globalId && Skeleton(r) == Skeleton(e)
    ensures r.id == GetLocalId(st, KindOf(e), e.globalId)
    ensures RefGlobalIds(r) == RefGlobalIds(e) && |RefLocalIds(r)| == |RefGlobalIds(e)|
    ensures forall i :: 0 <= i < |RefLocalIds(r)| ==> RefLocalIds(r)[i] == GetLocalId(st, People, RefGlobalIds(e)[i])
  {
    var id := GetLocalId(st, KindOf(e), e.globalId);
    match e
    case Person(_, g, name, description, email, created, modified, flags) =>
      Person(id, g, name, description, email, created, modified, flags)
    case Community(_, g, name, owner, typeName, description, created, modified, flags) =>
      Community(id, g, name, owner, typeName, description, created, modified, flags)
    case Membership(_, g, member, community, typeName, created, modified, flags) =>
      Membership(id, g, member, community, typeName, created, modified, flags)
    case CommunityActivity(_, g, owner, actor, obj, verb, target, created, flags) =>
      CommunityActivity(id, g, owner, actor, obj, verb, target, created, flags)
    case PersonActivity(_, g, _, actor, obj, verb, target, created, modified, gOwner, flags) =>
      PersonActivity(id, g, GetLocalId(st, People, gOwner), actor, obj, verb, target, created, modified, gOwner, flags)
    case Relationship(_, g, _, _, typeName, created, modified, g1, g2, flags) =>
      Relationship(id, g, GetLocalId(st, People, g1), GetLocalId(st, People, g2), typeName, created, modified,
                   g1, g2, flags)
  }

  /** `fetchGlobalIds`: each reference's global id is looked up from its local id among the people,
      null when there is no such person. Only the two classes with references define it. */
  function FetchGlobalIds(st: Store, e: Entity): (r: Entity)
    ensures KindOf(r) == KindOf(e) && r.id == e.id && r.globalId == e.globalId && Skeleton(r) == Skeleton(e)
    ensures RefLocalIds(r) == RefLocalIds(e) && |RefGlobalIds(r)| == |RefLocalIds(e)|
    ensures forall i :: 0 <= i < |RefGlobalIds(r)| ==> RefGlobalIds(r)[i] == GetGlobalId(st, People, RefLocalIds(e)[i])
  {
    match e
    case PersonActivity(id, g, owner, actor, obj, verb, target, created, modified, _, flags) =>
      PersonActivity(id, g, owner, actor, obj, verb, target, created, modified, GetGlobalId(st, People, owner), flags)
    case Relationship(id, g, p1, p2, typeName, created, modified, _, _, flags) =>
      Relationship(id, g, p1, p2, typeName, created, modified, GetGlobalId(st, People, p1),
                   GetGlobalId(st, People, p2), flags)
    case _ => e
  }

  /** `isAllGlobalIdsSet`: the own global id and every referenced global id are valid. */
  function IsAllGlobalIdsSet(e: Entity): (r: bool)
    ensures r <==> IsGlobalIdValid(e.globalId) &&
                   forall i :: 0 <= i < |RefGlobalIds(e)| ==> IsGlobalIdValid(RefGlobalIds(e)[i])
  {
    match e
    case PersonActivity(_, g, _, _, _, _, _, _, _, gOwner, _) =>
      assert RefGlobalIds(e)[0] == gOwner;
      IsGlobalIdValid(g) && IsGlobalIdValid(gOwner)
    case Relationship(_, g, _, _, _, _, _, g1, g2, _) =>
      assert RefGlobalIds(e)[0] == g1 && RefGlobalIds(e)[1] == g2;
      IsGlobalIdValid(g) && IsGlobalIdValid(g1) && IsGlobalIdValid(g2)
    case _ => IsGlobalIdValid(e.globalId)
  }

  /** The people table in the shape the id lookups need: no two rows share an id, and every id
      fits a Java int. */
  predicate PeopleIndexed(st: Store) {
    UniqueIds(Rows(st, People)) && forall j :: 0 <= j < |Rows(st, People)| ==> IsInt(Rows(st, People)[j].id)
  }

  /** A global id that some stored person carries. */
  predicate NamesStoredPerson(st: Store, g: Option<string>) {
    exists j :: 0 <= j < |Rows(st, People)| && HasGlobalId(Rows(st, People)[j], g)
  }

  /** Resolving references to local ids and back gives the same global ids, provided every
      referenced global id names a stored person. */
  lemma GlobalIdsSurviveFetch(st: Store, e: Entity)
    requires PeopleIndexed(st)
    requires forall i :: 0 <= i < |RefGlobalIds(e)| ==> NamesStoredPerson(st, RefGlobalIds(e)[i])
    ensures RefGlobalIds(FetchGlobalIds(st, FetchLocalIds(st, e))) == RefGlobalIds(e)
    ensures IsAllGlobalIdsSet(FetchGlobalIds(st, FetchLocalIds(st, e))) == IsAllGlobalIdsSet(e)
  {
    var refs := RefGlobalIds(e);
    var mid := FetchLocalIds(st, e);
    var back := RefGlobalIds(FetchGlobalIds(st, mid));
    forall i | 0 <= i < |refs| ensures back[i] == refs[i] {
      assert back[i] == GetGlobalId(st, People, RefLocalIds(mid)[i]);
      assert RefLocalIds(mid)[i] == GetLocalId(st, People, refs[i]);
      GlobalIdSurvives(st, refs[i]);
    }
  }

  lemma GlobalIdSurvives(st: Store, g: Option<string>)
    requires PeopleIndexed(st) && NamesStoredPerson(st, g)
    ensures GetGlobalId(st, People, GetLocalId(st, People, g)) == g
  {
    var j :| 0 <= j < |Rows(st, People)| && HasGlobalId(Rows(st, People)[j], g);
    GlobalIdOfLocalId(st, People, g.value, j);
  }

  /** A person reference by local id that names a stored person whose global id no other person
      carries. */
  predicate ResolvablePerson(st: Store, localId: int) {
    exists j :: 0 <= j < |Rows(st, People)| && Rows(st, People)[j].id == localId && OwnsGlobalId(Rows(st, People), j)
  }

  /** Row `j` holds a text global id that no other row carries. */
  predicate OwnsGlobalId(rows: seq<Row>, j: int)
    requires 0 <= j < |rows|
  {
    IsTextCell(rows[j], GlobalId) &&
    forall m :: 0 <= m < |rows| && HasGlobalId(rows[m], Some(Cell(rows[j], GlobalId).value.text)) ==> m == j
  }

  lemma LocalIdSurvives(st: Store, localId: int)
    requires PeopleIndexed(st) && ResolvablePerson(st, localId)
    ensures GetLocalId(st, People, GetGlobalId(st, People, localId)) == localId
  {
    var rows := Rows(st, People);
    var j :| 0 <= j < |rows| && rows[j].id == localId && OwnsGlobalId(rows, j);
    LocalIdOfGlobalId(st, People, j, Cell(rows[j], GlobalId).value.text);
  }

  /** Resolving references to global ids and back gives the same local ids, provided each names a
      stored person with a global id of its own. */
  lemma LocalIdsSurviveFetch(st: Store, e: Entity)
    requires PeopleIndexed(st)
    requires forall i :: 0 <= i < |RefLocalIds(e)| ==> ResolvablePerson(st, RefLocalIds(e)[i])
    ensures RefLocalIds(FetchLocalIds(st, FetchGlobalIds(st, e))) == RefLocalIds(e)
  {
    var refs := RefLocalIds(e);
    var mid := FetchGlobalIds(st, e);
    var back := RefLocalIds(FetchLocalIds(st, mid));
    forall i | 0 <= i < |refs| ensures back[i] == refs[i] {
      assert back[i] == GetLocalId(st, People, RefGlobalIds(mid)[i]);
      assert RefGlobalIds(mid)[i] == GetGlobalId(st, People, refs[i]);
      LocalIdSurvives(st, refs[i]);
    }
  }

  // ---------------------------------------------------------------------------------------------
  // Queries

  /** The loop of `getEntities`: rows are populated in cursor order, and the first failure is
      caught and ends the list, so the result is the longest readable prefix. */
  function PopulatePrefix(k: Kind, rows: seq<Row>): (r: seq<Entity>)
    ensures |r| <= |rows|
    ensures forall i :: 0 <= i < |r| ==> Populate(k, rows[i]) == Ok(r[i])
    ensures |r| < |rows| ==> Populate(k, rows[|r|]).Err?
  {
    if |rows| == 0 then []
    else match Populate(k, rows[0])
      case Err(_) => []
      case Ok(e) =>
        var rest := PopulatePrefix(k, rows[1..]);
        PopulatedCons(k, rows, e, rest);
        [e] + rest
  }

  /** The step of `PopulatePrefix`: a populated first row before the populated rest. */
  lemma PopulatedCons(k: Kind, rows: seq<Row>, e: Entity, rest: seq<Entity>)
    requires |rows| > 0 && Populate(k, rows[0]) == Ok(e) && |rest| <= |rows| - 1
    requires forall i :: 0 <= i < |rest| ==> Populate(k, rows[1..][i]) == Ok(rest[i])
    requires |rest| < |rows| - 1 ==> Populate(k, rows[1..][|rest|]).Err?
    ensures forall i :: 0 <= i < |rest| + 1 ==> Populate(k, rows[i]) == Ok(([e] + rest)[i])
    ensures |rest| + 1 < |rows| ==> Populate(k, rows[|rest| + 1]).Err?
  {
    var populates := (row: Row, x: Entity) => Populate(k, row) == Ok(x);
    Seqs.PointwiseCons(populates, rows, e, rest);
    if |rest| + 1 < |rows| {
      Seqs.TailIndex(rows, |rest| + 1);
    }
  }

  /** `getEntities`: the selected rows of table `k`, populated in cursor order. When every row
      of the table is readable, nothing is cut off. */
  function GetEntities(st: Store, k: Kind, sel: Selection): (r: seq<Entity>)
    ensures |r| <= |Query(st, k, sel)|
    ensures forall i :: 0 <= i < |r| ==> Populate(k, Query(st, k, sel)[i]) == Ok(r[i]) && KindOf(r[i]) == k
    ensures TableReadable(st, k) ==> |r| == |Query(st, k, sel)|
  {
    PopulatePrefix(k, Query(st, k, sel))
  }

  /** Every row of table `k` is readable by its class. */
  predicate TableReadable(st: Store, k: Kind) {
    forall row :: row in Rows(st, k) ==> Readable(k, row)
  }

  /** Selecting all rows selects the whole table. */
  lemma QueryAllRows(st: Store, k: Kind)
    ensures Query(st, k, AllRows) == Rows(st, k)
  {
    Seqs.FilterKeepsAll((row: Row) => Selects(AllRows, row), Rows(st, k));
  }

  /** The loop that calls `fetchGlobalIds` on each queried entity. */
  function FetchEach(st: Store, es: seq<Entity>): (r: seq<Entity>)
    ensures |r| == |es|
    ensures forall i :: 0 <= i < |r| ==> r[i] == FetchGlobalIds(st, es[i])
  {
    seq(|es|, i requires 0 <= i < |es| => FetchGlobalIds(st, es[i]))
  }

  /** Fetching the global ids of every entity of a query result gives a fetched result. */
  lemma FetchEachFetched(st: Store, es: seq<Entity>, k: Kind, dirtyOnly: bool)
    requires forall i :: 0 <= i < |es| ==> KindOf(es[i]) == k && (dirtyOnly ==> es[i].flags.dirty == 1)
    ensures FetchedFrom(st, FetchEach(st, es), k, dirtyOnly)
  {
    var r := FetchEach(st, es);
    forall i | 0 <= i < |r|
      ensures |RefGlobalIds(r[i])| == |RefLocalIds(r[i])|
      ensures forall n :: 0 <= n < |RefLocalIds(r[i])| ==> RefGlobalIds(r[i])[n] == GetGlobalId(st, People, RefLocalIds(r[i])[n])
    {
      assert r[i] == FetchGlobalIds(st, es[i]);
    }
  }

  /** `getPeople`: every person, with no selection. */
  function GetPeople(st: Store): (r: seq<Entity>)
    ensures forall i :: 0 <= i < |r| ==> r[i].Person?
    ensures TableReadable(st, People) ==> |r| == |Rows(st, People)|
  {
    QueryAllRows(st, People);
    GetEntities(st, People, AllRows)
  }

  /** `getUpdatedCommunities`: the last-sync filter is commented out, so every community. */
  function GetUpdatedCommunities(st: Store, lastSync: int): (r: seq<Entity>)
    ensures forall i :: 0 <= i < |r| ==> r[i].Community?
    ensures TableReadable(st, Communities) ==> |r| == |Rows(st, Communities)|
  {
    QueryAllRows(st, Communities);
    GetEntities(st, Communities, AllRows)
  }

  /** `getUpdatedMemberships`: no dirty or date filter, so every membership. */
  function GetUpdatedMemberships(st: Store, lastSync: int): (r: seq<Entity>)
    ensures forall i :: 0 <= i < |r| ==> r[i].Membership?
    ensures TableReadable(st, Memberships) ==> |r| == |Rows(st, Memberships)|
  {
    QueryAllRows(st, Memberships);
    GetEntities(st, Memberships, AllRows)
  }

  /** `getCommunityActivities`: every community activity. */
  function GetCommunityActivities(st: Store): (r: seq<Entity>)
    ensures forall i :: 0 <= i < |r| ==> r[i].CommunityActivity?
    ensures TableReadable(st, CommunityActivities) ==> |r| == |Rows(st, CommunityActivities)|
  {
    QueryAllRows(st, CommunityActivities);
    GetEntities(st, CommunityActivities, AllRows)
  }

  /** The last-sync argument of the two "updated" queries has no effect. */
  lemma UpdatedQueriesIgnoreLastSync(st: Store, a: int, b: int)
    ensures GetUpdatedCommunities(st, a) == GetUpdatedCommunities(st, b)
    ensures GetUpdatedMemberships(st, a) == GetUpdatedMemberships(st, b)
  {
  }

  /** A query result of the long-id classes: every entity is of class `k`, dirty if `dirtyOnly`,
      and has its reference global ids looked up from its reference local ids. */
  predicate FetchedFrom(st: Store, r: seq<Entity>, k: Kind, dirtyOnly: bool) {
    forall i :: 0 <= i < |r| ==>
      KindOf(r[i]) == k && (dirtyOnly ==> r[i].flags.dirty == 1) &&
      |RefGlobalIds(r[i])| == |RefLocalIds(r[i])| &&
      forall n :: 0 <= n < |RefLocalIds(r[i])| ==> RefGlobalIds(r[i])[n] == GetGlobalId(st, People, RefLocalIds(r[i])[n])
  }

  /** `getUpdatedPersonActivities`: the activities whose DIRTY column is 1, with global ids fetched. */
  function GetUpdatedPersonActivities(st: Store): (r: seq<Entity>)
    ensures FetchedFrom(st, r, PeopleActivities, true)
    ensures TableReadable(st, PeopleActivities) ==> |r| == |Query(st, PeopleActivities, DirtyRows)|
  {
    var es := GetEntities(st, PeopleActivities, DirtyRows);
    DirtyRowsReadDirty(st, PeopleActivities);
    FetchEachFetched(st, es, PeopleActivities, true);
    FetchEach(st, es)
  }

  /** `getAllPersonActivities`: every activity, with global ids fetched. */
  function GetAllPersonActivities(st: Store): (r: seq<Entity>)
    ensures FetchedFrom(st, r, PeopleActivities, false)
    ensures TableReadable(st, PeopleActivities) ==> |r| == |Rows(st, PeopleActivities)|
  {
    QueryAllRows(st, PeopleActivities);
    var es := GetEntities(st, PeopleActivities, AllRows);
    FetchEachFetched(st, es, PeopleActivities, false);
    FetchEach(st, es)
  }

  /** `getUpdatedRelationships`: the relationships whose DIRTY column is 1, with global ids fetched. */
  function GetUpdatedRelationships(st: Store): (r: seq<Entity>)
    ensures FetchedFrom(st, r, Relationships, true)
    ensures TableReadable(st, Relationships) ==> |r| == |Query(st, Relationships, DirtyRows)|
  {
    var es := GetEntities(st, Relationships, DirtyRows);
    DirtyRowsReadDirty(st, Relationships);
    FetchEachFetched(st, es, Relationships, true);
    FetchEach(st, es)
  }

  /** `getAllRelationships`: every relationship, with global ids fetched. */
  function GetAllRelationships(st: Store): (r: seq<Entity>)
    ensures FetchedFrom(st, r, Relationships, false)
    ensures TableReadable(st, Relationships) ==> |r| == |Rows(st, Relationships)|
  {
    QueryAllRows(st, Relationships);
    var es := GetEntities(st, Relationships, AllRows);
    FetchEachFetched(st, es, Relationships, false);
    FetchEach(st, es)
  }

  /** The rows the DIRTY = 1 selection returns populate to entities whose dirty flag is 1. */
  lemma DirtyRowsReadDirty(st: Store, k: Kind)
    requires k in {PeopleActivities, Relationships}
    ensures forall i :: 0 <= i < |GetEntities(st, k, DirtyRows)| ==> GetEntities(st, k, DirtyRows)[i].flags.dirty == 1
  {
    var rows := Query(st, k, DirtyRows);
    var es := GetEntities(st, k, DirtyRows);
    forall i | 0 <= i < |es| ensures es[i].flags.dirty == 1 {
      DirtyRowReadsDirty(k, rows[i], es[i]);
    }
  }

  /** One row of the DIRTY = 1 selection. */
  lemma DirtyRowReadsDirty(k: Kind, row: Row, e: Entity)
    requires k in {PeopleActivities, Relationships}
    requires Selects(DirtyRows, row) && Populate(k, row) == Ok(e)
    ensures e.flags.dirty == 1
  {
    assert e.flags == BaseFlags(row);
    assert FlagOf(row, Dirty) == 1;
  }

  // ---------------------------------------------------------------------------------------------
  // The hand-written `KEY=value` serialisers

  /** The fields Person, Membership and CommunityActivity write in their own `serialize`, in order;
      the other classes leave serialisation to the base class. */
  function SerializedFields(e: Entity): (r: Option<seq<(Column, Option<string>)>>)
    ensures r.Some? <==> e.Person? || e.Membership? || e.CommunityActivity?
    ensures r.Some? ==> |r.value| > 0 && r.value[0] == (GlobalId, e.globalId)
    ensures r.Some? ==> forall i :: 0 <= i < |r.value| ==> r.value[i].0 != Id
  {
    match e
    case Person(_, g, name, description, email, created, modified, _) =>
      Some([(GlobalId, g), (Name, name), (Description, description), (Email, email),
            (CreationDate, created), (LastModifiedDate, modified)])
    case Membership(_, g, member, community, typeName, _, _, _) =>
      Some([(GlobalId, g), (GlobalIdMember, member), (GlobalIdCommunity, community), (Type, typeName)])
    case CommunityActivity(_, g, owner, actor, obj, verb, target, created, _) =>
      Some([(GlobalId, g), (GlobalIdFeedOwner, owner), (GlobalIdActor, actor), (GlobalIdObject, obj),
            (GlobalIdVerb, verb), (GlobalIdTarget, target), (CreationDate, created)])
    case _ => None
  }

  /** The serialised fields and the stored values agree: the same columns, and each column's
      stored value is its serialised field as text. */
  predicate FieldsAreValues(fields: seq<(Column, Option<string>)>, values: Values) {
    && (set i | 0 <= i < |fields| :: fields[i].0) == values.Keys
    && forall i :: 0 <= i < |fields| ==> values[fields[i].0] == TextCell(fields[i].1)
  }

  /** Person and Membership serialise exactly the columns they store, with the stored values. */
  lemma SerializedFieldsAreStoredValues(e: Entity)
    requires e.Person? || e.Membership?
    ensures FieldsAreValues(SerializedFields(e).value, EntityValues(e).value)
  {
    if e.Person? {
      PersonFieldsAreStoredValues(e);
    } else {
      MembershipFieldsAreStoredValues(e);
    }
  }

  lemma PersonFieldsAreStoredValues(e: Entity)
    requires e.Person?
    ensures FieldsAreValues(SerializedFields(e).value, EntityValues(e).value)
  {
    var fields := SerializedFields(e).value;
    var values := EntityValues(e).value;
    assert fields == [(GlobalId, e.globalId), (Name, e.name), (Description, e.description), (Email, e.email),
                      (CreationDate, e.creationDate), (LastModifiedDate, e.lastModifiedDate)];
    assert ColumnsOf(fields) == [GlobalId, Name, Description, Email, CreationDate, LastModifiedDate];
    EntityValuesKeys(e);
    FieldsAreValuesByColumns(fields, values);
  }

  lemma MembershipFieldsAreStoredValues(e: Entity)
    requires e.Membership?
    ensures FieldsAreValues(SerializedFields(e).value, EntityValues(e).value)
  {
    var fields := SerializedFields(e).value;
    var values := EntityValues(e).value;
    assert fields == [(GlobalId, e.globalId), (GlobalIdMember, e.globalIdMember),
                      (GlobalIdCommunity, e.globalIdCommunity), (Type, e.typeName)];
    assert ColumnsOf(fields) == [GlobalId, GlobalIdMember, GlobalIdCommunity, Type];
    EntityValuesKeys(e);
    FieldsAreValuesByColumns(fields, values);
  }

  /** The columns of a field list, in order. */
  function ColumnsOf(fields: seq<(Column, Option<string>)>): (r: seq<Column>)
    ensures |r| == |fields| && forall i :: 0 <= i < |fields| ==> r[i] == fields[i].0
  {
    seq(|fields|, i requires 0 <= i < |fields| => fields[i].0)
  }

  /** Set equality of the columns, one inclusion at a time. */
  lemma FieldsAreValuesByColumns(fields: seq<(Column, Option<string>)>, values: Values)
    requires forall i :: 0 <= i < |fields| ==> fields[i].0 in values && values[fields[i].0] == TextCell(fields[i].1)
    requires forall col :: col in values ==> col in ColumnsOf(fields)
    ensures FieldsAreValues(fields, values)
  {
    forall col | col in values ensures col in (set i | 0 <= i < |fields| :: fields[i].0) {
      var i :| 0 <= i < |fields| && ColumnsOf(fields)[i] == col;
    }
  }

  /** A cell holding a string field as text reads back as that field. */
  lemma TextCellRead(row: Row, col: Column, v: Option<string>)
    requires Cell(row, col) == Some(TextCell(v))
    ensures Cell(row, col).Some? && StringAt(row, col) == v
  {
  }

  /** CommunityActivity, which stores nothing, serialises exactly what `populate` reads: a row
      holding the serialised fields as text cells populates back to the activity. */
  lemma CommunityActivityFieldsPopulate(e: Entity, row: Row)
    requires e.CommunityActivity? && IsInt(row.id)
    requires forall i :: 0 <= i < |SerializedFields(e).value| ==>
               Cell(row, SerializedFields(e).value[i].0) == Some(TextCell(SerializedFields(e).value[i].1))
    ensures Populate(CommunityActivities, row) == Ok(Stored(e, row.id))
  {
    var fields := SerializedFields(e).value;
    assert fields == [(GlobalId, e.globalId), (GlobalIdFeedOwner, e.globalIdFeedOwner), (GlobalIdActor, e.globalIdActor),
                      (GlobalIdObject, e.globalIdObject), (GlobalIdVerb, e.globalIdVerb),
                      (GlobalIdTarget, e.globalIdTarget), (CreationDate, e.creationDate)];
    assert Cell(row, fields[0].0) == Some(TextCell(fields[0].1));
    assert Cell(row, fields[1].0) == Some(TextCell(fields[1].1));
    assert Cell(row, fields[2].0) == Some(TextCell(fields[2].1));
    assert Cell(row, fields[3].0) == Some(TextCell(fields[3].1));
    assert Cell(row, fields[4].0) == Some(TextCell(fields[4].1));
    assert Cell(row, fields[5].0) == Some(TextCell(fields[5].1));
    assert Cell(row, fields[6].0) == Some(TextCell(fields[6].1));
    CommunityActivityReadsCells(e, row);
  }

  /** The activity's fields, read from text cells by `populate`. */
  lemma CommunityActivityReadsCells(e: Entity, row: Row)
    requires e.CommunityActivity? && IsInt(row.id)
    requires Cell(row, GlobalId) == Some(TextCell(e.globalId))
    requires Cell(row, GlobalIdFeedOwner) == Some(TextCell(e.globalIdFeedOwner))
    requires Cell(row, GlobalIdActor) == Some(TextCell(e.globalIdActor))
    requires Cell(row, GlobalIdObject) == Some(TextCell(e.globalIdObject))
    requires Cell(row, GlobalIdVerb) == Some(TextCell(e.globalIdVerb))
    requires Cell(row, GlobalIdTarget) == Some(TextCell(e.globalIdTarget))
    requires Cell(row, CreationDate) == Some(TextCell(e.creationDate))
    ensures Populate(CommunityActivities, row) == Ok(Stored(e, row.id))
  {
    TextCellRead(row, GlobalId, e.globalId);
    TextCellRead(row, GlobalIdFeedOwner, e.globalIdFeedOwner);
    TextCellRead(row, GlobalIdActor, e.globalIdActor);
    TextCellRead(row, GlobalIdObject, e.globalIdObject);
    TextCellRead(row, GlobalIdVerb, e.globalIdVerb);
    TextCellRead(row, GlobalIdTarget, e.globalIdTarget);
    TextCellRead(row, CreationDate, e.creationDate);
    IdRead(row);
    assert Readable(CommunityActivities, row);
    assert PopulateCommunityActivity(row) == Stored(e, row.id);
  }
}
