/**
 * The records exchanged by the user service: the persisted `User` entity, its
 * transfer form `UserDTO`, the two mappers between them, the errors the
 * service raises, and the email-uniqueness invariant over a table of users.
 */
module UserModel {
  import opened Wrappers

  /** A timestamp set by the persistence lifecycle; the service only copies it. */
  type Instant = int

  datatype Role = USER | ADMIN

  /** The persisted entity. `id` is absent until the store assigns one. */
  datatype User = User(
    id: Option<nat>,
    name: string,
    email: string,
    phone: Option<string>,
    role: Option<Role>,
    active: Option<bool>,
    createdAt: Option<Instant>,
    updatedAt: Option<Instant>)

  /** The transfer representation; `role` and `active` may be absent on input. */
  datatype UserDTO = UserDTO(
    id: Option<nat>,
    name: string,
    email: string,
    phone: Option<string>,
    role: Option<Role>,
    active: Option<bool>,
    createdAt: Option<Instant>,
    updatedAt: Option<Instant>)

  /** The two exceptions of the service. */
  datatype Error = DuplicateResource(email: string) | NotFound(id: nat)

  datatype Result<+T> = Ok(value: T) | Err(error: Error)

  /** Builds the transfer form of a stored entity, field by field. */
  function MapToDTO(u: User): (dto: UserDTO)
    ensures dto.id == u.id && dto.name == u.name && dto.email == u.email && dto.phone == u.phone
    ensures dto.role == u.role && dto.active == u.active
    ensures dto.createdAt == u.createdAt && dto.updatedAt == u.updatedAt
  {
    UserDTO(u.id, u.name, u.email, u.phone, u.role, u.active, u.createdAt, u.updatedAt)
  }

  /**
   * Builds a new, unsaved entity from a DTO: the DTO's id and timestamps are
   * ignored, `role` defaults to USER and `active` to true.
   */
  function MapToEntity(dto: UserDTO): (u: User)
    ensures u.id.None? && u.createdAt.None? && u.updatedAt.None?
    ensures u.name == dto.name && u.email == dto.email && u.phone == dto.phone
    ensures u.role.Some? && (dto.role.Some? ==> u.role == dto.role) && (dto.role.None? ==> u.role == Some(USER))
    ensures u.active.Some? && (dto.active.Some? ==> u.active == dto.active) && (dto.active.None? ==> u.active == Some(true))
  {
    var role := dto.role.GetOr(USER);
    var active := dto.active.GetOr(true);
    User(None, dto.name, dto.email, dto.phone, Some(role), Some(active), None, None)
  }

  /** No information is lost when an entity becomes a DTO. */
  lemma MapToDTOInjective(u1: User, u2: User)
    ensures MapToDTO(u1) == MapToDTO(u2) ==> u1 == u2
  {
  }

  /**
   * Mapping a DTO to an entity and back yields the DTO with its id and
   * timestamps cleared and both defaults filled in.
   */
  lemma DTORoundTrip(dto: UserDTO)
    ensures MapToDTO(MapToEntity(dto)) ==
      dto.(id := None, role := Some(dto.role.GetOr(USER)), active := Some(dto.active.GetOr(true)),
           createdAt := None, updatedAt := None)
  {
  }

  /**
   * Mapping an entity whose role and active flag are present to a DTO and
   * back yields the entity without its id and timestamps.
   */
  lemma EntityRoundTrip(u: User)
    requires u.role.Some? && u.active.Some?
    ensures MapToEntity(MapToDTO(u)) == u.(id := None, createdAt := None, updatedAt := None)
  {
  }

  /** Some stored record holds `email` (an exact, case-sensitive match). */
  predicate EmailTaken(m: map<nat, User>, email: string) {
    exists id | id in m :: m[id].email == email
  }

  /** No two stored records share an email. */
  ghost predicate UniqueEmails(m: map<nat, User>) {
    forall i, j :: i in m && j in m && i != j ==> m[i].email != m[j].email
  }

  /**
   * Writing a record under `id` keeps emails unique when no other record
   * holds the written email.
   */
  lemma UniqueAfterWrite(m: map<nat, User>, id: nat, u: User)
    requires UniqueEmails(m)
    requires forall other :: other in m && other != id ==> m[other].email != u.email
    ensures UniqueEmails(m[id := u])
  {
  }

  /**
   * The check made before an update lets through only emails that no other
   * record holds: either the email is the record's own, or nobody has it.
   */
  lemma UpdateCheckSuffices(m: map<nat, User>, id: nat, email: string)
    requires UniqueEmails(m) && id in m
    requires !(m[id].email != email && EmailTaken(m, email))
    ensures forall other :: other in m && other != id ==> m[other].email != email
  {
  }
}
