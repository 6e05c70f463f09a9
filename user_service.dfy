/**
 * The user service: create, read, update, deactivate and delete user
 * records over a `UserRepository`, enforcing email uniqueness and filling in
 * the defaults for role and active flag. Each operation is one atomic step.
 */
module Service {
  import opened Wrappers
  import opened UserModel
  import opened Persistence

  /** The DTOs of a sequence of entities, in the same order. */
  function ToDTOs(us: seq<User>): (r: seq<UserDTO>)
    ensures |r| == |us| && forall k :: 0 <= k < |us| ==> r[k] == MapToDTO(us[k])
  {
    seq(|us|, k requires 0 <= k < |us| => MapToDTO(us[k]))
  }

  /**
   * Mapping a listing of the records of `m` matching `q` (each exactly once)
   * to DTOs gives one DTO per matching record, mirroring it, with no id twice.
   */
  lemma DTOsOfListing(m: map<nat, User>, q: Query, us: seq<User>)
    requires forall k :: 0 <= k < |us| ==>
      us[k].id.Some? && us[k].id.value in m && m[us[k].id.value] == us[k] && Matches(q, us[k])
    requires forall id :: id in m && Matches(q, m[id]) ==> exists k :: 0 <= k < |us| && us[k].id == Some(id)
    requires forall j, k :: 0 <= j < k < |us| ==> us[j].id.Some? && us[k].id.Some? && us[j].id.value < us[k].id.value
    ensures var r := ToDTOs(us);
      forall k :: 0 <= k < |r| ==>
        r[k].id.Some? && r[k].id.value in m && r[k] == MapToDTO(m[r[k].id.value]) && Matches(q, m[r[k].id.value])
    ensures var r := ToDTOs(us);
      forall id :: id in m && Matches(q, m[id]) ==> exists k :: 0 <= k < |r| && r[k].id == Some(id)
    ensures var r := ToDTOs(us);
      forall j, k :: 0 <= j < k < |r| ==> r[j].id != r[k].id
  {
    var r := ToDTOs(us);
    forall id | id in m && Matches(q, m[id]) ensures exists k :: 0 <= k < |r| && r[k].id == Some(id) {
      var k :| 0 <= k < |us| && us[k].id == Some(id);
      assert r[k].id == Some(id);
    }
    forall j, k | 0 <= j < k < |r| ensures r[j].id != r[k].id {
      assert r[j].id == us[j].id && r[k].id == us[k].id;
    }
  }

  class UserService {
    const repo: UserRepository

    /** The store is well formed and no two records share an email. */
    ghost predicate Valid()
      reads this, repo
    {
      repo.Valid() && UniqueEmails(repo.users)
    }

    constructor (repo: UserRepository)
      requires repo.Valid() && UniqueEmails(repo.users)
      ensures this.repo == repo && Valid()
    {
      this.repo := repo;
    }

    /**
     * Fails with DuplicateResource, changing nothing, when some record holds
     * the DTO's email; otherwise stores one new record under a fresh id.
     */
    method CreateUser(dto: UserDTO) returns (r: Result<UserDTO>)
      requires Valid()
      modifies repo
      ensures Valid()
      ensures r.Ok? <==> !old(EmailTaken(repo.users, dto.email))
      ensures r.Err? ==>
        && r.error == DuplicateResource(dto.email)
        && repo.users == old(repo.users) && repo.nextId == old(repo.nextId)
      ensures r.Ok? ==>
        var id := old(repo.nextId);
        && id !in old(repo.users) && id in repo.users
        && repo.users == old(repo.users)[id := repo.users[id]]
        && repo.users[id] == MapToEntity(dto).(id := Some(id))
        && repo.users[id].role == Some(dto.role.GetOr(USER))
        && repo.users[id].active == Some(dto.active.GetOr(true))
        && r.value == MapToDTO(repo.users[id])
    {
      if repo.ExistsByEmail(dto.email) {
        return Err(DuplicateResource(dto.email));
      }
      var user := MapToEntity(dto);
      UniqueAfterWrite(repo.users, repo.nextId, user.(id := Some(repo.nextId)));
      var saved := repo.Save(user);
      return Ok(MapToDTO(saved));
    }

    /** Fails with NotFound when `id` is absent; otherwise the stored record's DTO. */
    method GetUserById(id: nat) returns (r: Result<UserDTO>)
      requires Valid()
      ensures r.Err? <==> id !in repo.users
      ensures r.Err? ==> r.error == NotFound(id)
      ensures r.Ok? ==> r.value == MapToDTO(repo.users[id]) && r.value.id == Some(id)
    {
      var found := repo.FindById(id);
      if found.None? {
        return Err(NotFound(id));
      }
      return Ok(MapToDTO(found.value));
    }

    /** One DTO per stored record, each record exactly once. */
    function GetAllUsers(): (r: seq<UserDTO>)
      reads this, repo
      requires Valid()
      ensures |r| == |repo.users|
      ensures forall k :: 0 <= k < |r| ==>
        r[k].id.Some? && r[k].id.value in repo.users && r[k] == MapToDTO(repo.users[r[k].id.value])
      ensures forall id :: id in repo.users ==> exists k :: 0 <= k < |r| && r[k].id == Some(id)
      ensures forall j, k :: 0 <= j < k < |r| ==> r[j].id != r[k].id
    {
      var all := repo.FindAll();
      DTOsOfListing(repo.users, Everything, all);
      ToDTOs(all)
    }

    /** One DTO per stored record whose active flag is true, and no other. */
    function GetActiveUsers(): (r: seq<UserDTO>)
      reads this, repo
      requires Valid()
      ensures forall k :: 0 <= k < |r| ==>
        && r[k].id.Some? && r[k].id.value in repo.users
        && r[k] == MapToDTO(repo.users[r[k].id.value]) && r[k].active == Some(true)
      ensures forall id :: id in repo.users && repo.users[id].active == Some(true) ==>
        exists k :: 0 <= k < |r| && r[k].id == Some(id)
      ensures forall j, k :: 0 <= j < k < |r| ==> r[j].id != r[k].id
    {
      var active := repo.FindByActive(true);
      DTOsOfListing(repo.users, ActiveIs(true), active);
      ToDTOs(active)
    }

    /**
     * Fails with NotFound when `id` is absent, and with DuplicateResource when
     * the email changes to one some record holds; otherwise overwrites name,
     * email, phone and role as given and sets active (true when absent).
     */
    method UpdateUser(id: nat, dto: UserDTO) returns (r: Result<UserDTO>)
      requires Valid()
      modifies repo
      ensures Valid()
      ensures r == Err(NotFound(id)) <==> id !in old(repo.users)
      ensures r.Ok? <==>
        id in old(repo.users) && (old(repo.users[id].email) == dto.email || !old(EmailTaken(repo.users, dto.email)))
      ensures id in old(repo.users) ==>
        (r == Err(DuplicateResource(dto.email)) <==>
          old(repo.users[id].email) != dto.email && old(EmailTaken(repo.users, dto.email)))
      ensures id in old(repo.users) && old(repo.users[id].email) == dto.email ==> r.Ok?
      ensures r.Err? ==> repo.users == old(repo.users) && repo.nextId == old(repo.nextId)
      ensures r.Ok? ==>
        && id in old(repo.users) && id in repo.users
        && repo.users == old(repo.users)[id := repo.users[id]]
        && repo.nextId == old(repo.nextId)
        && repo.users[id] == old(repo.users[id]).(
             name := dto.name, email := dto.email, phone := dto.phone,
             role := dto.role, active := Some(dto.active.GetOr(true)))
        && repo.users[id].id == Some(id)
        && r.value == MapToDTO(repo.users[id])
    {
      var found := repo.FindById(id);
      if found.None? {
        return Err(NotFound(id));
      }
      var user := found.value;
      if user.email != dto.email && repo.ExistsByEmail(dto.email) {
        return Err(DuplicateResource(dto.email));
      }
      UpdateCheckSuffices(repo.users, id, dto.email);
      user := user.(name := dto.name);
      user := user.(email := dto.email);
      user := user.(phone := dto.phone);
      user := user.(role := dto.role);
      user := user.(active := Some(dto.active.GetOr(true)));
      UniqueAfterWrite(repo.users, id, user);
      var updated := repo.Save(user);
      return Ok(MapToDTO(updated));
    }

    /** Fails with NotFound when `id` is absent; otherwise removes that record only. */
    method DeleteUser(id: nat) returns (r: Result<()>)
      requires Valid()
      modifies repo
      ensures Valid()
      ensures r.Ok? <==> id in old(repo.users)
      ensures r.Err? ==> r.error == NotFound(id) && repo.users == old(repo.users)
      ensures r.Ok? ==> repo.users == old(repo.users) - {id}
      ensures id !in repo.users && repo.nextId == old(repo.nextId)
    {
      if !repo.ExistsById(id) {
        return Err(NotFound(id));
      }
      repo.DeleteById(id);
      return Ok(());
    }

    /**
     * Fails with NotFound when `id` is absent; otherwise clears that record's
     * active flag and changes nothing else. A second call changes nothing.
     */
    method DeactivateUser(id: nat) returns (r: Result<UserDTO>)
      requires Valid()
      modifies repo
      ensures Valid()
      ensures r.Ok? <==> id in old(repo.users)
      ensures r.Err? ==> r.error == NotFound(id) && repo.users == old(repo.users)
      ensures r.Ok? ==>
        && id in old(repo.users) && id in repo.users
        && repo.users == old(repo.users)[id := old(repo.users[id]).(active := Some(false))]
        && r.value == MapToDTO(repo.users[id])
      ensures r.Ok? && old(repo.users[id].active) == Some(false) ==> repo.users == old(repo.users)
      ensures repo.nextId == old(repo.nextId)
    {
      var found := repo.FindById(id);
      if found.None? {
        return Err(NotFound(id));
      }
      var user := found.value;
      user := user.(active := Some(false));
      UniqueAfterWrite(repo.users, id, user);
      var updated := repo.Save(user);
      return Ok(MapToDTO(updated));
    }
  }

  /**
   * A session against an empty store: create, reject a duplicate email,
   * deactivate twice, delete, then look the deleted id up.
   */
  method ExampleSession() {
    var repo := new UserRepository();
    var service := new UserService(repo);
    var alice := UserDTO(None, "Alice", "a@x.com", None, None, None, None, None);
    var a := service.CreateUser(alice);
    assert a.Ok? && a.value.id == Some(0);
    assert a.value.role == Some(USER) && a.value.active == Some(true);
    var b := service.CreateUser(alice.(name := "Bob"));
    assert repo.users[0].email == "a@x.com";
    assert b == Err(DuplicateResource("a@x.com"));
    var d := service.DeactivateUser(0);
    assert d.Ok? && d.value.active == Some(false);
    var usersAfterOne := repo.users;
    var d2 := service.DeactivateUser(0);
    assert repo.users == usersAfterOne;
    var e := service.DeleteUser(0);
    assert e.Ok?;
    var g := service.GetUserById(0);
    assert g == Err(NotFound(0));
  }
}
