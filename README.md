# User service model

A Dafny model of the user-management service of `user_flow`: a `UserService`
that creates, reads, updates, deactivates and deletes user records held by a
`UserRepository`. It checks email uniqueness, fills in defaults for role and
active flag, and translates between the persisted `User` entity and the
`UserDTO` transfer form.

Files:

- `wrappers.dfy`: `Option`, standing in for Java's nullable references and its
  `x != null ? x : default` idiom (`GetOr`).
- `user_model.dfy` (module `UserModel`): the `User` and `UserDTO` records, the
  `Role` enumeration, the two errors (`DuplicateResource`, `NotFound`), the
  mappers `MapToDTO` and `MapToEntity`, and the email predicates
  `EmailTaken` and `UniqueEmails`.
- `persistence.dfy` (module `Persistence`): an in-memory `UserRepository` class
  with a `map<nat, User>` table and the next id to assign. It offers the queries
  the service calls (`existsByEmail`, `existsById`, `findById`, `findAll`,
  `findByActive`, `save`, `deleteById`). Listings come back in ascending id order.
- `user_service.dfy` (module `Service`): the `UserService` class. Its invariant
  `Valid()` says the store is well formed and no two records share an email.
  Every mutating operation keeps that invariant. `ExampleSession` replays a
  short session (create, duplicate create, deactivate twice, delete, lookup)
  using only the operations' contracts.

The entity is a value. The setters that `updateUser` and `deactivateUser` call
on the fetched entity become successive record updates of a local variable,
followed by `Save`. Each service operation is one atomic step.

The role is defaulted to USER only on creation (`MapToEntity`, `UserService.java`:132).
`updateUser` copies the DTO's role as given (`UserService.java`:81), so an update without a
role stores a record with no role. Only the active flag is defaulted on update
(`UserService.java`:82). `UpdateUser` states this behaviour.

## Model

| member | source | states |
|---|---|---|
| `UserModel.MapToDTO` | userService/src/main/java/com/example/user/userService/service/UserService.java:114-125 | the DTO carries each entity field unchanged: id, name, email, phone, role, active and both timestamps |
| `UserModel.MapToEntity` | userService/src/main/java/com/example/user/userService/service/UserService.java:127-135 | the new entity has no id or timestamps; it copies name/email/phone; role is the DTO's or USER when absent; active is the DTO's or true when absent |
| `UserModel.MapToDTOInjective` | userService/src/main/java/com/example/user/userService/service/UserService.java:114-125 | two entities with equal DTOs are equal, so no field is lost |
| `UserModel.DTORoundTrip` | userService/src/main/java/com/example/user/userService/service/UserService.java:114-135 | DTO to entity to DTO gives the DTO with id and timestamps cleared and role/active defaulted |
| `UserModel.EntityRoundTrip` | userService/src/main/java/com/example/user/userService/service/UserService.java:114-135 | entity to DTO to entity gives the entity without id and timestamps (when role and active are present) |
| `UserModel.UniqueAfterWrite` | userService/src/main/java/com/example/user/userService/service/UserService.java:32-37 | writing a record whose email no other record holds keeps all emails unique |
| `UserModel.UpdateCheckSuffices` | userService/src/main/java/com/example/user/userService/service/UserService.java:73-76 | if the update's check passes, no other record holds the new email |
| `Persistence.IdsBelowSound` | userService/src/main/java/com/example/user/userService/service/UserService.java:52 | each id that the listing enumerates is a stored id whose record matches the query |
| `Persistence.IdsBelowComplete` | userService/src/main/java/com/example/user/userService/service/UserService.java:52 | every stored id whose record matches the query is enumerated |
| `Persistence.IdsBelowAscending` | userService/src/main/java/com/example/user/userService/service/UserService.java:52 | the enumeration is strictly ascending, so no record is listed twice |
| `Persistence.IdsBelowCount` | userService/src/main/java/com/example/user/userService/service/UserService.java:52 | the enumeration is exactly as long as the set of matching stored ids |
| `Persistence.EmailListed` | userService/src/main/java/com/example/user/userService/service/UserService.java:32 | an email is taken exactly when a sound and complete listing of the table shows a record with it |
| `Persistence.UserRepository.ExistsByEmail` | userService/src/main/java/com/example/user/userService/service/UserService.java:32 | true exactly when some stored record holds the email, equivalently when some record of `FindAll` does |
| `Persistence.UserRepository.ExistsById` | userService/src/main/java/com/example/user/userService/service/UserService.java:93 | true exactly when `FindById` finds a record; that record then carries the id |
| `Persistence.UserRepository.FindById` | userService/src/main/java/com/example/user/userService/service/UserService.java:45-46 | present exactly when the id is stored; it then returns that record, which carries that id |
| `Persistence.UserRepository.Select` | userService/src/main/java/com/example/user/userService/service/UserService.java:52-60 | one entry per stored record matching the query, each the stored record, in ascending id order |
| `Persistence.UserRepository.FindAll` | userService/src/main/java/com/example/user/userService/service/UserService.java:52 | every stored record exactly once (length equals the table size), in ascending id order |
| `Persistence.UserRepository.FindByActive` | userService/src/main/java/com/example/user/userService/service/UserService.java:60 | exactly the stored records whose active flag equals the argument, each once |
| `Persistence.UserRepository.Save` | userService/src/main/java/com/example/user/userService/service/UserService.java:37 | an entity without id is stored under a fresh id (the counter advances); one with an id overwrites that entry only |
| `Persistence.UserRepository.DeleteById` | userService/src/main/java/com/example/user/userService/service/UserService.java:96 | removes exactly that id; the id counter is unchanged, so ids are never reused |
| `Service.ToDTOs` | userService/src/main/java/com/example/user/userService/service/UserService.java:53-55 | the DTO list has one entry per entity, in order, each its `MapToDTO` |
| `Service.DTOsOfListing` | userService/src/main/java/com/example/user/userService/service/UserService.java:52-63 | mapping a listing to DTOs gives one DTO per matching record, mirroring it, with no id repeated |
| `Service.UserService.constructor` | userService/src/main/java/com/example/user/userService/service/UserService.java:20-24 | the service wraps a store with unique emails and establishes its invariant |
| `Service.UserService.CreateUser` | userService/src/main/java/com/example/user/userService/service/UserService.java:29-41 | DuplicateResource with the store unchanged exactly when some record holds the email. Otherwise a single new record is added under a fresh id, built from the DTO with role defaulted to USER and active to true, and every other record is unchanged. The returned DTO is that record's. Emails stay unique |
| `Service.UserService.GetUserById` | userService/src/main/java/com/example/user/userService/service/UserService.java:43-48 | NotFound exactly when the id is absent; otherwise the stored record's DTO, carrying that id; nothing changes |
| `Service.UserService.GetAllUsers` | userService/src/main/java/com/example/user/userService/service/UserService.java:50-56 | one DTO per stored record (as many as there are records); each mirrors its record; every record appears; no id twice |
| `Service.UserService.GetActiveUsers` | userService/src/main/java/com/example/user/userService/service/UserService.java:58-64 | DTOs of exactly the records whose active flag is true, each once, each mirroring its record |
| `Service.UserService.UpdateUser` | userService/src/main/java/com/example/user/userService/service/UserService.java:67-88 | NotFound exactly when the id is absent. DuplicateResource exactly when the email changes to one some record holds. Success exactly when the id is present and the email is either unchanged or held by no record. On failure nothing changes. On success only that record changes: id and timestamps kept; name, email, phone and role as given (role not defaulted); active as given or true. Emails stay unique |
| `Service.UserService.DeleteUser` | userService/src/main/java/com/example/user/userService/service/UserService.java:91-98 | NotFound with the store unchanged exactly when the id is absent; otherwise only that id is removed; afterwards the id is absent, so a lookup fails with NotFound |
| `Service.UserService.DeactivateUser` | userService/src/main/java/com/example/user/userService/service/UserService.java:101-111 | NotFound with the store unchanged exactly when the id is absent. Otherwise only that record's active flag becomes false; all its other fields and all other records are unchanged. On a record that is already inactive the store is unchanged (idempotent). The returned DTO mirrors the record |

## Left out

- Logging through SLF4J: a side effect with no behavioural contract.
- Spring `@Service`/`@Transactional` and Lombok constructor injection: framework wiring. Each operation is modelled as one atomic step.
- The concurrent check-then-act race on email uniqueness: concurrency is not modelled. Only the sequential invariant is proved.
- The JPA lifecycle that sets `createdAt`/`updatedAt`: the model carries them as opaque optional integers that the store keeps and `MapToDTO` copies.
- The real SQL/JPA repository: the `UserRepository` interface is not part of this model. An in-memory class stands in for it, and its ascending-id listing order is a choice of the model.
- The managed-entity identity of JPA: the fetched entity is a value, so aliasing between it and the store is not modelled.
- Java `Long` ids: ids are unbounded naturals, so overflow is not modelled. Negative ids are not modelled either; the source would report them as NotFound.
- Null `name` and `email`: both are required strings. Null handling belongs to DTO validation and to the database columns, neither of which is part of this model. `phone`, `role` and `active` are optional.
- `UserRole` is not part of this model; only its constants USER and ADMIN are modelled.
- The text of exception messages: an error carries only the offending email or id.
- The HTTP/transport layer and DTO validation annotations.
