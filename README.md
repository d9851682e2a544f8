# Member service over an in-memory member table

A Dafny model of the core of a small member-management backend (Spring Boot, Java). It has one entity, `Member`, with a
unique email column. A repository stores members by primary key. A service creates, reads, updates (a partial merge) and
deletes members, checking email uniqueness first. A mapper converts between rows and transport payloads. A controller
turns service outcomes into HTTP status codes.

Layout, one module per source file:

- `wrappers.dfy` (`Wrappers`): `Option` for nullable references, `Result`/`Outcome` for calls that may throw.
- `exceptions.dfy` (`Exceptions`): the exceptions that reach the controller. These are `RuntimeError(message)`,
  `NullPointer`, `ConstraintViolation` (the Bean Validation failure raised when an invalid row is written), and the
  store's `DataIntegrityViolation`.
- `decimal.dfy` (`Decimal`): decimal text of an id, as Java string concatenation produces it, with its read-back.
- `entity.dfy` (`Entity`): the `Member` row. Every field is an `Option` because every Java field is nullable. The file
  also has the field-length constraints.
- `dto.dfy` (`Dto`): the `Create`, `Update` and `Info` payloads and their constraints.
- `mapper.dfy` (`Mapper`): the null-ignoring merge `Update` and the payload conversions.
- `repository.dfy` (`Repository`): the table as a value `Table` (rows, id generator, uuid generator) with its invariant
  `Inv`. Store transitions are the pure functions `SaveStep`/`DeleteStep`. The class `MemberRepo` keeps the same state
  in fields, and each of its methods is proved against those functions.
- `service.dfy` (`Service`): the service rules as pure transitions (`SaveMemberStep`, `UpdateMemberStep`,
  `DeleteMemberStep`) plus lemmas about them. The class `MemberService` calls a `MemberRepo` and is proved equal to
  those transitions.
- `controller.dfy` (`Controller`): each handler's status decision, plus lemmas for a whole request through the service.
- `init_data_loader.dfy` (`InitDataLoader`): the start-up seeding of the administrator, and a whole lifecycle run
  through the objects and handlers.

Central results:

- Every store transition keeps `Inv`. It says that no two rows share a non-null email and that every stored row meets
  the entity constraints.
- Create never answers 500. `SaveMemberStep` checks the email first, so it never yields `DataIntegrityViolation`, and
  `CreateRequest` proves that the handler answers 400 iff the email is in use or the payload breaks the constraints,
  and 201 otherwise.
- Update yields `DataIntegrityViolation` only when the patch carries the id of a different row. The controller builds
  its patch with `UpdateToMember`, whose id is null, so an update request never meets it.

The store follows Spring Data's `save` with Bean Validation on write:
- A record that breaks the entity constraints (email present, 2..64 characters; name 2..32 and phone 11..13 when
  present) is refused with `ConstraintViolation`, and nothing is written.
- A record whose id names a stored row replaces that row, and its `mod_dt` is set to the current time.
- Any other record is inserted. It gets the next id (ids start at 1), the next uuid, and `reg_dt = mod_dt = now`.
- A non-null email that another row already holds is refused with `DataIntegrityViolation`, and nothing is written.

`existsByEmail` on a null email matches rows whose email is null, as a derived query does. The unique check treats nulls
as distinct, as SQL does. The current time `now` is a parameter of every write.

Behaviour of the code worth stating outright:
- `getMemberById` returns null for an absent id; it does not fail. The controller turns that null into 404.
- A failed update answers 409 in every case, a storage violation included.
- Delete of an absent id answers 500.
- The list endpoint answers 200, with an empty list when the table is empty.
- `createMember` has no `@Valid`, so an invalid draft reaches the store; the store's validation failure is a
  RuntimeException other than a storage violation, which the handler answers with 400.
- `InitDataLoader.AdminLifecycle` proves that create, read, change email, create again with the old email, delete,
  read answers 201, 200, 200, 201, 200, 404. The second create succeeds because the first member no longer holds that
  email.
- `updateMember` returns the mapping target it merged into. It does not return the result of `save`. The model therefore
  returns the merge, whose `mod_dt` is the value before the update. The stored row carries the refreshed `mod_dt`.

## Model

| member | source | states |
|---|---|---|
| `Decimal.NatToString` | src/main/java/io/ybg/demo/service/MemberService.java:52 | the id in a message is rendered as non-empty decimal digits without a leading zero |
| `Decimal.ValueOfNatToString` | src/main/java/io/ybg/demo/service/MemberService.java:52 | reading the rendered id back gives the id |
| `Decimal.NatToStringInjective` | src/main/java/io/ybg/demo/service/MemberService.java:77 | distinct ids give distinct decimal texts |
| `Entity.ValidFields` | src/main/java/io/ybg/demo/entity/MemberEntity.java:36-50 | the entity constraints: email present with 2..64 characters, name 2..32 and phone 11..13 characters when present |
| `Repository.UniqueEmails` | src/main/java/io/ybg/demo/entity/MemberEntity.java:41 | the unique email column: no two rows share a non-null email |
| `Repository.Inv` | src/main/java/io/ybg/demo/entity/MemberEntity.java:25-50 | every row sits under its own generated id, every stored row meets the entity constraints, and emails are unique |
| `Mapper.Update` | src/main/java/io/ybg/demo/mapper/MemberMapper.java:17-18 | each non-null patch field overwrites the target's field; each null patch field leaves the target's field as it was |
| `Mapper.UpdateWithEmptyPatch` | src/main/java/io/ybg/demo/mapper/MemberMapper.java:17-18 | an all-null patch is the identity |
| `Mapper.UpdateIdempotent` | src/main/java/io/ybg/demo/mapper/MemberMapper.java:17-18 | merging the same patch twice equals merging it once |
| `Mapper.MemberToInfo` | src/main/java/io/ybg/demo/mapper/MemberMapper.java:20 | the payload carries id, uuid, email, name, phone, reg_dt and mod_dt unchanged |
| `Mapper.MemberToInfoInjective` | src/main/java/io/ybg/demo/mapper/MemberMapper.java:20 | the conversion loses nothing: equal payloads come from equal rows |
| `Mapper.MemberToInfoValid` | src/main/java/io/ybg/demo/mapper/MemberMapper.java:20 | a row with valid fields gives a payload satisfying the Info constraints |
| `Mapper.MemberToInfoList` | src/main/java/io/ybg/demo/mapper/MemberMapper.java:21 | the list form has the same length and maps element by element, in order |
| `Mapper.UpdateToMember` | src/main/java/io/ybg/demo/mapper/MemberMapper.java:23 | the patch copies email, name and phone and leaves id, uuid, reg_dt and mod_dt null |
| `Mapper.CreateToMember` | src/main/java/io/ybg/demo/mapper/MemberMapper.java:24 | the draft copies email, name and phone and leaves id, uuid, reg_dt and mod_dt null |
| `Mapper.UpdateFromPayload` | src/main/java/io/ybg/demo/mapper/MemberMapper.java:17-23 | merging a payload patch keeps id, uuid and both timestamps, takes the email, and takes name/phone only where present |
| `Mapper.UpdateKeepsValidity` | src/main/java/io/ybg/demo/mapper/MemberMapper.java:17-18 | merging a patch with a present email onto a row meeting the entity constraints gives a row meeting them iff the patch's own email, name and phone meet them |
| `Mapper.UpdatePayloadValidity` | src/main/java/io/ybg/demo/dto/MemberDTO.java:49-62 | the patch built from an update payload meets the entity constraints iff the payload passes its validation (email present with 2..64 characters, name 2..32 and phone 11..13 when present) |
| `Mapper.CreatePayloadValidity` | src/main/java/io/ybg/demo/dto/MemberDTO.java:68-81 | the draft built from a creation payload meets the entity constraints iff the payload passes the same validation |
| `Repository.SaveStep` | src/main/java/io/ybg/demo/repository/MemberRepo.java:6 | a record breaking the entity constraints fails with a constraint violation; otherwise save fails with a storage violation iff another row holds the non-null email; a failure changes nothing; on success the row under the returned id is the returned record; an insert uses an unused id, a new uuid and sets reg_dt, and adds exactly one row; a replace keeps id, uuid and reg_dt and the row count; mod_dt is now; the invariant (unique emails, every row valid) is kept |
| `Repository.SavedIsFound` | src/main/java/io/ybg/demo/repository/MemberRepo.java:6-7 | after a successful save, findById of the returned id gives a record equal to the returned one, and existsByEmail of its email is true |
| `Repository.ListedCount` | src/main/java/io/ybg/demo/repository/MemberRepo.java:6 | a full listing in ascending id order has exactly as many entries as the table has rows |
| `Repository.DeleteStep` | src/main/java/io/ybg/demo/repository/MemberRepo.java:6 | deleteById removes exactly that id, keeps every other row, changes nothing for an absent id, and keeps the invariant |
| `Repository.MemberRepo.constructor` | src/main/java/io/ybg/demo/repository/MemberRepo.java:6 | a new store is empty and valid, with ids starting at 1 |
| `Repository.MemberRepo.Save` | src/main/java/io/ybg/demo/repository/MemberRepo.java:6 | the object's new state and return value are those of `SaveStep` |
| `Repository.MemberRepo.FindById` | src/main/java/io/ybg/demo/repository/MemberRepo.java:6 | present iff a row has the id, and then it is that row; an empty store finds nothing |
| `Repository.MemberRepo.ExistsByEmail` | src/main/java/io/ybg/demo/repository/MemberRepo.java:7 | true iff some row has that email |
| `Repository.MemberRepo.FindAll` | src/main/java/io/ybg/demo/repository/MemberRepo.java:6 | lists every stored row exactly once and nothing else; length equals the row count (the ascending id order is the model's choice) |
| `Repository.MemberRepo.DeleteById` | src/main/java/io/ybg/demo/repository/MemberRepo.java:6 | the object's new state is that of `DeleteStep` |
| `Service.SaveMemberStep` | src/main/java/io/ybg/demo/service/MemberService.java:34-45 | a taken email fails with "Email already exists" and changes nothing; otherwise the store's save is performed; it succeeds iff the email is free and the record meets the entity constraints, and a record breaking them fails with a constraint violation and changes nothing; never a storage violation; the invariant is kept |
| `Service.SaveMemberAddsOne` | src/main/java/io/ybg/demo/service/MemberService.java:39-44 | a fresh valid member is added as exactly one row under a new id, all other rows kept, the stored record returned, and its email is then in use |
| `Service.SaveMemberTwiceRefused` | src/main/java/io/ybg/demo/service/MemberService.java:36-38 | after a successful save, a second save with the same email fails with "Email already exists" and changes nothing |
| `Service.UpdateMemberStep` | src/main/java/io/ybg/demo/service/MemberService.java:47-66 | an absent id fails with "Update Member with id: <id> doesn't exist" before any other check; a null patch email fails with a null dereference; a changed email in use fails with "Update Email already exists"; once those pass, a patch breaking the entity constraints fails with a constraint violation; all four leave the table; a success returns the merge of the stored row and the patch; a storage violation needs a patch with another row's id; the invariant is kept |
| `Service.UpdateMemberMerges` | src/main/java/io/ybg/demo/service/MemberService.java:61-65 | once the checks pass, a valid patch makes the row at id the merge (with mod_dt now), leaves every other row untouched, and returns the merge |
| `Service.OwnEmailAccepted` | src/main/java/io/ybg/demo/service/MemberService.java:55-59 | keeping one's own email, with a valid name and phone, does not fail |
| `Service.DeleteMemberStep` | src/main/java/io/ybg/demo/service/MemberService.java:72-80 | succeeds iff the id exists; an absent id fails with "Delete Member with id: <id> doesn't exist" and changes nothing; otherwise only that row is removed |
| `Service.DeleteThenGone` | src/main/java/io/ybg/demo/service/MemberService.java:72-80 | after a delete the id is gone: deleting it again, or updating it with any patch at any time, fails with the not-found message |
| `Service.NotFoundMessagesInjective` | src/main/java/io/ybg/demo/service/MemberService.java:52 | equal update (or delete) not-found messages come from equal ids, so each message names its id unambiguously |
| `Service.MemberService.GetAllMembers` | src/main/java/io/ybg/demo/service/MemberService.java:21-23 | exactly the stored members, each once; an empty store gives an empty list; nothing changes |
| `Service.MemberService.GetMemberById` | src/main/java/io/ybg/demo/service/MemberService.java:25-32 | the stored member for a present id, null for an absent one; nothing changes |
| `Service.MemberService.IsExistingEmail` | src/main/java/io/ybg/demo/service/MemberService.java:68-70 | true iff some stored member has that email; nothing changes |
| `Service.MemberService.SaveMember` | src/main/java/io/ybg/demo/service/MemberService.java:34-45 | result and new store state are those of `SaveMemberStep` |
| `Service.MemberService.UpdateMember` | src/main/java/io/ybg/demo/service/MemberService.java:47-66 | result and new store state are those of `UpdateMemberStep` |
| `Service.MemberService.DeleteMemberById` | src/main/java/io/ybg/demo/service/MemberService.java:72-80 | result and new store state are those of `DeleteMemberStep` |
| `Controller.IdText` | src/main/java/io/ybg/demo/controller/MemberController.java:87 | a present id becomes decimal digits whose value is the id; a null id becomes "null" |
| `Controller.GetAllMembers` | src/main/java/io/ybg/demo/controller/MemberController.java:39-41 | always 200 with the payload list, element by element, the empty list included |
| `Controller.GetMemberById` | src/main/java/io/ybg/demo/controller/MemberController.java:49-57 | 404 without a body iff the member is null; otherwise 200 with its payload |
| `Controller.CheckEmail` | src/main/java/io/ybg/demo/controller/MemberController.java:64-66 | 200 with the negation of existence (true means available) |
| `Controller.CreateMember` | src/main/java/io/ybg/demo/controller/MemberController.java:75-88 | 500 iff a storage violation, 400 iff any other failure, 201 iff success, with Location /Members/<id> |
| `Controller.UpdateMember` | src/main/java/io/ybg/demo/controller/MemberController.java:96-106 | 409 iff any failure (storage violation included); otherwise 200 with the merged member's payload |
| `Controller.DeleteMemberById` | src/main/java/io/ybg/demo/controller/MemberController.java:114-122 | 500 iff any failure (not-found included); otherwise 200 with body true |
| `Controller.CreateRequest` | src/main/java/io/ybg/demo/controller/MemberController.java:75-88 | a create through the service never answers 500; 400 iff the email is in use or the payload breaks the constraints; 201 otherwise, pointing at a new id (the email's syntax is not checked, so 201 assumes a well-formed email) |
| `Controller.UpdateRequest` | src/main/java/io/ybg/demo/controller/MemberController.java:96-106 | a validated update through the service answers 409 iff the id is absent or the new email belongs to someone else; 200 with the merge otherwise |
| `Controller.DeleteRequest` | src/main/java/io/ybg/demo/controller/MemberController.java:114-122 | a delete through the service answers 200 iff the id exists, 500 otherwise |
| `InitDataLoader.Run` | src/main/java/io/ybg/demo/component/InitDataLoader.java:19-22 | seeding stores the administrator directly; on an empty store that leaves exactly that one member, whose email is then in use |
| `InitDataLoader.AdminLifecycle` | src/main/java/io/ybg/demo/service/MemberService.java:34-80 | create, read, change email, create again with the old email, delete, read: the handlers answer 201, 200, 200, 201, 200, 404 |

## Left out

- Spring wiring is not modelled: routing, dependency injection, OpenAPI metadata and logging. The handlers are modelled
  as functions from a service outcome to a response.
- The ORM is replaced by the map-backed table. Persistence contexts, flushing and transactions are left out.
- Bean Validation on write is modelled as one check of the whole record before the store writes it. Which message a
  violated constraint carries is not modelled. The `@Valid` boundary on update appears as the requirement
  `Dto.ValidUpdate` in `Controller.UpdateRequest`. Create has no such boundary in the source, so its invalid drafts
  are refused by the store.
- The `@Email` syntax check is not modelled. It is a framework regular expression. Email validity covers presence and
  length only.
- `Controller.CreateRequest`: its 201 case assumes a syntactically valid email. A draft whose email fails `@Email`
  (e.g. "ab") gets 201 in the model, while the program's write-time validation refuses it and the handler answers 400.
- String lengths count Dafny characters (Unicode scalar values), while Java counts UTF-16 code units. They differ
  only for characters outside the Basic Multilingual Plane.
- UUIDs are drawn from a counter rather than at random. A new uuid differs from every uuid generated before.
- Timestamps are readings of an abstract clock, passed in as `now`.
- Ids are `nat`. Negative path ids and 32-bit overflow of the `Integer` id are not modelled.
- `Service.UpdateMemberStep`: the returned record is the merge value, not an alias of the stored row. With an open
  persistence context the Java object returned is also the managed row, so its mod_dt would be refreshed too. The model
  does not capture this aliasing or the in-place mutation of the mapping target.
- `Repository.MemberRepo.FindAll`: `findAll` sends no ORDER BY, so the program promises no order. The model lists rows
  in ascending id order; only the set of rows listed and their count are the program's.
- `Service.MemberService.GetAllMembers`: it returns what `findAll` lists, so its ascending id order is likewise the
  model's choice; only the set of members and their count are the program's.
- The check-then-act race between `existsByEmail` and `save` is left out, because the model is sequential. The store's
  unique constraint is still modelled as a failure case.
- The rethrowing try/catch around `saveMember` adds no behaviour and is not modelled separately.
- The controller tests that target another revision are not encoded: 204 for an empty list, a redirect to
  `/member/v1/<id>`, 500 for an update storage error, and 409 for delete not-found.
