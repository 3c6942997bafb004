# User service model

A Dafny model of the user service of a small CRUD web application for user
records. The service sits between an HTTP controller and a JPA repository.
It checks a minimum age when a user is created. It merges a partial update
(a key → value map) into a stored record, one field at a time. It can also
overwrite all mutable fields at once, delete by id after checking the id
exists, and search by an inclusive birth-date window.

The repository is modelled as an abstract store, `Repository.Store`. This is a
`map<int, User>` whose type keeps every row filed under its own id. Each
service method is a pure function from the store and its inputs to a
`Result`:

- `Ok` carries the new store and the saved record.
- `Err` carries the exception the method throws. It carries no store, so the
  caller's store is the store after the call.

`ServiceProperties.Step` puts all six operations together as one state
machine, and its contract states the framing once for all of them.

Files:

- `results.dfy`: `Option` and `Result`.
- `dates.dfy`: `LocalDate` as a (year, month, day) triple, and `isAfter` as
  lexicographic order.
- `users.dfy`: the `User` entity, the six patchable fields, and their names,
  getters and setters.
- `failures.dfy`: the exceptions and their messages.
- `repository.dfy`: the store and the repository queries the service uses.
- `patch.dfy`: the partial-update walk.
- `service.dfy`: the five service operations and `getAllUsers`.
- `properties.dfy`: the state machine and the lemmas relating several calls.

Two consequences of the code are worth stating:

- A failed patch leaves the store unchanged. The setters change only the
  in-memory entity returned by `findById`. `save` (UserService.java:65) is
  reached only after the whole map has been walked. The service opens no
  transaction, so when a setter or the key dispatch throws, no commit follows
  and nothing is flushed (`UserService.UpdateUser`, `ServiceProperties.Step`).
- Every rule the service checks throws `IllegalArgumentException`.
  `Failures.IsIllegalArgument` groups those failures. The model keeps the
  kinds apart only so that contracts can name them.

## Model

| member | source | states |
|---|---|---|
| Dates.IsAfterMatchesOrdinal | src/main/java/ua/com/restful_for_users/service/UserService.java:30 | On valid dates, `isAfter` agrees with an independent day numbering: later means a larger number, and equal dates have equal numbers |
| Dates.IsAfterStrictTotalOrder | src/main/java/ua/com/restful_for_users/service/UserService.java:91 | `isAfter` is irreflexive and transitive, and it decides every pair of distinct dates one way |
| Dates.WindowBounds | src/main/java/ua/com/restful_for_users/service/UserService.java:91-94 | An inverted window holds no date; a window with `from == to` holds exactly that day |
| Users.FieldNameRoundTrip | src/main/java/ua/com/restful_for_users/service/UserService.java:40-58 | The six `switch` keys and the six fields correspond one to one: a key selects a field exactly when it is that field's name |
| Users.Set | src/main/java/ua/com/restful_for_users/service/UserService.java:41-57 | Each setter gives its own field the new value and leaves the id and the other five fields unchanged |
| Failures.DecimalInjective | src/main/java/ua/com/restful_for_users/service/UserService.java:38 | Distinct ids (and ages) have distinct decimal renderings in a message |
| Failures.Message | src/main/java/ua/com/restful_for_users/service/UserService.java:31-92 | The exception texts: the opening characters tell the kind, and after the fixed prefix come the age, the id or the key |
| Failures.MessageDeterminesFailure | src/main/java/ua/com/restful_for_users/service/UserService.java:31-92 | Two `IllegalArgumentException` messages are equal only for the same failure: the text names the kind, the id, the age or the key |
| Repository.FindAll | src/main/java/ua/com/restful_for_users/repository/UserRepository.java:12 | `findAll` lists each stored record once: its length is the number of rows, it holds exactly the stored records, and the ids strictly increase |
| Repository.FindByIdAfterSave | src/main/java/ua/com/restful_for_users/repository/UserRepository.java:12 | After `save`, `findById` finds the saved record under its id; under any other id it finds what it found before |
| Repository.FindByIdAfterDelete | src/main/java/ua/com/restful_for_users/repository/UserRepository.java:12 | After `deleteById`, `findById` finds nothing under that id; under any other id it finds what it found before |
| Repository.Save | src/main/java/ua/com/restful_for_users/repository/UserRepository.java:12 | `save` writes the record under its own id and leaves every other row as it was |
| Repository.DeleteById | src/main/java/ua/com/restful_for_users/repository/UserRepository.java:12 | `deleteById` removes exactly that key, and every remaining row keeps its value |
| Repository.BornWithin | src/main/java/ua/com/restful_for_users/repository/UserRepository.java:13 | The filter keeps exactly the records born in the inclusive window, keeps only elements of its input, and preserves ascending ids |
| Repository.FindByBirthDateBetween | src/main/java/ua/com/restful_for_users/repository/UserRepository.java:13 | `findByBirthDateBetween` returns exactly the stored records with `from <= birthDate <= to` (both ends inclusive), in ascending id order |
| Patching.EntryFailure | src/main/java/ua/com/restful_for_users/service/UserService.java:59-60 | An unusable entry fails with `Invalid field: <key>` exactly when its key is none of the six field names; it fails with a cast failure exactly when the key names a field but the value has the other kind. Either failure carries the entry's key |
| Patching.ApplyEntry | src/main/java/ua/com/restful_for_users/service/UserService.java:40-61 | One `switch` case succeeds exactly when some field is named by the key and the value has that field's kind. On success the id is kept, the named field takes the value, and every other field is unchanged. A failure is that entry's failure |
| Patching.ApplyAllSucceeds | src/main/java/ua/com/restful_for_users/service/UserService.java:39-62 | The walk over the update map succeeds exactly when every entry is usable |
| Patching.ApplyAllFailsAtFirstBadEntry | src/main/java/ua/com/restful_for_users/service/UserService.java:39-62 | A failed walk reports the failure of the first unusable entry in iteration order; every entry before it is usable |
| Patching.ApplyAllEffect | src/main/java/ua/com/restful_for_users/service/UserService.java:39-62 | A successful walk keeps the id, gives each named field the value of the last entry naming it, and leaves every unnamed field unchanged |
| Patching.ApplyAllIdempotent | src/main/java/ua/com/restful_for_users/service/UserService.java:39-62 | Walking the same update map a second time changes nothing |
| UserService.GetAllUsers | src/main/java/ua/com/restful_for_users/service/UserService.java:22-25 | Returns every stored record exactly once; the store is untouched |
| UserService.CreateUser | src/main/java/ua/com/restful_for_users/service/UserService.java:27-34 | Fails with the minimum-age failure exactly when the birth date is strictly after the latest admissible date. Otherwise it saves the user's six fields under the new id, adds exactly that key and leaves every other row alone |
| UserService.UpdateUser | src/main/java/ua/com/restful_for_users/service/UserService.java:36-66 | A missing id fails with not-found. Otherwise the call succeeds exactly when every entry is usable, and a failure names the first unusable entry. On success the id is kept, named fields take their last given values, other fields and other rows are unchanged, and the key set is the same |
| UserService.UpdateAllUserFields | src/main/java/ua/com/restful_for_users/service/UserService.java:68-79 | Fails with not-found exactly when the id is absent. Otherwise all six fields equal the input's, the stored id is kept (the input's id is ignored), and only that row changes |
| UserService.DeleteUser | src/main/java/ua/com/restful_for_users/service/UserService.java:81-87 | Fails with not-found exactly when the id is absent. Otherwise it removes exactly that key, and every other row is unchanged |
| UserService.SearchUsersByBirthDateRange | src/main/java/ua/com/restful_for_users/service/UserService.java:89-95 | Fails without querying exactly when `from` is after `to` (so `from == to` is allowed). Otherwise it returns exactly the stored records born in `[from, to]` |
| ServiceProperties.Step | src/main/java/ua/com/restful_for_users/service/UserService.java:22-95 | No failing call and no read changes the store. A call writes at most the one row its id names, and every other row is kept |
| ServiceProperties.BoundaryBirthDateAccepted | src/main/java/ua/com/restful_for_users/service/UserService.java:29-33 | A user born exactly on the latest admissible birth date is accepted and saved as given |
| ServiceProperties.CreateThenDeleteRestores | src/main/java/ua/com/restful_for_users/service/UserService.java:81-87 | Deleting a user just created under a fresh id gives back the original store |
| ServiceProperties.DeleteTwiceFails | src/main/java/ua/com/restful_for_users/service/UserService.java:83-85 | A delete is not idempotent: a second delete of the same id fails with not-found |
| ServiceProperties.DeletedUserNotListed | src/main/java/ua/com/restful_for_users/service/UserService.java:22-25 | After a delete, listing all users shows one record fewer and none with the deleted id |
| ServiceProperties.CreatedUserFoundBySearch | src/main/java/ua/com/restful_for_users/service/UserService.java:89-95 | A just-created user is returned by a search exactly when its birth date lies in the window |
| ServiceProperties.ReplaceAllIsFullPatch | src/main/java/ua/com/restful_for_users/service/UserService.java:68-79 | Replacing all fields equals the partial update that names all six fields, on present and absent ids alike |
| ServiceProperties.UpdateUserIdempotent | src/main/java/ua/com/restful_for_users/service/UserService.java:36-66 | Repeating a successful partial update returns the same record and leaves the store as the first call left it |
| ServiceProperties.Lifecycle | src/main/java/ua/com/restful_for_users/service/UserService.java:27-87 | Create on the age boundary, then patch the address: only the address changes. Then delete, which restores the original store, and a second delete, which fails |

## Left out

- Clock: `LocalDate.now().minusYears(minUserAge)` is not computed. `UserService.Policy` carries the configured minimum age and the resulting latest admissible birth date as inputs. Leap-day clamping in `minusYears` is therefore outside the model.
- Id generation: `UserService.CreateUser` takes as the parameter `newId` the id under which the store files the new row. A fresh `newId` is a newly generated id. A `newId` that is already stored is the merge case: a client-supplied id of an existing row makes `save` overwrite that row, and `CreateUser` then replaces the row under `newId` the same way. How the store chooses the id is not modelled.
- Null values: every text field is a plain string and no patch value is null. The entity class with its not-null and format validation is not part of this model, so saving a record that breaks those constraints is not modelled either.
- Patch value types: an update value is either text or a date. A known key with a value of the other kind fails with `ValueTypeMismatch`, which stands for the `ClassCastException` of the cast; its JVM-generated message is not modelled. Over HTTP, a JSON body gives the service the text of a date rather than a `LocalDate`. A `birthDate` patch sent that way therefore takes this failure path.
- Listing order: the source leaves the order of `findAll` and `findByBirthDateBetween` to the storage. The model fixes ascending id order.
- Date validity: dates are triples compared lexicographically, as `LocalDate.isAfter` compares them. The model does not check that a triple names a real calendar day; the day-number agreement lemma assumes months 1..12 and days 1..31.
- Id width: ids are Java `long`s. The service does no arithmetic on them, so they are unbounded integers here.
- Concurrency and transactions: the service is not transactional, so a patch is a read followed by a separate save. Interleaving between concurrent requests is not modelled; each call is one atomic step.
- HTTP controller, exception-to-response mapping, status codes, request parsing, logging, and uniqueness constraints of the database: framework glue with no logic of the service's own.
