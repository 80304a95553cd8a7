# Task tracker: task mapping and task store

A model of the persistence-and-mapping core of a small task-tracking web
application (job4j_todo). A task has a title, a description, a creation
time stored in UTC, a done flag, an owner, an optional priority and a
list of categories. Two pieces carry the behaviour:

- **The task service** (`SimpleTaskService`) maps between a stored task
  and its display form, the task DTO:
  - the owner and the priority are flattened to id/name pairs;
  - an absent priority becomes `(0, "")`;
  - the categories become an id list in relation order, plus one string
    of their names, sorted and joined with `", "`;
  - the creation time is shifted from UTC into the viewer's zone, or the
    host's default zone when the viewer has none.

  The reverse direction looks up the owner, the priority and the
  categories by id, and drops category ids it does not know. Every public
  operation of the service delegates to the task store and maps the
  results.
- **The task store** (`TaskStore`) is a Hibernate repository. Here it is a
  map from id to task plus the identity counter. It offers three
  `created`-ordered listings (all, done, new), a lookup by id, and four
  mutations that report success as a boolean (mark done, delete, update,
  save). Every operation catches database errors and then answers with
  an empty list, an empty optional or `false`.

Modules:

- `Entities` (entities.dfy): users, priorities, categories, tasks and the
  task DTO.
- `Text` (text.dfy): Java's natural string order, a sort, and
  `Collectors.joining`.
- `Zones` (zones.dfy): the viewer's zone and the UTC-to-local shift.
  Zone rules are an uninterpreted offset function.
- `TaskMapper` (mapper.dfy): `taskToTaskDto`, `taskDtoToTask`, list
  mapping and the round trips between them.
- `TaskStore` (store.dfy): the repository as a state machine over
  `Store(tasks, nextId)`.
- `TaskService` (service.dfy): the public operations of the service.

Modelling choices:

- **Database failure.** Whether the database call succeeds is the
  parameter `db: Db` (`Up` or `Down`). On `Down` the store is left
  unchanged and the operation returns its catch-block answer.
- **Timestamps.** These are integer seconds. The zone database is the
  `ZoneRules` parameter: an offset function and the host's default zone.
- **User, priority and category services.** These are the lookups in
  `Catalog`: two functions from id to an optional record, and the list
  `findAll` returns.
- **Duplicate category ids.** `Collectors.toMap` throws when the category
  list repeats an id. The model then returns `None`, and the service's
  `update`/`save` return `None` for "threw".
- **Tie order.** The listing queries order by `created` only, so rows with
  equal times may come back in any order. The queries are therefore
  methods that take rows from the key set in an unspecified order. Their
  contract (`IsListing`) admits every order.
- **Owner.** The entity's owner is `Option<User>`, because the reverse
  mapping produces `null` for an unknown user id. The mapping to a DTO
  dereferences the owner, so it requires one. The store keeps only owned
  rows (`Valid`), and `update`/`save` of an ownerless task fail. This is
  an assumption of this model: it takes the owner column of the task
  table to be NOT NULL. The source does not show the table definition.

Two behaviours of the code to note:

- **No conversion back.** `taskDtoToTask` copies the DTO's `created`
  (already in the viewer's local time) without converting it back to UTC.
  So entity → DTO → entity shifts `created` by the viewer's offset
  (`TaskMapper.EntityRoundTrip`). A DTO → entity → DTO round trip shifts it
  once more (`TaskMapper.DtoRoundTrip`) rather than reproducing it.
- **Invalid zone.** `ZoneId.of` throws on an unknown zone name rather than
  falling back to the default zone. The model takes the offset function
  as total, so it assumes no such name occurs.

## Model

| member | source | states |
|---|---|---|
| Text.LeqTotal | src/main/java/ru/job4j/todo/service/task/SimpleTaskService.java:91 | any two strings are comparable in the natural string order |
| Text.LeqTransitive | src/main/java/ru/job4j/todo/service/task/SimpleTaskService.java:91 | the natural string order is transitive |
| Text.LeqAntisymmetric | src/main/java/ru/job4j/todo/service/task/SimpleTaskService.java:91 | two strings each ordered before the other are equal |
| Text.Insert | src/main/java/ru/job4j/todo/service/task/SimpleTaskService.java:91 | inserting into an ascending list keeps it ascending and adds exactly the new element (as a multiset) |
| Text.Sort | src/main/java/ru/job4j/todo/service/task/SimpleTaskService.java:91 | `sorted()` yields an ascending permutation of its input |
| Text.SortedUnique | src/main/java/ru/job4j/todo/service/task/SimpleTaskService.java:91 | two ascending permutations of the same strings are identical, so the sorted order is unique |
| Text.Join | src/main/java/ru/job4j/todo/service/task/SimpleTaskService.java:92 | joining nothing gives ""; the first part is a prefix; the length is the parts' total plus one separator between each neighbouring pair |
| Text.JoinSnoc | src/main/java/ru/job4j/todo/service/task/SimpleTaskService.java:92 | appending a part appends the separator and that part to the joined string |
| Zones.ViewerZone | src/main/java/ru/job4j/todo/service/task/SimpleTaskService.java:84 | the viewer's own zone when set, otherwise the host's default zone |
| Zones.FixedOffsetKeepsOrder | src/main/java/ru/job4j/todo/service/task/SimpleTaskService.java:83-85 | in a zone with one offset, local conversion keeps distances between instants and their order (both directions) |
| Zones.ToLocal | src/main/java/ru/job4j/todo/service/task/SimpleTaskService.java:83-85 | the local time differs from the UTC instant by exactly the zone's offset at that instant |
| Zones.PlusThreeShift | src/main/java/ru/job4j/todo/service/task/SimpleTaskService.java:83-85 | in a UTC+3 zone every instant is shown three hours later; for example, 2024-01-01T00:00:00Z is shown as 03:00 the same day |
| Zones.ShiftingOffsetCanReorder | src/main/java/ru/job4j/todo/service/task/SimpleTaskService.java:83-85 | across an offset change, a later instant can show an earlier local time |
| TaskMapper.CategoryIds | src/main/java/ru/job4j/todo/service/task/SimpleTaskService.java:88 | the id list has one entry per category, in relation order, with no sorting or de-duplication |
| TaskMapper.CategoryNames | src/main/java/ru/job4j/todo/service/task/SimpleTaskService.java:89-92 | no categories give the empty string |
| TaskMapper.CategoryNamesAreSortedJoin | src/main/java/ru/job4j/todo/service/task/SimpleTaskService.java:89-92 | the name string is the `", "`-join of any ascending arrangement of the category names |
| TaskMapper.CategoryNamesIgnoreOrder | src/main/java/ru/job4j/todo/service/task/SimpleTaskService.java:89-92 | two category lists with the same names (in any order, under any ids) give the same name string |
| TaskMapper.ToDto | src/main/java/ru/job4j/todo/service/task/SimpleTaskService.java:80-93 | scalar fields copied; owner flattened to id and name; absent priority gives (0, ""), present priority copies id and name; category ids element by element; the name string is `CategoryNames` of the categories; `created` moved by the viewer zone's offset at that instant |
| TaskMapper.NoZoneMeansSystemDefault | src/main/java/ru/job4j/todo/service/task/SimpleTaskService.java:84 | a viewer without a zone gets the same DTO as a viewer set to the host's default zone |
| TaskMapper.ToDtos | src/main/java/ru/job4j/todo/service/task/SimpleTaskService.java:74-78 | list mapping keeps length and order, element i being the DTO of task i |
| TaskMapper.MappingCommutesWithDoneFilter | src/main/java/ru/job4j/todo/service/task/SimpleTaskService.java:74-78 | selecting by done flag before or after mapping gives the same DTO list |
| TaskMapper.CategoryIndex | src/main/java/ru/job4j/todo/service/task/SimpleTaskService.java:96-97 | the id index exists exactly when no id repeats; it maps each category's id to that category and holds nothing else |
| TaskMapper.Resolve | src/main/java/ru/job4j/todo/service/task/SimpleTaskService.java:101-103 | the resolved categories' ids are the known ids in DTO order; each is the indexed category; never longer than the id list |
| TaskMapper.KnownIds | src/main/java/ru/job4j/todo/service/task/SimpleTaskService.java:101-103 | the kept ids are no more than the given ones, and each is both given and in the index |
| TaskMapper.KnownIdsMembership | src/main/java/ru/job4j/todo/service/task/SimpleTaskService.java:101-103 | an id survives exactly when it is in the list and in the index |
| TaskMapper.KnownIdsAll | src/main/java/ru/job4j/todo/service/task/SimpleTaskService.java:101-103 | when every id is known, the list is kept whole |
| TaskMapper.ToEntity | src/main/java/ru/job4j/todo/service/task/SimpleTaskService.java:95-104 | fails exactly on repeated ids in the category catalogue (ids in the DTO may repeat); copies id, title, description, created and done verbatim; owner and priority are the lookups' answers (absent when unknown); categories come from the catalogue |
| TaskMapper.ToEntityKeepsKnownCategories | src/main/java/ru/job4j/todo/service/task/SimpleTaskService.java:101-103 | the entity's category ids are the DTO's ids the catalogue lists, in DTO order; an id appears exactly when it is in both |
| TaskMapper.EntityRoundTrip | src/main/java/ru/job4j/todo/service/task/SimpleTaskService.java:80-104 | entity to DTO to entity gives the entity back with `created` moved to the viewer's local time |
| TaskMapper.DtoRoundTrip | src/main/java/ru/job4j/todo/service/task/SimpleTaskService.java:80-104 | a DTO whose references resolve as shown maps to an entity and back to the same DTO, `created` shifted once more |
| TaskStore.Query | src/main/java/ru/job4j/todo/repository/task/TaskStore.java:24 | the answer lists each selected stored task exactly once, ordered by creation time, and nothing else |
| TaskStore.FindAll | src/main/java/ru/job4j/todo/repository/task/TaskStore.java:21-29 | every stored task once, in creation order; empty on a database error |
| TaskStore.FindDone | src/main/java/ru/job4j/todo/repository/task/TaskStore.java:31-39 | exactly the done tasks, in creation order; empty on a database error |
| TaskStore.FindNew | src/main/java/ru/job4j/todo/repository/task/TaskStore.java:41-49 | exactly the tasks not done, in creation order; empty on a database error |
| TaskStore.ListingLength | src/main/java/ru/job4j/todo/repository/task/TaskStore.java:24 | a listing is as long as the number of stored tasks the query selects |
| TaskStore.ListingAllLength | src/test/java/ru/job4j/todo/repository/TaskStoreTest.java:65-76 | the full listing is as long as the store |
| TaskStore.DoneNewPartitionAll | src/test/java/ru/job4j/todo/repository/TaskStoreTest.java:113-143 | the done and new listings split the full listing by done flag, with nothing extra, and their lengths add up |
| TaskStore.FindById | src/main/java/ru/job4j/todo/repository/task/TaskStore.java:51-60 | found exactly when the database answers and the id is stored; the task found is the stored one and carries that id |
| TaskStore.NegativeIdNotFound | src/test/java/ru/job4j/todo/repository/TaskStoreTest.java:166-174 | looking up id -1 finds nothing |
| TaskStore.SetDoneById | src/main/java/ru/job4j/todo/repository/task/TaskStore.java:62-70 | true exactly for a stored id, even one already done; that task becomes done with every other field kept; other tasks and the counter unchanged; false leaves the store unchanged |
| TaskStore.SetDoneTwice | src/main/java/ru/job4j/todo/repository/task/TaskStore.java:65 | marking done twice succeeds twice and the second call changes nothing |
| TaskStore.SetDoneThenFind | src/test/java/ru/job4j/todo/repository/TaskStoreTest.java:180-195 | after marking done, the lookup shows the task done and otherwise as before |
| TaskStore.DeleteById | src/main/java/ru/job4j/todo/repository/task/TaskStore.java:72-80 | true exactly for a stored id; removes only that id and keeps every other task and the identity counter; false leaves the store unchanged |
| TaskStore.DeleteThenFind | src/test/java/ru/job4j/todo/repository/TaskStoreTest.java:221-236 | after a delete the id is not found and every other id is found as before |
| TaskStore.Update | src/main/java/ru/job4j/todo/repository/task/TaskStore.java:82-91 | true exactly when the database answers, the id is stored and the task has an owner; the row is replaced, other rows, the key set and the identity counter kept; false leaves the store unchanged |
| TaskStore.UpdateThenFind | src/test/java/ru/job4j/todo/repository/TaskStoreTest.java:262-295 | after a successful update the lookup returns the new task; updating an unstored id leaves it not found |
| TaskStore.Save | src/main/java/ru/job4j/todo/repository/task/TaskStore.java:93-102 | true exactly when the database answers and the task has an owner; inserts it under the identity counter's next value, which then advances by one, adding nothing else; false leaves the store unchanged and reports the id it would have got |
| TaskStore.SaveThenFind | src/test/java/ru/job4j/todo/repository/TaskStoreTest.java:300-337 | a saved task is found under its new id; a failed save leaves no row under the id it would have got |
| TaskStore.SavesGetDistinctIds | src/main/java/ru/job4j/todo/repository/task/TaskStore.java:96 | two successive saves get different ids and the first task stays stored |
| TaskService.FindAll | src/main/java/ru/job4j/todo/service/task/SimpleTaskService.java:33-36 | the DTOs of a full creation-ordered listing, one per stored task; empty on a database error |
| TaskService.FindDone | src/main/java/ru/job4j/todo/service/task/SimpleTaskService.java:38-41 | the DTOs of the done listing, all done; empty on a database error |
| TaskService.FindNew | src/main/java/ru/job4j/todo/service/task/SimpleTaskService.java:43-46 | the DTOs of the new listing, none done; empty on a database error |
| TaskService.ListingInLocalOrder | src/main/java/ru/job4j/todo/service/task/SimpleTaskService.java:74-78 | for a viewer whose zone keeps one offset, a creation-ordered listing maps to DTOs in local-time order |
| TaskService.FindById | src/main/java/ru/job4j/todo/service/task/SimpleTaskService.java:48-52 | empty exactly when the store finds nothing, otherwise the stored task's DTO under the requested id |
| TaskService.SetDoneById | src/main/java/ru/job4j/todo/service/task/SimpleTaskService.java:54-57 | the store's answer unchanged: true exactly for a stored id, after which the task is found done and otherwise as before |
| TaskService.DeleteById | src/main/java/ru/job4j/todo/service/task/SimpleTaskService.java:59-62 | the store's answer unchanged: true exactly for a stored id; afterwards the id is not found exactly when the delete succeeded or it was never stored |
| TaskService.Update | src/main/java/ru/job4j/todo/service/task/SimpleTaskService.java:64-67 | throws exactly on repeated ids in the category catalogue; otherwise the store's `update` of the DTO's entity: true exactly when the database answers, the id is stored and the owner resolves, after which the stored task is the DTO's entity; false changes nothing |
| TaskService.Save | src/main/java/ru/job4j/todo/service/task/SimpleTaskService.java:69-72 | throws exactly on repeated ids in the category catalogue; otherwise the store's `save` of the DTO's entity: true exactly when the database answers and the owner resolves, after which the DTO's entity is stored under a fresh id; false changes nothing |
| TaskService.SaveThenView | src/main/java/ru/job4j/todo/service/task/SimpleTaskService.java:48-72 | saving a DTO whose references resolve as shown succeeds; viewing the new task then gives the DTO back under its new id (when its name string is the one its categories give), with `created` shifted by the viewer's offset |

## Left out

- Hibernate sessions, transactions, HQL text, `JOIN FETCH` and the
  `CrudRepository` gateway: a database call either succeeds or fails as a
  whole (`Db`).
- Logging in the catch blocks.
- Controllers, HTTP routing, the session's user and the list of zone
  names offered to users: outside the core.
- The user, priority and category repositories and services: these are
  only the lookups in `Catalog`.
- Real IANA zone rules, daylight-saving gaps and overlaps, and
  sub-second precision of `LocalDateTime`: the offset is an uninterpreted
  function of zone and instant, and times are whole seconds.
- `ZoneId.of` on an unknown zone name throws `DateTimeException`. This is
  not modelled: the offset function is total.
- `null` strings (title, description, names), `null` category lists, a
  `null` viewer and a `null` creation time: these are always present in
  the model (see the `TaskMapper.ToDto` line below for the exceptions the
  last two would raise).
- The older revisions of the task store, the service and the model
  classes kept alongside the current ones: not part of this model.
- Text.Leq: compares characters as Unicode scalar values, whereas
  `String.compareTo` compares UTF-16 code units. The two orders differ
  only between supplementary characters and characters U+E000 to U+FFFF.
- TaskStore.Save: always assigns the next identity value and ignores the
  task's own id. Hibernate's `persist` of a task that already carries an
  id is not modelled, and neither is overflow of the 32-bit identity
  column.
- TaskStore.Update: fails for a task without an owner. That rests on this
  model's own assumption that the task's owner column is NOT NULL; the
  source does not show the table definition.
- TaskStore.Query: states the answer only up to the order of tasks with
  equal creation times, which the query leaves open.
- TaskMapper.ToDto: requires an owner; the source dereferences it and
  would throw `NullPointerException` without one. The mapping also
  dereferences the viewer (`user.getTimezone()`) and the task's creation
  time (`getCreated().atZone(...)`). A null viewer or a null `created`
  would throw `NullPointerException` too. The model cannot express
  either: the viewer is always a `User` and `created` is always an
  integer.
- Ids and the identity counter are unbounded integers rather than 32-bit
  `int`.
