# Contact service: a Dafny model

This project models the core of a contact-management REST service built on Spring
Data JPA: the `Contact` entity and its lifecycle rules, the filters and aggregates of
`ContactRepository`, and the create/update/delete/find-by-id and conversion logic of
`ContactService`. The relational store is a map from primary key to row plus the
identity counter that hands out the next key; queries are functions over a sequence
of rows (any listing of the store); the clock is a parameter.

Files and modules:

- `Wrappers.dfy` (`Wrappers`): `Option` for Java's nullable references, `Result` for operations that throw.
- `Text.dfy` (`Text`): `Lower` (SQL `LOWER`), `Contains` (`LIKE '%x%'`), `EndsWith` (`LIKE '%x'`).
- `Model.dfy` (`Model`): the persisted row `Contact`, the transient `Entity` (nullable id, isActive, creationDate), `ContactDto`, `CategoryCount`; `@NotBlank`; what an insert (identity key, `onCreate`) and a merge (non-updatable creation date) do to a row.
- `Repository.dfy` (`Repository`): each query's WHERE clause as a `Query` value, `Where`/`CountWhere` to evaluate them, the repository methods, and lemmas relating them.
- `Service.dfy` (`Service`): `convertToDTO`/`convertToEntity`, the update setters, the recent-contacts and category-statistics wrappers, the bridge from the store's map to query listings, and the class `ContactStore` whose methods change the store.

`convertToEntity` copies a caller-supplied id into the entity, so `save` merges a create request that carries a stored id into the row with that key. That overwrites the five text columns and sets isActive to the request's value, or to true when the request omits it. `ContactStore.CreateContact` models this. Only an entity with no id, or with an id that is not stored, is inserted under a fresh key.

## Model

| member | source | states |
|---|---|---|
| Text.ContainsIff | src/main/java/org/ostad/_3_assignemnt/repository/ContactRepository.java:71-74 | `LIKE '%x%'` with the needle taken literally holds exactly when the needle occurs at some offset of the value |
| Text.EndsWithIff | src/main/java/org/ostad/_3_assignemnt/repository/ContactRepository.java:115-116 | `LIKE '%x'` holds exactly when the value is some prefix followed by the suffix |
| Model.NotBlankIffTrimNonEmpty | src/main/java/org/ostad/_3_assignemnt/entity/Contact.java:23-43 | for every value, `@NotBlank` accepts it exactly when `String.trim` (dropping leading and trailing characters up to U+0020) leaves it non-empty |
| Model.Inserted | src/main/java/org/ostad/_3_assignemnt/entity/Contact.java:50-56 | an inserted row gets the identity key and the clock's time as creation date; a null isActive becomes true, a non-null one is kept; the text columns are the entity's |
| Model.Merged | src/main/java/org/ostad/_3_assignemnt/entity/Contact.java:47 | a merge overwrites the updatable columns with the entity's values and keeps the key and the non-updatable creation date |
| Model.MergeIdempotent | src/main/java/org/ostad/_3_assignemnt/entity/Contact.java:47 | merging the same entity twice equals merging it once |
| Model.MergesKeepKeyAndCreationDate | src/main/java/org/ostad/_3_assignemnt/entity/Contact.java:47-48 | after any number of later saves, the key and the creation date are still those the insert assigned |
| Repository.Where | src/main/java/org/ostad/_3_assignemnt/repository/ContactRepository.java:67-116 | a select returns exactly the rows its WHERE clause accepts and never more rows than the table has |
| Repository.CountWhereIsWhereLength | src/main/java/org/ostad/_3_assignemnt/repository/ContactRepository.java:81-82 | a COUNT query equals the number of rows the corresponding select returns |
| Repository.FindByCategory | src/main/java/org/ostad/_3_assignemnt/repository/ContactRepository.java:34 | exactly the contacts of the given category |
| Repository.FindByIsActive | src/main/java/org/ostad/_3_assignemnt/repository/ContactRepository.java:37 | exactly the contacts with the given status |
| Repository.FindByCategoryAndIsActive | src/main/java/org/ostad/_3_assignemnt/repository/ContactRepository.java:40 | exactly the contacts with the given category and the given status |
| Repository.FindByFirstOrLastNameContainingIgnoreCase | src/main/java/org/ostad/_3_assignemnt/repository/ContactRepository.java:43-44 | exactly the contacts whose lower-cased first name contains the lower-cased first argument or whose lower-cased last name contains the lower-cased second |
| Repository.FindActiveContactsByCategory | src/main/java/org/ostad/_3_assignemnt/repository/ContactRepository.java:67-68 | exactly the active contacts of the category |
| Repository.SearchByName | src/main/java/org/ostad/_3_assignemnt/repository/ContactRepository.java:71-74 | exactly the contacts whose lower-cased first or last name contains the lower-cased name |
| Repository.FindByCategories | src/main/java/org/ostad/_3_assignemnt/repository/ContactRepository.java:77-78 | exactly the active contacts whose category is in the list |
| Repository.CountActiveContactsByCategory | src/main/java/org/ostad/_3_assignemnt/repository/ContactRepository.java:81-82 | equals the size of findActiveContactsByCategory for the same category |
| Repository.CountByCategory | src/main/java/org/ostad/_3_assignemnt/repository/ContactRepository.java:56 | equals the size of findByCategory for the same category |
| Repository.FindRecentContacts | src/main/java/org/ostad/_3_assignemnt/repository/ContactRepository.java:85-86 | exactly the contacts created at or after the date, as a permutation of the matching rows, ordered newest first |
| Repository.SearchContacts | src/main/java/org/ostad/_3_assignemnt/repository/ContactRepository.java:99-108 | exactly the contacts meeting every non-null criterion: name criteria as case-insensitive substrings, category and isActive as exact values |
| Repository.FindByEmailDomain | src/main/java/org/ostad/_3_assignemnt/repository/ContactRepository.java:115-116 | exactly the contacts whose email is some local part, then "@", then the domain |
| Repository.GetContactCountByCategory | src/main/java/org/ostad/_3_assignemnt/repository/ContactRepository.java:111-112 | one row per distinct category, every category of the table present, each count positive and equal to countByCategory |
| Repository.CategoryCountsSumToTotal | src/main/java/org/ostad/_3_assignemnt/repository/ContactRepository.java:111-112 | the group counts sum to the number of contacts |
| Repository.SearchContactsAllAbsent | src/main/java/org/ostad/_3_assignemnt/repository/ContactRepository.java:99-103 | with every criterion null, searchContacts returns every contact |
| Repository.SearchContactsByStatus | src/main/java/org/ostad/_3_assignemnt/repository/ContactRepository.java:103 | searchContacts on isActive alone equals findByIsActive, for true and for false |
| Repository.SearchContactsByCategoryAndStatus | src/main/java/org/ostad/_3_assignemnt/repository/ContactRepository.java:102-103 | searchContacts on category and isActive equals findByCategoryAndIsActive |
| Repository.StatusSplitsTable | src/main/java/org/ostad/_3_assignemnt/repository/ContactRepository.java:37 | the active and the inactive contacts together number the whole table |
| Repository.SearchContactsFalseIsNotAbsent | src/main/java/org/ostad/_3_assignemnt/repository/ContactRepository.java:103 | when some contact is active, isActive = false gives a different result from isActive = null |
| Repository.SearchByNameIsDerivedQuery | src/main/java/org/ostad/_3_assignemnt/repository/ContactRepository.java:71-74 | with LIKE read literally, searchByName equals the derived first-or-last-name query called with the name for both arguments |
| Repository.SearchByNameIsUnion | src/main/java/org/ostad/_3_assignemnt/repository/ContactRepository.java:71-74 | searchByName accepts the union of the first-name-only and the last-name-only searches |
| Repository.SearchByNameIgnoresCase | src/main/java/org/ostad/_3_assignemnt/repository/ContactRepository.java:71-74 | searchByName with a name and with its lower-cased form return the same rows |
| Repository.FindByCategoriesEmpty | src/main/java/org/ostad/_3_assignemnt/repository/ContactRepository.java:77-78 | an empty category list selects nothing |
| Repository.FindByCategoriesSingleton | src/main/java/org/ostad/_3_assignemnt/repository/ContactRepository.java:77-78 | a one-label list equals findActiveContactsByCategory for that label |
| Repository.ActiveCountAtMostCategoryCount | src/main/java/org/ostad/_3_assignemnt/repository/ContactRepository.java:81-82 | a category's active count never exceeds its total count |
| Service.ConvertToDto | src/main/java/org/ostad/_3_assignemnt/service/ContactService.java:188-199 | the DTO carries all eight columns of the row unchanged |
| Service.ConvertToEntity | src/main/java/org/ostad/_3_assignemnt/service/ContactService.java:201-213 | the entity takes the DTO's id (or none), the five text fields verbatim and isActive or else true; the DTO's creation date is not copied; the entity is complete exactly when the DTO is |
| Service.DtoRoundTrip | src/main/java/org/ostad/_3_assignemnt/service/ContactService.java:188-213 | row to DTO to entity keeps the id, the five text fields and isActive, and drops only the creation date |
| Service.ConvertToDtoInjective | src/main/java/org/ostad/_3_assignemnt/service/ContactService.java:188-199 | distinct rows give distinct DTOs, so no column is lost |
| Service.CreateRoundTrip | src/main/java/org/ostad/_3_assignemnt/service/ContactService.java:28-32 | a create request inserted under a fresh key (no id, or an id that is not stored) reads back as the request with the assigned id, the creation time and a non-null isActive (true when omitted) |
| Service.CreateMergeRoundTrip | src/main/java/org/ostad/_3_assignemnt/service/ContactService.java:28-32 | a create request whose id is stored is merged into that row and reads back as the request with the stored id, the stored creation date and a non-null isActive (true when omitted) |
| Service.ApplyUpdate | src/main/java/org/ostad/_3_assignemnt/service/ContactService.java:49-56 | the five text fields take the request's values; isActive takes the request's value or stays when null; id and creation date never change |
| Service.UpdateIdempotent | src/main/java/org/ostad/_3_assignemnt/service/ContactService.java:49-56 | applying the same update twice equals applying it once |
| Service.UpdateResponse | src/main/java/org/ostad/_3_assignemnt/service/ContactService.java:45-60 | the update's response is the request with the stored id, the stored creation date and the resulting isActive |
| Service.GetRecentContacts | src/main/java/org/ostad/_3_assignemnt/service/ContactService.java:152-157 | exactly the contacts created at or after now minus the given days, as DTOs, newest first |
| Service.GetContactCountsByCategory | src/main/java/org/ostad/_3_assignemnt/service/ContactService.java:173-178 | one entry per distinct category with a positive count equal to countByCategory; the counts sum to the number of contacts |
| Service.ListingCount | src/main/java/org/ostad/_3_assignemnt/repository/ContactRepository.java:56 | over any listing of the store, a count query counts the stored rows its filter accepts |
| Service.CountIndependentOfOrder | src/main/java/org/ostad/_3_assignemnt/repository/ContactRepository.java:81-82 | two listings of the same store give the same counts |
| Service.InsertCount | src/main/java/org/ostad/_3_assignemnt/service/ContactService.java:28-32 | inserting a row under a fresh key adds one to exactly those counts whose filter accepts the row |
| Service.CreateIncrementsCategoryCount | src/main/java/org/ostad/_3_assignemnt/service/ContactService.java:28-32 | a create request inserted under a fresh key (no id, or an id that is not stored) raises its category's count by one and leaves every other category's count alone |
| Service.MergeCount | src/main/java/org/ostad/_3_assignemnt/service/ContactService.java:28-32 | merging into a stored row lowers by one the counts whose filter accepted the old row and raises by one those whose filter accepts the merged row |
| Service.CreateMergeMovesCategoryCount | src/main/java/org/ostad/_3_assignemnt/service/ContactService.java:28-32 | a create request whose id is stored takes one from the stored row's old category, adds one to the request's category, and leaves every other category's count alone |
| Service.DeleteCount | src/main/java/org/ostad/_3_assignemnt/service/ContactService.java:62-64 | deleting a stored row lowers by one exactly those counts whose filter accepted it |
| Service.ContactStore.Save | src/main/java/org/ostad/_3_assignemnt/entity/Contact.java:19-56 | save with no id or an unstored id inserts under the next key, which no row uses, with onCreate applied; with a stored id it merges and keeps the creation date; a blank required column or a null isActive on merge fails and changes nothing |
| Service.ContactStore.CreateContact | src/main/java/org/ostad/_3_assignemnt/service/ContactService.java:28-32 | create converts, saves and returns the saved row as a DTO; its isActive is the request's or true; invalid requests change nothing |
| Service.ContactStore.UpdateContact | src/main/java/org/ostad/_3_assignemnt/service/ContactService.java:45-60 | an unknown id fails with NotFound and the store is unchanged; otherwise only that row changes, to the request applied by the setters, and the response is that row |
| Service.ContactStore.DeleteContact | src/main/java/org/ostad/_3_assignemnt/service/ContactService.java:62-64 | the key is removed and nothing else changes; deleting an absent key is a no-op |
| Service.ContactStore.GetContactById | src/main/java/org/ostad/_3_assignemnt/service/ContactService.java:34-37 | some DTO exactly when the key is stored, and then the DTO of that row |

## Left out

- Pagination and sorting (`Pageable`, `Page`) are done by Spring Data. The paged queries are modelled as their whole, unpaged result.
- The controller is left out: HTTP routing, status codes, parameter binding, and the sort-direction choice (case-insensitive "ASC", otherwise descending).
- Repository and service methods outside this core are not modelled: findByFirstName, findByLastName, findByEmail, findByPhoneNo, findByCreationDateAfter/Between, findByCategoryOrderByCreationDateDesc, existsByEmail, deleteByCategory, findContactById, getAllContacts and the other one-line list wrappers.
- Projections are not modelled: findAllActiveProjections and findByCategoryProjection return framework-generated proxies.
- LIKE is modelled as a literal substring or suffix match. Wildcards in user input and locale-sensitive case folding are not modelled. Lower folds ASCII letters only.
- Collation is not modelled: text comparison is exact, for LIKE and equally for `c.category = :category`, the derived findByCategory, findByCategoryAndIsActive, findByCategories (`IN`) and `GROUP BY c.category`. Under a case-insensitive database collation "Work" and "work" would be one category.
- Only @NotBlank is modelled, as the ConstraintViolation error at save, with the validator's `trim` test: a value is blank when every character is at most U+0020. @Email syntax is not checked.
- Service.ContactStore.UpdateContact: a missing id gives Failure(NotFound(id)); the code throws a generic RuntimeException (ContactService.java:46-47). Both leave the store unchanged.
- Repository.SearchByNameIsDerivedQuery: Spring Data escapes `%` and `_` in a `Containing` argument, while searchByName puts the raw name into its LIKE pattern, so a name holding a wildcard can match through searchByName and not through the derived query. The lemma holds for the model, which reads both patterns literally.
- LocalDateTime.now() is a parameter. Timestamps are whole seconds. minusDays is a subtraction of days times 86400. The range limits of LocalDateTime are not modelled.
- Ids are unbounded naturals: Long overflow of the identity column is not modelled.
- Transactions, concurrency and rollback internals are left out. A failing operation simply leaves the store unchanged.
- Service.ContactStore.Save: a caller-supplied id that is not stored is treated as an insert under a generated key, the classic Hibernate merge of a detached entity. Newer Hibernate versions reject it instead, and the model does not capture that.
- Service.ContactStore.CreateContact: in the merge path the model returns the stored row. Java returns the merged in-memory object, which may still carry the request's null creation date.
- The no-argument constructor's isActive default (true) is never observable: `new Contact()` appears only in convertToEntity, which always overwrites isActive (ContactService.java:210).
- Result order is not claimed for the unordered queries. Only FindRecentContacts promises an order, and it promises nothing about rows with equal creation dates.
