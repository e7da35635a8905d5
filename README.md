# Doctor lifecycle and error translation of a medical-office backend

This project models two parts of the backend of a medical office (team1studiomedico), and proves properties about them.

- **`MedicoService`** runs the soft-delete / restore lifecycle of doctors (`Medico`). A row carries a status, ACTIVE or DELETED.
  - Create forces the status to ACTIVE, and the database assigns the id.
  - Single reads and derived lookups see only ACTIVE rows. Anything else is NotFound.
  - Update is a patch: only the non-null fields overwrite the stored row.
  - Single delete and restore are guarded. A missing row gives NotFound. A row already in the target state gives a status error.
  - Bulk delete and bulk restore flip every row with no guard.
- **`GlobalExceptionHandler`** turns exceptions into error responses. Each exception kind gets an HTTP status and a message. The field errors of a failed bean validation are grouped into a map from field name to the list of its messages.

Layout, one module per Java package:

- `wrappers.dfy` (`Wrappers`): `Option`, Java's `Optional`.
- `entities.dfy` (`Entities`): the stored row `Medico`, the status `RecordStatus`, and the update payload `MedicoDTO`. In the payload, a null field is `None`.
- `repositories.dfy` (`Repositories`): the doctor table as a `map<nat, Medico>` and the repository queries as functions of it.
  - The class `MedicoRepository` holds the table, the next identity value and the foreign keys of the other tables.
  - Its methods are the repository writes: `saveAndFlush` (split into insert and merge), `softDeleteById`, `restoreById`, `softDelete` and `restore`.
- `services.dfy` (`Services`): the service.
  - The reads are functions of the table.
  - Each state-changing operation is a method of the class `MedicoService`. Its `ensures` ties the result and the new table to a step function: `UpdateOutcome`, `DeleteOutcome` or `RestoreOutcome`.
  - The lifecycle properties are lemmas about those step functions.
- `exceptions.dfy` (`Exceptions`): `Handle`, the handler selection and the handler bodies. Also `HandleBeanValidationExceptions`, whose two loops are proved to build `FieldErrorMap`, and lemmas that characterise `FieldErrorMap`.

The repository interface of doctors is declarative, and its source is not part of this model. Its queries are given the meaning their names state, plus an order where the name states none:

- `findByRecordStatus` lists the rows with that status, each once, in increasing id order.
- `findByEmail` returns the row with that email. The name states no tie-break. A unique email column would exclude duplicates; for tables that have them anyway, the model chooses the row with the lowest id.
- `searchByNomeAndCognome` keeps the rows whose nome and cognome contain the given texts, each once, in increasing id order. The match is case-sensitive.
- `findMedicoBySegretarioId`, `findMedicoByPazienteId` and `findMedicoByPrenotazioneId` follow the foreign key `medicoId` of the segretario, paziente or prenotazione. These foreign keys are the `Links` maps.

Localized error texts are represented by their message keys, for example `error.medico.notFound.exception`. The response timestamp and the request URI are inputs of the handlers.

`GlobalExceptionHandler` declares no handler for `EntityStatusException`, the exception thrown at MedicoService.java:148 and :182. `Handle` returns `None` for that kind and invents no status code.

## Model

| member | source | states |
|---|---|---|
| `Repositories.RowsBelow` | src/main/java/co/develhope/team1studiomedico/services/MedicoService.java:74 | The table scan behind the listing queries: exactly the stored rows below the bound, in strictly increasing id order |
| `Repositories.Filter` | src/main/java/co/develhope/team1studiomedico/services/MedicoService.java:291-293 | An element is kept exactly when it is in the input and satisfies the predicate; the result is never longer than the input; an id-ordered input gives an id-ordered result, as a stream filter keeps encounter order |
| `Repositories.SameElementsIncreasing` | src/main/java/co/develhope/team1studiomedico/services/MedicoService.java:73-90 | Two id-ordered lists with the same elements are equal, so an id-ordered listing is fixed by which rows it holds |
| `Repositories.FindByRecordStatus` | src/main/java/co/develhope/team1studiomedico/services/MedicoService.java:74 | findByRecordStatus: an element is listed exactly when it is a stored row with that status; each row once, in increasing id order |
| `Repositories.SearchByNomeAndCognome` | src/main/java/co/develhope/team1studiomedico/services/MedicoService.java:291 | searchByNomeAndCognome: an element is listed exactly when it is a stored row, of any status, whose nome and cognome contain the given texts; each row once, in increasing id order |
| `Repositories.FindById` | src/main/java/co/develhope/team1studiomedico/services/MedicoService.java:99 | Some exactly when a row is stored under the id, whatever its status, and then that row |
| `Repositories.FindByEmail` | src/main/java/co/develhope/team1studiomedico/services/MedicoService.java:277 | A stored row with that email; None exactly when no row has that email; among duplicate emails the model's chosen tie-break is the lowest id |
| `Repositories.MedicoOf` | src/main/java/co/develhope/team1studiomedico/services/MedicoService.java:237 | Some exactly when the foreign key is present and names a stored row, and then that row |
| `Repositories.SetStatus` | src/main/java/co/develhope/team1studiomedico/services/MedicoService.java:151 | Same ids; the row under the id gets the new status; every other row is unchanged |
| `Repositories.SetAllStatus` | src/main/java/co/develhope/team1studiomedico/services/MedicoService.java:163 | Same ids; every row gets the new status and keeps all its other fields, with no guard |
| `Repositories.SetAllStatusIdempotent` | src/main/java/co/develhope/team1studiomedico/services/MedicoService.java:160-167 | Applying the bulk status flip twice equals applying it once |
| `Repositories.MedicoRepository.Insert` | src/main/java/co/develhope/team1studiomedico/services/MedicoService.java:60 | saveAndFlush with a null id: the row is stored under the next identity value, which was unused, and the table stays well formed |
| `Repositories.MedicoRepository.Merge` | src/main/java/co/develhope/team1studiomedico/services/MedicoService.java:132 | saveAndFlush with a stored id: that row is overwritten and nothing else changes |
| `Repositories.MedicoRepository.SoftDeleteById` | src/main/java/co/develhope/team1studiomedico/services/MedicoService.java:151 | The table becomes SetStatus of the old table with DELETED |
| `Repositories.MedicoRepository.RestoreById` | src/main/java/co/develhope/team1studiomedico/services/MedicoService.java:185 | The table becomes SetStatus of the old table with ACTIVE |
| `Repositories.MedicoRepository.SoftDelete` | src/main/java/co/develhope/team1studiomedico/services/MedicoService.java:163 | The table becomes SetAllStatus of the old table with DELETED |
| `Repositories.MedicoRepository.Restore` | src/main/java/co/develhope/team1studiomedico/services/MedicoService.java:197 | The table becomes SetAllStatus of the old table with ACTIVE |
| `Services.ActiveOrNotFound` | src/main/java/co/develhope/team1studiomedico/services/MedicoService.java:99-102 | The status filter: Ok exactly when the repository found a row and it is ACTIVE; otherwise NotFound with the not-found message key |
| `Services.GetAllMedici` | src/main/java/co/develhope/team1studiomedico/services/MedicoService.java:73-78 | An element is listed exactly when it is a stored row with status ACTIVE; each row once, in increasing id order |
| `Services.GetAllDeletedMedici` | src/main/java/co/develhope/team1studiomedico/services/MedicoService.java:85-90 | An element is listed exactly when it is a stored row with status DELETED; each row once, in increasing id order |
| `Services.GetAllMediciDetermined` | src/main/java/co/develhope/team1studiomedico/services/MedicoService.java:73-78 | Any id-ordered list holding exactly the stored ACTIVE rows is the ACTIVE listing |
| `Services.ListingsPartitionTable` | src/main/java/co/develhope/team1studiomedico/services/MedicoService.java:73-90 | The two listings are disjoint, and every stored row is in one of them |
| `Services.GetMedicoById` | src/main/java/co/develhope/team1studiomedico/services/MedicoService.java:98-104 | Ok with the stored row exactly when the id exists and the row is ACTIVE; a missing or DELETED row gives NotFound |
| `Services.GetMedicoBySegretarioId` | src/main/java/co/develhope/team1studiomedico/services/MedicoService.java:236-242 | Ok exactly when the segretario's medico exists and is ACTIVE; a DELETED medico gives NotFound |
| `Services.GetMedicoByPazienteId` | src/main/java/co/develhope/team1studiomedico/services/MedicoService.java:249-255 | Ok exactly when the paziente's medico exists and is ACTIVE; a DELETED medico gives NotFound |
| `Services.GetMedicoByPrenotazioneId` | src/main/java/co/develhope/team1studiomedico/services/MedicoService.java:263-269 | Ok exactly when the prenotazione's medico exists and is ACTIVE; a DELETED medico gives NotFound |
| `Services.GetMedicoByEmail` | src/main/java/co/develhope/team1studiomedico/services/MedicoService.java:276-282 | Any Ok result is a stored ACTIVE row with that email; no row with that email gives NotFound; with a unique email, Ok exactly when that row is ACTIVE |
| `Services.GetMediciByNomeAndCognome` | src/main/java/co/develhope/team1studiomedico/services/MedicoService.java:290-296 | An element is listed exactly when it is a stored, ACTIVE row whose nome and cognome contain the given texts; DELETED matches are dropped; each row once, in increasing id order |
| `Services.MedicoService.CreateMedico` | src/main/java/co/develhope/team1studiomedico/services/MedicoService.java:53-66 | Stores the input under a fresh generated id with status ACTIVE, whatever id or status the input carried; no other row changes |
| `Services.CreateMedicoVisible` | src/main/java/co/develhope/team1studiomedico/services/MedicoService.java:57-62 | The created row is ACTIVE, has an unused id, keeps the input's fields, keeps the table well formed, and is at once readable by id and listed as ACTIVE |
| `Services.Patch` | src/main/java/co/develhope/team1studiomedico/services/MedicoService.java:119-130 | Each of nome, cognome, telefono and email is overwritten exactly when the patch field is non-null; id and status are kept |
| `Services.UpdateOutcome` | src/main/java/co/develhope/team1studiomedico/services/MedicoService.java:113-133 | A missing or DELETED id gives NotFound and no change; otherwise the result is the patched row, which replaces the stored one while all other rows stay as they were |
| `Services.MedicoService.UpdateMedicoById` | src/main/java/co/develhope/team1studiomedico/services/MedicoService.java:113-133 | The result and the new table are those of UpdateOutcome; the identity value and the foreign keys are unchanged |
| `Services.UpdateOneFieldRoundTrip` | src/main/java/co/develhope/team1studiomedico/services/MedicoService.java:113-133 | Create, then update only nome, then read: the row comes back with the new nome and every other field as created |
| `Services.DeleteOutcome` | src/main/java/co/develhope/team1studiomedico/services/MedicoService.java:140-155 | NotFound exactly when the id is missing; a status error exactly when the row is DELETED; otherwise Ok, with that row flipped to DELETED; failures change nothing |
| `Services.MedicoService.DeleteMedicoById` | src/main/java/co/develhope/team1studiomedico/services/MedicoService.java:140-155 | The result and the new table are those of DeleteOutcome |
| `Services.GetAfterDeleteNotFound` | src/main/java/co/develhope/team1studiomedico/services/MedicoService.java:143-151 | Whatever delete returned, a read by id afterwards gives NotFound |
| `Services.DeleteTwiceFails` | src/main/java/co/develhope/team1studiomedico/services/MedicoService.java:147-150 | After a successful delete, a second delete fails with the deleted-status error and leaves the table unchanged |
| `Services.MedicoService.DeleteAllMedici` | src/main/java/co/develhope/team1studiomedico/services/MedicoService.java:160-167 | Every row becomes DELETED, with no guard and no error case |
| `Services.BulkDeleteHidesAll` | src/main/java/co/develhope/team1studiomedico/services/MedicoService.java:160-167 | After the bulk delete the ACTIVE listing is empty and no row is readable by id |
| `Services.RestoreOutcome` | src/main/java/co/develhope/team1studiomedico/services/MedicoService.java:174-189 | NotFound exactly when the id is missing; a status error exactly when the row is ACTIVE; otherwise Ok, with that row flipped to ACTIVE; failures change nothing |
| `Services.MedicoService.RestoreMedicoById` | src/main/java/co/develhope/team1studiomedico/services/MedicoService.java:174-189 | The result and the new table are those of RestoreOutcome |
| `Services.RestoreAfterDelete` | src/main/java/co/develhope/team1studiomedico/services/MedicoService.java:177-185 | A successful delete followed by restore succeeds, gives back the original table, and makes the read by id succeed again |
| `Services.RestoreActiveFails` | src/main/java/co/develhope/team1studiomedico/services/MedicoService.java:181-184 | Restoring an ACTIVE row fails with the active-status error and changes nothing |
| `Services.MedicoService.RestoreAllMedici` | src/main/java/co/develhope/team1studiomedico/services/MedicoService.java:194-201 | Every row becomes ACTIVE, with no guard and no error case |
| `Services.BulkRestoreShowsAll` | src/main/java/co/develhope/team1studiomedico/services/MedicoService.java:194-201 | After the bulk restore the DELETED listing is empty and every row is readable by id |
| `Exceptions.Handle` | src/main/java/co/develhope/team1studiomedico/exceptions/GlobalExceptionHandler.java:36-108 | EntityNotFound gives 404 with its own message. The four malformed-request kinds give 400 with their own message. NullPointer gives 500 with "Internal Server Error - null object". DataIntegrityViolation gives 500 with "Database persistence statement error". InvalidDataAccessApiUsage gives 500 with its own message. Validation gives 400 with "Field validation failed" and FieldErrorMap. The status-transition kind has no handler. Every response carries the reason phrase of its status, the timestamp and the URI |
| `Exceptions.HandleBeanValidationExceptions` | src/main/java/co/develhope/team1studiomedico/exceptions/GlobalExceptionHandler.java:89-108 | The two passes build exactly FieldErrorMap of the field errors, and the response is the validation response of Handle |
| `Exceptions.FieldErrorMapKeys` | src/main/java/co/develhope/team1studiomedico/exceptions/GlobalExceptionHandler.java:92-97 | A field is a key of the map exactly when some input error names it |
| `Exceptions.MessagesAtPositions` | src/main/java/co/develhope/team1studiomedico/exceptions/GlobalExceptionHandler.java:98-104 | A field's list holds the messages at exactly the indices of that field's errors, in increasing index order, duplicates kept |
| `Exceptions.MessagesForLength` | src/main/java/co/develhope/team1studiomedico/exceptions/GlobalExceptionHandler.java:98-104 | A field's list is as long as that field's occurrence count in the input |
| `Exceptions.Thrown` | src/main/java/co/develhope/team1studiomedico/services/MedicoService.java:142-150 | A failed service call throws: NotFound becomes EntityNotFoundException and a status error becomes EntityStatusException, each with its message key; Ok throws nothing |
| `Exceptions.ServiceFailureResponses` | src/main/java/co/develhope/team1studiomedico/exceptions/GlobalExceptionHandler.java:36-42 | A NotFound from the service becomes a 404 carrying its message; a status error reaches no handler of this class |

## Left out

- ModelMapper conversions (`convertToEntity`, `convertToDTO`) are reflection-based library calls. They are taken as identity copies. `createMedico` receives the entity they produce, and the service returns stored rows in place of DTOs.
- Persistence plumbing is not modelled: `entityManager.refresh`, `@Transactional`, flushing, and database constraint failures. A unique-email or foreign-key violation during a save, and the exception it would raise, are left out.
- The doctor entity and the doctor repository are not part of this model. The fields of `Medico` come from the setters the service calls. Stored text fields cannot be null.
- The repository queries are given meanings from their names. The id order of listings, the lowest-id choice among duplicate emails in `findByEmail`, and case-sensitive substring matching are choices of this model, not stated by the query names. LIKE wildcards inside the search text and collation-dependent case folding are not modelled.
- Services.GetMedicoByEmail: succeeds exactly when the row is ACTIVE only under a unique email, because uniqueness of the doctor email column is outside this model.
- Localization: `MessageSource` lookups are represented by their message keys.
- Logging (slf4j, `System.out.println`, the `try/finally` logging wrappers) has no effect on behaviour and is left out.
- Each `ResponseEntity` is reduced to its body. `LocalDateTime.now()` and `request.getRequestURI()` are inputs. Spring's own fallback for exceptions that no handler of this class catches is left out.
- Exception messages are never null in the model. In the validation handler, every binding error is a field error. A global object error would fail the cast to `FieldError`, and that case is left out.
- `PazienteRepository`, `Paziente` and `SegretarioDTO`: their foreign keys to the medico shape the `Links` maps; they are not otherwise modelled.
- A null id passed to a read, update, delete or restore would make the repository throw before any service logic runs. The model's ids are never null.
- Ids are unbounded naturals: the overflow of a Java `Long` identity is not modelled. Concurrent requests and isolation levels are out of scope.
