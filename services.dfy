/**
 * `MedicoService`: the soft-delete / restore lifecycle of doctors and the
 * status-filtered reads on top of the repository.
 *
 * The reads are functions of the table. Each state-changing operation is a
 * method of the class `MedicoService`, proved against a step function of
 * the table (`UpdateOutcome`, `DeleteOutcome`, `RestoreOutcome`), and
 * the lifecycle properties are lemmas about those step functions.
 */
module Services {

  import opened Wrappers
  import opened Entities
  import opened Repositories

  /** Message keys of the localized error texts. */
  const MEDICO_NOT_FOUND := "error.medico.notFound.exception"
  const MEDICO_STATUS_DELETED := "error.medico.status.deleted.exception"
  const MEDICO_STATUS_ACTIVE := "error.medico.status.active.exception"

  /**
   * The outcome of a service call: a value, an `EntityNotFoundException`
   * or an `EntityStatusException`, each exception with its message key.
   */
  datatype Result<T> = Ok(value: T) | NotFound(messageKey: string) | StatusError(messageKey: string)

  /** `.filter(status == ACTIVE).orElseThrow(EntityNotFoundException)`. */
  function ActiveOrNotFound(found: Option<Medico>): (r: Result<Medico>)
    ensures r.Ok? <==> found.Some? && found.value.recordStatus == ACTIVE
    ensures r.Ok? ==> r.value == found.value
    ensures !r.Ok? ==> r == NotFound(MEDICO_NOT_FOUND)
  {
    if found.Some? && found.value.recordStatus == ACTIVE then Ok(found.value)
    else NotFound(MEDICO_NOT_FOUND)
  }

  // ---------------------------------------------------------------------
  // Reads
  // ---------------------------------------------------------------------

  /** `getAllMedici`: exactly the stored ACTIVE rows, each once, in id order. */
  function GetAllMedici(rows: map<nat, Medico>, nextId: nat): (r: seq<Medico>)
    requires WellFormed(rows, nextId)
    ensures forall m :: m in r <==> m.id in rows && rows[m.id] == m && m.recordStatus == ACTIVE
    ensures IdsIncreasing(r)
  {
    FindByRecordStatus(rows, nextId, ACTIVE)
  }

  /** `getAllDeletedMedici`: exactly the stored DELETED rows, each once, in id order. */
  function GetAllDeletedMedici(rows: map<nat, Medico>, nextId: nat): (r: seq<Medico>)
    requires WellFormed(rows, nextId)
    ensures forall m :: m in r <==> m.id in rows && rows[m.id] == m && m.recordStatus == DELETED
    ensures IdsIncreasing(r)
  {
    FindByRecordStatus(rows, nextId, DELETED)
  }

  /** `getMedicoById`: the row, if it exists and is ACTIVE. */
  function GetMedicoById(rows: map<nat, Medico>, id: nat): (r: Result<Medico>)
    ensures r.Ok? <==> id in rows && rows[id].recordStatus == ACTIVE
    ensures r.Ok? ==> r.value == rows[id]
    ensures !r.Ok? ==> r == NotFound(MEDICO_NOT_FOUND)
  {
    ActiveOrNotFound(FindById(rows, id))
  }

  /** `getMedicoBySegretarioId`: the segretario's medico, if it exists and is ACTIVE. */
  function GetMedicoBySegretarioId(rows: map<nat, Medico>, links: Links, segretarioId: nat): (r: Result<Medico>)
    ensures r.Ok? <==> segretarioId in links.segretarioMedico && links.segretarioMedico[segretarioId] in rows
                       && rows[links.segretarioMedico[segretarioId]].recordStatus == ACTIVE
    ensures r.Ok? ==> r.value == rows[links.segretarioMedico[segretarioId]]
    ensures !r.Ok? ==> r == NotFound(MEDICO_NOT_FOUND)
  {
    ActiveOrNotFound(MedicoOf(rows, links.segretarioMedico, segretarioId))
  }

  /** `getMedicoByPazienteId`: the paziente's medico, if it exists and is ACTIVE. */
  function GetMedicoByPazienteId(rows: map<nat, Medico>, links: Links, pazienteId: nat): (r: Result<Medico>)
    ensures r.Ok? <==> pazienteId in links.pazienteMedico && links.pazienteMedico[pazienteId] in rows
                       && rows[links.pazienteMedico[pazienteId]].recordStatus == ACTIVE
    ensures r.Ok? ==> r.value == rows[links.pazienteMedico[pazienteId]]
    ensures !r.Ok? ==> r == NotFound(MEDICO_NOT_FOUND)
  {
    ActiveOrNotFound(MedicoOf(rows, links.pazienteMedico, pazienteId))
  }

  /** `getMedicoByPrenotazioneId`: the prenotazione's medico, if it exists and is ACTIVE. */
  function GetMedicoByPrenotazioneId(rows: map<nat, Medico>, links: Links, prenotazioneId: nat): (r: Result<Medico>)
    ensures r.Ok? <==> prenotazioneId in links.prenotazioneMedico && links.prenotazioneMedico[prenotazioneId] in rows
                       && rows[links.prenotazioneMedico[prenotazioneId]].recordStatus == ACTIVE
    ensures r.Ok? ==> r.value == rows[links.prenotazioneMedico[prenotazioneId]]
    ensures !r.Ok? ==> r == NotFound(MEDICO_NOT_FOUND)
  {
    ActiveOrNotFound(MedicoOf(rows, links.prenotazioneMedico, prenotazioneId))
  }

  /** No two stored rows share `email`. */
  ghost predicate EmailUnique(rows: map<nat, Medico>, email: string) {
    forall i, j :: i in rows && j in rows && rows[i].email == email && rows[j].email == email ==> i == j
  }

  /**
   * `getMedicoByEmail`: an ACTIVE row with that email. When the email is
   * unique in the table, the call succeeds exactly when that row is ACTIVE.
   */
  function GetMedicoByEmail(rows: map<nat, Medico>, nextId: nat, email: string): (r: Result<Medico>)
    requires WellFormed(rows, nextId)
    ensures r.Ok? ==> r.value.id in rows && rows[r.value.id] == r.value
                      && r.value.email == email && r.value.recordStatus == ACTIVE
    ensures !r.Ok? ==> r == NotFound(MEDICO_NOT_FOUND)
    ensures (forall id :: id in rows ==> rows[id].email != email) ==> !r.Ok?
    ensures EmailUnique(rows, email) ==>
              forall id :: id in rows && rows[id].email == email ==>
                (r.Ok? <==> rows[id].recordStatus == ACTIVE)
  {
    ActiveOrNotFound(FindByEmail(rows, nextId, email))
  }

  /** `getMediciByNomeAndCognome`: the ACTIVE rows whose nome and cognome contain the given texts. */
  function GetMediciByNomeAndCognome(rows: map<nat, Medico>, nextId: nat, nome: string, cognome: string): (r: seq<Medico>)
    requires WellFormed(rows, nextId)
    ensures forall m :: m in r <==> (m.id in rows && rows[m.id] == m && m.recordStatus == ACTIVE
                                    && Contains(m.nome, nome) && Contains(m.cognome, cognome))
    ensures IdsIncreasing(r)
  {
    Filter(SearchByNomeAndCognome(rows, nextId, nome, cognome), (m: Medico) => m.recordStatus == ACTIVE)
  }

  // ---------------------------------------------------------------------
  // Step functions of the state-changing operations
  // ---------------------------------------------------------------------

  /** The row `createMedico` stores under the generated `id`. */
  function Created(input: Medico, id: nat): Medico {
    input.(id := id, recordStatus := ACTIVE)
  }

  function GetOr(o: Option<string>, default: string): string {
    if o.Some? then o.value else default
  }

  /** The patch of `updateMedicoById`: only the non-null fields of `edit` overwrite `m`. */
  function Patch(m: Medico, edit: MedicoDTO): (r: Medico)
    ensures r.id == m.id && r.recordStatus == m.recordStatus
    ensures edit.nome.Some? ==> r.nome == edit.nome.value
    ensures edit.nome.None? ==> r.nome == m.nome
    ensures edit.cognome.Some? ==> r.cognome == edit.cognome.value
    ensures edit.cognome.None? ==> r.cognome == m.cognome
    ensures edit.telefono.Some? ==> r.telefono == edit.telefono.value
    ensures edit.telefono.None? ==> r.telefono == m.telefono
    ensures edit.email.Some? ==> r.email == edit.email.value
    ensures edit.email.None? ==> r.email == m.email
  {
    m.(nome := GetOr(edit.nome, m.nome),
       cognome := GetOr(edit.cognome, m.cognome),
       telefono := GetOr(edit.telefono, m.telefono),
       email := GetOr(edit.email, m.email))
  }

  /** `updateMedicoById`: its result and the table afterwards. */
  function UpdateOutcome(rows: map<nat, Medico>, edit: MedicoDTO, id: nat): (res: (Result<Medico>, map<nat, Medico>))
    ensures res.0.Ok? <==> id in rows && rows[id].recordStatus == ACTIVE
    ensures res.0.Ok? ==> res.0.value == Patch(rows[id], edit) && res.1 == rows[id := res.0.value]
    ensures !res.0.Ok? ==> res.0 == NotFound(MEDICO_NOT_FOUND) && res.1 == rows
  {
    var found := GetMedicoById(rows, id);
    if found.Ok? then (Ok(Patch(found.value, edit)), rows[id := Patch(found.value, edit)])
    else (found, rows)
  }

  /** `deleteMedicoById`: its result and the table afterwards. */
  function DeleteOutcome(rows: map<nat, Medico>, id: nat): (res: (Result<()>, map<nat, Medico>))
    ensures res.0 == NotFound(MEDICO_NOT_FOUND) <==> id !in rows
    ensures res.0 == StatusError(MEDICO_STATUS_DELETED) <==> id in rows && rows[id].recordStatus == DELETED
    ensures res.0.Ok? <==> id in rows && rows[id].recordStatus == ACTIVE
    ensures res.0.Ok? ==> res.1 == SetStatus(rows, id, DELETED)
    ensures !res.0.Ok? ==> res.1 == rows
  {
    if id !in rows then (NotFound(MEDICO_NOT_FOUND), rows)
    else if rows[id].recordStatus.DELETED? then (StatusError(MEDICO_STATUS_DELETED), rows)
    else (Ok(()), SetStatus(rows, id, DELETED))
  }

  /** `restoreMedicoById`: its result and the table afterwards. */
  function RestoreOutcome(rows: map<nat, Medico>, id: nat): (res: (Result<()>, map<nat, Medico>))
    ensures res.0 == NotFound(MEDICO_NOT_FOUND) <==> id !in rows
    ensures res.0 == StatusError(MEDICO_STATUS_ACTIVE) <==> id in rows && rows[id].recordStatus == ACTIVE
    ensures res.0.Ok? <==> id in rows && rows[id].recordStatus == DELETED
    ensures res.0.Ok? ==> res.1 == SetStatus(rows, id, ACTIVE)
    ensures !res.0.Ok? ==> res.1 == rows
  {
    if id !in rows then (NotFound(MEDICO_NOT_FOUND), rows)
    else if rows[id].recordStatus.ACTIVE? then (StatusError(MEDICO_STATUS_ACTIVE), rows)
    else (Ok(()), SetStatus(rows, id, ACTIVE))
  }

  // ---------------------------------------------------------------------
  // Lifecycle properties
  // ---------------------------------------------------------------------

  /**
   * Whatever id and status the input carried, the created row is ACTIVE,
   * has a fresh id, keeps the input's other fields, keeps the table well
   * formed and is visible to `getMedicoById` and `getAllMedici` at once.
   */
  lemma CreateMedicoVisible(rows: map<nat, Medico>, nextId: nat, input: Medico)
    requires WellFormed(rows, nextId)
    ensures var c := Created(input, nextId);
            && c.id !in rows && c.recordStatus == ACTIVE
            && c.nome == input.nome && c.cognome == input.cognome
            && c.telefono == input.telefono && c.email == input.email
            && WellFormed(rows[c.id := c], nextId + 1)
            && GetMedicoById(rows[c.id := c], c.id) == Ok(c)
            && c in GetAllMedici(rows[c.id := c], nextId + 1)
  {
  }

  /** After `deleteMedicoById`, whatever it returned, `getMedicoById` fails with NotFound. */
  lemma GetAfterDeleteNotFound(rows: map<nat, Medico>, id: nat)
    ensures GetMedicoById(DeleteOutcome(rows, id).1, id) == NotFound(MEDICO_NOT_FOUND)
  {
  }

  /** Deleting twice in succession fails the second time with the status error and changes nothing. */
  lemma DeleteTwiceFails(rows: map<nat, Medico>, id: nat)
    requires DeleteOutcome(rows, id).0.Ok?
    ensures var after := DeleteOutcome(rows, id).1;
            DeleteOutcome(after, id) == (StatusError(MEDICO_STATUS_DELETED), after)
  {
  }

  /** A successful delete followed by restore succeeds, gives back the original table and makes the row readable again. */
  lemma RestoreAfterDelete(rows: map<nat, Medico>, id: nat)
    requires DeleteOutcome(rows, id).0.Ok?
    ensures var restored := RestoreOutcome(DeleteOutcome(rows, id).1, id);
            && restored.0 == Ok(())
            && restored.1 == rows
            && GetMedicoById(restored.1, id) == Ok(rows[id])
  {
  }

  /** Restoring a row that was never deleted fails with the status error and changes nothing. */
  lemma RestoreActiveFails(rows: map<nat, Medico>, id: nat)
    requires id in rows && rows[id].recordStatus == ACTIVE
    ensures RestoreOutcome(rows, id) == (StatusError(MEDICO_STATUS_ACTIVE), rows)
  {
  }

  /** Create, then update one field, then read: every other field equals the original. */
  lemma UpdateOneFieldRoundTrip(rows: map<nat, Medico>, nextId: nat, input: Medico, nome: string)
    requires WellFormed(rows, nextId)
    ensures var c := Created(input, nextId);
            var edit := MedicoDTO(None, Some(nome), None, None, None);
            var updated := UpdateOutcome(rows[c.id := c], edit, c.id);
            && updated.0 == Ok(c.(nome := nome))
            && GetMedicoById(updated.1, c.id) == Ok(c.(nome := nome))
            && updated.1 == rows[c.id := c.(nome := nome)]
  {
  }

  /** After the bulk delete nothing is listed as ACTIVE and no row is readable by id. */
  lemma BulkDeleteHidesAll(rows: map<nat, Medico>, nextId: nat)
    requires WellFormed(rows, nextId)
    ensures WellFormed(SetAllStatus(rows, DELETED), nextId)
    ensures GetAllMedici(SetAllStatus(rows, DELETED), nextId) == []
    ensures forall id :: id in rows ==> GetMedicoById(SetAllStatus(rows, DELETED), id) == NotFound(MEDICO_NOT_FOUND)
  {
    var deleted := SetAllStatus(rows, DELETED);
    FilterNone(RowsBelow(deleted, nextId), (m: Medico) => m.recordStatus == ACTIVE);
  }

  /** After the bulk restore nothing is listed as DELETED and every row is readable by id. */
  lemma BulkRestoreShowsAll(rows: map<nat, Medico>, nextId: nat)
    requires WellFormed(rows, nextId)
    ensures WellFormed(SetAllStatus(rows, ACTIVE), nextId)
    ensures GetAllDeletedMedici(SetAllStatus(rows, ACTIVE), nextId) == []
    ensures forall id :: id in rows ==> GetMedicoById(SetAllStatus(rows, ACTIVE), id) == Ok(rows[id].(recordStatus := ACTIVE))
  {
    var restored := SetAllStatus(rows, ACTIVE);
    FilterNone(RowsBelow(restored, nextId), (m: Medico) => m.recordStatus == DELETED);
  }

  /** The ACTIVE and DELETED listings are disjoint and together cover the table. */
  lemma ListingsPartitionTable(rows: map<nat, Medico>, nextId: nat)
    requires WellFormed(rows, nextId)
    ensures forall m :: !(m in GetAllMedici(rows, nextId) && m in GetAllDeletedMedici(rows, nextId))
    ensures forall id :: id in rows ==> rows[id] in GetAllMedici(rows, nextId) || rows[id] in GetAllDeletedMedici(rows, nextId)
  {
  }

  /**
   * The ACTIVE listing is the only id-ordered list of the stored ACTIVE
   * rows: its contract pins it down completely.
   */
  lemma GetAllMediciDetermined(rows: map<nat, Medico>, nextId: nat, listing: seq<Medico>)
    requires WellFormed(rows, nextId)
    requires forall m :: m in listing <==> m.id in rows && rows[m.id] == m && m.recordStatus == ACTIVE
    requires IdsIncreasing(listing)
    ensures listing == GetAllMedici(rows, nextId)
  {
    SameElementsIncreasing(listing, GetAllMedici(rows, nextId));
  }

  /**
   * `MedicoService`: the state-changing operations. Each one is proved
   * against the step function of the same name, and keeps the table well
   * formed; none changes the foreign keys held by the other tables.
   */
  class MedicoService {

    const repo: MedicoRepository

    ghost predicate Valid()
      reads repo
    {
      repo.Valid()
    }

    constructor (repo: MedicoRepository)
      requires repo.Valid()
      ensures Valid()
      ensures this.repo == repo
    {
      this.repo := repo;
    }

    /** `createMedico`: the id is cleared, the status forced to ACTIVE, and the row inserted. */
    method CreateMedico(input: Medico) returns (created: Medico)
      requires Valid()
      modifies repo
      ensures Valid()
      ensures created == Created(input, old(repo.nextId))
      ensures created.id !in old(repo.rows)
      ensures repo.rows == old(repo.rows)[created.id := created]
      ensures repo.links == old(repo.links)
    {
      var medico := input;
      medico := medico.(recordStatus := ACTIVE);
      created := repo.Insert(medico);
    }

    /** `updateMedicoById`: patch the ACTIVE row under `id`. */
    method UpdateMedicoById(edit: MedicoDTO, id: nat) returns (r: Result<Medico>)
      requires Valid()
      modifies repo
      ensures Valid()
      ensures (r, repo.rows) == UpdateOutcome(old(repo.rows), edit, id)
      ensures repo.nextId == old(repo.nextId) && repo.links == old(repo.links)
    {
      var found := GetMedicoById(repo.rows, id);
      if !found.Ok? {
        return found;
      }
      var medico := found.value;
      if edit.nome.Some? {
        medico := medico.(nome := edit.nome.value);
      }
      if edit.cognome.Some? {
        medico := medico.(cognome := edit.cognome.value);
      }
      if edit.telefono.Some? {
        medico := medico.(telefono := edit.telefono.value);
      }
      if edit.email.Some? {
        medico := medico.(email := edit.email.value);
      }
      repo.Merge(medico);
      r := Ok(medico);
    }

    /** `deleteMedicoById`: guarded soft delete. */
    method DeleteMedicoById(id: nat) returns (r: Result<()>)
      requires Valid()
      modifies repo
      ensures Valid()
      ensures (r, repo.rows) == DeleteOutcome(old(repo.rows), id)
      ensures repo.nextId == old(repo.nextId) && repo.links == old(repo.links)
    {
      var found := FindById(repo.rows, id);
      if found.None? {
        return NotFound(MEDICO_NOT_FOUND);
      }
      if found.value.recordStatus == DELETED {
        return StatusError(MEDICO_STATUS_DELETED);
      }
      repo.SoftDeleteById(id);
      r := Ok(());
    }

    /** `deleteAllMedici`: every row becomes DELETED, with no guard. */
    method DeleteAllMedici()
      requires Valid()
      modifies repo
      ensures Valid()
      ensures repo.rows == SetAllStatus(old(repo.rows), DELETED)
      ensures repo.nextId == old(repo.nextId) && repo.links == old(repo.links)
    {
      repo.SoftDelete();
    }

    /** `restoreMedicoById`: guarded restore. */
    method RestoreMedicoById(id: nat) returns (r: Result<()>)
      requires Valid()
      modifies repo
      ensures Valid()
      ensures (r, repo.rows) == RestoreOutcome(old(repo.rows), id)
      ensures repo.nextId == old(repo.nextId) && repo.links == old(repo.links)
    {
      var found := FindById(repo.rows, id);
      if found.None? {
        return NotFound(MEDICO_NOT_FOUND);
      }
      if found.value.recordStatus == ACTIVE {
        return StatusError(MEDICO_STATUS_ACTIVE);
      }
      repo.RestoreById(id);
      r := Ok(());
    }

    /** `restoreAllMedici`: every row becomes ACTIVE, with no guard. */
    method RestoreAllMedici()
      requires Valid()
      modifies repo
      ensures Valid()
      ensures repo.rows == SetAllStatus(old(repo.rows), ACTIVE)
      ensures repo.nextId == old(repo.nextId) && repo.links == old(repo.links)
    {
      repo.Restore();
    }
  }
}
