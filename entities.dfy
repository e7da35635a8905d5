/**
 * The persisted shape of a doctor (`MedicoEntity`) and the transfer shape
 * used as the patch of an update (`MedicoDTO`).
 */
module Entities {

  import opened Wrappers

  /** `EntityStatusEnum`: the lifecycle flag that gates default visibility. */
  datatype RecordStatus = ACTIVE | DELETED

  /** A stored doctor row. */
  datatype Medico = Medico(
    id: nat,
    nome: string,
    cognome: string,
    telefono: string,
    email: string,
    recordStatus: RecordStatus)

  /**
   * The update payload. A Java `null` field is `None`; only the `Some`
   * fields overwrite the stored row. The id it carries is ignored.
   */
  datatype MedicoDTO = MedicoDTO(
    id: Option<nat>,
    nome: Option<string>,
    cognome: Option<string>,
    telefono: Option<string>,
    email: Option<string>)
}
