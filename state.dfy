/** The constant tables of js/state.js that the reconciler uses. */
module AppState {

  /** STATUS: the reconciliation state of one stored record. */
  datatype Status = Pending | Reconciled | ReconciledWithDiff

  /** The text each status is stored and compared as. */
  function StatusText(s: Status): string
  {
    match s
    case Pending => "Pendiente"
    case Reconciled => "Conciliada"
    case ReconciledWithDiff => "Conciliado con Diferencias"
  }

  /** SOURCE_TYPES: which ledger a stored record came from (`ARCA`, `Contabilidad`). */
  datatype SourceType = Arca | Contabilidad

  /** PROCESS_STATE: how far a saved reconciliation has progressed (`Archivos Importados`, `Conciliación Finalizada`). */
  datatype ProcessState = Imported | Finished
}
