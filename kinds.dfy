/** Row kinds and the canonical ledger columns.  The kinds are those of
    ExtracTypeRow in the constants module src/extract.py imports (that
    module is not part of this model), recovered from their uses in
    src/extract.py; src/utils/constants.py defines the five kinds other than
    the truncations and the columns (COLLUMNS_ANALYTICAL). */
module Kinds {

  /** What a row of an extracted table is.  The two truncation kinds are used
      by the row classifier of src/extract.py. */
  datatype RowKind =
    | Total
    | Title
    | Row
    | Headers
    | Others
    | TruncatedDescription
    | TruncatedParticipant

  predicate IsTruncated(k: RowKind) {
    k == TruncatedDescription || k == TruncatedParticipant
  }

  /** The six canonical column names, in order. */
  const Columns: seq<string> := ["Data", "Descrição", "Participante", "Documento", "Período", "Valor"]

  /** The six text fields of a ledger row, one per canonical column. */
  datatype Fields = Fields(
    data: string,
    descricao: string,
    participante: string,
    documento: string,
    periodo: string,
    valor: string)
}
