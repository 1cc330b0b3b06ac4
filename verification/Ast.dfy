/** Statements and table schemas, as the parser produces and the executor consumes them (include/sqlparser). */
module Ast {
  import opened Wrappers

  datatype InsertStatement = InsertStatement(tableName: string, columns: seq<string>, values: seq<string>)

  datatype Condition = Condition(column: string, value: string)

  /** `columns` is not used when `selectAll` is set. */
  datatype SelectStatement =
    SelectStatement(tableName: string, columns: seq<string>, selectAll: bool, where: Option<Condition>)

  datatype Statement = Insert(insert: InsertStatement) | Select(select: SelectStatement)

  /** A loaded schema: the base name of the CSV file and its columns, none of which is the reserved `id`. */
  datatype Schema = Schema(storageName: string, columns: seq<string>) {
    predicate Valid() {
      columns != [] && "id" !in columns
    }
  }
}
