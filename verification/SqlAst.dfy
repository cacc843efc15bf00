/** The statements the parser produces (`sql/ast.h`). */
module SqlAst {
  import opened Basics

  datatype Condition = Condition(column: string, value: string)

  datatype Columns = Star | List(names: seq<string>)

  datatype Statement =
    | Insert(table: string, columns: seq<string>, values: seq<string>)
    | Select(table: string, selection: Columns, condition: Option<Condition>)
}
