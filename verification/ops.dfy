/**
 * One recorded call of a historical migration's `up()`. In PHP each entry is
 * a single-element array `[method => payload]`; here the method is the
 * constructor and the payload its fields.
 */
module Ops {
  import opened Assoc
  import opened Schema

  datatype Op =
    | CreateTable(columns: Assoc<string, Props>)
    | DropTable
    /** The walk continues under `subject` when it meets this entry. */
    | RenameTable(subject: string)
    | AddColumn(column: string, props: Props)
    | DropColumn(column: string)
    | RenameColumn(from: string, to: string)
    | AlterColumn(column: string, props: Props)
    | AddPrimaryKey(pkColumns: seq<string>)
    | DropPrimaryKey
    | AddForeignKey(name: string, fk: ForeignKey)
    | DropForeignKey(name: string)
    | CreateIndex(name: string, indexColumns: seq<string>)
    | DropIndex(name: string)
    | AddCommentOnColumn(column: string, comment: string)
    | DropCommentFromColumn(column: string)
    /** Any other recorded method, which the fold ignores. */
    | Other(methodName: string)

  /** The changes one migration made: table name to that table's entries, oldest first. */
  type ChangeMap = map<string, seq<Op>>

  /** Entries that end the backward walk or redirect it. */
  predicate IsBoundary(op: Op) {
    op.DropTable? || op.RenameTable? || op.CreateTable?
  }

  /** An entry's payload arrays hold each key once, as PHP arrays do. */
  ghost predicate WellFormedOp(op: Op) {
    match op
    case CreateTable(cols) =>
      Distinct(cols) && forall i :: 0 <= i < |cols| ==> Distinct(cols[i].1)
    case AddColumn(_, props) => Distinct(props)
    case AlterColumn(_, props) => Distinct(props)
    case _ => true
  }
}
