/**
 * The table structure the updater reconstructs from migration history and
 * compares with the desired one: columns with their property arrays, the
 * primary key, foreign keys and unique indexes.
 */
module Schema {
  import opened Wrappers
  import opened Assoc

  /** A PHP value stored in a column property array. */
  datatype Value =
    | Null
    | Bool(b: bool)
    | Int(i: int)
    | Str(s: string)
    /** A raw SQL expression object, as used for expression defaults. */
    | Expression(sql: string)

  /** A column's property array (`type`, `length`, `isNotNull`, `default`, `comment`, `append`, ...). */
  type Props = Assoc<string, Value>

  /** `$props[$name]`: a missing property reads as null. */
  function Read(props: Props, name: string): (v: Value)
    ensures !HasKey(props, name) ==> v == Null
    ensures HasKey(props, name) ==> Some(v) == Get(props, name)
  {
    Get(props, name).GetOr(Null)
  }

  /** `isset($props[$name])`: present and not null. */
  predicate Isset(props: Props, name: string) {
    Read(props, name) != Null
  }

  /** The five stored parts of a foreign key: columns, referenced table and columns, ON DELETE, ON UPDATE. */
  datatype ForeignKey = ForeignKey(
    columns: seq<string>,
    refTable: string,
    refColumns: seq<string>,
    onDelete: Value,
    onUpdate: Value)

  /** The `['columns', 'fks', 'pk', 'uidxs']` array of the updater. */
  datatype Structure = Structure(
    columns: Assoc<string, Props>,
    pk: seq<string>,
    fks: Assoc<string, ForeignKey>,
    uidxs: Assoc<string, seq<string>>)

  /** The structure the fold starts from: every part empty. */
  const EmptyStructure: Structure := Structure([], [], [], [])

  /** The contents of a structure with the iteration order forgotten. */
  datatype Content = Content(
    columns: map<string, Props>,
    pk: seq<string>,
    fks: map<string, ForeignKey>,
    uidxs: map<string, seq<string>>)
}
