/**
 * `formatStructure`: the collected history entries, newest first, are
 * reversed into the order they were applied and folded into one table
 * structure.
 */
module Fold {
  import opened Wrappers
  import opened Assoc
  import opened Seqs
  import opened Schema
  import opened Ops

  /** Every column of `cols` carries a property array without repeated keys. */
  ghost predicate PropsDistinct(cols: Assoc<string, Props>) {
    forall c :: HasKey(cols, c) ==> Distinct(Get(cols, c).value)
  }

  /** The structure arrays hold each key once, and so does every column's property array. */
  ghost predicate Sound(s: Structure) {
    && Distinct(s.columns)
    && PropsDistinct(s.columns)
    && Distinct(s.fks)
    && Distinct(s.uidxs)
  }

  /** The `foreach (current($change) as $column => $properties)` of `createTable`. */
  function PutColumns(a: Assoc<string, Props>, cols: Assoc<string, Props>): Assoc<string, Props>
    decreases |cols|
  {
    if |cols| == 0 then a else PutColumns(Put(a, cols[0].0, cols[0].1), cols[1..])
  }

  /** With no column named twice in `cols`, each column reads from `cols` if it is there and from `a` otherwise. */
  lemma {:induction false} PutColumnsGet(a: Assoc<string, Props>, cols: Assoc<string, Props>)
    requires Distinct(cols)
    ensures forall j :: Get(PutColumns(a, cols), j) == if HasKey(cols, j) then Get(cols, j) else Get(a, j)
    decreases |cols|
  {
    if |cols| > 0 {
      DistinctTail(cols);
      var a' := Put(a, cols[0].0, cols[0].1);
      PutColumnsGet(a', cols[1..]);
      forall j
        ensures Get(PutColumns(a, cols), j) == if HasKey(cols, j) then Get(cols, j) else Get(a, j)
      {
        assert HasKey(cols, j) <==> j == cols[0].0 || HasKey(cols[1..], j) by {
          assert Keys(cols) == [cols[0].0] + Keys(cols[1..]);
        }
      }
    }
  }

  lemma {:induction false} PutColumnsSound(a: Assoc<string, Props>, cols: Assoc<string, Props>)
    requires Distinct(a) && PropsDistinct(a)
    requires forall i :: 0 <= i < |cols| ==> Distinct(cols[i].1)
    ensures Distinct(PutColumns(a, cols)) && PropsDistinct(PutColumns(a, cols))
    decreases |cols|
  {
    if |cols| > 0 {
      var a' := Put(a, cols[0].0, cols[0].1);
      assert Distinct(cols[0].1);
      assert PropsDistinct(a');
      PutColumnsSound(a', cols[1..]);
    }
  }

  /** Which part of the structure an entry may change. */
  datatype Part = ColumnsPart | PrimaryKeyPart | ForeignKeysPart | IndexesPart | NoPart

  function PartOf(op: Op): Part {
    match op
    case CreateTable(_) => ColumnsPart
    case AddColumn(_, _) => ColumnsPart
    case DropColumn(_) => ColumnsPart
    case RenameColumn(_, _) => ColumnsPart
    case AlterColumn(_, _) => ColumnsPart
    case AddCommentOnColumn(_, _) => ColumnsPart
    case DropCommentFromColumn(_) => ColumnsPart
    case AddPrimaryKey(_) => PrimaryKeyPart
    case DropPrimaryKey => PrimaryKeyPart
    case AddForeignKey(_, _) => ForeignKeysPart
    case DropForeignKey(_) => ForeignKeysPart
    case CreateIndex(_, _) => IndexesPart
    case DropIndex(_) => IndexesPart
    case DropTable => NoPart
    case RenameTable(_) => NoPart
    case Other(_) => NoPart
  }

  /** An entry that names a column, foreign key or index the structure does not have. */
  predicate TargetsMissing(s: Structure, op: Op) {
    match op
    case DropColumn(c) => !HasKey(s.columns, c)
    case RenameColumn(from, _) => !HasKey(s.columns, from)
    case AlterColumn(c, _) => !HasKey(s.columns, c)
    case AddCommentOnColumn(c, _) => !HasKey(s.columns, c)
    case DropCommentFromColumn(c) => !HasKey(s.columns, c)
    case DropForeignKey(name) => !HasKey(s.fks, name)
    case DropIndex(name) => !HasKey(s.uidxs, name)
    case _ => false
  }

  /** `$props['comment'] = $value` on the column `c`, when it exists. */
  function SetComment(cols: Assoc<string, Props>, c: string, value: Value): Assoc<string, Props>
    requires HasKey(cols, c)
  {
    Put(cols, c, Put(Get(cols, c).value, "comment", value))
  }

  /** The `switch` cases of `formatStructure` that change the columns. */
  function ApplyToColumns(cols: Assoc<string, Props>, op: Op): Assoc<string, Props>
    requires PartOf(op) == ColumnsPart
  {
    match op
    case CreateTable(created) => PutColumns(cols, created)
    case AddColumn(c, props) => Put(cols, c, props)
    case DropColumn(c) => if HasKey(cols, c) then Remove(cols, c) else cols
    case RenameColumn(from, to) =>
      if HasKey(cols, from) then Remove(Put(cols, to, Get(cols, from).value), from) else cols
    case AlterColumn(c, props) => if HasKey(cols, c) then Put(cols, c, props) else cols
    case AddCommentOnColumn(c, text) => if HasKey(cols, c) then SetComment(cols, c, Str(text)) else cols
    case DropCommentFromColumn(c) => if HasKey(cols, c) then SetComment(cols, c, Null) else cols
  }

  /** The `switch` cases of `formatStructure` that change the foreign keys. */
  function ApplyToForeignKeys(fks: Assoc<string, ForeignKey>, op: Op): Assoc<string, ForeignKey>
    requires PartOf(op) == ForeignKeysPart
  {
    match op
    case AddForeignKey(name, fk) => Put(fks, name, fk)
    case DropForeignKey(name) => if HasKey(fks, name) then Remove(fks, name) else fks
  }

  /** The `switch` cases of `formatStructure` that change the unique indexes. */
  function ApplyToIndexes(uidxs: Assoc<string, seq<string>>, op: Op): Assoc<string, seq<string>>
    requires PartOf(op) == IndexesPart
  {
    match op
    case CreateIndex(name, cols) => Put(uidxs, name, cols)
    case DropIndex(name) => if HasKey(uidxs, name) then Remove(uidxs, name) else uidxs
  }

  /** One `case` of the `switch` in `formatStructure`; methods it does not list change nothing. */
  function Apply(s: Structure, op: Op): (r: Structure)
    ensures PartOf(op) != ColumnsPart ==> r.columns == s.columns
    ensures PartOf(op) != PrimaryKeyPart ==> r.pk == s.pk
    ensures PartOf(op) != ForeignKeysPart ==> r.fks == s.fks
    ensures PartOf(op) != IndexesPart ==> r.uidxs == s.uidxs
    ensures op.AddPrimaryKey? ==> r.pk == op.pkColumns
    ensures op.DropPrimaryKey? ==> r.pk == []
  {
    match PartOf(op)
    case ColumnsPart => s.(columns := ApplyToColumns(s.columns, op))
    case PrimaryKeyPart => s.(pk := if op.AddPrimaryKey? then op.pkColumns else [])
    case ForeignKeysPart => s.(fks := ApplyToForeignKeys(s.fks, op))
    case IndexesPart => s.(uidxs := ApplyToIndexes(s.uidxs, op))
    case NoPart => s
  }

  /** Dropping, renaming, altering or commenting something the structure lacks leaves it unchanged. */
  lemma MissingTargetIsNoOp(s: Structure, op: Op)
    requires TargetsMissing(s, op)
    ensures Apply(s, op) == s
  {
  }

  /** Applies the entries in order, oldest first. */
  function FoldOps(s: Structure, ops: seq<Op>): Structure
    decreases |ops|
  {
    if |ops| == 0 then s else FoldOps(Apply(s, ops[0]), ops[1..])
  }

  /** `formatStructure()`: the collected entries, newest first, applied oldest first to an empty structure. */
  function FormatStructure(collected: seq<Op>): (r: Structure)
    ensures (forall i :: 0 <= i < |collected| ==> WellFormedOp(collected[i])) ==> Sound(r)
  {
    var ops := Reverse(collected);
    FoldSound(EmptyStructure, ops);
    FoldOps(EmptyStructure, ops)
  }

  lemma ApplySound(s: Structure, op: Op)
    requires Sound(s) && WellFormedOp(op)
    ensures Sound(Apply(s, op))
  {
    if PartOf(op) == ColumnsPart {
      ColumnsSound(s.columns, op);
    }
  }

  lemma ColumnsSound(cols: Assoc<string, Props>, op: Op)
    requires Distinct(cols) && PropsDistinct(cols)
    requires WellFormedOp(op) && PartOf(op) == ColumnsPart
    ensures Distinct(ApplyToColumns(cols, op)) && PropsDistinct(ApplyToColumns(cols, op))
  {
    match op
    case CreateTable(created) => PutColumnsSound(cols, created);
    case RenameColumn(from, to) =>
      if HasKey(cols, from) {
        var put := Put(cols, to, Get(cols, from).value);
        assert PropsDistinct(put);
        assert PropsDistinct(Remove(put, from));
      }
    case _ =>
  }

  lemma {:induction false} FoldSound(s: Structure, ops: seq<Op>)
    requires Sound(s)
    ensures (forall i :: 0 <= i < |ops| ==> WellFormedOp(ops[i])) ==> Sound(FoldOps(s, ops))
    decreases |ops|
  {
    if |ops| > 0 && forall i :: 0 <= i < |ops| ==> WellFormedOp(ops[i]) {
      ApplySound(s, ops[0]);
      FoldSound(Apply(s, ops[0]), ops[1..]);
    }
  }

  /** Applying one more entry after a sequence is applying it to the sequence's result. */
  lemma {:induction false} FoldOpsSnoc(s: Structure, ops: seq<Op>, op: Op)
    ensures FoldOps(s, ops + [op]) == Apply(FoldOps(s, ops), op)
    decreases |ops|
  {
    if |ops| == 0 {
      assert ops + [op] == [op];
    } else {
      assert (ops + [op])[0] == ops[0];
      assert (ops + [op])[1..] == ops[1..] + [op];
      FoldOpsSnoc(Apply(s, ops[0]), ops[1..], op);
    }
  }

  /**
   * The newest collected entry is applied last: collecting one more newer
   * entry in front of the accumulator applies it on top of the older result.
   */
  lemma NewestAppliedLast(op: Op, collected: seq<Op>)
    ensures FormatStructure([op] + collected) == Apply(FormatStructure(collected), op)
  {
    ReverseConcat([op], collected);
    assert Reverse([op]) == [op];
    FoldOpsSnoc(EmptyStructure, Reverse(collected), op);
  }

  /**
   * A column altered after the migration that created it has exactly the
   * altered properties: the alteration replaces the definition wholesale.
   */
  lemma AlterSupersedesCreate(cols: Assoc<string, Props>, c: string, props: Props)
    requires Distinct(cols) && HasKey(cols, c)
    ensures Get(FormatStructure([AlterColumn(c, props), CreateTable(cols)]).columns, c) == Some(props)
  {
    assert [AlterColumn(c, props), CreateTable(cols)] == [AlterColumn(c, props)] + [CreateTable(cols)];
    NewestAppliedLast(AlterColumn(c, props), [CreateTable(cols)]);
    assert [CreateTable(cols)] == [CreateTable(cols)] + [];
    NewestAppliedLast(CreateTable(cols), []);
    assert Reverse<Op>([]) == [];
    var created := FormatStructure([CreateTable(cols)]);
    assert created == Apply(EmptyStructure, CreateTable(cols));
    PutColumnsGet([], cols);
    assert Get(created.columns, c) == Get(cols, c);
  }

  /** The reference semantics of one entry on the columns, as a map from name to properties. */
  function ColumnsContent(m: map<string, Props>, op: Op): map<string, Props>
    requires PartOf(op) == ColumnsPart
  {
    match op
    case CreateTable(cols) => m + ToMap(cols)
    case AddColumn(n, props) => m[n := props]
    case DropColumn(n) => m - {n}
    case RenameColumn(from, to) =>
      if from !in m then m
      else if to == from then m - {from}
      else (m - {from})[to := m[from]]
    case AlterColumn(n, props) => if n in m then m[n := props] else m
    case AddCommentOnColumn(n, text) => if n in m then m[n := Put(m[n], "comment", Str(text))] else m
    case DropCommentFromColumn(n) => if n in m then m[n := Put(m[n], "comment", Null)] else m
  }

  /** The reference semantics of one entry, on the structure's contents with order forgotten. */
  function ApplyContent(c: Content, op: Op): Content {
    match PartOf(op)
    case ColumnsPart => c.(columns := ColumnsContent(c.columns, op))
    case PrimaryKeyPart => c.(pk := if op.AddPrimaryKey? then op.pkColumns else [])
    case ForeignKeysPart => c.(fks := if op.AddForeignKey? then c.fks[op.name := op.fk] else c.fks - {op.name})
    case IndexesPart => c.(uidxs := if op.CreateIndex? then c.uidxs[op.name := op.indexColumns] else c.uidxs - {op.name})
    case NoPart => c
  }

  function FoldContent(c: Content, ops: seq<Op>): Content
    decreases |ops|
  {
    if |ops| == 0 then c else FoldContent(ApplyContent(c, ops[0]), ops[1..])
  }

  /** `c` is the contents of `s`, part by part. */
  ghost predicate Represents(s: Structure, c: Content) {
    && HasContents(s.columns, c.columns)
    && s.pk == c.pk
    && HasContents(s.fks, c.fks)
    && HasContents(s.uidxs, c.uidxs)
  }

  /** `m` is what `a` holds. */
  ghost predicate HasContents<K(!new), V>(a: Assoc<K, V>, m: map<K, V>) {
    ToMap(a) == m
  }

  /** One entry changes the structure's contents as the reference semantics says. */
  lemma ApplyMatchesContent(s: Structure, c: Content, op: Op)
    requires WellFormedOp(op) && Represents(s, c)
    ensures Represents(Apply(s, op), ApplyContent(c, op))
  {
    match PartOf(op)
    case ColumnsPart => ColumnsPartMatches(s, c, op);
    case PrimaryKeyPart =>
    case ForeignKeysPart => ForeignKeysPartMatches(s, c, op);
    case IndexesPart => IndexesPartMatches(s, c, op);
    case NoPart =>
  }

  lemma ColumnsPartMatches(s: Structure, c: Content, op: Op)
    requires WellFormedOp(op) && Represents(s, c) && PartOf(op) == ColumnsPart
    ensures Represents(Apply(s, op), ApplyContent(c, op))
  {
    ColumnsMatchContent(s, c, op);
  }

  lemma ForeignKeysPartMatches(s: Structure, c: Content, op: Op)
    requires Represents(s, c) && PartOf(op) == ForeignKeysPart
    ensures Represents(Apply(s, op), ApplyContent(c, op))
  {
    if op.AddForeignKey? { ToMapPut(s.fks, op.name, op.fk); } else { ToMapRemove(s.fks, op.name); }
  }

  lemma IndexesPartMatches(s: Structure, c: Content, op: Op)
    requires Represents(s, c) && PartOf(op) == IndexesPart
    ensures Represents(Apply(s, op), ApplyContent(c, op))
  {
    if op.CreateIndex? { ToMapPut(s.uidxs, op.name, op.indexColumns); } else { ToMapRemove(s.uidxs, op.name); }
  }

  lemma PutColumnsContent(a: Assoc<string, Props>, cols: Assoc<string, Props>)
    requires Distinct(cols)
    ensures ToMap(PutColumns(a, cols)) == ToMap(a) + ToMap(cols)
  {
    PutColumnsGet(a, cols);
    var l, r := ToMap(PutColumns(a, cols)), ToMap(a) + ToMap(cols);
    forall j
      ensures j in l <==> j in r
      ensures j in l ==> l[j] == r[j]
    {
      assert Get(PutColumns(a, cols), j) == if HasKey(cols, j) then Get(cols, j) else Get(a, j);
    }
  }

  /** Map algebra of a rename, kept apart from the arrays so that the solver only sees maps. */
  lemma MapMove<K, V>(m: map<K, V>, l: map<K, V>, from: K, to: K)
    requires from in m && l == m[to := m[from]] - {from}
    ensures l == if to == from then m - {from} else (m - {from})[to := m[from]]
  {
  }

  lemma RenameColumnContent(cols: Assoc<string, Props>, from: string, to: string)
    requires HasKey(cols, from)
    ensures var m := ToMap(cols);
      ToMap(Remove(Put(cols, to, Get(cols, from).value), from))
        == if to == from then m - {from} else (m - {from})[to := m[from]]
  {
    var put := Put(cols, to, Get(cols, from).value);
    ToMapPut(cols, to, Get(cols, from).value);
    ToMapRemove(put, from);
    MapMove(ToMap(cols), ToMap(Remove(put, from)), from, to);
  }

  lemma ColumnsMatchContent(s: Structure, c: Content, op: Op)
    requires WellFormedOp(op) && PartOf(op) == ColumnsPart && ToMap(s.columns) == c.columns
    ensures ToMap(ApplyToColumns(s.columns, op)) == ColumnsContent(c.columns, op)
  {
    var cols := s.columns;
    match op
    case CreateTable(created) => PutColumnsContent(cols, created);
    case RenameColumn(from, to) => if HasKey(cols, from) { RenameColumnContent(cols, from, to); }
    case DropColumn(n) => ToMapRemove(cols, n);
    case AddColumn(n, props) => ToMapPut(cols, n, props);
    case AlterColumn(n, props) => if HasKey(cols, n) { ToMapPut(cols, n, props); }
    case AddCommentOnColumn(n, text) => if HasKey(cols, n) { CommentContent(cols, n, Str(text)); }
    case DropCommentFromColumn(n) => if HasKey(cols, n) { CommentContent(cols, n, Null); }
  }

  lemma CommentContent(cols: Assoc<string, Props>, n: string, value: Value)
    requires HasKey(cols, n)
    ensures n in ToMap(cols)
    ensures ToMap(SetComment(cols, n, value)) == ToMap(cols)[n := Put(ToMap(cols)[n], "comment", value)]
  {
    ToMapPut(cols, n, Put(Get(cols, n).value, "comment", value));
  }

  /**
   * The ordered fold and the order-free reference semantics agree on the
   * contents of every structure they produce.
   */
  lemma {:induction false} FoldMatchesContent(s: Structure, c: Content, ops: seq<Op>)
    requires Represents(s, c)
    requires forall i :: 0 <= i < |ops| ==> WellFormedOp(ops[i])
    ensures Represents(FoldOps(s, ops), FoldContent(c, ops))
    decreases |ops|
  {
    if |ops| > 0 {
      ApplyMatchesContent(s, c, ops[0]);
      FoldMatchesContent(Apply(s, ops[0]), ApplyContent(c, ops[0]), ops[1..]);
    }
  }

  /** `formatStructure` in terms of the reference semantics: the collected entries replayed oldest first. */
  lemma FormatStructureContent(collected: seq<Op>)
    requires forall i :: 0 <= i < |collected| ==> WellFormedOp(collected[i])
    ensures Represents(FormatStructure(collected),
                       FoldContent(Content(map[], [], map[], map[]), Reverse(collected)))
  {
    FoldMatchesContent(EmptyStructure, Content(map[], [], map[], map[]), Reverse(collected));
  }
}
