/**
 * `isUpdateRequired`: walks the history newest first, folds what the walk
 * collected into the structure the migrations built, and compares it with
 * the desired structure.
 */
module Updater {
  import opened Wrappers
  import opened Assoc
  import opened Schema
  import opened Modifications
  import Ops
  import Walk
  import Fold
  import Diff
  import History
  import Seqs

  /** The changes of each migration of `history`, in the history's order, as `extract` reports them. */
  function Migrations(history: Assoc<string, int>, extract: string -> Ops.ChangeMap): (ms: seq<Ops.ChangeMap>)
    ensures |ms| == |history| && forall i :: 0 <= i < |history| ==> ms[i] == extract(history[i].0)
  {
    seq(|history|, i requires 0 <= i < |history| => extract(history[i].0))
  }

  /**
   * `isUpdateRequired()` once `fetchHistory()` has returned `history`.
   * `extract` stands for loading a migration and recording its `up()`; the
   * result is None when the walk does not terminate.
   */
  function UpdateRequired(history: Assoc<string, int>, extract: string -> Ops.ChangeMap, table: string,
                          desired: Structure, eq: Diff.LooseEq): (r: Option<Diff.Comparison>)
    ensures |history| == 0 ==> r == Some(Diff.Comparison(true, []))
    ensures r.Some? && !r.value.different ==> r.value.modifications == []
    ensures r.Some? && |Flatten(r.value.modifications)| > 0 ==> r.value.different
  {
    if |history| == 0 then Some(Diff.Comparison(true, []))
    else
      match Walk.WalkHistory(Migrations(history, extract), Walk.WalkState(table, []))
      case None => None
      case Some(step) =>
        var c := Diff.CompareStructures(step.state.collected, desired, eq);
        assert !c.different ==> |Flatten(c.modifications)| == 0;
        assert !c.different ==> c.modifications == [] by {
          if !c.different && c.modifications != [] {
            RecordedNotEmpty(Diff.Diff(desired, Fold.FormatStructure(step.state.collected), eq));
          }
        }
        Some(c)
  }

  /** Only an empty trace records an empty array. */
  lemma RecordedNotEmpty(trace: seq<Mod>)
    ensures Record(trace) == [] <==> trace == []
  {
    if trace != [] {
      var last := trace[|trace| - 1];
      RecordGet(trace, last.Kind());
      assert OfKind(trace, last.Kind()) != [];
    }
  }

  /** `isUpdateRequired()` as the source runs it, with the history in the order its callback sorts. */
  function IsUpdateRequiredAsWritten(tableExists: bool, namespaced: bool, rows: seq<History.Row>,
                                     extract: string -> Ops.ChangeMap, table: string,
                                     desired: Structure, eq: Diff.LooseEq): (r: Option<Diff.Comparison>)
    ensures !tableExists ==> r == Some(Diff.Comparison(true, []))
    ensures r.Some? && !r.value.different ==> r.value.modifications == []
    ensures r.Some? && !r.value.different ==> tableExists
  {
    UpdateRequired(History.FetchHistoryAsWritten(tableExists, namespaced, rows), extract, table, desired, eq)
  }

  /** `isUpdateRequired()` with the history newest first. */
  function IsUpdateRequired(tableExists: bool, namespaced: bool, rows: seq<History.Row>,
                            extract: string -> Ops.ChangeMap, table: string,
                            desired: Structure, eq: Diff.LooseEq): (r: Option<Diff.Comparison>)
    ensures !tableExists ==> r == Some(Diff.Comparison(true, []))
    ensures r.Some? && !r.value.different ==> r.value.modifications == []
    ensures r.Some? && !r.value.different ==> tableExists
  {
    UpdateRequired(History.FetchHistory(tableExists, namespaced, rows), extract, table, desired, eq)
  }

  lemma MigrationsConcat(newer: Assoc<string, int>, older: Assoc<string, int>, extract: string -> Ops.ChangeMap)
    ensures Migrations(newer + older, extract) == Migrations(newer, extract) + Migrations(older, extract)
  {
  }

  /**
   * Once the newer migrations reach the table's creation or drop,
   * older migrations are never loaded: the answer does not depend on them.
   */
  lemma OlderMigrationsIgnored(newer: Assoc<string, int>, older: Assoc<string, int>,
                               extract: string -> Ops.ChangeMap, table: string,
                               desired: Structure, eq: Diff.LooseEq)
    requires |newer| > 0
    requires var w := Walk.WalkHistory(Migrations(newer, extract), Walk.WalkState(table, []));
      w.Some? && !w.value.more
    ensures UpdateRequired(newer + older, extract, table, desired, eq) == UpdateRequired(newer, extract, table, desired, eq)
  {
    MigrationsConcat(newer, older, extract);
    Walk.WalkHistoryConcat(Migrations(newer, extract), Migrations(older, extract), Walk.WalkState(table, []));
  }

  /** The column properties of the end-to-end example. */
  const IdProps: Props := [("type", Str("integer"))]
  const NameProps: Props := [("type", Str("string"))]

  /** A migration `created` creating `table` with column `id`, and a later one adding column `name`. */
  function ExampleExtract(table: string, created: string): string -> Ops.ChangeMap {
    (m: string) =>
      if m == created then map[table := [Ops.CreateTable([("id", IdProps)])]]
      else map[table := [Ops.AddColumn("name", NameProps)]]
  }

  const ExampleDesired: Structure := Structure([("id", IdProps), ("name", NameProps)], [], [], [])

  /** The two migrations in the order the history lists them. */
  lemma ExampleMigrations(table: string, created: string, altered: string)
    requires created != altered && created != History.BaseMigration && altered != History.BaseMigration
    ensures var rows := [History.Row(altered, 200), History.Row(created, 100)];
      var extract := ExampleExtract(table, created);
      && Migrations(History.FetchHistory(true, true, rows), extract) == [extract(altered), extract(created)]
      && Migrations(History.FetchHistoryAsWritten(true, true, rows), extract) == [extract(created), extract(altered)]
  {
    var rows := [History.Row(altered, 200), History.Row(created, 100)];
    var extract := ExampleExtract(table, created);
    History.AsWrittenExample(created, altered);
    MigrationsOfTwo(History.FetchHistory(true, true, rows), extract, altered, created);
    MigrationsOfTwo(History.FetchHistoryAsWritten(true, true, rows), extract, created, altered);
  }

  /** A history of two migrations yields their changes in the same order. */
  lemma MigrationsOfTwo(history: Assoc<string, int>, extract: string -> Ops.ChangeMap, a: string, b: string)
    requires Keys(history) == [a, b]
    ensures Migrations(history, extract) == [extract(a), extract(b)]
  {
    assert history[0].0 == a && history[1].0 == b;
  }

  /** Walking newest first collects the added column, then the creation; in the other order only the creation. */
  lemma ExampleWalks(table: string, created: string, altered: string)
    requires created != altered
    ensures var extract := ExampleExtract(table, created);
      var st := Walk.WalkState(table, []);
      && Walk.WalkHistory([extract(altered), extract(created)], st)
         == Some(Walk.Step(false, Walk.WalkState(table, [Ops.AddColumn("name", NameProps), Ops.CreateTable([("id", IdProps)])])))
      && Walk.WalkHistory([extract(created), extract(altered)], st)
         == Some(Walk.Step(false, Walk.WalkState(table, [Ops.CreateTable([("id", IdProps)])])))
  {
    var extract := ExampleExtract(table, created);
    var add := Ops.AddColumn("name", NameProps);
    var create := Ops.CreateTable([("id", IdProps)]);
    var st0 := Walk.WalkState(table, []);
    var st1 := Walk.WalkState(table, [add]);
    var mAdd, mCreate := extract(altered), extract(created);
    assert mAdd == map[table := [add]] && mCreate == map[table := [create]];
    assert Walk.Scan(mAdd, st1, {table}, 0) == Some(Walk.Step(true, st1));
    assert mAdd[table][0] == add && st0.(collected := st0.collected + [add]) == st1;
    assert mCreate[table][0] == create && [] + [create] == [create] && [add] + [create] == [add, create];
    assert Walk.Scan(mAdd, st0, {table}, 1) == Some(Walk.Step(true, st1));
    var none: set<string> := {};
    assert none + {table} == {table} && |mAdd[table]| == 1 && |mCreate[table]| == 1;
    assert Walk.AnalyseChanges(mAdd, st0, none) == Some(Walk.Step(true, st1));
    assert Walk.Scan(mCreate, st1, {table}, 1) == Some(Walk.Step(false, Walk.WalkState(table, [add, create])));
    assert Walk.AnalyseChanges(mCreate, st1, {}) == Some(Walk.Step(false, Walk.WalkState(table, [add, create])));
    assert [mAdd, mCreate][1..] == [mCreate];
    assert Walk.Scan(mCreate, st0, {table}, 1) == Some(Walk.Step(false, Walk.WalkState(table, [create])));
    assert Walk.AnalyseChanges(mCreate, st0, {}) == Some(Walk.Step(false, Walk.WalkState(table, [create])));
  }

  /**
   * The history newest first reads the added column before the creation, so
   * the folded structure is the desired one and no update is required.
   */
  lemma NoUpdateWhenNewestFirst(table: string, created: string, altered: string)
    requires created != altered && created != History.BaseMigration && altered != History.BaseMigration
    ensures var rows := [History.Row(altered, 200), History.Row(created, 100)];
      IsUpdateRequired(true, true, rows, ExampleExtract(table, created), table, ExampleDesired, Diff.Identical)
        == Some(Diff.Comparison(false, []))
  {
    ExampleMigrations(table, created, altered);
    ExampleWalks(table, created, altered);
    ExampleFoldBoth();
    Diff.DiffOfItself(ExampleDesired, Diff.Identical);
  }

  lemma ExampleFoldBoth()
    ensures Fold.FormatStructure([Ops.AddColumn("name", NameProps), Ops.CreateTable([("id", IdProps)])])
         == ExampleDesired
    ensures Fold.Sound(ExampleDesired)
  {
    var add := Ops.AddColumn("name", NameProps);
    var create := Ops.CreateTable([("id", IdProps)]);
    var collected := [add, create];
    assert Seqs.Reverse(collected) == [create, add];
    var s1 := Structure([("id", IdProps)], [], [], []);
    Diff.ExampleFold([("id", IdProps)]);
    assert Fold.FoldOps(EmptyStructure, [create]) == s1;
    Fold.FoldOpsSnoc(EmptyStructure, [create], add);
    assert [create] + [add] == [create, add];
    assert Put([("id", IdProps)], "name", NameProps) == [("id", IdProps), ("name", NameProps)];
    assert Fold.Apply(s1, add) == ExampleDesired;
  }

  /**
   * The history in the source's order reads the creation first and stops, so
   * the column added later is reported missing: an update adding `name` is
   * required although the table is already in the desired shape.
   */
  lemma SpuriousUpdateAsWritten(table: string, created: string, altered: string)
    requires created != altered && created != History.BaseMigration && altered != History.BaseMigration
    ensures var rows := [History.Row(altered, 200), History.Row(created, 100)];
      var r := IsUpdateRequiredAsWritten(true, true, rows, ExampleExtract(table, created), table,
                                         ExampleDesired, Diff.Identical);
      && r.Some? && r.value.different
      && PrepareUpdates(r.value.modifications) == [("addColumn", "name")]
  {
    var rows := [History.Row(altered, 200), History.Row(created, 100)];
    var extract := ExampleExtract(table, created);
    ExampleMigrations(table, created, altered);
    ExampleWalks(table, created, altered);
    var history := History.FetchHistoryAsWritten(true, true, rows);
    assert |history| == 2;
    assert UpdateRequired(history, extract, table, ExampleDesired, Diff.Identical)
        == Some(Diff.CompareStructures([Ops.CreateTable([("id", IdProps)])], ExampleDesired, Diff.Identical));
    ExampleCompareCreated();
  }

  /** Compared with the created table alone, the desired structure lacks nothing but column `name`. */
  lemma ExampleCompareCreated()
    ensures var r := Diff.CompareStructures([Ops.CreateTable([("id", IdProps)])], ExampleDesired, Diff.Identical);
      r.different && PrepareUpdates(r.modifications) == [("addColumn", "name")]
  {
    Diff.ExampleFold([("id", IdProps)]);
    ExampleDiffMissing(Structure([("id", IdProps)], [], [], []));
    var trace := [AddColumn("name", NameProps)];
    assert trace[..0] == [] && Record([]) == [];
    var empty: seq<Mod> := [];
    assert Get(Record([]), "addColumn").GetOr(empty) + [trace[0]] == trace;
    assert Record(trace) == Put([], "addColumn", trace);
  }

  lemma ExampleDiffMissing(folded: Structure)
    requires folded == Structure([("id", IdProps)], [], [], [])
    ensures Diff.Diff(ExampleDesired, folded, Diff.Identical) == [AddColumn("name", NameProps)]
  {
    var cols := folded.columns;
    var eq: Diff.LooseEq := Diff.Identical;
    OneColumn(cols);
    Diff.NoAlterAgainstItself(IdProps, eq);
    var desired := ExampleDesired.columns;
    assert desired[0] == ("id", IdProps) && desired[1..][0] == ("name", NameProps) && desired[1..][1..] == [];
    assert Diff.ColumnPass(desired[1..][1..], cols, eq) == [];
    assert Diff.ColumnPass(desired[1..], cols, eq) == [AddColumn("name", NameProps)] + [];
    assert Diff.ColumnPass(desired, cols, eq) == [] + [AddColumn("name", NameProps)];
    assert Diff.Excess(cols, ExampleDesired.columns) == [] by {
      assert HasKey(ExampleDesired.columns, "id");
    }
  }

  /** The created table holds column `id` with its properties, and no column `name`. */
  lemma OneColumn(cols: Assoc<string, Props>)
    requires cols == [("id", IdProps)]
    ensures HasKey(cols, "id") && !HasKey(cols, "name") && Get(cols, "id") == Some(IdProps)
  {
    assert cols[1..] == [];
    assert !HasKey(cols[1..], "name");
  }
}
