/**
 * `compareStructures`: the desired structure is compared with the one folded
 * from history, and every difference is recorded as a modification in the
 * order of the PHP loops: desired columns (added or altered), surplus
 * columns, desired foreign keys, surplus foreign keys, desired unique
 * indexes, surplus unique indexes. The primary key is never compared.
 */
module Diff {
  import opened Wrappers
  import opened Assoc
  import opened Schema
  import opened Modifications
  import Ops
  import Seqs
  import Fold

  /** PHP's loose `==` on property values; the model leaves it abstract. */
  type LooseEq = (Value, Value) -> bool

  /** Strict equality, one of the relations loose equality may be. */
  function Identical(a: Value, b: Value): bool {
    a == b
  }

  ghost predicate Reflexive(eq: LooseEq) {
    forall v :: eq(v, v)
  }

  /**
   * One step of the inner `foreach`: the desired property `p` with value `v`
   * tells the folded column apart when it is set but the folded one is not,
   * or when the two are loosely unequal.
   */
  predicate PropDiffers(folded: Props, p: string, v: Value, eq: LooseEq) {
    (v != Null && !Isset(folded, p)) || !eq(Read(folded, p), v)
  }

  /** The inner `foreach` with its `break`: whether any desired property tells the columns apart. */
  function NeedsAlter(desired: Props, folded: Props, eq: LooseEq): bool
    decreases |desired|
  {
    |desired| > 0 && (PropDiffers(folded, desired[0].0, desired[0].1, eq) || NeedsAlter(desired[1..], folded, eq))
  }

  lemma {:induction false} NeedsAlterSome(desired: Props, folded: Props, eq: LooseEq)
    ensures NeedsAlter(desired, folded, eq)
        <==> exists i :: 0 <= i < |desired| && PropDiffers(folded, desired[i].0, desired[i].1, eq)
    decreases |desired|
  {
    if |desired| > 0 {
      NeedsAlterSome(desired[1..], folded, eq);
      if exists i :: 0 <= i < |desired| && PropDiffers(folded, desired[i].0, desired[i].1, eq) {
        var i :| 0 <= i < |desired| && PropDiffers(folded, desired[i].0, desired[i].1, eq);
        if i > 0 {
          assert desired[1..][i - 1] == desired[i];
        }
      }
    }
  }

  /** A column never differs from itself when loose equality is reflexive. */
  lemma NoAlterAgainstItself(props: Props, eq: LooseEq)
    requires Distinct(props) && Reflexive(eq)
    ensures !NeedsAlter(props, props, eq)
  {
    NeedsAlterSome(props, props, eq);
    forall i | 0 <= i < |props|
      ensures !PropDiffers(props, props[i].0, props[i].1, eq)
    {
      GetEntry(props, i);
    }
  }

  /** The first loop: a desired column the folded structure lacks is added, one whose properties differ is altered. */
  function ColumnPass(desired: Assoc<string, Props>, folded: Assoc<string, Props>, eq: LooseEq): (r: seq<Mod>)
    ensures |r| <= |desired|
    ensures forall i :: 0 <= i < |r| ==> Loop(r[i]) == 0 && HasKey(desired, r[i].column)
    decreases |desired|
  {
    if |desired| == 0 then []
    else
      var c, p := desired[0].0, desired[0].1;
      var head :=
        if !HasKey(folded, c) then [AddColumn(c, p)]
        else if NeedsAlter(p, Get(folded, c).value, eq) then [AlterColumn(c, p)]
        else [];
      head + ColumnPass(desired[1..], folded, eq)
  }

  /** What the first loop records for one desired column. */
  ghost predicate ColumnRecord(desired: Assoc<string, Props>, folded: Assoc<string, Props>, eq: LooseEq, m: Mod) {
    && (m.AddColumn? || m.AlterColumn?)
    && (m.column, m.props) in desired
    && if HasKey(folded, m.column)
       then m.AlterColumn? && NeedsAlter(m.props, Get(folded, m.column).value, eq)
       else m.AddColumn?
  }

  lemma {:induction false} ColumnPassMembers(desired: Assoc<string, Props>, folded: Assoc<string, Props>, eq: LooseEq, m: Mod)
    ensures m in ColumnPass(desired, folded, eq) <==> ColumnRecord(desired, folded, eq, m)
    decreases |desired|
  {
    if |desired| > 0 {
      ColumnPassMembers(desired[1..], folded, eq, m);
      assert desired == [desired[0]] + desired[1..];
      if m.AddColumn? || m.AlterColumn? {
        assert (m.column, m.props) in desired <==> (m.column, m.props) == desired[0] || (m.column, m.props) in desired[1..];
      }
    }
  }

  /** A `foreach` over `a` keeping, in order, the keys that `b` lacks. */
  function Excess<V, W>(a: Assoc<string, V>, b: Assoc<string, W>): seq<string>
    decreases |a|
  {
    if |a| == 0 then []
    else (if HasKey(b, a[0].0) then [] else [a[0].0]) + Excess(a[1..], b)
  }

  lemma {:induction false} ExcessMembers<V, W>(a: Assoc<string, V>, b: Assoc<string, W>, k: string)
    ensures k in Excess(a, b) <==> HasKey(a, k) && !HasKey(b, k)
    decreases |a|
  {
    if |a| > 0 {
      ExcessMembers(a[1..], b, k);
    }
  }

  lemma {:induction false} ExcessUnique<V, W>(a: Assoc<string, V>, b: Assoc<string, W>)
    requires Distinct(a)
    ensures forall i, j :: 0 <= i < j < |Excess(a, b)| ==> Excess(a, b)[i] != Excess(a, b)[j]
    decreases |a|
  {
    if |a| > 0 {
      DistinctTail(a);
      ExcessUnique(a[1..], b);
      ExcessMembers(a[1..], b, a[0].0);
    }
  }

  /** A `foreach` over `a` keeping, in order, the entries whose key `b` lacks. */
  function Missing<V, W>(a: Assoc<string, V>, b: Assoc<string, W>): Assoc<string, V>
    decreases |a|
  {
    if |a| == 0 then []
    else (if HasKey(b, a[0].0) then [] else [a[0]]) + Missing(a[1..], b)
  }

  lemma {:induction false} MissingMembers<V, W>(a: Assoc<string, V>, b: Assoc<string, W>, e: (string, V))
    ensures e in Missing(a, b) <==> e in a && !HasKey(b, e.0)
    decreases |a|
  {
    if |a| > 0 {
      MissingMembers(a[1..], b, e);
      assert a == [a[0]] + a[1..];
    }
  }

  lemma {:induction false} MissingDistinct<V, W>(a: Assoc<string, V>, b: Assoc<string, W>)
    requires Distinct(a)
    ensures Distinct(Missing(a, b))
    decreases |a|
  {
    if |a| > 0 {
      DistinctTail(a);
      MissingDistinct(a[1..], b);
      var rest := Missing(a[1..], b);
      if HasKey(rest, a[0].0) {
        var i := KeyIndex(rest, a[0].0);
        MissingMembers(a[1..], b, rest[i]);
        EntryHasKey(a[1..], rest[i]);
      }
      DistinctCons(a[0], rest);
    }
  }

  function DropColumns(names: seq<string>): (r: seq<Mod>)
    ensures forall m :: m in r <==> m.DropColumn? && m.column in names
  {
    var r := seq(|names|, i requires 0 <= i < |names| => DropColumn(names[i]));
    assert forall i :: 0 <= i < |names| ==> r[i] == DropColumn(names[i]);
    r
  }

  function AddForeignKeys(fks: Assoc<string, ForeignKey>): (r: seq<Mod>)
    ensures forall m :: m in r <==> m.AddForeignKey? && (m.name, m.fk) in fks
  {
    var r := seq(|fks|, i requires 0 <= i < |fks| => AddForeignKey(fks[i].0, fks[i].1));
    assert forall i :: 0 <= i < |fks| ==> r[i] == AddForeignKey(fks[i].0, fks[i].1);
    r
  }

  function DropForeignKeys(names: seq<string>): (r: seq<Mod>)
    ensures forall m :: m in r <==> m.DropForeignKey? && m.name in names
  {
    var r := seq(|names|, i requires 0 <= i < |names| => DropForeignKey(names[i]));
    assert forall i :: 0 <= i < |names| ==> r[i] == DropForeignKey(names[i]);
    r
  }

  function CreateIndexes(uidxs: Assoc<string, seq<string>>): (r: seq<Mod>)
    ensures forall m :: m in r <==> m.CreateIndex? && (m.name, m.indexColumns) in uidxs
  {
    var r := seq(|uidxs|, i requires 0 <= i < |uidxs| => CreateIndex(uidxs[i].0, uidxs[i].1));
    assert forall i :: 0 <= i < |uidxs| ==> r[i] == CreateIndex(uidxs[i].0, uidxs[i].1);
    r
  }

  function DropIndexes(names: seq<string>): (r: seq<Mod>)
    ensures forall m :: m in r <==> m.DropIndex? && m.name in names
  {
    var r := seq(|names|, i requires 0 <= i < |names| => DropIndex(names[i]));
    assert forall i :: 0 <= i < |names| ==> r[i] == DropIndex(names[i]);
    r
  }

  /** The position, among the six loops of `compareStructures`, of the loop that records `m`. */
  function Loop(m: Mod): nat {
    match m
    case AddColumn(_, _) => 0
    case AlterColumn(_, _) => 0
    case DropColumn(_) => 1
    case AddForeignKey(_, _) => 2
    case DropForeignKey(_) => 3
    case CreateIndex(_, _) => 4
    case DropIndex(_) => 5
  }

  /** The entries of `trace` come loop by loop. */
  ghost predicate InLoopOrder(trace: seq<Mod>) {
    forall i, j :: 0 <= i < j < |trace| ==> Loop(trace[i]) <= Loop(trace[j])
  }

  /** Every entry of `trace` comes from loop `n`. */
  ghost predicate FromLoop(trace: seq<Mod>, n: nat) {
    forall i :: 0 <= i < |trace| ==> Loop(trace[i]) == n
  }

  /** Every entry of `trace` comes from loop `n` or an earlier one. */
  ghost predicate UpToLoop(trace: seq<Mod>, n: nat) {
    forall i :: 0 <= i < |trace| ==> Loop(trace[i]) <= n
  }

  /** Appending the entries of a later loop keeps the loop order. */
  lemma LoopOrderExtend(a: seq<Mod>, b: seq<Mod>, m: nat, n: nat)
    requires InLoopOrder(a) && UpToLoop(a, m) && FromLoop(b, n) && m <= n
    ensures InLoopOrder(a + b) && UpToLoop(a + b, n)
  {
    var ab := a + b;
    forall i, j | 0 <= i < j < |ab|
      ensures Loop(ab[i]) <= Loop(ab[j])
    {
      if j < |a| {
        assert ab[i] == a[i] && ab[j] == a[j];
      } else if i < |a| {
        assert ab[i] == a[i] && ab[j] == b[j - |a|];
      } else {
        assert ab[i] == b[i - |a|] && ab[j] == b[j - |a|];
      }
    }
    forall i | 0 <= i < |ab|
      ensures Loop(ab[i]) <= n
    {
      if i < |a| {
        assert ab[i] == a[i];
      } else {
        assert ab[i] == b[i - |a|];
      }
    }
  }

  /** The six loops' entries, each list coming from its own loop. */
  lemma LoopsSeparate(desired: Structure, folded: Structure, eq: LooseEq)
    ensures FromLoop(DropColumns(Excess(folded.columns, desired.columns)), 1)
    ensures FromLoop(AddForeignKeys(Missing(desired.fks, folded.fks)), 2)
    ensures FromLoop(DropForeignKeys(Excess(folded.fks, desired.fks)), 3)
    ensures FromLoop(CreateIndexes(Missing(desired.uidxs, folded.uidxs)), 4)
    ensures FromLoop(DropIndexes(Excess(folded.uidxs, desired.uidxs)), 5)
  {
    var d1 := DropColumns(Excess(folded.columns, desired.columns));
    var d2 := AddForeignKeys(Missing(desired.fks, folded.fks));
    var d3 := DropForeignKeys(Excess(folded.fks, desired.fks));
    var d4 := CreateIndexes(Missing(desired.uidxs, folded.uidxs));
    var d5 := DropIndexes(Excess(folded.uidxs, desired.uidxs));
    forall i | 0 <= i < |d1| ensures Loop(d1[i]) == 1 { assert d1[i] in d1; }
    forall i | 0 <= i < |d2| ensures Loop(d2[i]) == 2 { assert d2[i] in d2; }
    forall i | 0 <= i < |d3| ensures Loop(d3[i]) == 3 { assert d3[i] in d3; }
    forall i | 0 <= i < |d4| ensures Loop(d4[i]) == 4 { assert d4[i] in d4; }
    forall i | 0 <= i < |d5| ensures Loop(d5[i]) == 5 { assert d5[i] in d5; }
  }

  /** The modifications `compareStructures` records, in recording order: the six loops one after the other. */
  function Diff(desired: Structure, folded: Structure, eq: LooseEq): (r: seq<Mod>)
    ensures InLoopOrder(r)
  {
    var d0 := ColumnPass(desired.columns, folded.columns, eq);
    var d1 := DropColumns(Excess(folded.columns, desired.columns));
    var d2 := AddForeignKeys(Missing(desired.fks, folded.fks));
    var d3 := DropForeignKeys(Excess(folded.fks, desired.fks));
    var d4 := CreateIndexes(Missing(desired.uidxs, folded.uidxs));
    var d5 := DropIndexes(Excess(folded.uidxs, desired.uidxs));
    LoopsSeparate(desired, folded, eq);
    assert InLoopOrder(d0) && UpToLoop(d0, 0);
    LoopOrderExtend(d0, d1, 0, 1);
    LoopOrderExtend(d0 + d1, d2, 1, 2);
    LoopOrderExtend(d0 + d1 + d2, d3, 2, 3);
    LoopOrderExtend(d0 + d1 + d2 + d3, d4, 3, 4);
    LoopOrderExtend(d0 + d1 + d2 + d3 + d4, d5, 4, 5);
    d0 + d1 + d2 + d3 + d4 + d5
  }

  /** A desired column the folded structure lacks is added, carrying the desired properties; no other column is. */
  lemma AddColumnRecorded(desired: Structure, folded: Structure, eq: LooseEq, c: string, p: Props)
    requires Distinct(desired.columns)
    ensures AddColumn(c, p) in Diff(desired, folded, eq)
        <==> Get(desired.columns, c) == Some(p) && !HasKey(folded.columns, c)
  {
    ColumnPassMembers(desired.columns, folded.columns, eq, AddColumn(c, p));
    EntryGet(desired.columns, c, p);
  }

  /** A column on both sides is altered, with the desired properties in full, exactly when some desired property differs. */
  lemma AlterColumnRecorded(desired: Structure, folded: Structure, eq: LooseEq, c: string, p: Props)
    requires Distinct(desired.columns)
    ensures AlterColumn(c, p) in Diff(desired, folded, eq)
        <==> && Get(desired.columns, c) == Some(p)
             && HasKey(folded.columns, c)
             && NeedsAlter(p, Get(folded.columns, c).value, eq)
  {
    ColumnPassMembers(desired.columns, folded.columns, eq, AlterColumn(c, p));
    EntryGet(desired.columns, c, p);
  }

  /** A folded column the desired structure lacks is dropped. */
  lemma DropColumnRecorded(desired: Structure, folded: Structure, eq: LooseEq, c: string)
    ensures DropColumn(c) in Diff(desired, folded, eq)
        <==> HasKey(folded.columns, c) && !HasKey(desired.columns, c)
  {
    ColumnPassMembers(desired.columns, folded.columns, eq, DropColumn(c));
    var names := Excess(folded.columns, desired.columns);
    ExcessMembers(folded.columns, desired.columns, c);
  }

  /** A desired foreign key whose name the folded structure lacks is added. */
  lemma AddForeignKeyRecorded(desired: Structure, folded: Structure, eq: LooseEq, n: string, fk: ForeignKey)
    requires Distinct(desired.fks)
    ensures AddForeignKey(n, fk) in Diff(desired, folded, eq)
        <==> Get(desired.fks, n) == Some(fk) && !HasKey(folded.fks, n)
  {
    ColumnPassMembers(desired.columns, folded.columns, eq, AddForeignKey(n, fk));
    var added := Missing(desired.fks, folded.fks);
    MissingMembers(desired.fks, folded.fks, (n, fk));
    EntryGet(desired.fks, n, fk);
  }

  /** A folded foreign key whose name the desired structure lacks is dropped. */
  lemma DropForeignKeyRecorded(desired: Structure, folded: Structure, eq: LooseEq, n: string)
    ensures DropForeignKey(n) in Diff(desired, folded, eq)
        <==> HasKey(folded.fks, n) && !HasKey(desired.fks, n)
  {
    ColumnPassMembers(desired.columns, folded.columns, eq, DropForeignKey(n));
    var names := Excess(folded.fks, desired.fks);
    ExcessMembers(folded.fks, desired.fks, n);
  }

  /** A desired unique index whose name the folded structure lacks is created. */
  lemma CreateIndexRecorded(desired: Structure, folded: Structure, eq: LooseEq, n: string, cols: seq<string>)
    requires Distinct(desired.uidxs)
    ensures CreateIndex(n, cols) in Diff(desired, folded, eq)
        <==> Get(desired.uidxs, n) == Some(cols) && !HasKey(folded.uidxs, n)
  {
    ColumnPassMembers(desired.columns, folded.columns, eq, CreateIndex(n, cols));
    var added := Missing(desired.uidxs, folded.uidxs);
    MissingMembers(desired.uidxs, folded.uidxs, (n, cols));
    EntryGet(desired.uidxs, n, cols);
  }

  /** A folded unique index whose name the desired structure lacks is dropped. */
  lemma DropIndexRecorded(desired: Structure, folded: Structure, eq: LooseEq, n: string)
    ensures DropIndex(n) in Diff(desired, folded, eq)
        <==> HasKey(folded.uidxs, n) && !HasKey(desired.uidxs, n)
  {
    ColumnPassMembers(desired.columns, folded.columns, eq, DropIndex(n));
    var names := Excess(folded.uidxs, desired.uidxs);
    ExcessMembers(folded.uidxs, desired.uidxs, n);
  }

  /** No (method, key) pair is recorded twice. */
  ghost predicate UniqueLabels(trace: seq<Mod>) {
    forall i, j :: 0 <= i < j < |trace| ==> trace[i].Kind() != trace[j].Kind() || trace[i].Key() != trace[j].Key()
  }

  /** Every entry of `trace` is recorded under one of `kinds`. */
  ghost predicate KindsIn(trace: seq<Mod>, kinds: set<string>) {
    forall i :: 0 <= i < |trace| ==> trace[i].Kind() in kinds
  }

  lemma UniqueConcat(a: seq<Mod>, b: seq<Mod>, ka: set<string>, kb: set<string>)
    requires UniqueLabels(a) && UniqueLabels(b)
    requires KindsIn(a, ka) && KindsIn(b, kb) && ka !! kb
    ensures UniqueLabels(a + b) && KindsIn(a + b, ka + kb)
  {
    var ab := a + b;
    forall i, j | 0 <= i < j < |ab|
      ensures ab[i].Kind() != ab[j].Kind() || ab[i].Key() != ab[j].Key()
    {
      if j < |a| {
        assert ab[i] == a[i] && ab[j] == a[j];
      } else if i >= |a| {
        assert ab[i] == b[i - |a|] && ab[j] == b[j - |a|];
      } else {
        assert ab[i].Kind() in ka && ab[j].Kind() in kb;
      }
    }
  }

  lemma {:induction false} ColumnPassUnique(desired: Assoc<string, Props>, folded: Assoc<string, Props>, eq: LooseEq)
    requires Distinct(desired)
    ensures UniqueLabels(ColumnPass(desired, folded, eq))
    ensures KindsIn(ColumnPass(desired, folded, eq), {"addColumn", "alterColumn"})
    decreases |desired|
  {
    if |desired| > 0 {
      var rest := ColumnPass(desired[1..], folded, eq);
      DistinctTail(desired);
      ColumnPassUnique(desired[1..], folded, eq);
      forall j | 0 <= j < |rest|
        ensures rest[j].Key() != desired[0].0
      {
        ColumnPassMembers(desired[1..], folded, eq, rest[j]);
        EntryHasKey(desired[1..], (rest[j].column, rest[j].props));
      }
    }
  }

  lemma NamesUnique(names: seq<string>)
    requires forall i, j :: 0 <= i < j < |names| ==> names[i] != names[j]
    ensures UniqueLabels(DropColumns(names)) && KindsIn(DropColumns(names), {"dropColumn"})
    ensures UniqueLabels(DropForeignKeys(names)) && KindsIn(DropForeignKeys(names), {"dropForeignKey"})
    ensures UniqueLabels(DropIndexes(names)) && KindsIn(DropIndexes(names), {"dropIndex"})
  {
  }

  lemma EntriesUnique(fks: Assoc<string, ForeignKey>, uidxs: Assoc<string, seq<string>>)
    requires Distinct(fks) && Distinct(uidxs)
    ensures UniqueLabels(AddForeignKeys(fks)) && KindsIn(AddForeignKeys(fks), {"addForeignKey"})
    ensures UniqueLabels(CreateIndexes(uidxs)) && KindsIn(CreateIndexes(uidxs), {"createIndex"})
  {
  }

  /**
   * With each key once on both sides, every (method, key) pair is recorded at
   * most once: a missing column is added once, a surplus one dropped once,
   * and so on.
   */
  lemma DiffUnique(desired: Structure, folded: Structure, eq: LooseEq)
    requires Distinct(desired.columns) && Distinct(desired.fks) && Distinct(desired.uidxs)
    requires Distinct(folded.columns) && Distinct(folded.fks) && Distinct(folded.uidxs)
    ensures UniqueLabels(Diff(desired, folded, eq))
  {
    var cols := ColumnPass(desired.columns, folded.columns, eq);
    var dropCols := DropColumns(Excess(folded.columns, desired.columns));
    var addFks := AddForeignKeys(Missing(desired.fks, folded.fks));
    var dropFks := DropForeignKeys(Excess(folded.fks, desired.fks));
    var addIdx := CreateIndexes(Missing(desired.uidxs, folded.uidxs));
    var dropIdx := DropIndexes(Excess(folded.uidxs, desired.uidxs));
    ColumnPassUnique(desired.columns, folded.columns, eq);
    ExcessUnique(folded.columns, desired.columns);
    ExcessUnique(folded.fks, desired.fks);
    ExcessUnique(folded.uidxs, desired.uidxs);
    NamesUnique(Excess(folded.columns, desired.columns));
    NamesUnique(Excess(folded.fks, desired.fks));
    NamesUnique(Excess(folded.uidxs, desired.uidxs));
    MissingDistinct(desired.fks, folded.fks);
    MissingDistinct(desired.uidxs, folded.uidxs);
    EntriesUnique(Missing(desired.fks, folded.fks), Missing(desired.uidxs, folded.uidxs));
    var k1 := {"addColumn", "alterColumn"};
    UniqueConcat(cols, dropCols, k1, {"dropColumn"});
    var k2 := k1 + {"dropColumn"};
    UniqueConcat(cols + dropCols, addFks, k2, {"addForeignKey"});
    var k3 := k2 + {"addForeignKey"};
    UniqueConcat(cols + dropCols + addFks, dropFks, k3, {"dropForeignKey"});
    var k4 := k3 + {"dropForeignKey"};
    UniqueConcat(cols + dropCols + addFks + dropFks, addIdx, k4, {"createIndex"});
    var k5 := k4 + {"createIndex"};
    UniqueConcat(cols + dropCols + addFks + dropFks + addIdx, dropIdx, k5, {"dropIndex"});
  }

  lemma ExcessOfItself<V>(a: Assoc<string, V>)
    ensures Excess(a, a) == []
  {
    if |Excess(a, a)| > 0 {
      ExcessMembers(a, a, Excess(a, a)[0]);
      assert false;
    }
  }

  lemma MissingOfItself<V>(a: Assoc<string, V>)
    ensures Missing(a, a) == []
  {
    if |Missing(a, a)| > 0 {
      var e := Missing(a, a)[0];
      MissingMembers(a, a, e);
      EntryHasKey(a, e);
      assert false;
    }
  }

  /** A sound structure compared with itself records nothing. */
  lemma DiffOfItself(s: Structure, eq: LooseEq)
    requires Fold.Sound(s) && Reflexive(eq)
    ensures Diff(s, s, eq) == []
  {
    var cols := ColumnPass(s.columns, s.columns, eq);
    if |cols| > 0 {
      var m := cols[0];
      ColumnPassMembers(s.columns, s.columns, eq, m);
      EntryHasKey(s.columns, (m.column, m.props));
      EntryGet(s.columns, m.column, m.props);
      NoAlterAgainstItself(m.props, eq);
      assert false;
    }
    ExcessOfItself(s.columns);
    ExcessOfItself(s.fks);
    ExcessOfItself(s.uidxs);
    MissingOfItself(s.fks);
    MissingOfItself(s.uidxs);
  }

  /**
   * Foreign keys and unique indexes are compared by name only: one present
   * on both sides under the same name records nothing, whatever its
   * definition on either side.
   */
  lemma ComparedByName(desired: Structure, folded: Structure, eq: LooseEq, n: string)
    ensures HasKey(desired.fks, n) && HasKey(folded.fks, n) ==>
      forall m :: m in Diff(desired, folded, eq) && (m.AddForeignKey? || m.DropForeignKey?) ==> m.name != n
    ensures HasKey(desired.uidxs, n) && HasKey(folded.uidxs, n) ==>
      forall m :: m in Diff(desired, folded, eq) && (m.CreateIndex? || m.DropIndex?) ==> m.name != n
  {
    forall m | m in Diff(desired, folded, eq) && (m.AddForeignKey? || m.DropForeignKey? || m.CreateIndex? || m.DropIndex?)
      ensures m.AddForeignKey? ==> !HasKey(folded.fks, m.name)
      ensures m.DropForeignKey? ==> !HasKey(desired.fks, m.name)
      ensures m.CreateIndex? ==> !HasKey(folded.uidxs, m.name)
      ensures m.DropIndex? ==> !HasKey(desired.uidxs, m.name)
    {
      ColumnPassMembers(desired.columns, folded.columns, eq, m);
      if m.AddForeignKey? {
        MissingMembers(desired.fks, folded.fks, (m.name, m.fk));
      } else if m.DropForeignKey? {
        ExcessMembers(folded.fks, desired.fks, m.name);
      } else if m.CreateIndex? {
        MissingMembers(desired.uidxs, folded.uidxs, (m.name, m.indexColumns));
      } else {
        ExcessMembers(folded.uidxs, desired.uidxs, m.name);
      }
    }
  }

  /** The primary key takes no part in the comparison. */
  lemma PrimaryKeyIgnored(desired: Structure, folded: Structure, eq: LooseEq, pk: seq<string>, pk': seq<string>)
    ensures Diff(desired.(pk := pk), folded.(pk := pk'), eq) == Diff(desired, folded, eq)
  {
  }

  /** What `compareStructures` leaves behind: its result and the `_modifications` array. */
  datatype Comparison = Comparison(different: bool, modifications: Modifications)

  /**
   * `compareStructures()`: with nothing collected from history the table is
   * new and the result is "different" with nothing recorded; otherwise the
   * collected entries are folded and compared, and the result is "different"
   * exactly when some modification was recorded.
   */
  function CompareStructures(collected: seq<Ops.Op>, desired: Structure, eq: LooseEq): (r: Comparison)
    ensures |collected| == 0 ==> r.different && r.modifications == []
    ensures |collected| > 0 ==> (r.different <==> |PrepareUpdates(r.modifications)| > 0)
    ensures |collected| > 0 ==>
      multiset(Flatten(r.modifications)) == multiset(Diff(desired, Fold.FormatStructure(collected), eq))
  {
    if |collected| == 0 then Comparison(true, [])
    else
      var trace := Diff(desired, Fold.FormatStructure(collected), eq);
      RecordPermutation(trace);
      Comparison(|trace| > 0, Record(trace))
  }

  /**
   * The generated update list: the methods in the order `compareStructures`
   * first recorded them, and under each method its entries in recording order.
   */
  lemma CompareStructuresEmits(collected: seq<Ops.Op>, desired: Structure, eq: LooseEq)
    requires |collected| > 0
    ensures var trace := Diff(desired, Fold.FormatStructure(collected), eq);
      PrepareUpdates(CompareStructures(collected, desired, eq).modifications)
        == Labels(Gather(trace, FirstSeen(trace)))
  {
    PrepareUpdatesGrouped(Diff(desired, Fold.FormatStructure(collected), eq));
  }

  /**
   * The method groups follow first recording, not a fixed order: when the
   * first desired column exists with other properties and a later one is
   * missing, the alteration is emitted before the addition.
   */
  lemma AlterCanPrecedeAdd()
    ensures
      var created := [("type", Str("integer"))];
      var wanted := [("type", Str("bigint"))];
      var desired := Structure([("id", wanted), ("name", [("type", Str("string"))])], [], [], []);
      PrepareUpdates(CompareStructures([Ops.CreateTable([("id", created)])], desired, Identical).modifications)
        == [("alterColumn", "id"), ("addColumn", "name")]
  {
    var created := [("type", Str("integer"))];
    var wanted := [("type", Str("bigint"))];
    var desired := Structure([("id", wanted), ("name", [("type", Str("string"))])], [], [], []);
    var cols := [("id", created)];
    ExampleFold(cols);
    var trace := [AlterColumn("id", wanted), AddColumn("name", [("type", Str("string"))])];
    ExampleDiff();
    ExampleRecord(trace);
  }

  lemma ExampleFold(cols: Assoc<string, Props>)
    requires |cols| == 1
    ensures Fold.FormatStructure([Ops.CreateTable(cols)]) == Structure(cols, [], [], [])
  {
    var collected := [Ops.CreateTable(cols)];
    assert Seqs.Reverse(collected) == collected;
    assert Fold.FoldOps(EmptyStructure, collected) == Fold.FoldOps(Fold.Apply(EmptyStructure, collected[0]), []);
    assert Fold.PutColumns([], cols) == Fold.PutColumns(Put([], cols[0].0, cols[0].1), []);
    assert Put([], cols[0].0, cols[0].1) == cols;
  }

  lemma ExampleDiff()
    ensures
      var created := [("type", Str("integer"))];
      var wanted := [("type", Str("bigint"))];
      var desired := Structure([("id", wanted), ("name", [("type", Str("string"))])], [], [], []);
      Diff(desired, Structure([("id", created)], [], [], []), Identical)
        == [AlterColumn("id", wanted), AddColumn("name", [("type", Str("string"))])]
  {
    var created := [("type", Str("integer"))];
    var wanted := [("type", Str("bigint"))];
    var desired := Structure([("id", wanted), ("name", [("type", Str("string"))])], [], [], []);
    var cols := [("id", created)];
    var eq: LooseEq := Identical;
    assert HasKey(cols, "id") && !HasKey(cols, "name") && Get(cols, "id") == Some(created);
    assert PropDiffers(created, "type", Str("bigint"), eq);
    assert NeedsAlter(wanted, created, eq);
    var added := AddColumn("name", [("type", Str("string"))]);
    assert desired.columns[1..][1..] == [];
    assert ColumnPass(desired.columns[1..], cols, eq) == [added];
    assert ColumnPass(desired.columns, cols, eq) == [AlterColumn("id", wanted), added];
    assert Excess(cols, desired.columns) == [] by {
      assert HasKey(desired.columns, "id");
    }
  }

  lemma ExampleRecord(trace: seq<Mod>)
    requires |trace| == 2 && trace[0].Kind() != trace[1].Kind()
    ensures PrepareUpdates(Record(trace)) == [(trace[0].Kind(), trace[0].Key()), (trace[1].Kind(), trace[1].Key())]
  {
    PrepareUpdatesGrouped(trace);
    ExampleGather(trace);
  }

  lemma ExampleGather(trace: seq<Mod>)
    requires |trace| == 2 && trace[0].Kind() != trace[1].Kind()
    ensures Gather(trace, FirstSeen(trace)) == trace
  {
    var k0, k1 := trace[0].Kind(), trace[1].Kind();
    ExampleKinds(trace);
    GatherTwo(trace, k0, k1);
    JoinTwo(trace, Gather(trace, FirstSeen(trace)), OfKind(trace, k0), OfKind(trace, k1));
  }

  /** Two one-entry lists holding the two entries of `trace`, joined, are `trace`. */
  lemma JoinTwo(trace: seq<Mod>, g: seq<Mod>, x: seq<Mod>, y: seq<Mod>)
    requires |trace| == 2 && g == x + y && x == [trace[0]] && y == [trace[1]]
    ensures g == trace
  {
    assert g[0] == trace[0] && g[1] == trace[1];
  }

  lemma GatherTwo(trace: seq<Mod>, k0: string, k1: string)
    ensures Gather(trace, [k0, k1]) == OfKind(trace, k0) + OfKind(trace, k1)
  {
    var ks := [k0, k1];
    assert ks[1..] == [k1] && ks[1..][1..] == [];
    assert Gather(trace, [k1]) == OfKind(trace, k1) + [];
  }

  lemma ExampleKinds(trace: seq<Mod>)
    requires |trace| == 2 && trace[0].Kind() != trace[1].Kind()
    ensures FirstSeen(trace) == [trace[0].Kind(), trace[1].Kind()]
    ensures OfKind(trace, trace[0].Kind()) == [trace[0]]
    ensures OfKind(trace, trace[1].Kind()) == [trace[1]]
  {
    var k0, k1 := trace[0].Kind(), trace[1].Kind();
    var first := trace[..1];
    assert first[..0] == [] && trace[..|trace| - 1] == first;
    assert FirstSeen(first) == [k0];
    assert OfKind(first, k0) == [trace[0]] && OfKind(first, k1) == [];
  }
}
