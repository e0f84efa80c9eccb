/**
 * `$this->_modifications` and `prepareUpdates`: the modifications the diff
 * records, grouped under the name of the migration method that applies
 * them, and the (method, key) list the generator emits from the groups.
 */
module Modifications {
  import opened Wrappers
  import opened Assoc
  import opened Schema

  /** One recorded modification; the constructor is the method of the generated migration. */
  datatype Mod =
    | AddColumn(column: string, props: Props)
    | AlterColumn(column: string, props: Props)
    | DropColumn(column: string)
    | AddForeignKey(name: string, fk: ForeignKey)
    | DropForeignKey(name: string)
    | CreateIndex(name: string, indexColumns: seq<string>)
    | DropIndex(name: string)
  {
    /** The key of `_modifications` the entry is recorded under. */
    function Kind(): string {
      match this
      case AddColumn(_, _) => "addColumn"
      case AlterColumn(_, _) => "alterColumn"
      case DropColumn(_) => "dropColumn"
      case AddForeignKey(_, _) => "addForeignKey"
      case DropForeignKey(_) => "dropForeignKey"
      case CreateIndex(_, _) => "createIndex"
      case DropIndex(_) => "dropIndex"
    }

    /** The column, foreign key or index the entry names. */
    function Key(): string {
      match this
      case AddColumn(c, _) => c
      case AlterColumn(c, _) => c
      case DropColumn(c) => c
      case AddForeignKey(n, _) => n
      case DropForeignKey(n) => n
      case CreateIndex(n, _) => n
      case DropIndex(n) => n
    }
  }

  /** Method name to the entries recorded under it, methods in first-insertion order. */
  type Modifications = Assoc<string, seq<Mod>>

  /** The entries of `trace` whose method is `kind`, in order. */
  function OfKind(trace: seq<Mod>, kind: string): seq<Mod>
    decreases |trace|
  {
    if |trace| == 0 then []
    else
      var last := trace[|trace| - 1];
      OfKind(trace[..|trace| - 1], kind) + if last.Kind() == kind then [last] else []
  }

  /** The methods of `trace` in the order of their first entry. */
  function FirstSeen(trace: seq<Mod>): (ks: seq<string>)
    ensures forall k :: k in ks <==> |OfKind(trace, k)| > 0
    ensures forall i, j :: 0 <= i < j < |ks| ==> ks[i] != ks[j]
    decreases |trace|
  {
    if |trace| == 0 then []
    else
      var prev := FirstSeen(trace[..|trace| - 1]);
      var k := trace[|trace| - 1].Kind();
      if k in prev then prev else prev + [k]
  }

  /** Records the entries of `trace` one after the other, each appended under its method. */
  function Record(trace: seq<Mod>): (r: Modifications)
    ensures Distinct(r)
    decreases |trace|
  {
    if |trace| == 0 then []
    else
      var last := trace[|trace| - 1];
      Append(Record(trace[..|trace| - 1]), last.Kind(), last)
  }

  /** Every method holds exactly the entries of that method, in the order they were recorded. */
  lemma {:induction false} RecordGet(trace: seq<Mod>, kind: string)
    ensures Get(Record(trace), kind) == if |OfKind(trace, kind)| > 0 then Some(OfKind(trace, kind)) else None
    decreases |trace|
  {
    if |trace| > 0 {
      var prefix, last := trace[..|trace| - 1], trace[|trace| - 1];
      RecordGet(prefix, kind);
      assert Get(Record(prefix), kind).GetOr([]) == OfKind(prefix, kind);
      if last.Kind() == kind {
        assert OfKind(trace, kind) == OfKind(prefix, kind) + [last];
      } else {
        assert OfKind(trace, kind) == OfKind(prefix, kind) + [];
        assert OfKind(prefix, kind) + [] == OfKind(prefix, kind);
      }
    }
  }

  /** The methods are the keys of `_modifications` in the order they were first inserted. */
  lemma {:induction false} RecordKeys(trace: seq<Mod>)
    ensures Keys(Record(trace)) == FirstSeen(trace)
    decreases |trace|
  {
    if |trace| > 0 {
      var prefix := trace[..|trace| - 1];
      var last := trace[|trace| - 1];
      RecordKeys(prefix);
      RecordGet(prefix, last.Kind());
      PutKeys(Record(prefix), last.Kind(), Get(Record(prefix), last.Kind()).GetOr([]) + [last]);
    }
  }

  /** The entries of the methods `ks`, method by method. */
  function Gather(trace: seq<Mod>, ks: seq<string>): seq<Mod>
    decreases |ks|
  {
    if |ks| == 0 then [] else OfKind(trace, ks[0]) + Gather(trace, ks[1..])
  }

  /** An array of lists whose list under each key is that method's entries flattens to the entries gathered in key order. */
  lemma {:induction false} FlattenGathers(a: Modifications, trace: seq<Mod>)
    requires Distinct(a)
    requires forall k :: HasKey(a, k) ==> Get(a, k) == Some(OfKind(trace, k))
    ensures Flatten(a) == Gather(trace, Keys(a))
    decreases |a|
  {
    if |a| > 0 {
      GetEntry(a, 0);
      DistinctTail(a);
      forall k | HasKey(a[1..], k)
        ensures Get(a[1..], k) == Some(OfKind(trace, k))
      {
        assert Get(a, k) == Get(a[1..], k);
      }
      FlattenGathers(a[1..], trace);
      assert Keys(a)[1..] == Keys(a[1..]);
    }
  }

  /** The (method, key) pair of every entry, in order. */
  function Labels(entries: seq<Mod>): (r: seq<(string, string)>)
    ensures |r| == |entries|
    ensures forall i :: 0 <= i < |entries| ==> r[i] == (entries[i].Kind(), entries[i].Key())
  {
    seq(|entries|, i requires 0 <= i < |entries| => (entries[i].Kind(), entries[i].Key()))
  }

  /** `prepareUpdates()`, without the rendered argument strings: one (method, key) pair per recorded entry. */
  function PrepareUpdates(mods: Modifications): (r: seq<(string, string)>)
    ensures |r| == |Flatten(mods)|
    ensures forall e :: e in Flatten(mods) ==> (e.Kind(), e.Key()) in r
  {
    Labels(Flatten(mods))
  }

  /**
   * What is emitted for a recorded trace: the methods in the order of their
   * first entry, and under each method its entries in recording order.
   */
  lemma PrepareUpdatesGrouped(trace: seq<Mod>)
    ensures PrepareUpdates(Record(trace)) == Labels(Gather(trace, FirstSeen(trace)))
  {
    forall k | HasKey(Record(trace), k)
      ensures Get(Record(trace), k) == Some(OfKind(trace, k))
    {
      RecordGet(trace, k);
    }
    FlattenGathers(Record(trace), trace);
    RecordKeys(trace);
  }

  lemma {:induction false} GatherConcat(trace: seq<Mod>, ks: seq<string>, ks': seq<string>)
    ensures Gather(trace, ks + ks') == Gather(trace, ks) + Gather(trace, ks')
    decreases |ks|
  {
    if |ks| == 0 {
      assert ks + ks' == ks';
    } else {
      assert (ks + ks')[1..] == ks[1..] + ks';
      GatherConcat(trace, ks[1..], ks');
    }
  }

  /** Recording one more entry adds it to the one method of `ks` it belongs to, if any. */
  lemma {:induction false} GatherSnoc(trace: seq<Mod>, m: Mod, ks: seq<string>)
    requires forall i, j :: 0 <= i < j < |ks| ==> ks[i] != ks[j]
    ensures multiset(Gather(trace + [m], ks))
         == multiset(Gather(trace, ks)) + if m.Kind() in ks then multiset{m} else multiset{}
    decreases |ks|
  {
    if |ks| > 0 {
      assert (trace + [m])[..|trace + [m]| - 1] == trace;
      GatherSnoc(trace, m, ks[1..]);
      assert m.Kind() == ks[0] ==> m.Kind() !in ks[1..];
      assert m.Kind() in ks <==> m.Kind() == ks[0] || m.Kind() in ks[1..];
    }
  }

  /** Grouping loses and invents nothing: the emitted entries are a permutation of the recorded ones. */
  lemma {:induction false} GatherPermutation(trace: seq<Mod>)
    ensures multiset(Gather(trace, FirstSeen(trace))) == multiset(trace)
    decreases |trace|
  {
    if |trace| > 0 {
      var prefix := trace[..|trace| - 1];
      var m := trace[|trace| - 1];
      assert trace == prefix + [m];
      GatherPermutation(prefix);
      var ks := FirstSeen(prefix);
      GatherSnoc(prefix, m, ks);
      if m.Kind() !in ks {
        GatherConcat(trace, ks, [m.Kind()]);
        assert OfKind(prefix, m.Kind()) == [];
        assert Gather(trace, [m.Kind()]) == [m];
      }
    }
  }

  lemma RecordPermutation(trace: seq<Mod>)
    ensures multiset(Flatten(Record(trace))) == multiset(trace)
  {
    forall k | HasKey(Record(trace), k)
      ensures Get(Record(trace), k) == Some(OfKind(trace, k))
    {
      RecordGet(trace, k);
    }
    FlattenGathers(Record(trace), trace);
    RecordKeys(trace);
    GatherPermutation(trace);
  }
}
