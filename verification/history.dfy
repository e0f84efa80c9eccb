/**
 * `fetchHistory`: the rows of the migration table turned into the list of
 * applied migrations the walk reads, version to apply time.
 *
 * Two comparators are modelled. `CompareAsWritten` is the one in the source;
 * it orders apply times oldest first, although the method promises the
 * history newest first and the non-namespaced branch gets it newest first
 * from its SQL ordering. `CompareNewestFirst` is the evidently intended one,
 * and `FetchHistory` uses it.
 */
module History {
  import opened Wrappers
  import opened Assoc
  import opened Sorting
  import opened Ascii

  /** One row of the migration table. */
  datatype Row = Row(version: string, applyTime: int)

  /** A row of the namespaced branch, with the version reduced to its timestamp. */
  datatype HistoryRow = HistoryRow(version: string, applyTime: int, canonicalVersion: string)

  /** `MigrateController::BASE_MIGRATION`, the row every migration table starts with. */
  const BaseMigration: string := "m000000_000000_base"

  predicate IsDigit(c: char) {
    '0' <= c <= '9'
  }

  /** `n` digits start at `from`. */
  predicate DigitsAt(v: string, from: nat, n: nat) {
    from + n <= |v| && forall i :: from <= i < from + n ==> IsDigit(v[i])
  }

  /** `(\D.*)?$` with the `s` modifier: the match may end at `e` when the string ends there or a non-digit follows. */
  predicate EndsAt(v: string, e: nat) {
    e == |v| || (e < |v| && !IsDigit(v[e]))
  }

  /** `\d{6}_\d{6}` at `p`, then the end condition. */
  predicate UnderscoreFormAt(v: string, p: nat) {
    DigitsAt(v, p, 6) && p + 13 <= |v| && v[p + 6] == '_' && DigitsAt(v, p + 7, 6) && EndsAt(v, p + 13)
  }

  /** `\d{12}` at `p`, then the end condition. */
  predicate PlainFormAt(v: string, p: nat) {
    DigitsAt(v, p, 12) && EndsAt(v, p + 12)
  }

  /**
   * The capture group of `/m?(\d{6}_?\d{6})(\D.*)?$/is` can start at `p`. The
   * optional `m` before it only moves the start of the whole match, so the
   * leftmost match puts the group at the leftmost such `p`.
   */
  predicate GroupAt(v: string, p: nat) {
    UnderscoreFormAt(v, p) || PlainFormAt(v, p)
  }

  /** The group starts at `p` and at no earlier position: where the leftmost match puts it. */
  ghost predicate LeftmostGroup(v: string, p: nat) {
    GroupAt(v, p) && forall q: nat :: q < p ==> !GroupAt(v, q)
  }

  /** The group starting at `p` with its `_` removed. */
  function GroupDigits(v: string, p: nat): (d: string)
    requires GroupAt(v, p)
    ensures |d| == 12 && forall i :: 0 <= i < 12 ==> IsDigit(d[i])
  {
    if v[p + 6] == '_' then v[p..p + 6] + v[p + 7..p + 13] else v[p..p + 12]
  }

  /** The regex engine's scan: the first position from `p` on where the group matches. */
  function FindGroup(v: string, p: nat): (r: Option<nat>)
    ensures r.Some? ==> p <= r.value && GroupAt(v, r.value)
    ensures r.Some? ==> forall q :: p <= q < r.value ==> !GroupAt(v, q)
    ensures r.None? ==> forall q :: p <= q ==> !GroupAt(v, q)
    decreases |v| - p
  {
    if p + 12 > |v| then None
    else if GroupAt(v, p) then Some(p)
    else FindGroup(v, p + 1)
  }

  /**
   * `$row['canonicalVersion']`: the twelve timestamp digits of the leftmost
   * match, or the version itself when nothing matches.
   */
  function CanonicalVersion(v: string): (c: string)
    ensures (forall q :: !GroupAt(v, q)) ==> c == v
    ensures forall p :: LeftmostGroup(v, p) ==> c == GroupDigits(v, p)
    ensures c == v || (|c| == 12 && forall i :: 0 <= i < 12 ==> IsDigit(c[i]))
  {
    match FindGroup(v, 0)
    case Some(p) =>
      assert forall p' :: LeftmostGroup(v, p') ==> p' == p;
      GroupDigits(v, p)
    case None => v
  }

  /** The sign of `strcasecmp(a, b)`: lexicographic order of the lower-cased strings, a proper prefix first. */
  function CaseCmp(a: string, b: string): (r: int)
    ensures -1 <= r <= 1
    ensures r == 0 <==> |a| == |b| && forall i :: 0 <= i < |a| ==> Lower(a[i]) == Lower(b[i])
  {
    if |a| == 0 && |b| == 0 then 0
    else if |a| == 0 then -1
    else if |b| == 0 then 1
    else if Lower(a[0]) < Lower(b[0]) then -1
    else if Lower(a[0]) > Lower(b[0]) then 1
    else CaseCmp(a[1..], b[1..])
  }

  lemma {:induction false} CaseCmpFlip(a: string, b: string)
    ensures CaseCmp(a, b) == -CaseCmp(b, a)
    decreases |a|
  {
    if |a| > 0 && |b| > 0 && Lower(a[0]) == Lower(b[0]) {
      CaseCmpFlip(a[1..], b[1..]);
    }
  }

  lemma {:induction false} CaseCmpTransitive(a: string, b: string, c: string)
    requires CaseCmp(a, b) <= 0 && CaseCmp(b, c) <= 0
    ensures CaseCmp(a, c) <= 0
    decreases |a|
  {
    if |a| > 0 && |b| > 0 && |c| > 0 && Lower(a[0]) == Lower(b[0]) == Lower(c[0]) {
      CaseCmpTransitive(a[1..], b[1..], c[1..]);
    }
  }

  /** The tie-break of the comparator: canonical version, then version, both descending and case-insensitive. */
  function TieBreak(a: HistoryRow, b: HistoryRow): int {
    var c := CaseCmp(b.canonicalVersion, a.canonicalVersion);
    if c != 0 then c else CaseCmp(b.version, a.version)
  }

  /** The `usort` callback as written: a later apply time compares above. */
  function CompareAsWritten(a: HistoryRow, b: HistoryRow): (r: int)
    ensures a.applyTime > b.applyTime ==> r > 0
    ensures a.applyTime < b.applyTime ==> r < 0
    ensures a.applyTime != b.applyTime ==> r == -CompareNewestFirst(a, b)
    ensures a.applyTime == b.applyTime ==> r == CompareNewestFirst(a, b)
  {
    if a.applyTime == b.applyTime then TieBreak(a, b)
    else if a.applyTime > b.applyTime then 1 else -1
  }

  /** The evidently intended callback: a later apply time compares below, so the newest comes first. */
  function CompareNewestFirst(a: HistoryRow, b: HistoryRow): int {
    if a.applyTime == b.applyTime then TieBreak(a, b)
    else if a.applyTime > b.applyTime then -1 else 1
  }

  lemma TieBreakFlip(a: HistoryRow, b: HistoryRow)
    ensures TieBreak(a, b) == -TieBreak(b, a)
  {
    CaseCmpFlip(a.canonicalVersion, b.canonicalVersion);
    CaseCmpFlip(a.version, b.version);
  }

  lemma TieBreakTransitive(a: HistoryRow, b: HistoryRow, c: HistoryRow)
    requires TieBreak(a, b) <= 0 && TieBreak(b, c) <= 0
    ensures TieBreak(a, c) <= 0
  {
    CaseCmpFlip(a.canonicalVersion, b.canonicalVersion);
    CaseCmpFlip(b.canonicalVersion, c.canonicalVersion);
    CaseCmpFlip(a.canonicalVersion, c.canonicalVersion);
    CaseCmpTransitive(c.canonicalVersion, b.canonicalVersion, a.canonicalVersion);
    if CaseCmp(b.canonicalVersion, a.canonicalVersion) == 0 && CaseCmp(c.canonicalVersion, b.canonicalVersion) == 0 {
      CaseCmpTransitive(c.version, b.version, a.version);
    } else if CaseCmp(c.canonicalVersion, a.canonicalVersion) == 0 {
      CaseCmpTransitive(a.canonicalVersion, c.canonicalVersion, b.canonicalVersion);
      CaseCmpTransitive(b.canonicalVersion, a.canonicalVersion, c.canonicalVersion);
    }
  }

  /** Both callbacks are valid comparators, so `usort` yields a sorted permutation with either. */
  lemma ComparatorsValid()
    ensures ValidComparator(CompareAsWritten) && ValidComparator(CompareNewestFirst)
  {
    forall a, b
      ensures CompareAsWritten(a, b) < 0 <==> CompareAsWritten(b, a) > 0
      ensures CompareNewestFirst(a, b) < 0 <==> CompareNewestFirst(b, a) > 0
    {
      TieBreakFlip(a, b);
    }
    forall a: HistoryRow, b: HistoryRow, c: HistoryRow | TieBreak(a, b) <= 0 && TieBreak(b, c) <= 0
      ensures TieBreak(a, c) <= 0
    {
      TieBreakTransitive(a, b, c);
    }
  }

  /** The namespaced `foreach ($rows ...)`: drops the base migration and adds the canonical version. */
  function Annotate(rows: seq<Row>): (h: seq<HistoryRow>)
    ensures forall r :: r in h <==> (r.version != BaseMigration && Row(r.version, r.applyTime) in rows
                                     && r.canonicalVersion == CanonicalVersion(r.version))
    decreases |rows|
  {
    if |rows| == 0 then []
    else
      var row := rows[0];
      assert rows == [row] + rows[1..];
      (if row.version == BaseMigration then []
       else [HistoryRow(row.version, row.applyTime, CanonicalVersion(row.version))])
      + Annotate(rows[1..])
  }

  /** `ArrayHelper::map($rows, 'version', 'apply_time')`: a version met again keeps its first position and takes the later time. */
  function MapVersions(rows: seq<(string, int)>): (r: Assoc<string, int>)
    ensures Distinct(r)
    ensures forall k :: HasKey(r, k) <==> HasKey(rows, k)
    ensures forall i :: 0 <= i < |rows| && LastOf(rows, i) ==> Get(r, rows[i].0) == Some(rows[i].1)
    decreases |rows|
  {
    if |rows| == 0 then []
    else
      var prefix, last := rows[..|rows| - 1], rows[|rows| - 1];
      var r := Put(MapVersions(prefix), last.0, last.1);
      assert rows == prefix + [last];
      assert forall k :: HasKey(rows, k) <==> HasKey(prefix, k) || last.0 == k by {
        forall k
          ensures HasKey(rows, k) <==> HasKey(prefix, k) || last.0 == k
        {
          HasKeySnoc(prefix, last, k);
        }
      }
      assert forall k :: HasKey(r, k) <==> Get(r, k).Some?;
      assert forall i :: 0 <= i < |prefix| && LastOf(rows, i) ==> LastOf(prefix, i) && rows[i].0 != last.0 by {
        forall i | 0 <= i < |prefix| && LastOf(rows, i)
          ensures LastOf(prefix, i) && rows[i].0 != last.0
        {
          assert rows[|rows| - 1] == last;
          assert forall j :: i < j < |prefix| ==> prefix[j] == rows[j];
        }
      }
      r
  }

  /** Row `i` is the last row of its version. */
  ghost predicate LastOf(rows: seq<(string, int)>, i: nat) {
    i < |rows| && forall j :: i < j < |rows| ==> rows[j].0 != rows[i].0
  }

  function Pairs(h: seq<HistoryRow>): (ps: seq<(string, int)>)
    ensures |ps| == |h| && forall i :: 0 <= i < |h| ==> ps[i] == (h[i].version, h[i].applyTime)
  {
    seq(|h|, i requires 0 <= i < |h| => (h[i].version, h[i].applyTime))
  }

  function RowPairs(rows: seq<Row>): (ps: seq<(string, int)>)
    ensures |ps| == |rows| && forall i :: 0 <= i < |rows| ==> ps[i] == (rows[i].version, rows[i].applyTime)
  {
    seq(|rows|, i requires 0 <= i < |rows| => (rows[i].version, rows[i].applyTime))
  }

  /**
   * `fetchHistory()` with the callback `cmp`. `tableExists` is whether the
   * migration table exists; `namespaced` whether migration namespaces are
   * configured; `rows` the table's rows in the SQL order (apply time, then
   * version, both descending).
   */
  function FetchHistoryWith(tableExists: bool, namespaced: bool, rows: seq<Row>,
                            cmp: (HistoryRow, HistoryRow) -> int): (r: Assoc<string, int>)
    ensures !tableExists ==> r == []
    ensures Distinct(r) && !HasKey(r, BaseMigration)
    ensures forall k :: HasKey(r, k) ==> exists t :: Row(k, t) in rows
  {
    if !tableExists then []
    else if !namespaced then
      PlainKeys(rows);
      Remove(MapVersions(RowPairs(rows)), BaseMigration)
    else
      NamespacedKeys(rows, SortBy(Annotate(rows), cmp));
      MapVersions(Pairs(SortBy(Annotate(rows), cmp)))
  }

  /** Without namespaces every version kept is one of the rows', and the base migration is gone. */
  lemma PlainKeys(rows: seq<Row>)
    ensures var r := Remove(MapVersions(RowPairs(rows)), BaseMigration);
      && Distinct(r) && !HasKey(r, BaseMigration)
      && forall k :: HasKey(r, k) ==> exists t :: Row(k, t) in rows
  {
    var ps := RowPairs(rows);
    var r := Remove(MapVersions(ps), BaseMigration);
    assert Get(r, BaseMigration) == None;
    forall k | HasKey(r, k)
      ensures exists t :: Row(k, t) in rows
    {
      assert Get(r, k).Some?;
      var i := KeyIndex(ps, k);
      assert rows[i] == Row(k, ps[i].1);
    }
  }

  /** With namespaces every version kept is that of an annotated row: one of the rows', never the base migration. */
  lemma NamespacedKeys(rows: seq<Row>, h: seq<HistoryRow>)
    requires multiset(h) == multiset(Annotate(rows))
    ensures var r := MapVersions(Pairs(h));
      && Distinct(r) && !HasKey(r, BaseMigration)
      && forall k :: HasKey(r, k) ==> exists t :: Row(k, t) in rows
  {
    var ps := Pairs(h);
    forall k | HasKey(ps, k)
      ensures k != BaseMigration && exists t :: Row(k, t) in rows
    {
      var i := KeyIndex(ps, k);
      assert h[i] in multiset(h);
      assert h[i] in Annotate(rows);
    }
  }

  /** The source's `fetchHistory`. */
  function FetchHistoryAsWritten(tableExists: bool, namespaced: bool, rows: seq<Row>): (r: Assoc<string, int>)
    ensures !tableExists ==> r == []
    ensures Distinct(r) && !HasKey(r, BaseMigration)
    ensures forall k :: HasKey(r, k) ==> exists t :: Row(k, t) in rows
  {
    FetchHistoryWith(tableExists, namespaced, rows, CompareAsWritten)
  }

  /** `fetchHistory` with the intended callback: the model's history. */
  function FetchHistory(tableExists: bool, namespaced: bool, rows: seq<Row>): (r: Assoc<string, int>)
    ensures !tableExists ==> r == []
    ensures Distinct(r) && !HasKey(r, BaseMigration)
    ensures forall k :: HasKey(r, k) ==> exists t :: Row(k, t) in rows
  {
    FetchHistoryWith(tableExists, namespaced, rows, CompareNewestFirst)
  }

  /** `n` digits, nothing else. */
  predicate AllDigits(d: string, n: nat) {
    |d| == n && forall i :: 0 <= i < n ==> IsDigit(d[i])
  }

  /** What may follow the timestamp: nothing, or text starting with a non-digit. */
  predicate Trailer(rest: string) {
    |rest| == 0 || !IsDigit(rest[0])
  }

  /** An old-style name `m<date>_<time><rest>` reduces to its twelve timestamp digits. */
  lemma OldStyleVersion(date: string, time: string, rest: string)
    requires AllDigits(date, 6) && AllDigits(time, 6) && Trailer(rest)
    ensures CanonicalVersion("m" + date + "_" + time + rest) == date + time
  {
    var v := "m" + date + "_" + time + rest;
    assert forall i :: 0 <= i < 6 ==> v[1 + i] == date[i] && v[8 + i] == time[i];
    assert v[7] == '_' && (|rest| > 0 ==> v[14] == rest[0]);
    assert !GroupAt(v, 0);
    assert LeftmostGroup(v, 1);
    assert v[1..7] == date && v[8..14] == time;
  }

  /** A namespaced class name `M<timestamp><rest>` reduces to the same twelve digits. */
  lemma NamespacedVersion(stamp: string, rest: string)
    requires AllDigits(stamp, 12) && Trailer(rest)
    ensures CanonicalVersion("M" + stamp + rest) == stamp
  {
    var v := "M" + stamp + rest;
    assert forall i :: 0 <= i < 12 ==> v[1 + i] == stamp[i];
    assert |rest| > 0 ==> v[13] == rest[0];
    assert !GroupAt(v, 0);
    assert v[7] != '_';
    assert LeftmostGroup(v, 1);
    assert v[1..13] == stamp;
  }

  /** Hence a migration keeps its place in the order when it moves into a namespace. */
  lemma SameCanonicalVersion(date: string, time: string, rest: string, rest': string)
    requires AllDigits(date, 6) && AllDigits(time, 6) && Trailer(rest) && Trailer(rest')
    ensures CanonicalVersion("m" + date + "_" + time + rest) == CanonicalVersion("M" + date + time + rest')
  {
    OldStyleVersion(date, time, rest);
    NamespacedVersion(date + time, rest');
    assert "M" + (date + time) + rest' == "M" + date + time + rest';
  }

  /** A run of thirteen digits matches at its last twelve: the regex's leading `m?` does not anchor it. */
  lemma LongRunVersion(extra: char, stamp: string, rest: string)
    requires IsDigit(extra) && AllDigits(stamp, 12) && Trailer(rest)
    ensures CanonicalVersion("m" + [extra] + stamp + rest) == stamp
  {
    var v := "m" + [extra] + stamp + rest;
    assert v[1] == extra;
    assert forall i :: 0 <= i < 12 ==> v[2 + i] == stamp[i];
    assert |rest| > 0 ==> v[14] == rest[0];
    assert !GroupAt(v, 0);
    assert !GroupAt(v, 1) by { assert IsDigit(v[13]); }
    assert v[8] != '_';
    assert LeftmostGroup(v, 2);
    assert v[2..14] == stamp;
  }

  /** A version with no six digits in a row holds no timestamp, and is its own canonical version. */
  lemma PlainNameVersion(v: string)
    requires forall p: nat :: !DigitsAt(v, p, 6)
    ensures CanonicalVersion(v) == v
  {
    forall q: nat
      ensures !GroupAt(v, q)
    {
      assert !DigitsAt(v, q, 6);
    }
  }

  /** Versions are the primary key of the migration table. */
  ghost predicate DistinctVersions(rows: seq<Row>) {
    forall i, j :: 0 <= i < j < |rows| ==> rows[i].version != rows[j].version
  }

  ghost predicate DistinctFirsts(ps: seq<(string, int)>) {
    forall i, j :: 0 <= i < j < |ps| ==> ps[i].0 != ps[j].0
  }

  lemma PutNew(a: Assoc<string, int>, k: string, v: int)
    requires !HasKey(a, k)
    ensures Put(a, k, v) == a + [(k, v)]
    decreases |a|
  {
    if |a| > 0 {
      PutNew(a[1..], k, v);
      assert a == [a[0]] + a[1..];
    }
  }

  /** With no version repeated, `ArrayHelper::map` keeps every row, in order. */
  lemma {:induction false} MapVersionsDistinct(ps: seq<(string, int)>)
    requires DistinctFirsts(ps)
    ensures MapVersions(ps) == ps
    decreases |ps|
  {
    if |ps| > 0 {
      var prefix, last := ps[..|ps| - 1], ps[|ps| - 1];
      MapVersionsDistinct(prefix);
      if HasKey(prefix, last.0) {
        var i := KeyIndex(prefix, last.0);
        assert false;
      }
      PutNew(prefix, last.0, last.1);
      assert prefix + [last] == ps;
    }
  }

  lemma {:induction false} AnnotateDistinct(rows: seq<Row>)
    requires DistinctVersions(rows)
    ensures KeysDistinct(Annotate(rows), (r: HistoryRow) => r.version)
    decreases |rows|
  {
    if |rows| > 0 {
      var tail := Annotate(rows[1..]);
      AnnotateDistinct(rows[1..]);
      forall k | 0 <= k < |tail|
        ensures tail[k].version != rows[0].version
      {
        assert tail[k] in tail;
        var j :| 0 <= j < |rows[1..]| && rows[1..][j] == Row(tail[k].version, tail[k].applyTime);
        assert rows[j + 1].version == tail[k].version;
      }
    }
  }

  /**
   * The namespaced branch, rows with distinct versions: the history is the
   * rows other than the base migration, in the order the callback sorts them.
   */
  lemma SortedHistory(rows: seq<Row>, cmp: (HistoryRow, HistoryRow) -> int) returns (h: seq<HistoryRow>)
    requires DistinctVersions(rows) && ValidComparator(cmp)
    ensures Sorted(h, cmp)
    ensures forall r :: r in h <==> (r.version != BaseMigration && Row(r.version, r.applyTime) in rows
                                     && r.canonicalVersion == CanonicalVersion(r.version))
    ensures FetchHistoryWith(true, true, rows, cmp) == Pairs(h)
  {
    h := SortBy(Annotate(rows), cmp);
    SortSorted(Annotate(rows), cmp);
    AnnotateDistinct(rows);
    PermutationKeysDistinct(Annotate(rows), h, (r: HistoryRow) => r.version);
    forall r ensures r in h <==> r in Annotate(rows) {
      assert r in h <==> r in multiset(h);
    }
    MapVersionsDistinct(Pairs(h));
  }

  /**
   * The order the method promises: apply time descending, then canonical
   * version descending, then version descending, case-insensitively.
   */
  ghost predicate NewestFirst(r: Assoc<string, int>) {
    forall i, j :: 0 <= i < j < |r| ==>
      && r[i].1 >= r[j].1
      && (r[i].1 == r[j].1 ==> CaseCmp(CanonicalVersion(r[j].0), CanonicalVersion(r[i].0)) <= 0)
      && (r[i].1 == r[j].1 && CaseCmp(CanonicalVersion(r[j].0), CanonicalVersion(r[i].0)) == 0
          ==> CaseCmp(r[j].0, r[i].0) <= 0)
  }

  /** The history holds one entry per row other than the base migration. */
  lemma PairsMembers(rows: seq<Row>, h: seq<HistoryRow>)
    requires forall r :: r in h <==> (r.version != BaseMigration && Row(r.version, r.applyTime) in rows
                                      && r.canonicalVersion == CanonicalVersion(r.version))
    ensures forall v, t :: (v, t) in Pairs(h) <==> v != BaseMigration && Row(v, t) in rows
  {
    var r := Pairs(h);
    forall v, t ensures (v, t) in r <==> v != BaseMigration && Row(v, t) in rows {
      if (v, t) in r {
        var i :| 0 <= i < |r| && r[i] == (v, t);
        assert h[i] in h;
      }
      if v != BaseMigration && Row(v, t) in rows {
        var x := HistoryRow(v, t, CanonicalVersion(v));
        assert x in h;
        var i :| 0 <= i < |h| && h[i] == x;
        assert r[i] == (v, t);
      }
    }
  }

  lemma SortedNewestFirst(h: seq<HistoryRow>)
    requires Sorted(h, CompareNewestFirst)
    requires forall k :: 0 <= k < |h| ==> h[k].canonicalVersion == CanonicalVersion(h[k].version)
    ensures NewestFirst(Pairs(h))
  {
    var r := Pairs(h);
    forall i, j | 0 <= i < j < |r|
      ensures r[i].1 >= r[j].1
    {
      assert CompareNewestFirst(h[i], h[j]) <= 0;
    }
  }

  /**
   * The intended history, rows with distinct versions: every applied
   * migration but the base one, each once, in the promised order.
   */
  lemma FetchHistoryNewestFirst(rows: seq<Row>)
    requires DistinctVersions(rows)
    ensures var r := FetchHistory(true, true, rows);
      && (forall v, t :: (v, t) in r <==> v != BaseMigration && Row(v, t) in rows)
      && NewestFirst(r)
  {
    ComparatorsValid();
    var h := SortedHistory(rows, CompareNewestFirst);
    PairsMembers(rows, h);
    forall k | 0 <= k < |h| ensures h[k].canonicalVersion == CanonicalVersion(h[k].version) {
      assert h[k] in h;
    }
    SortedNewestFirst(h);
  }

  /**
   * The source's history, rows with distinct versions: the same entries as
   * the intended one, but apply times come out oldest first.
   */
  lemma FetchHistoryAsWrittenOldestFirst(rows: seq<Row>)
    requires DistinctVersions(rows)
    ensures var r := FetchHistoryAsWritten(true, true, rows);
      && (forall v, t :: (v, t) in r <==> v != BaseMigration && Row(v, t) in rows)
      && (forall i, j :: 0 <= i < j < |r| ==> r[i].1 <= r[j].1)
  {
    ComparatorsValid();
    var h := SortedHistory(rows, CompareAsWritten);
    PairsMembers(rows, h);
    var r := Pairs(h);
    forall i, j | 0 <= i < j < |r| ensures r[i].1 <= r[j].1 {
      assert CompareAsWritten(h[i], h[j]) <= 0;
    }
  }

  /**
   * Without namespaces the history is the rows in the order the query
   * returned them, the base migration removed.
   */
  lemma FetchHistoryPlain(rows: seq<Row>)
    requires DistinctVersions(rows)
    ensures FetchHistory(true, false, rows) == Remove(RowPairs(rows), BaseMigration)
    ensures FetchHistoryAsWritten(true, false, rows) == FetchHistory(true, false, rows)
  {
    MapVersionsDistinct(RowPairs(rows));
  }

  /**
   * A table created by `created` at time 100 and altered by `altered` at
   * time 200, listed newest first as the SQL query returns them: the source
   * puts the creating migration first, the intended order puts it last.
   */
  lemma AsWrittenExample(created: string, altered: string)
    requires created != altered && created != BaseMigration && altered != BaseMigration
    ensures var rows := [Row(altered, 200), Row(created, 100)];
      && Keys(FetchHistoryAsWritten(true, true, rows)) == [created, altered]
      && Keys(FetchHistory(true, true, rows)) == [altered, created]
  {
    var x := HistoryRow(altered, 200, CanonicalVersion(altered));
    var y := HistoryRow(created, 100, CanonicalVersion(created));
    AnnotateTwo(Row(altered, 200), Row(created, 100));
    SortTwo(x, y, CompareAsWritten);
    SortTwo(x, y, CompareNewestFirst);
    KeysOfTwo(y, x);
    KeysOfTwo(x, y);
  }

  lemma AnnotateTwo(a: Row, b: Row)
    requires a.version != BaseMigration && b.version != BaseMigration
    ensures Annotate([a, b]) == [HistoryRow(a.version, a.applyTime, CanonicalVersion(a.version)),
                                 HistoryRow(b.version, b.applyTime, CanonicalVersion(b.version))]
  {
    assert [a, b][1..] == [b];
    assert Annotate([b]) == [HistoryRow(b.version, b.applyTime, CanonicalVersion(b.version))];
  }

  lemma KeysOfTwo(a: HistoryRow, b: HistoryRow)
    requires a.version != b.version
    ensures Keys(MapVersions(Pairs([a, b]))) == [a.version, b.version]
  {
    MapVersionsDistinct(Pairs([a, b]));
  }

  lemma SortTwo<T>(x: T, y: T, cmp: (T, T) -> int)
    ensures SortBy([x, y], cmp) == if cmp(y, x) < 0 then [y, x] else [x, y]
  {
    assert [x, y][..1] == [x];
    assert SortBy([x], cmp) == [x];
  }
}
