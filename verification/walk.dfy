/**
 * The backward walk over migration history (`analyseChanges` and the loop of
 * `isUpdateRequired`). The walk follows one table, the subject, collecting the
 * entries recorded for it newest first until it meets the table's creation or
 * its drop. A rename redirects the walk to the table's other name.
 */
module Walk {
  import opened Wrappers
  import opened Seqs
  import opened Ops

  /** The updater's `_tableSubject` and `_oldSchema` fields. */
  datatype WalkState = WalkState(subject: string, collected: seq<Op>)

  /** What `analyseChanges` returns: whether older migrations should be read, and the new fields. */
  datatype Step = Step(more: bool, state: WalkState)

  /**
   * `after` is `before` with entries appended that the walk may collect: never
   * a drop or a rename, and a create only as the very last entry.
   */
  ghost predicate Collects(before: seq<Op>, after: seq<Op>) {
    && before <= after
    && (forall i :: |before| <= i < |after| ==> !after[i].DropTable? && !after[i].RenameTable?)
    && (forall i :: |before| <= i < |after| - 1 ==> !after[i].CreateTable?)
  }

  /** No create among the entries appended to `before`. */
  ghost predicate NoCreateAdded(before: seq<Op>, after: seq<Op>) {
    forall i :: |before| <= i < |after| ==> !after[i].CreateTable?
  }

  /**
   * `analyseChanges($changes)`. `visited` holds the subjects already scanned in
   * this migration: renames that lead back to one of them make the PHP
   * recursion run forever, which is the result None.
   */
  function AnalyseChanges(changes: ChangeMap, st: WalkState, visited: set<string>): (r: Option<Step>)
    ensures r.Some? ==> Collects(st.collected, r.value.state.collected)
    ensures r.Some? && r.value.more ==> NoCreateAdded(st.collected, r.value.state.collected)
    decreases changes.Keys - visited, 0, 0
  {
    if st.subject !in changes then Some(Step(true, st))
    else if st.subject in visited then None
    else Scan(changes, st, visited + {st.subject}, |changes[st.subject]|)
  }

  /** The `foreach` over the subject's entries reversed: entry `i - 1` is the next one looked at. */
  function Scan(changes: ChangeMap, st: WalkState, visited: set<string>, i: nat): (r: Option<Step>)
    requires st.subject in changes && st.subject in visited
    requires i <= |changes[st.subject]|
    ensures r.Some? ==> Collects(st.collected, r.value.state.collected)
    ensures r.Some? && r.value.more ==> NoCreateAdded(st.collected, r.value.state.collected)
    decreases changes.Keys - visited, 1, i
  {
    if i == 0 then Some(Step(true, st))
    else
      var op := changes[st.subject][i - 1];
      match op
      case DropTable => Some(Step(false, st))
      case RenameTable(other) => AnalyseChanges(changes, WalkState(other, st.collected), visited)
      case CreateTable(_) => Some(Step(false, st.(collected := st.collected + [op])))
      case _ => Scan(changes, st.(collected := st.collected + [op]), visited, i - 1)
  }

  /** The index of the newest drop, rename or create among the first `n` entries, or -1. */
  function LastBoundary(entries: seq<Op>, n: nat): (b: int)
    requires n <= |entries|
    ensures -1 <= b < n
    ensures b >= 0 ==> IsBoundary(entries[b])
    ensures forall j :: b < j < n ==> !IsBoundary(entries[j])
  {
    if n == 0 then -1
    else if IsBoundary(entries[n - 1]) then n - 1
    else LastBoundary(entries, n - 1)
  }

  /**
   * What scanning the first `i` entries does, stated through the newest
   * boundary entry: everything newer than it is collected newest first, then
   * a drop stops without being collected, a create is collected and stops, a
   * rename restarts under the new subject, and no boundary means "read older
   * migrations". Entries older than the boundary are never looked at.
   */
  ghost function ScanOutcome(changes: ChangeMap, st: WalkState, visited: set<string>, i: nat): Option<Step>
    requires st.subject in changes
    requires i <= |changes[st.subject]|
  {
    var entries := changes[st.subject];
    var b := LastBoundary(entries, i);
    var collected := st.collected + Reverse(entries[b + 1..i]);
    if b < 0 then Some(Step(true, st.(collected := collected)))
    else match entries[b]
      case DropTable => Some(Step(false, st.(collected := collected)))
      case CreateTable(_) => Some(Step(false, st.(collected := collected + [entries[b]])))
      case RenameTable(other) => AnalyseChanges(changes, WalkState(other, collected), visited)
      case _ => None
  }

  lemma {:induction false} ScanMatchesOutcome(changes: ChangeMap, st: WalkState, visited: set<string>, i: nat)
    requires st.subject in changes && st.subject in visited
    requires i <= |changes[st.subject]|
    ensures Scan(changes, st, visited, i) == ScanOutcome(changes, st, visited, i)
    decreases i
  {
    var entries := changes[st.subject];
    if i > 0 && !IsBoundary(entries[i - 1]) {
      var st' := st.(collected := st.collected + [entries[i - 1]]);
      ScanMatchesOutcome(changes, st', visited, i - 1);
      var b := LastBoundary(entries, i);
      assert b == LastBoundary(entries, i - 1);
      assert entries[b + 1..i] == entries[b + 1..i - 1] + [entries[i - 1]];
      ReverseConcat(entries[b + 1..i - 1], [entries[i - 1]]);
      assert Reverse(entries[b + 1..i]) == [entries[i - 1]] + Reverse(entries[b + 1..i - 1]);
      assert st.collected + Reverse(entries[b + 1..i])
          == st'.collected + Reverse(entries[b + 1..i - 1]);
      assert Scan(changes, st, visited, i) == Scan(changes, st', visited, i - 1);
    } else {
      ScanAtBoundary(changes, st, visited, i);
    }
  }

  /** With nothing or a boundary entry next, the scan does what that boundary says, collecting nothing before it. */
  lemma ScanAtBoundary(changes: ChangeMap, st: WalkState, visited: set<string>, i: nat)
    requires st.subject in changes && st.subject in visited
    requires i <= |changes[st.subject]|
    requires i == 0 || IsBoundary(changes[st.subject][i - 1])
    ensures Scan(changes, st, visited, i) == ScanOutcome(changes, st, visited, i)
  {
    BoundaryNext(changes[st.subject], st, i);
  }

  /** The boundary just before position `i` is the newest one, and no entry lies between it and `i`. */
  lemma BoundaryNext(entries: seq<Op>, st: WalkState, i: nat)
    requires i <= |entries|
    requires i == 0 || IsBoundary(entries[i - 1])
    ensures LastBoundary(entries, i) == i - 1
    ensures st.(collected := st.collected + Reverse(entries[i..i])) == st
  {
    assert entries[i..i] == [];
  }

  /**
   * `analyseChanges` as a whole: a missing subject reads older migrations with
   * nothing changed, a subject met twice loops, otherwise the subject's whole
   * list is scanned as `ScanOutcome` describes.
   */
  lemma AnalyseChangesOutcome(changes: ChangeMap, st: WalkState, visited: set<string>)
    ensures st.subject !in changes ==> AnalyseChanges(changes, st, visited) == Some(Step(true, st))
    ensures st.subject in changes && st.subject in visited ==> AnalyseChanges(changes, st, visited) == None
    ensures st.subject in changes && st.subject !in visited ==>
      AnalyseChanges(changes, st, visited)
        == ScanOutcome(changes, st, visited + {st.subject}, |changes[st.subject]|)
  {
    if st.subject in changes && st.subject !in visited {
      ScanMatchesOutcome(changes, st, visited + {st.subject}, |changes[st.subject]|);
    }
  }

  /**
   * The `foreach ($history ...)` loop of `isUpdateRequired`: migrations newest
   * first, stopping after the first one whose analysis says so. The result's
   * `more` is true when every migration was read without meeting a boundary.
   */
  function WalkHistory(migrations: seq<ChangeMap>, st: WalkState): (r: Option<Step>)
    ensures r.Some? ==> Collects(st.collected, r.value.state.collected)
    ensures r.Some? && r.value.more ==> NoCreateAdded(st.collected, r.value.state.collected)
    decreases |migrations|
  {
    if |migrations| == 0 then Some(Step(true, st))
    else
      match AnalyseChanges(migrations[0], st, {})
      case None => None
      case Some(step) =>
        if step.more then WalkHistory(migrations[1..], step.state) else Some(step)
  }

  /**
   * Walking newer migrations then older ones is walking the newer ones, and
   * reading the older ones only when the newer ones did not stop the walk.
   */
  lemma {:induction false} WalkHistoryConcat(newer: seq<ChangeMap>, older: seq<ChangeMap>, st: WalkState)
    ensures WalkHistory(newer + older, st) ==
      match WalkHistory(newer, st)
      case None => None
      case Some(step) => if step.more then WalkHistory(older, step.state) else Some(step)
    decreases |newer|
  {
    if |newer| > 0 {
      assert (newer + older)[0] == newer[0];
      assert (newer + older)[1..] == newer[1..] + older;
      match AnalyseChanges(newer[0], st, {})
      case None =>
      case Some(step) =>
        if step.more {
          WalkHistoryConcat(newer[1..], older, step.state);
        }
    } else {
      assert newer + older == older;
    }
  }
}
