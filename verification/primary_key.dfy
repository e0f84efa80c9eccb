/**
 * `checkPrimaryKeyString`: decides from a column's `append` fragment whether
 * the column is the primary key in the connection's dialect, and cleans the
 * dialect's primary-key keywords out of the fragment.
 */
module PrimaryKey {
  import opened Ascii

  /** The class of the connection's schema; every other class takes the default branch. */
  datatype Dialect = MsSql | Oci | PgSql | Sqlite | Cubrid | MySql | Other

  /** The three results: `null`, `true` and the cleaned string. */
  datatype PrimaryKeyCheck = NotPrimaryKey | PrimaryKeyOnly | PrimaryKeyWith(rest: string)

  /** `needle` occurs at the start of `s`, ignoring ASCII case. */
  predicate StartsWithCI(s: string, needle: string) {
    |needle| <= |s| && forall i :: 0 <= i < |needle| ==> Lower(s[i]) == Lower(needle[i])
  }

  /** `stripos($s, $needle) !== false`, searched position by position. */
  function ContainsCI(s: string, needle: string): (b: bool)
    ensures b <==> exists i :: 0 <= i <= |s| && StartsWithCI(s[i..], needle)
    decreases |s|
  {
    if StartsWithCI(s, needle) then
      assert s[0..] == s;
      true
    else if |s| == 0 then false
    else
      var b := ContainsCI(s[1..], needle);
      assert forall i :: 1 <= i <= |s| ==> s[i..] == s[1..][i - 1..];
      b
  }

  /** Upper-casing the haystack does not change what a case-insensitive search finds. */
  lemma ContainsUpper(s: string, needle: string)
    ensures ContainsCI(UpperString(s), needle) <==> ContainsCI(s, needle)
  {
    var u := UpperString(s);
    forall i | 0 <= i <= |s|
      ensures StartsWithCI(u[i..], needle) <==> StartsWithCI(s[i..], needle)
    {
      forall j | 0 <= j < |needle| && i + j < |s|
        ensures Lower(u[i..][j]) == Lower(s[i..][j])
      {
        LowerUpper(s[i + j]);
      }
    }
    assert forall i :: 0 <= i <= |s| ==> (StartsWithCI(u[i..], needle) <==> StartsWithCI(s[i..], needle));
  }

  predicate StartsWith(s: string, needle: string) {
    |needle| <= |s| && s[..|needle|] == needle
  }

  /** `needle` occurs in `s`, case-sensitively. */
  ghost predicate Occurs(s: string, needle: string) {
    exists i :: 0 <= i <= |s| && StartsWith(s[i..], needle)
  }

  /** Past a first character that starts no occurrence, the occurrences are those of the rest. */
  lemma OccursTail(s: string, needle: string)
    requires |s| > 0 && !StartsWith(s, needle)
    ensures Occurs(s, needle) <==> Occurs(s[1..], needle)
  {
    assert s[0..] == s;
    assert forall i :: 1 <= i <= |s| ==> s[i..] == s[1..][i - 1..];
    if Occurs(s[1..], needle) {
      var i :| 0 <= i <= |s[1..]| && StartsWith(s[1..][i..], needle);
      assert s[i + 1..] == s[1..][i..];
    }
  }

  lemma NoRoom(s: string, needle: string)
    requires |s| < |needle|
    ensures !Occurs(s, needle)
  {
  }

  /**
   * `str_replace($needle, '', $s)`: every occurrence found scanning left to
   * right, without overlap, removed. An empty needle replaces nothing.
   */
  function RemoveAll(s: string, needle: string): (r: string)
    ensures |r| <= |s|
    ensures forall c :: c in r ==> c in s
    ensures r == s <==> |needle| == 0 || !Occurs(s, needle)
    decreases |s|
  {
    if |needle| == 0 then s
    else if |s| < |needle| then
      NoRoom(s, needle);
      s
    else if StartsWith(s, needle) then
      assert s[0..] == s;
      RemoveAll(s[|needle|..], needle)
    else
      var rest := RemoveAll(s[1..], needle);
      OccursTail(s, needle);
      assert s == [s[0]] + s[1..];
      [s[0]] + rest
  }

  lemma RemoveAllCut(s: string, needle: string)
    requires |needle| > 0 && StartsWith(s, needle)
    ensures RemoveAll(s, needle) == RemoveAll(s[|needle|..], needle)
  {
  }

  lemma RemoveAllKeep(s: string, needle: string)
    requires |needle| > 0 && |needle| <= |s| && !StartsWith(s, needle)
    ensures RemoveAll(s, needle) == [s[0]] + RemoveAll(s[1..], needle)
  {
  }

  /** A text that is `a`'s first character before `z`, where `z` is the rest of `a` before `y`, is `a` before `y`. */
  lemma ConsConcat(a: string, x: string, y: string, z: string)
    requires |a| > 0 && x == [a[0]] + z && z == a[1..] + y
    ensures x == a + y
  {
    assert [a[0]] + a[1..] == a;
  }

  /**
   * `str_replace` works left to right: text before the first occurrence is
   * kept as it is, that occurrence is cut, and the pass goes on after it.
   * With the "no occurrence" case of `RemoveAll`'s contract this fixes the
   * result.
   */
  lemma {:induction false} RemoveAllFirst(a: string, needle: string, b: string)
    requires |needle| > 0
    requires forall i :: 0 <= i < |a| ==> !StartsWith((a + needle + b)[i..], needle)
    ensures RemoveAll(a + needle + b, needle) == a + RemoveAll(b, needle)
    decreases |a|
  {
    var s := a + needle + b;
    if |a| == 0 {
      assert s == needle + b && s[|needle|..] == b;
      RemoveAllCut(s, needle);
    } else {
      var a' := a[1..];
      assert s[1..] == a' + needle + b;
      forall i | 0 <= i < |a'|
        ensures !StartsWith((a' + needle + b)[i..], needle)
      {
        assert (a' + needle + b)[i..] == s[i + 1..];
      }
      assert s[0..] == s;
      RemoveAllKeep(s, needle);
      RemoveAllFirst(a', needle, b);
      ConsConcat(a, RemoveAll(s, needle), RemoveAll(b, needle), RemoveAll(a' + needle + b, needle));
    }
  }

  /** `str_replace($needles, '', $s)`: the needles removed one after the other, each from the previous result. */
  function RemoveEach(s: string, needles: seq<string>): (r: string)
    ensures |r| <= |s|
    ensures forall c :: c in r ==> c in s
    decreases |needles|
  {
    if |needles| == 0 then s else RemoveEach(RemoveAll(s, needles[0]), needles[1..])
  }

  /** Drops the whitespace at the start of `s`. */
  function TrimStart(s: string): (r: string)
    ensures |r| <= |s| && r == s[|s| - |r|..]
    ensures |r| > 0 ==> !IsSpace(r[0])
    ensures forall i :: 0 <= i < |s| - |r| ==> IsSpace(s[i])
    decreases |s|
  {
    if |s| > 0 && IsSpace(s[0]) then TrimStart(s[1..]) else s
  }

  /** A string `preg_replace('/\s+/', ' ', ...)` leaves as it is: its only whitespace is single spaces. */
  ghost predicate Collapsed(s: string) {
    && (forall i :: 0 <= i < |s| && IsSpace(s[i]) ==> s[i] == ' ')
    && (forall i :: 0 <= i < |s| - 1 ==> !(IsSpace(s[i]) && IsSpace(s[i + 1])))
  }

  /** The characters of `s` that are not whitespace, in order. */
  function Visible(s: string): (r: string)
    decreases |s|
  {
    if |s| == 0 then [] else (if IsSpace(s[0]) then [] else [s[0]]) + Visible(s[1..])
  }

  lemma {:induction false} VisibleTrim(s: string)
    ensures Visible(TrimStart(s)) == Visible(s)
    decreases |s|
  {
    if |s| > 0 && IsSpace(s[0]) {
      VisibleTrim(s[1..]);
    }
  }

  /** `preg_replace('/\s+/', ' ', $s)`: each run of whitespace becomes one space. */
  function CollapseSpaces(s: string): (r: string)
    ensures Collapsed(r)
    ensures |r| > 0 ==> |s| > 0 && (IsSpace(r[0]) <==> IsSpace(s[0]))
    ensures |r| == 0 ==> |s| == 0
    ensures forall c :: c in r ==> c == ' ' || c in s
    decreases |s|
  {
    if |s| == 0 then []
    else if IsSpace(s[0]) then
      var t := TrimStart(s[1..]);
      var r := [' '] + CollapseSpaces(t);
      assert forall c :: c in t ==> c in s;
      CollapsedCons(' ', CollapseSpaces(t));
      r
    else
      CollapsedCons(s[0], CollapseSpaces(s[1..]));
      [s[0]] + CollapseSpaces(s[1..])
  }

  /** A character put in front of a collapsed text keeps it collapsed unless it makes a second whitespace in a row. */
  lemma CollapsedCons(c: char, r: string)
    requires Collapsed(r)
    requires IsSpace(c) ==> c == ' ' && (|r| == 0 || !IsSpace(r[0]))
    ensures Collapsed([c] + r)
  {
    var x := [c] + r;
    forall i | 0 <= i < |x| - 1
      ensures !(IsSpace(x[i]) && IsSpace(x[i + 1]))
    {
      if i > 0 {
        assert x[i] == r[i - 1] && x[i + 1] == r[i];
      }
    }
  }

  /** The replacement keeps every visible character, in order. */
  lemma {:induction false} CollapseVisible(s: string)
    ensures Visible(CollapseSpaces(s)) == Visible(s)
    decreases |s|
  {
    if |s| > 0 {
      if IsSpace(s[0]) {
        var t := TrimStart(s[1..]);
        CollapseVisible(t);
        VisibleTrim(s[1..]);
        assert Visible([' '] + CollapseSpaces(t)) == Visible(CollapseSpaces(t));
      } else {
        CollapseVisible(s[1..]);
        assert Visible([s[0]] + CollapseSpaces(s[1..])) == [s[0]] + Visible(CollapseSpaces(s[1..]));
      }
    }
  }

  /** The replacement changes exactly the strings that are not already collapsed. */
  lemma {:induction false} CollapseFixpoint(s: string)
    ensures CollapseSpaces(s) == s <==> Collapsed(s)
    decreases |s|
  {
    if |s| > 0 {
      CollapseFixpoint(s[1..]);
      assert Collapsed(s) ==> Collapsed(s[1..]);
      if IsSpace(s[0]) && Collapsed(s) {
        assert s[0] == ' ';
        assert |s| > 1 ==> !IsSpace(s[1]);
        assert TrimStart(s[1..]) == s[1..];
      }
      if CollapseSpaces(s) == s && IsSpace(s[0]) {
        var t := TrimStart(s[1..]);
        assert |CollapseSpaces(t)| <= |t| by { CollapseShorter(t); }
        assert |t| == |s[1..]|;
        assert t == s[1..];
      }
    }
  }

  lemma {:induction false} CollapseShorter(s: string)
    ensures |CollapseSpaces(s)| <= |s|
    decreases |s|
  {
    if |s| > 0 {
      if IsSpace(s[0]) {
        CollapseShorter(TrimStart(s[1..]));
      } else {
        CollapseShorter(s[1..]);
      }
    }
  }

  /** Whitespace in front of a text that has a visible character is trimmed in front of the whole. */
  lemma {:induction false} TrimStartConcat(x: string, y: string)
    requires exists i :: 0 <= i < |x| && !IsSpace(x[i])
    ensures TrimStart(x + y) == TrimStart(x) + y
    decreases |x|
  {
    if IsSpace(x[0]) {
      var i :| 0 <= i < |x| && !IsSpace(x[i]);
      assert x[1..][i - 1] == x[i];
      assert (x + y)[1..] == x[1..] + y;
      TrimStartConcat(x[1..], y);
    }
  }

  /** A run of whitespace followed by a text not starting with whitespace trims to that text. */
  lemma {:induction false} TrimRun(w: string, b: string)
    requires forall i :: 0 <= i < |w| ==> IsSpace(w[i])
    requires |b| == 0 || !IsSpace(b[0])
    ensures TrimStart(w + b) == b
    decreases |w|
  {
    if |w| == 0 {
      assert w + b == b;
    } else {
      assert (w + b)[1..] == w[1..] + b;
      TrimRun(w[1..], b);
    }
  }

  /**
   * Each whole run of whitespace becomes exactly one space: for a run `w`
   * between a text not ending in whitespace and one not starting with it,
   * the result is the two sides' results joined by one space. With
   * `CollapseFixpoint` (text without whitespace is left as it is) this fixes
   * the result.
   */
  lemma {:induction false} CollapseRun(a: string, w: string, b: string)
    requires |w| > 0 && forall i :: 0 <= i < |w| ==> IsSpace(w[i])
    requires |a| == 0 || !IsSpace(a[|a| - 1])
    requires |b| == 0 || !IsSpace(b[0])
    ensures CollapseSpaces(a + w + b) == CollapseSpaces(a) + " " + CollapseSpaces(b)
    decreases |a|, 1
  {
    if |a| == 0 {
      var s := a + w + b;
      Shift(a, w, b);
      TrimRun(w[1..], b);
      JoinEmpty(CollapseSpaces(s), CollapseSpaces(a), CollapseSpaces(b));
    } else if IsSpace(a[0]) {
      CollapseRunSpace(a, w, b);
    } else {
      CollapseRunKeep(a, w, b);
    }
  }

  /** `CollapseRun` when `a` starts with whitespace: that run becomes the leading space. */
  lemma {:induction false} CollapseRunSpace(a: string, w: string, b: string)
    requires |w| > 0 && forall i :: 0 <= i < |w| ==> IsSpace(w[i])
    requires |a| > 0 && IsSpace(a[0]) && !IsSpace(a[|a| - 1])
    requires |b| == 0 || !IsSpace(b[0])
    ensures CollapseSpaces(a + w + b) == CollapseSpaces(a) + " " + CollapseSpaces(b)
    decreases |a|, 0
  {
    var s := a + w + b;
    var a' := TrimStart(a[1..]);
    TrimKeepsEnd(a[1..]);
    TrimStartConcat(a[1..], w + b);
    Shift(a, w, b);
    Regroup(a', w, b);
    CollapseRun(a', w, b);
    Join(" ", CollapseSpaces(s), CollapseSpaces(a' + w + b), CollapseSpaces(a'), CollapseSpaces(b), CollapseSpaces(a));
  }

  /** Trimming the start of a text that ends in a visible character keeps that end. */
  lemma TrimKeepsEnd(x: string)
    requires |x| > 0 && !IsSpace(x[|x| - 1])
    ensures exists i :: 0 <= i < |x| && !IsSpace(x[i])
    ensures |TrimStart(x)| > 0 && TrimStart(x)[|TrimStart(x)| - 1] == x[|x| - 1]
  {
    assert !IsSpace(x[|x| - 1]);
  }

  /** `CollapseRun` when `a` starts with a visible character: it is kept in front. */
  lemma {:induction false} CollapseRunKeep(a: string, w: string, b: string)
    requires |w| > 0 && forall i :: 0 <= i < |w| ==> IsSpace(w[i])
    requires |a| > 0 && !IsSpace(a[0]) && !IsSpace(a[|a| - 1])
    requires |b| == 0 || !IsSpace(b[0])
    ensures CollapseSpaces(a + w + b) == CollapseSpaces(a) + " " + CollapseSpaces(b)
    decreases |a|, 0
  {
    var s := a + w + b;
    var a' := a[1..];
    Shift(a, w, b);
    assert |a'| > 0 ==> a'[|a'| - 1] == a[|a| - 1];
    CollapseRun(a', w, b);
    Join([a[0]], CollapseSpaces(s), CollapseSpaces(a' + w + b), CollapseSpaces(a'), CollapseSpaces(b), CollapseSpaces(a));
  }

  /** Dropping the first character of `a + w + b` drops it from the first non-empty part. */
  lemma Shift(a: string, w: string, b: string)
    requires |a + w| > 0
    ensures |a| > 0 ==> (a + w + b)[1..] == a[1..] + (w + b) == a[1..] + w + b
    ensures |a| == 0 ==> (a + w + b)[1..] == w[1..] + b
    ensures (a + w + b)[0] == (if |a| > 0 then a[0] else w[0])
  {
  }

  lemma Regroup(x: string, w: string, b: string)
    ensures x + (w + b) == x + w + b
  {
  }

  /** Two texts that both put `c` before the first part of a join are equal once the join is taken apart. */
  lemma Join(c: string, x: string, z: string, p: string, q: string, ca: string)
    requires x == c + z && z == p + " " + q && ca == c + p
    ensures x == ca + " " + q
  {
  }

  lemma JoinEmpty(x: string, ca: string, q: string)
    requires ca == [] && x == " " + q
    ensures x == ca + " " + q
  {
  }

  /** Collapsing twice is collapsing once. */
  lemma CollapseIdempotent(s: string)
    ensures CollapseSpaces(CollapseSpaces(s)) == CollapseSpaces(s)
  {
    CollapseFixpoint(CollapseSpaces(s));
  }

  /** The keywords whose presence marks the primary key. */
  function Markers(d: Dialect): seq<string> {
    if d == MsSql then ["IDENTITY", "PRIMARY KEY"] else ["PRIMARY KEY"]
  }

  /** The keywords cut out of the upper-cased fragment, in the order they are cut. */
  function Removed(d: Dialect): seq<string> {
    match d
    case MsSql => ["PRIMARY KEY", "IDENTITY"]
    case Oci => ["PRIMARY KEY"]
    case PgSql => ["PRIMARY KEY"]
    case Sqlite => ["PRIMARY KEY", "AUTOINCREMENT"]
    case Cubrid => ["PRIMARY KEY", "AUTO_INCREMENT"]
    case MySql => ["PRIMARY KEY", "AUTO_INCREMENT"]
    case Other => ["PRIMARY KEY", "AUTO_INCREMENT"]
  }

  /** PHP's falsy strings. */
  predicate Falsy(s: string) {
    s == "" || s == "0"
  }

  /** The fragment upper-cased, the dialect's keywords cut, whitespace runs collapsed. */
  function Cleaned(d: Dialect, append: string): (c: string)
    ensures Collapsed(c) && NoLowerLetter(c)
    ensures Visible(c) == Visible(RemoveEach(UpperString(append), Removed(d)))
  {
    var upper := UpperString(append);
    var cleaned := CollapseSpaces(RemoveEach(upper, Removed(d)));
    CollapseVisible(RemoveEach(upper, Removed(d)));
    assert NoLowerLetter(cleaned) by {
      forall i | 0 <= i < |cleaned|
        ensures !IsLowerLetter(cleaned[i])
      {
        assert cleaned[i] in cleaned;
        if cleaned[i] != ' ' {
          assert cleaned[i] in upper;
        }
      }
    }
    cleaned
  }

  /**
   * `checkPrimaryKeyString()`: `null` when a marker is missing, `true` when
   * nothing but the keywords and whitespace was there, otherwise the cleaned
   * text.
   */
  function CheckPrimaryKeyString(d: Dialect, append: string): (r: PrimaryKeyCheck)
    ensures r.NotPrimaryKey? <==> exists m :: m in Markers(d) && !ContainsCI(append, m)
    ensures !r.NotPrimaryKey? ==> (r.PrimaryKeyOnly? <==> Falsy(Cleaned(d, append)))
    ensures r.PrimaryKeyWith? ==> r.rest == Cleaned(d, append)
    ensures r.PrimaryKeyWith? ==> !Falsy(r.rest) && Collapsed(r.rest) && NoLowerLetter(r.rest)
    ensures r.PrimaryKeyWith? ==> Visible(r.rest) == Visible(RemoveEach(UpperString(append), Removed(d)))
  {
    if exists m :: m in Markers(d) && !ContainsCI(append, m) then NotPrimaryKey
    else
      var cleaned := Cleaned(d, append);
      if Falsy(cleaned) then PrimaryKeyOnly else PrimaryKeyWith(cleaned)
  }

  /** The check ignores the case of the fragment: upper-casing it first changes nothing. */
  lemma CheckIgnoresCase(d: Dialect, append: string)
    ensures CheckPrimaryKeyString(d, UpperString(append)) == CheckPrimaryKeyString(d, append)
  {
    forall m | m in Markers(d)
      ensures ContainsCI(UpperString(append), m) == ContainsCI(append, m)
    {
      ContainsUpper(append, m);
    }
    assert UpperString(UpperString(append)) == UpperString(append);
  }
}
