/** The two table loaders, from the text a fetch returned (`None` when it failed) to a
    list of observations. `d3.csvParse` is the parameter `csv`; JavaScript's numeric
    coercion `+s`, restricted to finite results, is the parameter `num`. */
module Loaders {
  import opened Wrappers
  import opened Text
  import opened Records

  /** Why a long-format load throws. */
  datatype LoadError =
    | SourceMissing    // the fetch failed or returned an empty text
    | SchemaMismatch   // no code, year or value column could be resolved
    | NoRowsParsed     // every row was dropped

  // ================================================================ long format

  const CodeAliases: seq<string> := ["code", "country code"]
  const YearAliases: seq<string> := ["year"]
  const NameAliases: seq<string> := ["entity", "country", "country name"]
  const ValueCandidates: seq<string> := [
    "share of individuals using the internet",
    "share-of-individuals-using-the-internet",
    "internet users (share of population)",
    "individuals using the internet % of population",
    "value"
  ]

  /** The value candidates, normalised as the lookup does; none is empty. */
  function ValueAliases(): (r: seq<string>)
    ensures |r| == |ValueCandidates|
    ensures forall i :: 0 <= i < |r| ==> r[i] == Norm(ValueCandidates[i]) && r[i] != ""
  {
    CandidatesStartWithWord();
    forall i | 0 <= i < |ValueCandidates| ensures Norm(ValueCandidates[i]) != "" {
      NormKeepsWord(ValueCandidates[i]);
    }
    seq(|ValueCandidates|, i requires 0 <= i < |ValueCandidates| => Norm(ValueCandidates[i]))
  }

  lemma CandidatesStartWithWord()
    ensures forall i :: 0 <= i < |ValueCandidates| ==> ValueCandidates[i] != [] && IsWordChar(ValueCandidates[i][0])
  {
    assert ValueCandidates[0][0] == 's' && ValueCandidates[1][0] == 's' && ValueCandidates[2][0] == 'i'
        && ValueCandidates[3][0] == 'i' && ValueCandidates[4][0] == 'v';
  }

  /** A name starting with a letter or digit never normalises to the empty string. */
  lemma NormKeepsWord(s: string)
    requires s != [] && IsWordChar(s[0])
    ensures Norm(s) != ""
  {
    var r := RemoveChar(s, ZeroWidthSpace);
    assert r[0] == s[0];
    var c := CollapseSeparators(r);
    assert !IsSpace(c[0]);
    TrimEmpty(c);
  }

  /** The empty name normalises to the empty string. */
  lemma NormEmpty()
    ensures Norm("") == ""
  {
    TrimEmpty("");
  }

  /** `new Map(columns.map(c => [key(c), c]))`: one entry per key, holding a column that
      carries that key. The loader uses `Norm` as `key`. */
  function ColumnsBy(columns: seq<string>, key: string -> string): (m: map<string, string>)
    ensures forall i :: 0 <= i < |columns| ==> key(columns[i]) in m
    ensures forall k :: k in m ==> m[k] in columns && key(m[k]) == k
    decreases |columns|
  {
    if columns == [] then map[]
    else
      var init := columns[..|columns| - 1];
      var c := columns[|columns| - 1];
      assert columns == init + [c];
      ColumnsBy(init, key)[key(c) := c]
  }

  /** A later column replaces an earlier one with the same key, so the map holds the LAST
      column carrying each key. */
  lemma {:induction false} ColumnsByLast(columns: seq<string>, key: string -> string, i: nat)
    requires i < |columns|
    requires forall j :: i < j < |columns| ==> key(columns[j]) != key(columns[i])
    ensures ColumnsBy(columns, key)[key(columns[i])] == columns[i]
    decreases |columns|
  {
    var init := columns[..|columns| - 1];
    if i < |columns| - 1 {
      ColumnsByLast(init, key, i);
    }
  }

  /** When the empty name keys to the empty string, a non-empty key never maps to the
      empty column name. */
  lemma NonEmptyEntry(columns: seq<string>, key: string -> string, a: string)
    requires key("") == "" && a != ""
    ensures a in ColumnsBy(columns, key) ==> ColumnsBy(columns, key)[a] != ""
  {
  }

  /** `aliases.map(a => m.get(a)).find(Boolean)`, and the `m.get(a) || m.get(b)` chains:
      the column of the first alias that is present with a non-empty name. */
  function FirstPresent(m: map<string, string>, aliases: seq<string>): (r: Option<string>)
    ensures r.None? <==> forall i :: 0 <= i < |aliases| ==> aliases[i] !in m || m[aliases[i]] == ""
    ensures r.Some? ==> exists i :: && 0 <= i < |aliases| && aliases[i] in m && m[aliases[i]] == r.value
                                    && r.value != ""
                                    && forall j :: 0 <= j < i ==> aliases[j] !in m || m[aliases[j]] == ""
    decreases |aliases|
  {
    if aliases == [] then None
    else if aliases[0] in m && m[aliases[0]] != "" then Some(m[aliases[0]])
    else
      var r := FirstPresent(m, aliases[1..]);
      assert forall i :: 1 <= i < |aliases| ==> aliases[i] == aliases[1..][i - 1];
      r
  }

  /** Some column's key is one of `aliases`. */
  ghost predicate HasColumnFor(columns: seq<string>, key: string -> string, aliases: seq<string>) {
    exists i :: 0 <= i < |columns| && key(columns[i]) in aliases
  }

  /** Some column's key is `a`. */
  ghost predicate HasColumnNamed(columns: seq<string>, key: string -> string, a: string) {
    exists k :: 0 <= k < |columns| && key(columns[k]) == a
  }

  /** With non-empty aliases, a lookup through the keyed map succeeds exactly when some
      column's key is one of them. */
  lemma FirstPresentIff(columns: seq<string>, key: string -> string, aliases: seq<string>)
    requires key("") == ""
    requires forall i :: 0 <= i < |aliases| ==> aliases[i] != ""
    ensures FirstPresent(ColumnsBy(columns, key), aliases).Some? <==> HasColumnFor(columns, key, aliases)
  {
    var m := ColumnsBy(columns, key);
    if FirstPresent(m, aliases).Some? {
      var i :| 0 <= i < |aliases| && aliases[i] in m && m[aliases[i]] != "";
      var k :| 0 <= k < |columns| && columns[k] == m[aliases[i]];
    }
    if HasColumnFor(columns, key, aliases) {
      var k :| 0 <= k < |columns| && key(columns[k]) in aliases;
      var i :| 0 <= i < |aliases| && aliases[i] == key(columns[k]);
      assert m[aliases[i]] != "";
    }
  }

  /** An alias the lookup skips is one no column carries. */
  lemma NoColumnForSkipped(columns: seq<string>, key: string -> string, a: string)
    requires key("") == "" && a != ""
    requires a !in ColumnsBy(columns, key) || ColumnsBy(columns, key)[a] == ""
    ensures !HasColumnNamed(columns, key, a)
  {
    var m := ColumnsBy(columns, key);
    forall k | 0 <= k < |columns| ensures key(columns[k]) != a {
      assert key(columns[k]) in m;
    }
  }

  /** No column's key is any of the first `i` aliases. */
  ghost predicate NoneBefore(columns: seq<string>, key: string -> string, aliases: seq<string>, i: int)
    requires i <= |aliases|
  {
    forall j :: 0 <= j < i ==> !HasColumnNamed(columns, key, aliases[j])
  }

  /** The column found is that of the earliest alias some column carries. */
  lemma FirstPresentEarliest(columns: seq<string>, key: string -> string, aliases: seq<string>)
    requires key("") == ""
    requires forall i :: 0 <= i < |aliases| ==> aliases[i] != ""
    requires FirstPresent(ColumnsBy(columns, key), aliases).Some?
    ensures exists i :: && 0 <= i < |aliases| && key(FirstPresent(ColumnsBy(columns, key), aliases).value) == aliases[i]
                        && NoneBefore(columns, key, aliases, i)
  {
    var m := ColumnsBy(columns, key);
    var v := FirstPresent(m, aliases).value;
    var i :| && 0 <= i < |aliases| && aliases[i] in m && m[aliases[i]] == v
             && forall j :: 0 <= j < i ==> aliases[j] !in m || m[aliases[j]] == "";
    forall j | 0 <= j < i ensures !HasColumnNamed(columns, key, aliases[j]) {
      var a := aliases[j];
      assert a != "" && (a !in m || m[a] == "");
      NoColumnForSkipped(columns, key, a);
    }
    assert key(v) == aliases[i];
  }

  /** The physical columns the long loader reads. */
  datatype LongColumns = LongColumns(code: string, year: string, value: string, name: Option<string>)

  /** Resolve the code, year and value columns (and the optional name column) through the
      normalised names; each one found is a real column carrying one of its aliases. */
  function ResolveLongColumns(columns: seq<string>): (r: Result<LongColumns, LoadError>)
    ensures r.Failure? ==> r.error == SchemaMismatch
    ensures r.Success? ==>
              && r.value.code in columns && Norm(r.value.code) in CodeAliases
              && r.value.year in columns && Norm(r.value.year) in YearAliases
              && r.value.value in columns && Norm(r.value.value) in ValueAliases()
              && (r.value.name.Some? ==> r.value.name.value in columns && Norm(r.value.name.value) in NameAliases)
  {
    var m := ColumnsBy(columns, Norm);
    var code := FirstPresent(m, CodeAliases);
    var year := FirstPresent(m, YearAliases);
    var value := FirstPresent(m, ValueAliases());
    if code.Some? && year.Some? && value.Some? then
      Success(LongColumns(code.value, year.value, value.value, FirstPresent(m, NameAliases)))
    else Failure(SchemaMismatch)
  }

  /** Every alias list the loader uses is free of empty names. */
  lemma AliasesNonEmpty()
    ensures forall i :: 0 <= i < |CodeAliases| ==> CodeAliases[i] != ""
    ensures forall i :: 0 <= i < |YearAliases| ==> YearAliases[i] != ""
    ensures forall i :: 0 <= i < |NameAliases| ==> NameAliases[i] != ""
  {
  }

  /** The schema resolves exactly when a code, a year and a value column are all present. */
  lemma ResolveLongColumnsIff(columns: seq<string>)
    ensures ResolveLongColumns(columns).Success?
            <==> HasColumnFor(columns, Norm, CodeAliases) && HasColumnFor(columns, Norm, YearAliases)
                 && HasColumnFor(columns, Norm, ValueAliases())
  {
    var m := ColumnsBy(columns, Norm);
    assert ResolveLongColumns(columns).Success?
           <==> FirstPresent(m, CodeAliases).Some? && FirstPresent(m, YearAliases).Some?
                && FirstPresent(m, ValueAliases()).Some?;
    NormEmpty();
    AliasesNonEmpty();
    FirstPresentIff(columns, Norm, CodeAliases);
    FirstPresentIff(columns, Norm, YearAliases);
    FirstPresentIff(columns, Norm, ValueAliases());
  }

  /** The value column is that of the earliest candidate some column normalises to. */
  lemma ResolveValuePreference(columns: seq<string>)
    requires ResolveLongColumns(columns).Success?
    ensures exists i :: && 0 <= i < |ValueCandidates|
                        && Norm(ResolveLongColumns(columns).value.value) == ValueAliases()[i]
                        && NoneBefore(columns, Norm, ValueAliases(), i)
  {
    NormEmpty();
    FirstPresentEarliest(columns, Norm, ValueAliases());
  }

  /** A code as the loader emits it: non-empty, trimmed, no lower-case ASCII letter. */
  predicate IsCleanCode(c: string) {
    && c != []
    && !IsSpace(c[0]) && !IsSpace(c[|c| - 1])
    && forall i :: 0 <= i < |c| ==> !('a' <= c[i] <= 'z')
  }

  /** `(cell || "").trim().toUpperCase()`. */
  function CleanCode(cell: string): (r: string)
    ensures |r| <= |cell|
  {
    ToUpper(Trim(cell))
  }

  /** A cleaned code is empty exactly when the cell is all white space, and a clean code
      otherwise. */
  lemma CleanCodeSpec(cell: string)
    ensures CleanCode(cell) != [] ==> IsCleanCode(CleanCode(cell))
    ensures CleanCode(cell) == [] <==> forall i :: 0 <= i < |cell| ==> IsSpace(cell[i])
  {
    TrimEmpty(cell);
    TrimSpec(cell);
    UpperOfTrimmed(cell, Trim(cell), |cell| - |TrimStart(cell)|);
  }

  lemma UpperOfTrimmed(cell: string, t: string, i: nat)
    requires TrimmedAt(cell, t, i)
    ensures ToUpper(t) != [] ==> IsCleanCode(ToUpper(t))
  {
    var u := ToUpper(t);
    ToUpperSpec(t);
    if u != [] {
      UpperKeepsSpace(t[0]);
      UpperKeepsSpace(t[|t| - 1]);
      assert u[0] == UpperChar(t[0]) && u[|u| - 1] == UpperChar(t[|t| - 1]);
    }
  }

  /** `String(cell).replace(/%/g, "").trim()`: the text of a value cell handed to `+`. */
  function PercentStripped(cell: string): (r: string)
    ensures '%' !in r
  {
    var x := RemoveChar(cell, '%');
    RemoveCharSpec(cell, '%');
    TrimKeepsOut(x, '%');
    Trim(x)
  }

  /** One table row coerced to an observation, or `None` when it is dropped. */
  function LongRow(rec: map<string, string>, cols: LongColumns, num: string -> Option<real>): (r: Option<Obs>)
    ensures r.Some? ==> r.value.code == CleanCode(Cell(rec, cols.code)) && r.value.code != [] && r.value.value.Some?
  {
    var code := CleanCode(Cell(rec, cols.code));
    var year := num(Cell(rec, cols.year));
    var value := num(PercentStripped(Cell(rec, cols.value)));
    if code != "" && year.Some? && value.Some? then
      Some(Obs(code, year.value, value, if cols.name.Some? then Some(Cell(rec, cols.name.value)) else None))
    else None
  }

  /** A row is kept exactly when its code cell is not blank and its year and value cells
      are finite numbers; the kept row carries those numbers and the row's name cell. */
  lemma LongRowKept(rec: map<string, string>, cols: LongColumns, num: string -> Option<real>)
    ensures var r := LongRow(rec, cols, num);
            && (r.Some? <==> && (exists i :: 0 <= i < |Cell(rec, cols.code)| && !IsSpace(Cell(rec, cols.code)[i]))
                             && num(Cell(rec, cols.year)).Some?
                             && num(PercentStripped(Cell(rec, cols.value))).Some?)
            && (r.Some? ==> && r.value.code == CleanCode(Cell(rec, cols.code))
                            && Some(r.value.year) == num(Cell(rec, cols.year))
                            && r.value.value == num(PercentStripped(Cell(rec, cols.value)))
                            && r.value.country == if cols.name.Some? then Some(Cell(rec, cols.name.value)) else None)
  {
    CleanCodeSpec(Cell(rec, cols.code));
  }

  /** The rows that survive coercion, in table order; each has a clean code and a value. */
  function LongRows(recs: seq<map<string, string>>, cols: LongColumns, num: string -> Option<real>): (r: seq<Obs>)
    ensures |r| <= |recs|
    ensures forall o :: o in r ==> IsCleanCode(o.code) && o.value.Some?
  {
    var f := rec => LongRow(rec, cols, num);
    FilterMapMembers(recs, f);
    forall o | o in FilterMap(recs, f) ensures IsCleanCode(o.code) && o.value.Some? {
      var i :| 0 <= i < |recs| && f(recs[i]) == Some(o);
      CleanCodeSpec(Cell(recs[i], cols.code));
    }
    FilterMap(recs, f)
  }

  /** No row survives exactly when every row is dropped. */
  lemma LongRowsEmpty(recs: seq<map<string, string>>, cols: LongColumns, num: string -> Option<real>)
    ensures LongRows(recs, cols, num) == [] <==> forall i :: 0 <= i < |recs| ==> LongRow(recs[i], cols, num).None?
  {
    FilterMapEmpty(recs, rec => LongRow(rec, cols, num));
  }

  /** A row survives exactly when `LongRow` keeps some table row as it. */
  lemma LongRowsMembers(recs: seq<map<string, string>>, cols: LongColumns, num: string -> Option<real>)
    ensures forall o :: o in LongRows(recs, cols, num) <==> exists i :: 0 <= i < |recs| && LongRow(recs[i], cols, num) == Some(o)
  {
    FilterMapMembers(recs, rec => LongRow(rec, cols, num));
  }

  /** The rows survive in table order: one more table row appends its kept row, if any. */
  lemma LongRowsSnoc(recs: seq<map<string, string>>, rec: map<string, string>, cols: LongColumns, num: string -> Option<real>)
    ensures var o := LongRow(rec, cols, num);
            LongRows(recs + [rec], cols, num) == LongRows(recs, cols, num) + (if o.Some? then [o.value] else [])
  {
    FilterMapSnoc(recs, rec, rec => LongRow(rec, cols, num));
  }

  predicate InUnitInterval(o: Obs) {
    o.value.Some? && 0.0 < o.value.value <= 1.0
  }

  /** The number of rows whose value lies in (0, 1]. */
  function CountFractions(s: seq<Obs>): (n: nat)
    ensures n <= |s|
    ensures n == |s| <==> forall i :: 0 <= i < |s| ==> InUnitInterval(s[i])
    decreases |s|
  {
    if s == [] then 0
    else
      var init := s[..|s| - 1];
      assert forall i :: 0 <= i < |init| ==> init[i] == s[i];
      CountFractions(init) + (if InUnitInterval(s[|s| - 1]) then 1 else 0)
  }

  /** `sample.length`: the first 400 rows at most. */
  function SampleSize(rows: seq<Obs>): nat {
    if |rows| < 400 then |rows| else 400
  }

  /** `fracShare > 0.6`; false when there is no row, as `0 / 0` is NaN. */
  predicate LooksFractional(rows: seq<Obs>) {
    var n := SampleSize(rows);
    n > 0 && (CountFractions(rows[..n]) as real) / (n as real) > 0.6
  }

  lemma RatioAbove(c: real, n: real)
    requires n > 0.0
    ensures c / n > 0.6 <==> 5.0 * c > 3.0 * n
  {
    var q := c / n;
    assert q * n == c;
    assert q > 0.6 <==> (q - 0.6) * n > 0.0;
  }

  /** The share test is exact: strictly more than three in five sampled rows. */
  lemma LooksFractionalExact(rows: seq<Obs>)
    ensures LooksFractional(rows) <==> 5 * CountFractions(rows[..SampleSize(rows)]) > 3 * SampleSize(rows)
  {
    var n := SampleSize(rows);
    if n > 0 {
      RatioAbove(CountFractions(rows[..n]) as real, n as real);
    }
  }

  function Scale(o: Obs): Obs {
    o.(value := if o.value.Some? then Some(o.value.value * 100.0) else None)
  }

  /** Every value times 100 when the sample looks fraction-encoded, all rows untouched
      otherwise; codes, years, names, count and order are kept. */
  function Harmonise(rows: seq<Obs>): (r: seq<Obs>)
    ensures |r| == |rows|
    ensures forall i :: 0 <= i < |rows| ==>
              r[i].code == rows[i].code && r[i].year == rows[i].year && r[i].country == rows[i].country
    ensures forall i :: 0 <= i < |rows| ==>
              r[i].value == if LooksFractional(rows) && rows[i].value.Some?
                            then Some(rows[i].value.value * 100.0) else rows[i].value
  {
    if LooksFractional(rows) then seq(|rows|, i requires 0 <= i < |rows| => Scale(rows[i])) else rows
  }

  /** The decision looks at the first 400 rows only. */
  lemma HarmoniseDecisionSampled(rows: seq<Obs>, more: seq<Obs>)
    requires |rows| >= 400
    ensures LooksFractional(rows + more) == LooksFractional(rows)
  {
    assert (rows + more)[..400] == rows[..400];
  }

  /** A table whose sampled values all lie in (0, 1] is read as fractions and ends up
      within (0, 100]. */
  lemma HarmoniseFractionsToPercent(rows: seq<Obs>)
    requires rows != []
    requires forall i :: 0 <= i < |rows| ==> InUnitInterval(rows[i])
    ensures forall i :: 0 <= i < |rows| ==>
              var v := Harmonise(rows)[i].value; v.Some? && 0.0 < v.value <= 100.0
  {
    var n := SampleSize(rows);
    var sample := rows[..n];
    assert forall i :: 0 <= i < |sample| ==> InUnitInterval(sample[i]);
    assert CountFractions(sample) == n;
    LooksFractionalExact(rows);
  }

  /** The whole long-format load, from the fetched text. */
  function LoadLong(txt: Option<string>, csv: string -> Table, num: string -> Option<real>): (res: Result<seq<Obs>, LoadError>)
    ensures res == Failure(SourceMissing) <==> txt.None? || txt.value == ""
    ensures res.Success? ==> && |res.value| > 0
                             && forall i :: 0 <= i < |res.value| ==> IsCleanCode(res.value[i].code) && res.value[i].value.Some?
  {
    if txt.None? || txt.value == "" then Failure(SourceMissing)
    else
      var table := csv(StripBomCrlf(txt.value));
      match ResolveLongColumns(table.columns)
      case Failure(e) => Failure(e)
      case Success(cols) =>
        var rows := LongRows(table.rows, cols, num);
        if rows == [] then Failure(NoRowsParsed) else Success(Harmonise(rows))
  }

  /** `loadInternetUsersLong` after the fetch: `txt` is the fetched text. */
  method LoadInternetUsersLong(txt: Option<string>, csv: string -> Table, num: string -> Option<real>)
    returns (res: Result<seq<Obs>, LoadError>)
    ensures res == LoadLong(txt, csv, num)
  {
    if txt.None? || txt.value == "" {
      return Failure(SourceMissing);
    }
    var table := csv(StripBomCrlf(txt.value));
    var resolved := ResolveLongColumns(table.columns);
    if resolved.Failure? {
      return Failure(SchemaMismatch);
    }
    var rows := CoerceRows(table.rows, resolved.value, num);
    if |rows| == 0 {
      return Failure(NoRowsParsed);
    }
    res := Success(Harmonise(rows));
  }

  /** The row loop of the long loader. */
  method CoerceRows(recs: seq<map<string, string>>, cols: LongColumns, num: string -> Option<real>)
    returns (rows: seq<Obs>)
    ensures rows == LongRows(recs, cols, num)
  {
    ghost var f := rec => LongRow(rec, cols, num);
    rows := [];
    for i := 0 to |recs|
      invariant rows == FilterMap(recs[..i], f)
    {
      var row := LongRow(recs[i], cols, num);
      assert recs[..i + 1] == recs[..i] + [recs[i]];
      FilterMapSnoc(recs[..i], recs[i], f);
      if row.Some? {
        rows := rows + [row.value];
      }
    }
    assert recs[..|recs|] == recs;
  }

  /** The load succeeds exactly when the columns resolve and some row survives. */
  lemma LoadLongSucceeds(txt: string, csv: string -> Table, num: string -> Option<real>)
    requires txt != ""
    ensures var table := csv(StripBomCrlf(txt));
            var cols := ResolveLongColumns(table.columns);
            LoadLong(Some(txt), csv, num).Success? <==> cols.Success? && LongRows(table.rows, cols.value, num) != []
  {
  }

  /** A successful load returns the surviving rows, in table order, with their codes,
      years and names, and every value times 100 exactly when the sample looks
      fraction-encoded. */
  lemma LoadLongRows(txt: string, csv: string -> Table, num: string -> Option<real>, cols: LongColumns)
    requires txt != ""
    requires ResolveLongColumns(csv(StripBomCrlf(txt)).columns) == Success(cols)
    ensures var rows := LongRows(csv(StripBomCrlf(txt)).rows, cols, num);
            var res := LoadLong(Some(txt), csv, num);
            res.Success? ==>
              && |res.value| == |rows|
              && forall i :: 0 <= i < |rows| ==>
                   && res.value[i].code == rows[i].code
                   && res.value[i].year == rows[i].year
                   && res.value[i].country == rows[i].country
                   && rows[i].value.Some?
                   && res.value[i].value == Some(if LooksFractional(rows) then rows[i].value.value * 100.0
                                                 else rows[i].value.value)
  {
    var rows := LongRows(csv(StripBomCrlf(txt)).rows, cols, num);
    if LoadLong(Some(txt), csv, num).Success? {
      LoadLongValue(txt, csv, num);
      HarmonisedRows(LoadLong(Some(txt), csv, num).value, rows);
    }
  }

  /** A successful load is the harmonised surviving rows of a resolved table. */
  lemma LoadLongValue(txt: string, csv: string -> Table, num: string -> Option<real>)
    requires txt != "" && LoadLong(Some(txt), csv, num).Success?
    ensures var cols := ResolveLongColumns(csv(StripBomCrlf(txt)).columns);
            && cols.Success?
            && LoadLong(Some(txt), csv, num).value == Harmonise(LongRows(csv(StripBomCrlf(txt)).rows, cols.value, num))
  {
  }

  /** `Harmonise` on rows that all carry a value. */
  lemma HarmonisedRows(res: seq<Obs>, rows: seq<Obs>)
    requires res == Harmonise(rows)
    requires forall o :: o in rows ==> o.value.Some?
    ensures |res| == |rows|
    ensures forall i :: 0 <= i < |rows| ==>
              && res[i].code == rows[i].code
              && res[i].year == rows[i].year
              && res[i].country == rows[i].country
              && rows[i].value.Some?
              && res[i].value == Some(if LooksFractional(rows) then rows[i].value.value * 100.0
                                      else rows[i].value.value)
  {
    assert forall i :: 0 <= i < |rows| ==> rows[i] in rows;
  }

  /** The load fails with a schema mismatch exactly when a code, year or value column is
      missing, and with no rows exactly when every row is dropped. */
  lemma LoadLongErrors(txt: string, csv: string -> Table, num: string -> Option<real>)
    requires txt != ""
    ensures var table := csv(StripBomCrlf(txt));
            LoadLong(Some(txt), csv, num) == Failure(SchemaMismatch)
            <==> !(HasColumnFor(table.columns, Norm, CodeAliases) && HasColumnFor(table.columns, Norm, YearAliases)
                   && HasColumnFor(table.columns, Norm, ValueAliases()))
    ensures var table := csv(StripBomCrlf(txt));
            var r := ResolveLongColumns(table.columns);
            r.Success? ==>
              (LoadLong(Some(txt), csv, num) == Failure(NoRowsParsed)
               <==> forall i :: 0 <= i < |table.rows| ==> LongRow(table.rows[i], r.value, num).None?)
  {
    var table := csv(StripBomCrlf(txt));
    ResolveLongColumnsIff(table.columns);
    var r := ResolveLongColumns(table.columns);
    if r.Success? {
      LongRowsEmpty(table.rows, r.value, num);
    }
  }

  // ================================================================ wide format

  /** `/^"?Country Name"?,/`. */
  predicate IsHeaderLine(l: string) {
    var rest := if l != [] && l[0] == '"' then l[1..] else l;
    && |rest| >= 13 && rest[..12] == "Country Name"
    && (rest[12] == ',' || (rest[12] == '"' && |rest| >= 14 && rest[13] == ','))
  }

  /** The index of the first header line among lines `from` to 19, or 0 when there is none. */
  function HeaderIndex(lines: seq<string>, from: nat): (r: nat)
    ensures r == 0 || (from <= r < |lines| && r < 20 && IsHeaderLine(lines[r]))
    decreases |lines| - from
  {
    if from >= |lines| || from >= 20 then 0
    else if IsHeaderLine(lines[from]) then from
    else HeaderIndex(lines, from + 1)
  }

  /** A header line within the first 20 lines is found, and none comes before it. */
  lemma {:induction false} HeaderIndexFirst(lines: seq<string>, from: nat, i: nat)
    requires from <= i < |lines| && i < 20 && IsHeaderLine(lines[i])
    ensures HeaderIndex(lines, from) <= i && IsHeaderLine(lines[HeaderIndex(lines, from)])
    ensures forall j :: from <= j < HeaderIndex(lines, from) ==> !IsHeaderLine(lines[j])
    decreases i - from
  {
    if !IsHeaderLine(lines[from]) {
      HeaderIndexFirst(lines, from + 1, i);
    }
  }

  /** The header search: the first header line within the first 20 lines, else line 0. */
  method FindHeaderIndex(lines: seq<string>) returns (idx: nat)
    ensures idx == HeaderIndex(lines, 0)
  {
    idx := 0;
    var n := if |lines| < 20 then |lines| else 20;
    var i := 0;
    while i < n
      invariant 0 <= i <= n
      invariant HeaderIndex(lines, 0) == HeaderIndex(lines, i)
    {
      if IsHeaderLine(lines[i]) {
        idx := i;
        break;
      }
      i := i + 1;
    }
  }

  function DigitValue(c: char): nat
    requires IsDigit(c)
  {
    c as int - '0' as int
  }

  function DigitChar(d: nat): (c: char)
    requires d < 10
    ensures IsDigit(c) && DigitValue(c) == d
  {
    ('0' as int + d) as char
  }

  predicate AllDigits(d: string) {
    forall i :: 0 <= i < |d| ==> IsDigit(d[i])
  }

  /** The number four decimal digits stand for. */
  function FourDigitValue(d: string): (y: nat)
    requires |d| == 4 && AllDigits(d)
    ensures y <= 9999
  {
    DigitValue(d[0]) * 1000 + DigitValue(d[1]) * 100 + DigitValue(d[2]) * 10 + DigitValue(d[3])
  }

  /** A year written with four digits, leading zeros included. */
  function FourDigits(y: nat): (d: string)
    requires y <= 9999
    ensures |d| == 4 && AllDigits(d)
  {
    var r1 := y % 1000;
    var r2 := r1 % 100;
    [DigitChar(y / 1000), DigitChar(r1 / 100), DigitChar(r2 / 10), DigitChar(r2 % 10)]
  }

  lemma FourDigitsValue(y: nat)
    requires y <= 9999
    ensures FourDigitValue(FourDigits(y)) == y
  {
    var r1 := y % 1000;
    var r2 := r1 % 100;
    assert y == 1000 * (y / 1000) + r1;
    assert r1 == 100 * (r1 / 100) + r2;
    assert r2 == 10 * (r2 / 10) + r2 % 10;
  }

  lemma DigitCharValue(c: char)
    requires IsDigit(c)
    ensures DigitChar(DigitValue(c)) == c
  {
  }

  lemma ValueFourDigits(d: string)
    requires |d| == 4 && AllDigits(d)
    ensures FourDigits(FourDigitValue(d)) == d
  {
    var a, b, c, e := DigitValue(d[0]), DigitValue(d[1]), DigitValue(d[2]), DigitValue(d[3]);
    var y := FourDigitValue(d);
    assert y / 1000 == a;
    assert y % 1000 == 100 * b + 10 * c + e;
    assert (y % 1000) / 100 == b;
    assert (y % 1000) % 100 == 10 * c + e;
    assert ((y % 1000) % 100) / 10 == c;
    assert ((y % 1000) % 100) % 10 == e;
    DigitCharValue(d[0]);
    DigitCharValue(d[1]);
    DigitCharValue(d[2]);
    DigitCharValue(d[3]);
  }

  /** `/^(\d{4})(?:\s*\[YR\1\])?$/` on a column name: the captured year, if it matches. */
  function YearColumn(k: string): Option<nat> {
    if |k| >= 4 && AllDigits(k[..4]) then
      var d := k[..4];
      if |k| == 4 || TrimStart(k[4..]) == "[YR" + d + "]" then Some(FourDigitValue(d)) else None
    else None
  }

  /** Every year from 0 to 9999 is recognised as a bare column name. */
  lemma YearColumnBare(y: nat)
    requires y <= 9999
    ensures YearColumn(FourDigits(y)) == Some(y)
  {
    var d := FourDigits(y);
    assert d[..4] == d;
    FourDigitsValue(y);
  }

  /** Every year from 0 to 9999 is recognised in the `YYYY [YRYYYY]` spelling. */
  lemma YearColumnTagged(y: nat)
    requires y <= 9999
    ensures YearColumn(FourDigits(y) + " [YR" + FourDigits(y) + "]") == Some(y)
  {
    var d := FourDigits(y);
    var tag := "[YR" + d + "]";
    var k := d + " " + tag;
    assert d + " [YR" + d + "]" == k;
    assert k[..4] == d;
    assert k[4..] == [' '] + tag;
    assert TrimStart(k[4..]) == TrimStart(tag);
    assert tag[0] == '[';
    FourDigitsValue(y);
  }

  /** A recognised column starts with the four digits of its year, and after them there is
      nothing or, past optional white space, the same digits inside `[YR…]`. */
  lemma YearColumnSound(k: string)
    requires YearColumn(k).Some?
    ensures YearColumn(k).value <= 9999
    ensures |k| >= 4 && k[..4] == FourDigits(YearColumn(k).value)
    ensures |k| == 4 || TrimStart(k[4..]) == "[YR" + k[..4] + "]"
  {
    ValueFourDigits(k[..4]);
  }

  /** `c.trim().toLowerCase()`: the key a wide-format column is looked up by. */
  function ColumnKey(c: string): string {
    ToLower(Trim(c))
  }

  /** The position of the first occurrence of `x` in `s`. */
  function IndexOf(s: seq<string>, x: string): (r: Option<nat>)
    ensures r.None? <==> x !in s
    ensures r.Some? ==> r.value < |s| && s[r.value] == x && x !in s[..r.value]
    decreases |s|
  {
    if s == [] then None
    else if s[0] == x then Some(0)
    else
      var r := IndexOf(s[1..], x);
      if r.None? then None
      else
        assert s[..r.value + 1] == [s[0]] + s[1..][..r.value];
        Some(r.value + 1)
  }

  /** The lookup key of every column, in column order. */
  function ColumnKeys(columns: seq<string>): (r: seq<string>)
    ensures |r| == |columns| && forall i :: 0 <= i < |columns| ==> r[i] == ColumnKey(columns[i])
  {
    seq(|columns|, i requires 0 <= i < |columns| => ColumnKey(columns[i]))
  }

  /** `table.columns.find(c => c.trim().toLowerCase() === name)`: the first column whose
      key is `name`, `None` when no column has it. */
  function FindColumn(columns: seq<string>, name: string): (r: Option<string>)
    ensures r.None? <==> name !in ColumnKeys(columns)
    ensures r.Some? ==> exists i :: && 0 <= i < |columns| && columns[i] == r.value
                                    && ColumnKeys(columns)[i] == name && name !in ColumnKeys(columns)[..i]
  {
    var i := IndexOf(ColumnKeys(columns), name);
    if i.None? then None else Some(columns[i.value])
  }

  /** A whole-number year between 0 and 9999. */
  predicate IsFourDigitYear(year: real) {
    year == year.Floor as real && 0 <= year.Floor <= 9999
  }

  /** One cell of a wide row: an observation when the column is a year column and the
      cell is a non-empty finite number. */
  function CellObs(row: map<string, string>, k: string, code: string, country: Option<string>,
                   num: string -> Option<real>): (r: Option<Obs>)
    ensures r.Some? <==> YearColumn(k).Some? && Cell(row, k) != "" && num(Cell(row, k)).Some?
    ensures r.Some? ==> && r.value.year == YearColumn(k).value as real && IsFourDigitYear(r.value.year)
                        && r.value.value == num(Cell(row, k))
                        && r.value.code == code && r.value.country == country
  {
    match YearColumn(k)
    case None => None
    case Some(y) =>
      YearColumnSound(k);
      var cell := Cell(row, k);
      var v := if cell == "" then None else num(cell);
      if v.Some? then Some(Obs(code, y as real, v, country)) else None
  }

  /** The observations of one row, column by column. */
  function RowObs(row: map<string, string>, keys: seq<string>, code: string, country: Option<string>,
                  num: string -> Option<real>): (r: seq<Obs>)
    ensures forall o :: o in r ==> o.value.Some? && IsFourDigitYear(o.year) && o.code == code && o.country == country
  {
    var f := k => CellObs(row, k, code, country, num);
    FilterMapMembers(keys, f);
    FilterMap(keys, f)
  }

  /** The observations of a row are exactly those its year cells yield. */
  lemma RowObsMembers(row: map<string, string>, columns: seq<string>, code: string, country: Option<string>,
                      num: string -> Option<real>, o: Obs)
    ensures o in RowObs(row, Distinct(columns), code, country, num)
            <==> exists k :: k in columns && CellObs(row, k, code, country, num) == Some(o)
  {
    var keys := Distinct(columns);
    var f := k => CellObs(row, k, code, country, num);
    FilterMapMembers(keys, f);
    if o in RowObs(row, keys, code, country, num) {
      var j :| 0 <= j < |keys| && f(keys[j]) == Some(o);
      assert keys[j] in columns;
    }
    if exists k :: k in columns && CellObs(row, k, code, country, num) == Some(o) {
      var k :| k in columns && CellObs(row, k, code, country, num) == Some(o);
      var j :| 0 <= j < |keys| && keys[j] == k;
      assert f(keys[j]) == Some(o);
    }
  }

  /** The code a wide row carries: its country-code cell, cleaned (blank when the table
      has no such column). */
  function RowCode(row: map<string, string>, codeCol: Option<string>): string {
    CleanCode(if codeCol.Some? then Cell(row, codeCol.value) else "")
  }

  /** The display name a wide row carries, when the table has a country-name column. */
  function RowCountry(row: map<string, string>, nameCol: Option<string>): Option<string> {
    if nameCol.Some? then Some(Cell(row, nameCol.value)) else None
  }

  /** The observations row `row` contributes. */
  function ObsOfRow(row: map<string, string>, keys: seq<string>, codeCol: Option<string>,
                    nameCol: Option<string>, num: string -> Option<real>): seq<Obs> {
    RowObs(row, keys, RowCode(row, codeCol), RowCountry(row, nameCol), num)
  }

  /** The observations of the rows, row by row, each row's columns in order. */
  function WideObs(rows: seq<map<string, string>>, keys: seq<string>, codeCol: Option<string>,
                   nameCol: Option<string>, num: string -> Option<real>): (r: seq<Obs>)
    ensures forall o :: o in r ==> o.value.Some? && IsFourDigitYear(o.year)
  {
    var f := row => ObsOfRow(row, keys, codeCol, nameCol, num);
    FlatMapMembers(rows, f);
    FlatMap(rows, f)
  }

  /** An observation is read exactly when some row contributes it. */
  lemma WideObsMembers(rows: seq<map<string, string>>, keys: seq<string>, codeCol: Option<string>,
                       nameCol: Option<string>, num: string -> Option<real>, o: Obs)
    ensures o in WideObs(rows, keys, codeCol, nameCol, num)
            <==> exists i :: 0 <= i < |rows| && o in ObsOfRow(rows[i], keys, codeCol, nameCol, num)
  {
    FlatMapMembers(rows, row => ObsOfRow(row, keys, codeCol, nameCol, num));
  }

  /** The header line and what follows it, delimiters rewritten, joined again. */
  function WideText(lines: seq<string>, idx: nat): string
    requires idx <= |lines|
  {
    JoinLines(ReplaceEach(lines[idx..]))
  }

  /** Every row contributes nothing exactly when nothing is read, and an observation is read
      exactly when some row contributes it. */
  lemma WideObsAll(rows: seq<map<string, string>>, keys: seq<string>, codeCol: Option<string>,
                   nameCol: Option<string>, num: string -> Option<real>)
    ensures WideObs(rows, keys, codeCol, nameCol, num) == []
            <==> forall i :: 0 <= i < |rows| ==> ObsOfRow(rows[i], keys, codeCol, nameCol, num) == []
    ensures forall o :: (o in WideObs(rows, keys, codeCol, nameCol, num)
                         <==> exists i :: 0 <= i < |rows| && o in ObsOfRow(rows[i], keys, codeCol, nameCol, num))
  {
    var f := row => ObsOfRow(row, keys, codeCol, nameCol, num);
    FlatMapEmpty(rows, f);
    FlatMapMembers(rows, f);
  }

  /** The table the wide loader parses out of a fetched text: from the header line on,
      delimiters rewritten. */
  function WideTable(t: string, csv: string -> Table): Table {
    var lines := SplitLines(StripBomCrlf(t));
    csv(WideText(lines, HeaderIndex(lines, 0)))
  }

  /** The whole wide-format load, from the fetched text; `None` when the text is missing
      or no row of its table yields an observation, and otherwise exactly the observations
      its rows yield. */
  function LoadWide(txt: Option<string>, csv: string -> Table, num: string -> Option<real>): (res: Option<seq<Obs>>)
    ensures txt.None? || txt.value == "" ==> res.None?
    ensures res.Some? ==> |res.value| > 0 && forall o :: o in res.value ==> o.value.Some? && IsFourDigitYear(o.year)
    ensures txt.Some? && txt.value != "" ==>
              var table := WideTable(txt.value, csv);
              var keys := Distinct(table.columns);
              var codeCol := FindColumn(table.columns, "country code");
              var nameCol := FindColumn(table.columns, "country name");
              && (res.None? <==> forall i :: 0 <= i < |table.rows| ==> ObsOfRow(table.rows[i], keys, codeCol, nameCol, num) == [])
              && (res.Some? ==> forall o :: (o in res.value
                                   <==> exists i :: 0 <= i < |table.rows| && o in ObsOfRow(table.rows[i], keys, codeCol, nameCol, num)))
  {
    if txt.None? || txt.value == "" then None
    else
      var table := WideTable(txt.value, csv);
      var keys := Distinct(table.columns);
      var codeCol := FindColumn(table.columns, "country code");
      var nameCol := FindColumn(table.columns, "country name");
      WideObsAll(table.rows, keys, codeCol, nameCol, num);
      var out := WideObs(table.rows, keys, codeCol, nameCol, num);
      if out == [] then None else Some(out)
  }

  /** `loadWBIndicatorCSV` after the fetch: `txt` is the fetched text. */
  method LoadWBIndicatorCSV(txt: Option<string>, csv: string -> Table, num: string -> Option<real>)
    returns (res: Option<seq<Obs>>)
    ensures res == LoadWide(txt, csv, num)
  {
    if txt.None? || txt.value == "" {
      return None;
    }
    var lines := SplitLines(StripBomCrlf(txt.value));
    var headerIdx := FindHeaderIndex(lines);
    var table := csv(WideText(lines, headerIdx));
    var codeCol := FindColumn(table.columns, "country code");
    var nameCol := FindColumn(table.columns, "country name");
    var out := ReadRows(table.rows, Distinct(table.columns), codeCol, nameCol, num);
    res := if out == [] then None else Some(out);
  }

  /** The row loop of the wide loader. */
  method ReadRows(rows: seq<map<string, string>>, keys: seq<string>, codeCol: Option<string>,
                  nameCol: Option<string>, num: string -> Option<real>) returns (out: seq<Obs>)
    ensures out == WideObs(rows, keys, codeCol, nameCol, num)
  {
    ghost var f := row => ObsOfRow(row, keys, codeCol, nameCol, num);
    out := [];
    for i := 0 to |rows|
      invariant out == FlatMap(rows[..i], f)
    {
      var row := rows[i];
      var obs := ReadCells(row, keys, RowCode(row, codeCol), RowCountry(row, nameCol), num);
      assert rows[..i + 1] == rows[..i] + [row];
      FlatMapSnoc(rows[..i], row, f);
      out := out + obs;
    }
    assert rows[..|rows|] == rows;
  }

  /** The column loop of the wide loader, over one row. */
  method ReadCells(row: map<string, string>, keys: seq<string>, code: string, country: Option<string>,
                   num: string -> Option<real>) returns (obs: seq<Obs>)
    ensures obs == RowObs(row, keys, code, country, num)
  {
    ghost var f := k => CellObs(row, k, code, country, num);
    obs := [];
    for j := 0 to |keys|
      invariant obs == FilterMap(keys[..j], f)
    {
      var o := CellObs(row, keys[j], code, country, num);
      assert keys[..j + 1] == keys[..j] + [keys[j]];
      FilterMapSnoc(keys[..j], keys[j], f);
      if o.Some? {
        obs := obs + [o.value];
      }
    }
    assert keys[..|keys|] == keys;
  }

  /** The delimiter rewrite can be read as one pass over the kept text: the table parsed is
      the text from the header line on, with tabs and semicolons turned into commas. */
  lemma WideTextRewritesDelimiters(lines: seq<string>, idx: nat)
    requires idx <= |lines|
    ensures WideText(lines, idx) == ReplaceDelimiters(JoinLines(lines[idx..]))
  {
    JoinReplaceEach(lines[idx..]);
  }

  /** When the text has no header line among its first 20 lines, the whole text is parsed. */
  lemma WideTextWithoutHeader(t: string)
    requires forall i :: 0 <= i < |SplitLines(t)| && i < 20 ==> !IsHeaderLine(SplitLines(t)[i])
    ensures WideText(SplitLines(t), HeaderIndex(SplitLines(t), 0)) == ReplaceDelimiters(t)
  {
    var lines := SplitLines(t);
    assert HeaderIndex(lines, 0) == 0;
    assert lines[0..] == lines;
    JoinSplit(t);
    WideTextRewritesDelimiters(lines, 0);
  }
}
