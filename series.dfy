/** The two temporal lookups over a list of observations: `latestByCode` (the strictly
    latest finite observation per code) and `pickLatestAtOrBefore` (the latest finite
    observation of one code no later than a given year). Both scan the list once and
    replace the kept record only on a strictly later year, so among records of equal
    year the first one met wins. */
module Series {
  import opened Wrappers
  import opened Records

  /** The records a scan may keep for `code`: finite value and, when a bound is given,
      year at or before it. `bound == None` is `latestByCode`'s test. */
  predicate Qualifies(r: Obs, code: string, bound: Option<real>) {
    r.code == code && r.value.Some? && (bound.None? || r.year <= bound.value)
  }

  /** What the scan keeps after reading `rows` in order. */
  function BestOf(rows: seq<Obs>, code: string, bound: Option<real>): Option<Obs>
    decreases |rows|
  {
    if rows == [] then None
    else
      var best := BestOf(rows[..|rows| - 1], code, bound);
      var r := rows[|rows| - 1];
      if Qualifies(r, code, bound) && (best.None? || r.year > best.value.year) then Some(r) else best
  }

  /** `rows[i]` is the first qualifying record of the greatest qualifying year. */
  ghost predicate IsFirstLatest(rows: seq<Obs>, i: int, code: string, bound: Option<real>) {
    && 0 <= i < |rows|
    && Qualifies(rows[i], code, bound)
    && (forall j :: 0 <= j < |rows| && Qualifies(rows[j], code, bound) ==> rows[j].year <= rows[i].year)
    && (forall j :: 0 <= j < i && Qualifies(rows[j], code, bound) ==> rows[j].year < rows[i].year)
  }

  /** Whatever the scan keeps qualifies. */
  lemma {:induction false} BestOfQualifies(rows: seq<Obs>, code: string, bound: Option<real>)
    ensures BestOf(rows, code, bound).Some? ==> Qualifies(BestOf(rows, code, bound).value, code, bound)
    decreases |rows|
  {
    if rows != [] {
      BestOfQualifies(rows[..|rows| - 1], code, bound);
    }
  }

  /** The scan keeps nothing exactly when no record qualifies. */
  lemma {:induction false} BestOfNone(rows: seq<Obs>, code: string, bound: Option<real>)
    ensures BestOf(rows, code, bound).None? <==> forall j :: 0 <= j < |rows| ==> !Qualifies(rows[j], code, bound)
    decreases |rows|
  {
    if rows != [] {
      var init := rows[..|rows| - 1];
      BestOfNone(init, code, bound);
      assert forall j :: 0 <= j < |init| ==> init[j] == rows[j];
    }
  }

  /** What the scan keeps is the first record of the latest qualifying year. */
  lemma {:induction false} BestOfSome(rows: seq<Obs>, code: string, bound: Option<real>)
    requires BestOf(rows, code, bound).Some?
    ensures exists i :: IsFirstLatest(rows, i, code, bound) && rows[i] == BestOf(rows, code, bound).value
    decreases |rows|
  {
    var n := |rows| - 1;
    var init := rows[..n];
    var last := rows[n];
    var b := BestOf(init, code, bound);
    assert forall j :: 0 <= j < n ==> init[j] == rows[j];
    if Qualifies(last, code, bound) && (b.None? || last.year > b.value.year) {
      if b.None? {
        BestOfNone(init, code, bound);
      } else {
        BestOfSome(init, code, bound);
        var k :| IsFirstLatest(init, k, code, bound) && init[k] == b.value;
      }
      assert IsFirstLatest(rows, n, code, bound);
    } else {
      BestOfSome(init, code, bound);
      var k :| IsFirstLatest(init, k, code, bound) && init[k] == b.value;
      assert IsFirstLatest(rows, k, code, bound);
    }
  }

  /** Conversely, the first record of the latest qualifying year is what the scan keeps. */
  lemma BestOfFirstLatest(rows: seq<Obs>, i: int, code: string, bound: Option<real>)
    requires IsFirstLatest(rows, i, code, bound)
    ensures BestOf(rows, code, bound) == Some(rows[i])
  {
    BestOfNone(rows, code, bound);
    BestOfSome(rows, code, bound);
    var k :| IsFirstLatest(rows, k, code, bound) && rows[k] == BestOf(rows, code, bound).value;
    assert rows[k].year == rows[i].year;
    assert !(k < i) && !(i < k);
  }

  /** The codes of the qualifying records, in order, one entry per record. */
  function QualifyingCodes(rows: seq<Obs>, bound: Option<real>): (r: seq<string>)
    ensures forall c :: c in r <==> exists j :: 0 <= j < |rows| && Qualifies(rows[j], c, bound)
    decreases |rows|
  {
    if rows == [] then []
    else
      var init := rows[..|rows| - 1];
      var last := rows[|rows| - 1];
      assert forall j :: 0 <= j < |init| ==> init[j] == rows[j];
      QualifyingCodes(init, bound) + (if Qualifies(last, last.code, bound) then [last.code] else [])
  }

  /** Reading one more record changes what is kept for its own code only. */
  lemma BestOfSnoc(p: seq<Obs>, r: Obs, c: string, bound: Option<real>)
    ensures var b := BestOf(p, c, bound);
            BestOf(p + [r], c, bound)
            == if Qualifies(r, c, bound) && (b.None? || r.year > b.value.year) then Some(r) else b
  {
    assert (p + [r])[..|p|] == p;
  }

  lemma QualifyingCodesSnoc(p: seq<Obs>, r: Obs, bound: Option<real>)
    ensures QualifyingCodes(p + [r], bound)
            == QualifyingCodes(p, bound) + (if Qualifies(r, r.code, bound) then [r.code] else [])
  {
    assert (p + [r])[..|p|] == p;
  }

  /** `pickLatestAtOrBefore(arr, code, field, yr)`. */
  method PickLatestAtOrBefore(arr: seq<Obs>, code: string, yr: real) returns (best: Option<Obs>)
    ensures best == BestOf(arr, code, Some(yr))
    ensures best.None? <==> forall j :: 0 <= j < |arr| ==> !Qualifies(arr[j], code, Some(yr))
    ensures best.Some? ==> exists i :: IsFirstLatest(arr, i, code, Some(yr)) && arr[i] == best.value
  {
    best := None;
    for i := 0 to |arr|
      invariant best == BestOf(arr[..i], code, Some(yr))
    {
      var r := arr[i];
      assert arr[..i + 1][..i] == arr[..i];
      if r.code != code {
        continue;
      }
      if r.year <= yr && r.value.Some? {
        if best.None? || r.year > best.value.year {
          best := Some(r);
        }
      }
    }
    assert arr[..|arr|] == arr;
    BestOfNone(arr, code, Some(yr));
    if best.Some? {
      BestOfSome(arr, code, Some(yr));
    }
  }

  /** `keys` and `m` are what the per-code scan holds after reading `prefix`: the codes
      met, in order of first qualifying record, and for each the record kept. */
  ghost predicate Scanned(prefix: seq<Obs>, bound: Option<real>, keys: seq<string>, m: map<string, Obs>) {
    && keys == Distinct(QualifyingCodes(prefix, bound))
    && (forall c :: c in m <==> c in keys)
    && (forall c :: BestOf(prefix, c, bound) == if c in m then Some(m[c]) else None)
  }

  /** The code list grows by the record's code exactly when the record qualifies and its
      code is new. */
  lemma ScanKeys(p: seq<Obs>, r: Obs, bound: Option<real>)
    ensures var keys := Distinct(QualifyingCodes(p, bound));
            Distinct(QualifyingCodes(p + [r], bound))
            == if Qualifies(r, r.code, bound) && r.code !in keys then keys + [r.code] else keys
  {
    QualifyingCodesSnoc(p, r, bound);
    DistinctSnoc(QualifyingCodes(p, bound), r.code);
    assert QualifyingCodes(p, bound) + [] == QualifyingCodes(p, bound);
  }

  /** The kept record of the record's code is replaced exactly when the record qualifies
      and is strictly later; every other code keeps its record. */
  lemma ScanBest(p: seq<Obs>, r: Obs, bound: Option<real>, m: map<string, Obs>)
    requires forall c :: BestOf(p, c, bound) == if c in m then Some(m[c]) else None
    ensures var m' := if Qualifies(r, r.code, bound) && (r.code !in m || r.year > m[r.code].year)
                      then m[r.code := r] else m;
            forall c :: BestOf(p + [r], c, bound) == if c in m' then Some(m'[c]) else None
  {
    var m' := if Qualifies(r, r.code, bound) && (r.code !in m || r.year > m[r.code].year)
              then m[r.code := r] else m;
    forall c ensures BestOf(p + [r], c, bound) == if c in m' then Some(m'[c]) else None {
      BestOfSnoc(p, r, c, bound);
    }
  }

  /** Reading a record that qualifies and is later than the one kept for its code
      replaces that one (and, for a new code, appends the code). */
  lemma ScanTake(p: seq<Obs>, r: Obs, bound: Option<real>, keys: seq<string>, m: map<string, Obs>)
    requires Scanned(p, bound, keys, m)
    requires Qualifies(r, r.code, bound) && (r.code !in m || r.year > m[r.code].year)
    ensures Scanned(p + [r], bound, if r.code in m then keys else keys + [r.code], m[r.code := r])
  {
    var keys' := if r.code in m then keys else keys + [r.code];
    var m' := m[r.code := r];
    assert keys' == Distinct(QualifyingCodes(p + [r], bound)) by {
      ScanKeys(p, r, bound);
    }
    forall c ensures c in m' <==> c in keys' {
      assert c in keys' <==> c in keys || c == r.code;
    }
    assert forall c :: BestOf(p + [r], c, bound) == if c in m' then Some(m'[c]) else None by {
      ScanBest(p, r, bound, m);
    }
    assert Scanned(p + [r], bound, keys', m');
  }

  /** Reading any other record changes nothing. */
  lemma ScanSkip(p: seq<Obs>, r: Obs, bound: Option<real>, keys: seq<string>, m: map<string, Obs>)
    requires Scanned(p, bound, keys, m)
    requires !(Qualifies(r, r.code, bound) && (r.code !in m || r.year > m[r.code].year))
    ensures Scanned(p + [r], bound, keys, m)
  {
    ScanKeys(p, r, bound);
    ScanBest(p, r, bound, m);
  }

  /** `latestByCode(rows, field)` when `bound` is `None`; with `Some(yr)` it is the
      per-code "latest at or before yr" map the density back-fill builds. Returns the
      map's keys in insertion order and its entries. */
  method LatestPerCode(rows: seq<Obs>, bound: Option<real>) returns (keys: seq<string>, m: map<string, Obs>)
    ensures keys == Distinct(QualifyingCodes(rows, bound))
    ensures forall c :: c in m <==> c in keys
    ensures forall c :: c in m ==> BestOf(rows, c, bound) == Some(m[c])
    ensures forall c :: c !in m ==> BestOf(rows, c, bound) == None
  {
    keys, m := [], map[];
    for i := 0 to |rows|
      invariant Scanned(rows[..i], bound, keys, m)
    {
      var r := rows[i];
      assert rows[..i + 1] == rows[..i] + [r];
      if r.value.Some? && (bound.None? || r.year <= bound.value) && (r.code !in m || r.year > m[r.code].year) {
        ScanTake(rows[..i], r, bound, keys, m);
        if r.code !in m {
          keys := keys + [r.code];
        }
        m := m[r.code := r];
      } else {
        ScanSkip(rows[..i], r, bound, keys, m);
      }
    }
    assert rows[..|rows|] == rows;
  }

  /** The finite value of the record a scan keeps, if it keeps one. */
  function LatestValue(rows: seq<Obs>, code: string, bound: Option<real>): (v: Option<real>)
  {
    var b := BestOf(rows, code, bound);
    if b.Some? then b.value.value else None
  }

  /** A value is present exactly when the scan keeps a record, and it is that record's. */
  lemma LatestValueSpec(rows: seq<Obs>, code: string, bound: Option<real>)
    ensures LatestValue(rows, code, bound).Some? <==> BestOf(rows, code, bound).Some?
    ensures LatestValue(rows, code, bound).Some? ==>
              exists i :: IsFirstLatest(rows, i, code, bound) && rows[i].value == LatestValue(rows, code, bound)
  {
    BestOfQualifies(rows, code, bound);
    if BestOf(rows, code, bound).Some? {
      BestOfSome(rows, code, bound);
    }
  }

  /** JavaScript's `x || []` on a loader's result: a missing series reads as no rows. */
  function OrEmpty(rows: Option<seq<Obs>>): (r: seq<Obs>)
    ensures rows.None? ==> r == []
    ensures rows.Some? ==> r == rows.value
  {
    if rows.Some? then rows.value else []
  }
}
