/** The values behind the adoption density chart (`renderDensity`): the internet share
    of every country with a record of exactly the chosen year, or, when fewer than
    twenty countries have one, the latest share at or before that year of every
    country. */
module Density {
  import opened Wrappers
  import opened Records
  import opened Series

  /** Below this many exact-year countries the chart back-fills. */
  const MinExactCountries: nat := 20

  /** A finite record of exactly year `yr`. */
  predicate AtYear(r: Obs, yr: real) {
    r.year == yr && r.value.Some?
  }

  /** The codes of the exact-year records, one entry per record. */
  function YearCodes(rows: seq<Obs>, yr: real): seq<string> {
    FilterMap(rows, (r: Obs) => if AtYear(r, yr) then Some(r.code) else None)
  }

  /** A code is listed exactly when it has an exact-year record. */
  lemma YearCodesMembers(rows: seq<Obs>, yr: real)
    ensures forall c :: c in YearCodes(rows, yr) <==> exists j :: 0 <= j < |rows| && AtYear(rows[j], yr) && rows[j].code == c
  {
    var f := (r: Obs) => if AtYear(r, yr) then Some(r.code) else None;
    FilterMapMembers(rows, f);
    forall c | exists j :: 0 <= j < |rows| && AtYear(rows[j], yr) && rows[j].code == c
      ensures c in YearCodes(rows, yr)
    {
      var j :| 0 <= j < |rows| && AtYear(rows[j], yr) && rows[j].code == c;
      assert f(rows[j]) == Some(c);
    }
  }

  /** The value `byCodeYr.set` leaves for `code` after reading `rows`: that of the last
      exact-year record of the code. */
  function LastAt(rows: seq<Obs>, code: string, yr: real): Option<real>
    decreases |rows|
  {
    if rows == [] then None
    else
      var r := rows[|rows| - 1];
      if AtYear(r, yr) && r.code == code then r.value else LastAt(rows[..|rows| - 1], code, yr)
  }

  /** There is a value exactly when the code has an exact-year record, and it is the
      value of the last such record. */
  lemma {:induction false} LastAtSpec(rows: seq<Obs>, code: string, yr: real)
    ensures LastAt(rows, code, yr).None? <==> forall j :: 0 <= j < |rows| ==> !(AtYear(rows[j], yr) && rows[j].code == code)
    ensures LastAt(rows, code, yr).Some? ==>
              exists j :: && 0 <= j < |rows| && AtYear(rows[j], yr) && rows[j].code == code
                          && rows[j].value == LastAt(rows, code, yr)
                          && forall k :: j < k < |rows| ==> !(AtYear(rows[k], yr) && rows[k].code == code)
    decreases |rows|
  {
    if rows != [] {
      var n := |rows| - 1;
      var init := rows[..n];
      LastAtSpec(init, code, yr);
      assert forall j :: 0 <= j < n ==> init[j] == rows[j];
      if !(AtYear(rows[n], yr) && rows[n].code == code) && LastAt(init, code, yr).Some? {
        var j :| && 0 <= j < n && AtYear(init[j], yr) && init[j].code == code
                 && init[j].value == LastAt(init, code, yr)
                 && forall k :: j < k < n ==> !(AtYear(init[k], yr) && init[k].code == code);
        assert rows[j] == init[j];
      }
    }
  }

  lemma LastAtSnoc(p: seq<Obs>, r: Obs, code: string, yr: real)
    ensures LastAt(p + [r], code, yr) == if AtYear(r, yr) && r.code == code then r.value else LastAt(p, code, yr)
  {
    assert (p + [r])[..|p|] == p;
  }

  /** `keys` and `m` are what the exact-year loop holds after reading `prefix`. */
  ghost predicate YearScanned(prefix: seq<Obs>, yr: real, keys: seq<string>, m: map<string, real>) {
    && keys == Distinct(YearCodes(prefix, yr))
    && (forall c :: c in m <==> c in keys)
    && (forall c :: LastAt(prefix, c, yr) == if c in m then Some(m[c]) else None)
  }

  /** Reading an exact-year record sets its code's value (appending the code when new). */
  lemma YearTake(p: seq<Obs>, r: Obs, yr: real, keys: seq<string>, m: map<string, real>)
    requires YearScanned(p, yr, keys, m)
    requires AtYear(r, yr)
    ensures YearScanned(p + [r], yr, if r.code in m then keys else keys + [r.code], m[r.code := r.value.value])
  {
    var keys' := if r.code in m then keys else keys + [r.code];
    var m' := m[r.code := r.value.value];
    assert keys' == Distinct(YearCodes(p + [r], yr)) by {
      FilterMapSnoc(p, r, (r: Obs) => if AtYear(r, yr) then Some(r.code) else None);
      DistinctSnoc(YearCodes(p, yr), r.code);
    }
    forall c ensures c in m' <==> c in keys' {
      assert c in keys' <==> c in keys || c == r.code;
    }
    forall c ensures LastAt(p + [r], c, yr) == if c in m' then Some(m'[c]) else None {
      LastAtSnoc(p, r, c, yr);
    }
    assert YearScanned(p + [r], yr, keys', m');
  }

  /** Reading any other record changes nothing. */
  lemma YearSkip(p: seq<Obs>, r: Obs, yr: real, keys: seq<string>, m: map<string, real>)
    requires YearScanned(p, yr, keys, m)
    requires !AtYear(r, yr)
    ensures YearScanned(p + [r], yr, keys, m)
  {
    assert YearCodes(p + [r], yr) == YearCodes(p, yr) by {
      FilterMapSnoc(p, r, (r: Obs) => if AtYear(r, yr) then Some(r.code) else None);
    }
    forall c ensures LastAt(p + [r], c, yr) == LastAt(p, c, yr) {
      LastAtSnoc(p, r, c, yr);
    }
  }

  /** The exact-year value of each code. */
  function ExactValue(iu: seq<Obs>, yr: real): string -> Option<real> {
    c => LastAt(iu, c, yr)
  }

  /** The back-filled value of each code: that of its latest record at or before `yr`. */
  function BackfillValue(iu: seq<Obs>, yr: real): string -> Option<real> {
    c => LatestValue(iu, c, Some(yr))
  }

  /** The codes with an exact-year record, in order of first such record. */
  function ExactCodes(iu: seq<Obs>, yr: real): seq<string> {
    Distinct(YearCodes(iu, yr))
  }

  /** The codes with a record at or before `yr`, in order of first such record. */
  function BackfillCodes(iu: seq<Obs>, yr: real): seq<string> {
    Distinct(QualifyingCodes(iu, Some(yr)))
  }

  /** The shares the chart estimates its density from, in the map's order. */
  function DensityValuesOf(iu: seq<Obs>, yr: real): seq<real> {
    if |ExactCodes(iu, yr)| >= MinExactCountries then FilterMap(ExactCodes(iu, yr), ExactValue(iu, yr))
    else FilterMap(BackfillCodes(iu, yr), BackfillValue(iu, yr))
  }

  /** The first loop of `draw`: the value of the last exact-year record of each code. */
  method ExactYearValues(iu: seq<Obs>, yr: real) returns (keys: seq<string>, byCodeYr: map<string, real>)
    ensures keys == ExactCodes(iu, yr)
    ensures forall c :: c in byCodeYr <==> c in keys
    ensures forall c :: c in byCodeYr ==> LastAt(iu, c, yr) == Some(byCodeYr[c])
  {
    keys, byCodeYr := [], map[];
    for i := 0 to |iu|
      invariant YearScanned(iu[..i], yr, keys, byCodeYr)
    {
      var r := iu[i];
      assert iu[..i + 1] == iu[..i] + [r];
      if r.year == yr && r.value.Some? {
        YearTake(iu[..i], r, yr, keys, byCodeYr);
        if r.code !in byCodeYr {
          keys := keys + [r.code];
        }
        byCodeYr := byCodeYr[r.code := r.value.value];
      } else {
        YearSkip(iu[..i], r, yr, keys, byCodeYr);
      }
    }
    assert iu[..|iu|] == iu;
  }

  /** The back-fill: clear the map, then set each code of `best` (in its order) to the
      value of its kept record. */
  method BackfillValues(iu: seq<Obs>, yr: real, bestKeys: seq<string>, best: map<string, Obs>)
    returns (keys: seq<string>, byCodeYr: map<string, real>)
    requires bestKeys == BackfillCodes(iu, yr)
    requires forall c :: c in best <==> c in bestKeys
    requires forall c :: c in best ==> BestOf(iu, c, Some(yr)) == Some(best[c])
    ensures keys == bestKeys
    ensures forall c :: c in byCodeYr <==> c in keys
    ensures forall c :: c in byCodeYr ==> LatestValue(iu, c, Some(yr)) == Some(byCodeYr[c])
  {
    DistinctNoRepeats(QualifyingCodes(iu, Some(yr)));
    keys, byCodeYr := [], map[];
    for j := 0 to |bestKeys|
      invariant keys == bestKeys[..j]
      invariant forall c :: c in byCodeYr <==> c in keys
      invariant forall c :: c in byCodeYr ==> LatestValue(iu, c, Some(yr)) == Some(byCodeYr[c])
    {
      var code := bestKeys[j];
      var rec := best[code];
      BestOfQualifies(iu, code, Some(yr));
      assert code !in keys by {
        forall k | 0 <= k < j ensures keys[k] != code {
          assert keys[k] == bestKeys[k];
        }
      }
      if code !in byCodeYr {
        keys := keys + [code];
      }
      byCodeYr := byCodeYr[code := rec.value.value];
      assert keys == bestKeys[..j + 1];
    }
    assert bestKeys[..|bestKeys|] == bestKeys;
  }

  /** `draw` of `renderDensity` for the chosen year: the exact-year values, back-filled
      when fewer than twenty countries have one, listed in the map's order. */
  method DensityValues(iu: seq<Obs>, yr: real) returns (pcts: seq<real>)
    ensures pcts == DensityValuesOf(iu, yr)
  {
    var keys, byCodeYr := ExactYearValues(iu, yr);
    ghost var value := ExactValue(iu, yr);
    if |keys| < MinExactCountries {
      var bestKeys, best := LatestPerCode(iu, Some(yr));
      keys, byCodeYr := BackfillValues(iu, yr, bestKeys, best);
      value := BackfillValue(iu, yr);
    }
    pcts := seq(|keys|, i requires 0 <= i < |keys| && keys[i] in byCodeYr => byCodeYr[keys[i]]);
    FilterMapAllSome(keys, value, pcts);
  }

  /** Every code with an exact-year record also has a record at or before that year, so
      the back-fill never drops a country the exact-year pass found. */
  lemma BackfillCoversExact(iu: seq<Obs>, yr: real)
    ensures forall c :: c in ExactCodes(iu, yr) ==> c in BackfillCodes(iu, yr)
  {
    YearCodesMembers(iu, yr);
    forall c | c in ExactCodes(iu, yr) ensures c in BackfillCodes(iu, yr) {
      var j :| 0 <= j < |iu| && AtYear(iu[j], yr) && iu[j].code == c;
      assert Qualifies(iu[j], c, Some(yr));
    }
  }

  /** There is one value per listed country: per exact-year country when there are at
      least twenty, otherwise per country with a record at or before the year. */
  lemma DensityCount(iu: seq<Obs>, yr: real)
    ensures |ExactCodes(iu, yr)| >= MinExactCountries ==> |DensityValuesOf(iu, yr)| == |ExactCodes(iu, yr)|
    ensures |ExactCodes(iu, yr)| < MinExactCountries ==> |DensityValuesOf(iu, yr)| == |BackfillCodes(iu, yr)|
  {
    var exact := ExactCodes(iu, yr);
    var back := BackfillCodes(iu, yr);
    if |exact| >= MinExactCountries {
      YearCodesMembers(iu, yr);
      forall i | 0 <= i < |exact| ensures ExactValue(iu, yr)(exact[i]).Some? {
        var c := exact[i];
        assert c in YearCodes(iu, yr);
        var j :| 0 <= j < |iu| && AtYear(iu[j], yr) && iu[j].code == c;
        LastAtSpec(iu, c, yr);
      }
      FilterMapKeepsAll(exact, ExactValue(iu, yr));
    } else {
      forall i | 0 <= i < |back| ensures BackfillValue(iu, yr)(back[i]).Some? {
        var c := back[i];
        assert c in QualifyingCodes(iu, Some(yr));
        var j :| 0 <= j < |iu| && Qualifies(iu[j], c, Some(yr));
        BestOfNone(iu, back[i], Some(yr));
        LatestValueSpec(iu, back[i], Some(yr));
      }
      FilterMapKeepsAll(back, BackfillValue(iu, yr));
    }
  }

  /** Every value is the finite value of a record no later than the chosen year, and of
      exactly that year when there are at least twenty exact-year countries. */
  lemma DensityValueSources(iu: seq<Obs>, yr: real, v: real)
    requires v in DensityValuesOf(iu, yr)
    ensures exists j :: && 0 <= j < |iu| && iu[j].value == Some(v) && iu[j].year <= yr
                        && (|ExactCodes(iu, yr)| >= MinExactCountries ==> iu[j].year == yr)
  {
    var exact := ExactCodes(iu, yr);
    var back := BackfillCodes(iu, yr);
    if |exact| >= MinExactCountries {
      FilterMapMembers(exact, ExactValue(iu, yr));
      var i :| 0 <= i < |exact| && ExactValue(iu, yr)(exact[i]) == Some(v);
      LastAtSpec(iu, exact[i], yr);
    } else {
      FilterMapMembers(back, BackfillValue(iu, yr));
      var i :| 0 <= i < |back| && BackfillValue(iu, yr)(back[i]) == Some(v);
      LatestValueSpec(iu, back[i], Some(yr));
    }
  }
}
