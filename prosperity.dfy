/** The point-in-time rows of the two prosperity charts: for each country of the
    internet series, its latest internet share and its latest positive GDP per capita,
    both at or before the chosen year (`renderProsperity`), and the same rows tagged
    with the country's continent (`renderProsperityByContinent`). */
module Prosperity {
  import opened Wrappers
  import opened Records
  import opened Series

  /** One point of the scatter chart. `year` is the older of the two records' years. */
  datatype ProsperityRow = ProsperityRow(country: string, code: string, internet: real, gdp: real, year: real)

  /** One country of the by-continent chart. */
  datatype ContinentRow = ContinentRow(continent: string, code: string, internet: real, gdp: real)

  /** `Math.min` on two years. */
  function Min(a: real, b: real): (m: real)
    ensures m <= a && m <= b && (m == a || m == b)
  {
    if a <= b then a else b
  }

  /** The row of `code`, from the records `pickLatestAtOrBefore` returns for it in the
      two series: present when both exist and the GDP value is positive. */
  function ProsperityFor(iu: seq<Obs>, gdp: seq<Obs>, code: string, yr: real): Option<ProsperityRow>
  {
    var a := BestOf(iu, code, Some(yr));
    var g := BestOf(gdp, code, Some(yr));
    BestOfQualifies(iu, code, Some(yr));
    BestOfQualifies(gdp, code, Some(yr));
    if a.Some? && g.Some? && g.value.value.value > 0.0 then
      Some(ProsperityRow(FirstName(a.value.country, g.value.country, code), code,
                         a.value.value.value, g.value.value.value, Min(a.value.year, g.value.year)))
    else None
  }

  /** A code has a row exactly when it has a finite internet record at or before `yr` and
      its latest GDP value at or before `yr` is positive; the row carries the values of
      the first records of the latest qualifying years, and the older of their years,
      which is no later than `yr`. */
  lemma ProsperityForSpec(iu: seq<Obs>, gdp: seq<Obs>, code: string, yr: real)
    ensures ProsperityFor(iu, gdp, code, yr).Some? <==>
              && (exists j :: 0 <= j < |iu| && Qualifies(iu[j], code, Some(yr)))
              && LatestValue(gdp, code, Some(yr)).Some? && LatestValue(gdp, code, Some(yr)).value > 0.0
    ensures ProsperityFor(iu, gdp, code, yr).Some? ==>
              var p := ProsperityFor(iu, gdp, code, yr).value;
              && p.code == code && p.year <= yr
              && exists i, j :: && IsFirstLatest(iu, i, code, Some(yr)) && IsFirstLatest(gdp, j, code, Some(yr))
                                && p.internet == iu[i].value.value && p.gdp == gdp[j].value.value
                                && p.year == Min(iu[i].year, gdp[j].year)
  {
    BestOfNone(iu, code, Some(yr));
    LatestValueSpec(gdp, code, Some(yr));
    if ProsperityFor(iu, gdp, code, yr).Some? {
      BestOfSome(iu, code, Some(yr));
      BestOfSome(gdp, code, Some(yr));
    }
  }

  /** A row is for its own code, and that code is one of the internet series. */
  lemma ProsperityForCode(iu: seq<Obs>, gdp: seq<Obs>, code: string, yr: real)
    ensures ProsperityFor(iu, gdp, code, yr).Some? ==>
              ProsperityFor(iu, gdp, code, yr).value.code == code && code in Codes(iu)
  {
    if ProsperityFor(iu, gdp, code, yr).Some? {
      BestOfQualifies(iu, code, Some(yr));
      BestOfSome(iu, code, Some(yr));
      var i :| IsFirstLatest(iu, i, code, Some(yr)) && iu[i] == BestOf(iu, code, Some(yr)).value;
      assert Codes(iu)[i] == code;
    }
  }

  /** The row of each code, as a function to map over the codes. */
  function ProsperityEntry(iu: seq<Obs>, gdp: seq<Obs>, yr: real): string -> Option<ProsperityRow> {
    c => ProsperityFor(iu, gdp, c, yr)
  }

  /** The rows, one per code of the internet series in order of first record. */
  function ProsperityRowsOf(iu: seq<Obs>, gdp: seq<Obs>, yr: real): seq<ProsperityRow> {
    FilterMap(Distinct(Codes(iu)), ProsperityEntry(iu, gdp, yr))
  }

  /** A row is drawn exactly when it is the row of its own code. */
  lemma ProsperityRowsMembers(iu: seq<Obs>, gdp: seq<Obs>, yr: real, p: ProsperityRow)
    ensures p in ProsperityRowsOf(iu, gdp, yr) <==> ProsperityFor(iu, gdp, p.code, yr) == Some(p)
  {
    var codes := Distinct(Codes(iu));
    var f := ProsperityEntry(iu, gdp, yr);
    FilterMapMembers(codes, f);
    if ProsperityFor(iu, gdp, p.code, yr) == Some(p) {
      ProsperityForCode(iu, gdp, p.code, yr);
      var k :| 0 <= k < |codes| && codes[k] == p.code;
      assert f(codes[k]) == Some(p);
    }
    if p in ProsperityRowsOf(iu, gdp, yr) {
      var k :| 0 <= k < |codes| && f(codes[k]) == Some(p);
      ProsperityForCode(iu, gdp, codes[k], yr);
    }
  }

  /** One step of the scatter loop, in terms of the two picked records. */
  lemma ProsperityStep(iu: seq<Obs>, gdp: seq<Obs>, yr: real, codes: seq<string>, i: nat,
                       iuRec: Option<Obs>, gdpRec: Option<Obs>)
    requires i < |codes|
    requires iuRec == BestOf(iu, codes[i], Some(yr)) && gdpRec == BestOf(gdp, codes[i], Some(yr))
    ensures iuRec.Some? ==> iuRec.value.value.Some?
    ensures gdpRec.Some? ==> gdpRec.value.value.Some?
    ensures FilterMap(codes[..i + 1], ProsperityEntry(iu, gdp, yr))
            == FilterMap(codes[..i], ProsperityEntry(iu, gdp, yr))
               + if iuRec.Some? && gdpRec.Some? && gdpRec.value.value.value > 0.0
                 then [ProsperityRow(FirstName(iuRec.value.country, gdpRec.value.country, codes[i]), codes[i],
                                     iuRec.value.value.value, gdpRec.value.value.value,
                                     Min(iuRec.value.year, gdpRec.value.year))]
                 else []
  {
    BestOfQualifies(iu, codes[i], Some(yr));
    BestOfQualifies(gdp, codes[i], Some(yr));
    FilterMapStep(codes, i, ProsperityEntry(iu, gdp, yr));
  }

  /** `draw` of `renderProsperity` for the chosen year (before the rows are sorted by
      name): for each code of the internet series, pick the latest records at or before
      the year and keep the country when both exist and GDP is positive. */
  method ProsperityRows(iu: seq<Obs>, gdp: Option<seq<Obs>>, yr: real) returns (rows: seq<ProsperityRow>)
    ensures rows == ProsperityRowsOf(iu, OrEmpty(gdp), yr)
  {
    var gdpRows := OrEmpty(gdp);
    var codes := Distinct(Codes(iu));
    rows := [];
    for i := 0 to |codes|
      invariant rows == FilterMap(codes[..i], ProsperityEntry(iu, gdpRows, yr))
    {
      var code := codes[i];
      var iuRec := PickLatestAtOrBefore(iu, code, yr);
      var gdpRec := PickLatestAtOrBefore(gdpRows, code, yr);
      ProsperityStep(iu, gdpRows, yr, codes, i, iuRec, gdpRec);
      if iuRec.Some? && gdpRec.Some? && gdpRec.value.value.value > 0.0 {
        rows := rows + [ProsperityRow(FirstName(iuRec.value.country, gdpRec.value.country, code), code,
                                      iuRec.value.value.value, gdpRec.value.value.value,
                                      Min(iuRec.value.year, gdpRec.value.year))];
      }
    }
    assert codes[..|codes|] == codes;
  }

  /** Without a GDP series no country is drawn. */
  lemma ProsperityWithoutGdp(iu: seq<Obs>, yr: real)
    ensures ProsperityRowsOf(iu, OrEmpty(None), yr) == []
  {
    var codes := Distinct(Codes(iu));
    forall i | 0 <= i < |codes| ensures ProsperityEntry(iu, [], yr)(codes[i]).None? {
      BestOfNone([], codes[i], Some(yr));
    }
    FilterMapEmpty(codes, ProsperityEntry(iu, [], yr));
  }

  // -------------------------------------------------------------- by continent

  /** `contMap.get(code)`, read for truthiness: the continent when the map has a
      non-empty one. */
  function ContinentOf(contMap: map<string, string>, code: string): Option<string> {
    if code in contMap && contMap[code] != "" then Some(contMap[code]) else None
  }

  /** The by-continent row of `code`: the same picks and GDP test as the scatter chart,
      and a continent for the code. */
  function ContinentFor(iu: seq<Obs>, gdp: seq<Obs>, contMap: map<string, string>, code: string, yr: real)
    : Option<ContinentRow>
  {
    var a := BestOf(iu, code, Some(yr));
    var g := BestOf(gdp, code, Some(yr));
    var cont := ContinentOf(contMap, code);
    BestOfQualifies(iu, code, Some(yr));
    BestOfQualifies(gdp, code, Some(yr));
    if a.Some? && g.Some? && g.value.value.value > 0.0 && cont.Some? then
      Some(ContinentRow(cont.value, code, a.value.value.value, g.value.value.value))
    else None
  }

  /** A country joins the by-continent chart exactly when it is on the scatter chart and
      has a continent, with the same internet and GDP values. */
  lemma ContinentForSpec(iu: seq<Obs>, gdp: seq<Obs>, contMap: map<string, string>, code: string, yr: real)
    ensures ContinentFor(iu, gdp, contMap, code, yr).Some? <==>
              ProsperityFor(iu, gdp, code, yr).Some? && code in contMap && contMap[code] != ""
    ensures ContinentFor(iu, gdp, contMap, code, yr).Some? ==>
              var c := ContinentFor(iu, gdp, contMap, code, yr).value;
              var p := ProsperityFor(iu, gdp, code, yr).value;
              c.continent == contMap[code] && c.code == code && c.internet == p.internet && c.gdp == p.gdp
  {
  }

  function ContinentEntry(iu: seq<Obs>, gdp: seq<Obs>, contMap: map<string, string>, yr: real)
    : string -> Option<ContinentRow>
  {
    c => ContinentFor(iu, gdp, contMap, c, yr)
  }

  /** The by-continent rows, one per code of the internet series in order of first record. */
  function ContinentRowsOf(iu: seq<Obs>, gdp: seq<Obs>, contMap: map<string, string>, yr: real): seq<ContinentRow> {
    FilterMap(Distinct(Codes(iu)), ContinentEntry(iu, gdp, contMap, yr))
  }

  /** A row is drawn exactly when it is the row of its own code; its continent is never
      empty. */
  lemma ContinentRowsMembers(iu: seq<Obs>, gdp: seq<Obs>, contMap: map<string, string>, yr: real, r: ContinentRow)
    ensures r in ContinentRowsOf(iu, gdp, contMap, yr) <==> ContinentFor(iu, gdp, contMap, r.code, yr) == Some(r)
    ensures r in ContinentRowsOf(iu, gdp, contMap, yr) ==> r.continent != ""
  {
    var codes := Distinct(Codes(iu));
    var f := ContinentEntry(iu, gdp, contMap, yr);
    FilterMapMembers(codes, f);
    if ContinentFor(iu, gdp, contMap, r.code, yr) == Some(r) {
      ContinentForSpec(iu, gdp, contMap, r.code, yr);
      ProsperityForCode(iu, gdp, r.code, yr);
      var k :| 0 <= k < |codes| && codes[k] == r.code;
      assert f(codes[k]) == Some(r);
    }
    if r in ContinentRowsOf(iu, gdp, contMap, yr) {
      var k :| 0 <= k < |codes| && f(codes[k]) == Some(r);
      ContinentForSpec(iu, gdp, contMap, codes[k], yr);
      ProsperityForCode(iu, gdp, codes[k], yr);
    }
  }

  /** One step of the by-continent loop, in terms of the two picked records. */
  lemma ContinentStep(iu: seq<Obs>, gdp: seq<Obs>, contMap: map<string, string>, yr: real, codes: seq<string>,
                      i: nat, iuRec: Option<Obs>, gdpRec: Option<Obs>)
    requires i < |codes|
    requires iuRec == BestOf(iu, codes[i], Some(yr)) && gdpRec == BestOf(gdp, codes[i], Some(yr))
    ensures iuRec.Some? ==> iuRec.value.value.Some?
    ensures gdpRec.Some? ==> gdpRec.value.value.Some?
    ensures var cont := ContinentOf(contMap, codes[i]);
            FilterMap(codes[..i + 1], ContinentEntry(iu, gdp, contMap, yr))
            == FilterMap(codes[..i], ContinentEntry(iu, gdp, contMap, yr))
               + if iuRec.Some? && gdpRec.Some? && gdpRec.value.value.value > 0.0 && cont.Some?
                 then [ContinentRow(cont.value, codes[i], iuRec.value.value.value, gdpRec.value.value.value)]
                 else []
  {
    BestOfQualifies(iu, codes[i], Some(yr));
    BestOfQualifies(gdp, codes[i], Some(yr));
    FilterMapStep(codes, i, ContinentEntry(iu, gdp, contMap, yr));
  }

  /** The row loop of `renderProsperityByContinent`'s `draw`. */
  method ContinentRows(iu: seq<Obs>, gdp: Option<seq<Obs>>, contMap: map<string, string>, yr: real)
    returns (rows: seq<ContinentRow>)
    ensures rows == ContinentRowsOf(iu, OrEmpty(gdp), contMap, yr)
  {
    var gdpRows := OrEmpty(gdp);
    var codes := Distinct(Codes(iu));
    rows := [];
    for i := 0 to |codes|
      invariant rows == FilterMap(codes[..i], ContinentEntry(iu, gdpRows, contMap, yr))
    {
      var code := codes[i];
      var iuRec := PickLatestAtOrBefore(iu, code, yr);
      var gdpRec := PickLatestAtOrBefore(gdpRows, code, yr);
      var cont := ContinentOf(contMap, code);
      ContinentStep(iu, gdpRows, contMap, yr, codes, i, iuRec, gdpRec);
      if iuRec.Some? && gdpRec.Some? && gdpRec.value.value.value > 0.0 && cont.Some? {
        rows := rows + [ContinentRow(cont.value, code, iuRec.value.value.value, gdpRec.value.value.value)];
      }
    }
    assert codes[..|codes|] == codes;
  }
}
