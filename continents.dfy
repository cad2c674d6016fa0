/** The code-to-continent map the by-continent chart uses (`buildContinentMap`): the
    continents the world GeoJSON's features name, completed from a fixed table for the
    codes the GeoJSON does not cover. */
module Continents {
  import opened Wrappers
  import opened Text
  import opened Records
  import opened Loaders

  /** A GeoJSON feature's `properties`, `None` when the feature has none. Every property
      is read as its string form. */
  datatype Feature = Feature(properties: Option<map<string, string>>)

  /** The properties that may carry the ISO 3166-1 alpha-3 code, in order of preference. */
  const IsoKeys: seq<string> := ["ISO3166-1-Alpha-3", "ISO_A3", "ADM0_A3", "SOV_A3"]

  /** The properties that may carry the continent, in order of preference. */
  const ContinentKeys: seq<string> := ["CONTINENT", "continent", "CONTINENT_OCE", "region_un", "subregion"]

  /** `f.properties || {}`. */
  function Props(f: Feature): map<string, string> {
    if f.properties.Some? then f.properties.value else map[]
  }

  /** `keys[i]` is the first of `keys` present in `p` with a non-empty value. */
  predicate FirstAt(p: map<string, string>, keys: seq<string>, i: int) {
    && 0 <= i < |keys| && keys[i] in p && p[keys[i]] != ""
    && forall j :: 0 <= j < i ==> keys[j] !in p || p[keys[j]] == ""
  }

  /** The first present key is the one `FirstPresent` picks. */
  lemma FirstAtPresent(p: map<string, string>, keys: seq<string>, i: int)
    requires FirstAt(p, keys, i)
    ensures FirstPresent(p, keys) == Some(p[keys[i]])
  {
    var r := FirstPresent(p, keys);
    var k :| && 0 <= k < |keys| && keys[k] in p && p[keys[k]] == r.value && r.value != ""
             && forall j :: 0 <= j < k ==> keys[j] !in p || p[keys[j]] == "";
    assert k == i;
  }

  /** `p[k1] || p[k2] || … || ""`: the first non-empty property among `keys`. */
  function FirstTruthy(p: map<string, string>, keys: seq<string>): string {
    var v := FirstPresent(p, keys);
    if v.Some? then v.value else ""
  }

  /** The (code, continent) pair a feature contributes, if any: the code trimmed and
      upper-cased, the continent trimmed, both non-empty. */
  function FeatureEntry(f: Feature): Option<(string, string)>
  {
    var p := Props(f);
    var iso := CleanCode(FirstTruthy(p, IsoKeys));
    var cont := Trim(FirstTruthy(p, ContinentKeys));
    if iso != "" && cont != "" then Some((iso, cont)) else None
  }

  /** What a feature contributes is a non-empty code with no surrounding white space and
      no lower-case letter, and a non-empty continent with no surrounding white space;
      a feature without properties contributes nothing. */
  lemma FeatureEntrySpec(f: Feature)
    ensures f.properties.None? ==> FeatureEntry(f).None?
    ensures FeatureEntry(f).Some? ==>
              var (iso, cont) := FeatureEntry(f).value;
              && iso != "" && !IsSpace(iso[0]) && !IsSpace(iso[|iso| - 1])
              && (forall i :: 0 <= i < |iso| ==> !('a' <= iso[i] <= 'z'))
              && cont != "" && !IsSpace(cont[0]) && !IsSpace(cont[|cont| - 1])
  {
    var p := Props(f);
    var t := Trim(FirstTruthy(p, IsoKeys));
    var cont := Trim(FirstTruthy(p, ContinentKeys));
    if f.properties.None? {
      assert FirstTruthy(p, IsoKeys) == "";
      TrimEmpty("");
    }
    if FeatureEntry(f).Some? {
      TrimSpec(FirstTruthy(p, IsoKeys));
      TrimSpec(FirstTruthy(p, ContinentKeys));
      ToUpperSpec(t);
      UpperKeepsSpace(t[0]);
      UpperKeepsSpace(t[|t| - 1]);
    }
  }

  /** A feature is ignored when no ISO key, or no continent key, is present with a
      non-empty value. A contributed pair is the cleaned value of the first ISO key present
      with a non-empty value (`ISO3166-1-Alpha-3`, then `ISO_A3`, `ADM0_A3`, `SOV_A3`) and
      the trimmed value of the first such continent key; conversely, when both cleaned
      values are non-empty, the feature contributes them. */
  lemma FeatureEntryReads(f: Feature)
    ensures var p := Props(f);
            (forall k :: 0 <= k < |IsoKeys| ==> IsoKeys[k] !in p || p[IsoKeys[k]] == "") ==> FeatureEntry(f).None?
    ensures var p := Props(f);
            (forall k :: 0 <= k < |ContinentKeys| ==> ContinentKeys[k] !in p || p[ContinentKeys[k]] == "") ==> FeatureEntry(f).None?
    ensures var p := Props(f);
            FeatureEntry(f).Some? ==>
              && (exists i :: FirstAt(p, IsoKeys, i) && FeatureEntry(f).value.0 == CleanCode(p[IsoKeys[i]]))
              && (exists j :: FirstAt(p, ContinentKeys, j) && FeatureEntry(f).value.1 == Trim(p[ContinentKeys[j]]))
    ensures var p := Props(f);
            forall i, j :: FirstAt(p, IsoKeys, i) && FirstAt(p, ContinentKeys, j)
                           && CleanCode(p[IsoKeys[i]]) != "" && Trim(p[ContinentKeys[j]]) != "" ==>
                             FeatureEntry(f) == Some((CleanCode(p[IsoKeys[i]]), Trim(p[ContinentKeys[j]])))
  {
    var p := Props(f);
    TrimEmpty("");
    assert CleanCode("") == "";
    forall i, j | FirstAt(p, IsoKeys, i) && FirstAt(p, ContinentKeys, j)
      ensures FirstTruthy(p, IsoKeys) == p[IsoKeys[i]] && FirstTruthy(p, ContinentKeys) == p[ContinentKeys[j]]
    {
      FirstAtPresent(p, IsoKeys, i);
      FirstAtPresent(p, ContinentKeys, j);
    }
  }

  /** The map `map.set` builds from a list of (code, continent) pairs: a later pair for
      the same code overwrites an earlier one. */
  function Assign(ps: seq<(string, string)>): map<string, string>
    decreases |ps|
  {
    if ps == [] then map[]
    else Assign(ps[..|ps| - 1])[ps[|ps| - 1].0 := ps[|ps| - 1].1]
  }

  lemma AssignSnoc(ps: seq<(string, string)>, p: (string, string))
    ensures Assign(ps + [p]) == Assign(ps)[p.0 := p.1]
  {
    assert (ps + [p])[..|ps|] == ps;
  }

  /** A code is set exactly when some pair has it. */
  lemma {:induction false} AssignMembers(ps: seq<(string, string)>, c: string)
    ensures c in Assign(ps) <==> exists i :: 0 <= i < |ps| && ps[i].0 == c
    decreases |ps|
  {
    if ps != [] {
      var n := |ps| - 1;
      AssignMembers(ps[..n], c);
      assert forall j :: 0 <= j < n ==> ps[..n][j] == ps[j];
    }
  }

  /** A code that is set holds the continent of the last pair that has it. */
  lemma {:induction false} AssignLastWins(ps: seq<(string, string)>, c: string) returns (i: nat)
    requires c in Assign(ps)
    ensures i < |ps| && ps[i] == (c, Assign(ps)[c])
    ensures forall j :: i < j < |ps| ==> ps[j].0 != c
    decreases |ps|
  {
    var n := |ps| - 1;
    if ps[n].0 == c {
      i := n;
    } else {
      var init := ps[..n];
      assert Assign(ps)[c] == Assign(init)[c];
      i := AssignLastWins(init, c);
      assert init[i] == ps[i];
      forall j | i < j < |ps| ensures ps[j].0 != c {
        if j < n {
          assert init[j] == ps[j];
        }
      }
    }
  }

  /** The pairs the features contribute, in order. */
  function GeoPairs(fs: seq<Feature>): seq<(string, string)> {
    FilterMap(fs, FeatureEntry)
  }

  /** The map after the GeoJSON loop. */
  function GeoMap(fs: seq<Feature>): map<string, string> {
    Assign(GeoPairs(fs))
  }

  /** A code is set from a filtered list exactly when some element yields a pair with it. */
  lemma AssignFilterMapMembers<A>(xs: seq<A>, f: A -> Option<(string, string)>, c: string)
    ensures c in Assign(FilterMap(xs, f)) <==> exists i :: 0 <= i < |xs| && f(xs[i]).Some? && f(xs[i]).value.0 == c
  {
    var ps := FilterMap(xs, f);
    AssignMembers(ps, c);
    if c in Assign(ps) {
      var k :| 0 <= k < |ps| && ps[k].0 == c;
      FilterMapSource(xs, f, ps[k]);
    }
    if exists i :: 0 <= i < |xs| && f(xs[i]).Some? && f(xs[i]).value.0 == c {
      var i :| 0 <= i < |xs| && f(xs[i]).Some? && f(xs[i]).value.0 == c;
      var k := FilterMapKept(xs, f, i);
    }
  }

  /** A kept pair is computed for some element. */
  lemma FilterMapSource<A>(xs: seq<A>, f: A -> Option<(string, string)>, p: (string, string))
    requires p in FilterMap(xs, f)
    ensures exists i :: 0 <= i < |xs| && f(xs[i]) == Some(p)
  {
    FilterMapMembers(xs, f);
  }

  /** The pair computed for `xs[i]` is kept, at some position `k`. */
  lemma {:induction false} FilterMapKept<A>(xs: seq<A>, f: A -> Option<(string, string)>, i: nat) returns (k: nat)
    requires i < |xs| && f(xs[i]).Some?
    ensures k < |FilterMap(xs, f)| && FilterMap(xs, f)[k] == f(xs[i]).value
    decreases |xs|
  {
    var n := |xs| - 1;
    if i == n {
      k := |FilterMap(xs, f)| - 1;
    } else {
      k := FilterMapKept(xs[..n], f, i);
      assert xs[..n][i] == xs[i];
    }
  }

  /** A code is in the GeoJSON map exactly when some feature contributes it. */
  lemma GeoMapMembers(fs: seq<Feature>, c: string)
    ensures c in GeoMap(fs) <==> exists i :: 0 <= i < |fs| && FeatureEntry(fs[i]).Some? && FeatureEntry(fs[i]).value.0 == c
  {
    AssignFilterMapMembers(fs, FeatureEntry, c);
  }

  /** The continent of a code in the GeoJSON map is one a feature contributes with that
      code, and no later contribution has that code: the last feature wins. */
  lemma GeoMapLastWins(fs: seq<Feature>, c: string)
    requires c in GeoMap(fs)
    ensures exists i :: 0 <= i < |fs| && FeatureEntry(fs[i]) == Some((c, GeoMap(fs)[c]))
    ensures var ps := GeoPairs(fs);
            exists i :: 0 <= i < |ps| && ps[i] == (c, GeoMap(fs)[c]) && forall j :: i < j < |ps| ==> ps[j].0 != c
  {
    var ps := GeoPairs(fs);
    var k := AssignLastWins(ps, c);
    FilterMapMembers(fs, FeatureEntry);
    assert ps[k] in ps;
  }

  /** One step of the GeoJSON loop: feature `fs[i]` sets its pair, if it has one. */
  lemma GeoStep(fs: seq<Feature>, i: nat)
    requires i < |fs|
    ensures var e := FeatureEntry(fs[i]);
            GeoMap(fs[..i + 1]) == if e.Some? then GeoMap(fs[..i])[e.value.0 := e.value.1] else GeoMap(fs[..i])
  {
    FilterMapStep(fs, i, FeatureEntry);
    var e := FeatureEntry(fs[i]);
    if e.Some? {
      AssignSnoc(GeoPairs(fs[..i]), e.value);
    } else {
      assert GeoPairs(fs[..i + 1]) == GeoPairs(fs[..i]);
    }
  }

  /** The GeoJSON map, empty when the file could not be fetched or has no feature list. */
  function GeoMapOf(features: Option<seq<Feature>>): map<string, string> {
    if features.Some? then GeoMap(features.value) else map[]
  }

  /* The `fallback` object of `buildContinentMap`: 208 codes, written out block by block
     in the source's order. Each block is split into displays of at most three source
     lines, which the solver can search far more cheaply than one display of 208. */

  /** Part 1 of the AFRICA block. */
  const Africa1: map<string, string> :=
    map[
      "DZA" := "Africa", "EGY" := "Africa", "MAR" := "Africa", "TUN" := "Africa", "LBY" := "Africa",
      "BFA" := "Africa", "BEN" := "Africa", "BWA" := "Africa", "BDI" := "Africa", "CMR" := "Africa",
      "CPV" := "Africa", "CAF" := "Africa", "TCD" := "Africa", "COM" := "Africa", "COD" := "Africa"
    ]

  /** Part 2 of the AFRICA block. */
  const Africa2: map<string, string> :=
    map[
      "COG" := "Africa", "CIV" := "Africa", "DJI" := "Africa", "ERI" := "Africa", "ETH" := "Africa",
      "GNQ" := "Africa", "GAB" := "Africa", "GMB" := "Africa", "GHA" := "Africa", "GIN" := "Africa",
      "GNB" := "Africa", "KEN" := "Africa", "LSO" := "Africa", "LBR" := "Africa", "MDG" := "Africa"
    ]

  /** Part 3 of the AFRICA block. */
  const Africa3: map<string, string> :=
    map[
      "MLI" := "Africa", "MRT" := "Africa", "MUS" := "Africa", "MOZ" := "Africa", "NAM" := "Africa",
      "NER" := "Africa", "NGA" := "Africa", "RWA" := "Africa", "STP" := "Africa", "SEN" := "Africa",
      "SYC" := "Africa", "SLE" := "Africa", "ZAF" := "Africa", "SSD" := "Africa", "SDN" := "Africa"
    ]

  /** Part 4 of the AFRICA block. */
  const Africa4: map<string, string> :=
    map[
      "SWZ" := "Africa", "TGO" := "Africa", "UGA" := "Africa", "TZA" := "Africa", "ZMB" := "Africa",
      "ZWE" := "Africa", "SOM" := "Africa"
    ]

  /** Part 1 of the AMERICAS block. */
  const Americas1: map<string, string> :=
    map[
      "USA" := "Americas", "CAN" := "Americas", "MEX" := "Americas", "GTM" := "Americas", "BLZ" := "Americas",
      "SLV" := "Americas", "HND" := "Americas", "NIC" := "Americas", "CRI" := "Americas", "PAN" := "Americas",
      "CUB" := "Americas", "DOM" := "Americas", "HTI" := "Americas", "JAM" := "Americas", "TTO" := "Americas"
    ]

  /** Part 2 of the AMERICAS block. */
  const Americas2: map<string, string> :=
    map[
      "BRB" := "Americas", "BHS" := "Americas", "ATG" := "Americas", "GRD" := "Americas", "DMA" := "Americas",
      "KNA" := "Americas", "VCT" := "Americas", "LCA" := "Americas", "GUY" := "Americas", "SUR" := "Americas",
      "VEN" := "Americas", "COL" := "Americas", "PER" := "Americas", "ECU" := "Americas", "BOL" := "Americas",
      "CHL" := "Americas", "ARG" := "Americas", "PRY" := "Americas", "URY" := "Americas", "BRA" := "Americas"
    ]

  /** Part 1 of the ASIA block. */
  const Asia1: map<string, string> :=
    map[
      "CHN" := "Asia", "IND" := "Asia", "JPN" := "Asia", "KOR" := "Asia", "PRK" := "Asia", "MNG" := "Asia",
      "AFG" := "Asia", "PAK" := "Asia", "BGD" := "Asia", "NPL" := "Asia", "LKA" := "Asia", "MDV" := "Asia",
      "BTN" := "Asia", "IRN" := "Asia", "IRQ" := "Asia", "ISR" := "Asia", "PSE" := "Asia", "JOR" := "Asia"
    ]

  /** Part 2 of the ASIA block, which lists Russia with "Europe". */
  const Asia2: map<string, string> :=
    map[
      "SAU" := "Asia", "ARE" := "Asia", "QAT" := "Asia", "KWT" := "Asia", "BHR" := "Asia", "OMN" := "Asia", "YEM" := "Asia",
      "TUR" := "Asia", "AZE" := "Asia", "ARM" := "Asia", "GEO" := "Asia", "KAZ" := "Asia", "KGZ" := "Asia",
      "TJK" := "Asia", "TKM" := "Asia", "UZB" := "Asia", "RUS" := "Europe"
    ]

  /** Part 3 of the ASIA block. */
  const Asia3: map<string, string> :=
    map[
      "IDN" := "Asia", "MYS" := "Asia", "SGP" := "Asia", "THA" := "Asia", "VNM" := "Asia", "LAO" := "Asia",
      "KHM" := "Asia", "MMR" := "Asia", "PHL" := "Asia", "BRN" := "Asia", "TLS" := "Asia"
    ]

  /** Part 1 of the EUROPE block. */
  const Europe1: map<string, string> :=
    map[
      "ALB" := "Europe", "AND" := "Europe", "AUT" := "Europe", "BLR" := "Europe", "BEL" := "Europe", "BIH" := "Europe",
      "BGR" := "Europe", "HRV" := "Europe", "CZE" := "Europe", "DNK" := "Europe", "EST" := "Europe", "FIN" := "Europe",
      "FRA" := "Europe", "DEU" := "Europe", "GRC" := "Europe", "HUN" := "Europe", "ISL" := "Europe", "IRL" := "Europe"
    ]

  /** Part 2 of the EUROPE block. */
  const Europe2: map<string, string> :=
    map[
      "ITA" := "Europe", "LVA" := "Europe", "LIE" := "Europe", "LTU" := "Europe", "LUX" := "Europe", "MLT" := "Europe",
      "MDA" := "Europe", "MCO" := "Europe", "MNE" := "Europe", "NLD" := "Europe", "MKD" := "Europe", "NOR" := "Europe",
      "POL" := "Europe", "PRT" := "Europe", "ROU" := "Europe", "SMR" := "Europe", "SRB" := "Europe", "SVK" := "Europe"
    ]

  /** Part 3 of the EUROPE block. */
  const Europe3: map<string, string> :=
    map[
      "SVN" := "Europe", "ESP" := "Europe", "SWE" := "Europe", "CHE" := "Europe", "UKR" := "Europe", "GBR" := "Europe",
      "VAT" := "Europe", "GIB" := "Europe", "IMN" := "Europe", "FRO" := "Europe"
    ]

  /** The OCEANIA block. */
  const Oceania: map<string, string> :=
    map[
      "AUS" := "Oceania", "NZL" := "Oceania", "PNG" := "Oceania", "SLB" := "Oceania", "VUT" := "Oceania",
      "FJI" := "Oceania", "TON" := "Oceania", "WSM" := "Oceania", "KIR" := "Oceania", "TUV" := "Oceania",
      "NRU" := "Oceania", "PLW" := "Oceania", "MHL" := "Oceania", "COK" := "Oceania", "NIU" := "Oceania",
      "NCL" := "Oceania", "PYF" := "Oceania", "NFK" := "Oceania", "GUM" := "Oceania"
    ]

  /** The OTHER / TERRITORIES block. */
  const Territories: map<string, string> :=
    map[
      "HKG" := "Asia", "MAC" := "Asia", "TWN" := "Asia", "XKX" := "Europe", "GRL" := "Americas",
      "REU" := "Africa", "MYT" := "Africa", "ATF" := "Africa", "SHN" := "Africa", "ESH" := "Africa"
    ]

  /** The parts of the table, in the source's order. */
  const FallbackParts: seq<map<string, string>> := [
    Africa1, Africa2, Africa3, Africa4, Americas1, Americas2, Asia1,
    Asia2, Asia3, Europe1, Europe2, Europe3, Oceania, Territories
  ]

  /** The union of `parts`, a later part winning for a code two parts list. */
  function Merged(parts: seq<map<string, string>>): map<string, string>
    decreases |parts|
  {
    if parts == [] then map[] else Merged(parts[..|parts| - 1]) + parts[|parts| - 1]
  }

  /** The whole fallback table. */
  const Fallback: map<string, string> := Merged(FallbackParts)

  /** `base` completed by `extra` on the codes it lacks: a code `base` has keeps its
      continent. */
  function Overlay(base: map<string, string>, extra: map<string, string>): map<string, string> {
    map c | c in base.Keys + extra.Keys :: if c in base then base[c] else extra[c]
  }

  /** The overlay holds the codes of both maps, and over an empty map it is `extra`. */
  lemma OverlaySpec(base: map<string, string>, extra: map<string, string>)
    ensures Overlay(base, extra).Keys == base.Keys + extra.Keys
    ensures base == map[] ==> Overlay(base, extra) == extra
  {
  }

  /** The map `buildContinentMap` returns for the given feature list. */
  function ContinentMapOf(features: Option<seq<Feature>>): (r: map<string, string>)
    ensures r.Keys == GeoMapOf(features).Keys + Fallback.Keys
    ensures features.None? ==> r == Fallback
  {
    OverlaySpec(GeoMapOf(features), Fallback);
    Overlay(GeoMapOf(features), Fallback)
  }

  /** `buildContinentMap`: read the continent of every GeoJSON feature, then add the
      fixed table's entries for the codes still missing. `features` is `None` when the
      fetch failed or the document has no feature list. The table's entries are added
      in any order: each code occurs once in it and is added only when missing, so the
      order does not change the result. */
  method BuildContinentMap(features: Option<seq<Feature>>) returns (m: map<string, string>)
    ensures m == ContinentMapOf(features)
  {
    m := map[];
    if features.Some? {
      var fs := features.value;
      for i := 0 to |fs|
        invariant m == GeoMap(fs[..i])
      {
        GeoStep(fs, i);
        var e := FeatureEntry(fs[i]);
        if e.Some? {
          m := m[e.value.0 := e.value.1];
        }
      }
      assert fs[..|fs|] == fs;
    }
    m := AddMissing(m, Fallback);
  }

  /** The overlay loop: every entry of `extra` whose code `m` lacks is added. */
  method AddMissing(base: map<string, string>, extra: map<string, string>) returns (m: map<string, string>)
    ensures m == Overlay(base, extra)
  {
    m := base;
    var todo := extra.Keys;
    while todo != {}
      invariant todo <= extra.Keys
      invariant m == Overlay(base, map c | c in extra.Keys - todo :: extra[c])
      decreases todo
    {
      var iso :| iso in todo;
      if iso !in m {
        m := m[iso := extra[iso]];
      }
      todo := todo - {iso};
    }
    assert (map c | c in extra.Keys - {} :: extra[c]) == extra;
  }

  /** A code some feature contributes keeps the continent of the last feature that
      contributes it, whatever the table says. */
  lemma GeoJsonLabelWins(fs: seq<Feature>, c: string)
    requires exists i :: 0 <= i < |fs| && FeatureEntry(fs[i]).Some? && FeatureEntry(fs[i]).value.0 == c
    ensures c in GeoMap(fs) && c in ContinentMapOf(Some(fs))
    ensures ContinentMapOf(Some(fs))[c] == GeoMap(fs)[c]
    ensures var ps := GeoPairs(fs);
            exists i :: && 0 <= i < |ps| && ps[i] == (c, ContinentMapOf(Some(fs))[c])
                        && forall j :: i < j < |ps| ==> ps[j].0 != c
  {
    GeoMapMembers(fs, c);
    GeoMapLastWins(fs, c);
  }

  /** A code no feature contributes takes the table's continent, when the table has it. */
  lemma FallbackFillsGaps(fs: seq<Feature>, c: string)
    requires forall i :: 0 <= i < |fs| ==> FeatureEntry(fs[i]).None? || FeatureEntry(fs[i]).value.0 != c
    requires c in Fallback
    ensures c in ContinentMapOf(Some(fs)) && ContinentMapOf(Some(fs))[c] == Fallback[c]
  {
    GeoMapMembers(fs, c);
  }

  /** The table places Russia in Europe, so unless a feature says otherwise, so does the map. */
  lemma RussiaInEurope(fs: seq<Feature>)
    requires forall i :: 0 <= i < |fs| ==> FeatureEntry(fs[i]).None? || FeatureEntry(fs[i]).value.0 != "RUS"
    ensures "RUS" in ContinentMapOf(Some(fs)) && ContinentMapOf(Some(fs))["RUS"] == "Europe"
  {
    FallbackRussia();
    FallbackFillsGaps(fs, "RUS");
  }

  /** Every continent in `m` is a non-empty name without surrounding white space. */
  predicate TrimmedContinents(m: map<string, string>) {
    forall c :: c in m ==> m[c] != "" && !IsSpace(m[c][0]) && !IsSpace(m[c][|m[c]| - 1])
  }

  lemma OverlayTrimmed(base: map<string, string>, extra: map<string, string>)
    requires TrimmedContinents(base) && TrimmedContinents(extra)
    ensures TrimmedContinents(Overlay(base, extra))
  {
  }

  lemma GeoMapEntryTrimmed(fs: seq<Feature>, c: string)
    requires c in GeoMap(fs)
    ensures var cont := GeoMap(fs)[c];
            cont != "" && !IsSpace(cont[0]) && !IsSpace(cont[|cont| - 1])
  {
    GeoMapLastWins(fs, c);
    var i :| 0 <= i < |fs| && FeatureEntry(fs[i]) == Some((c, GeoMap(fs)[c]));
    FeatureEntrySpec(fs[i]);
  }

  lemma GeoMapTrimmed(fs: seq<Feature>)
    ensures TrimmedContinents(GeoMap(fs))
  {
    forall c | c in GeoMap(fs) {
      GeoMapEntryTrimmed(fs, c);
    }
  }

  /** Every continent in the map is a non-empty name without surrounding white space. */
  lemma ContinentsNonEmpty(features: Option<seq<Feature>>)
    ensures TrimmedContinents(ContinentMapOf(features))
  {
    if features.Some? {
      GeoMapTrimmed(features.value);
    }
    FallbackNames();
    NamesTrimmed(Fallback);
    OverlayTrimmed(GeoMapOf(features), Fallback);
  }

  /** The five continent names the fallback table uses. */
  const FallbackContinents: seq<string> := ["Africa", "Americas", "Asia", "Europe", "Oceania"]

  /** Every continent in `m` is one of the five names. */
  predicate NamesOnly(m: map<string, string>) {
    forall c :: c in m ==> m[c] in FallbackContinents
  }

  lemma {:induction false} MergedNames(parts: seq<map<string, string>>)
    requires forall k :: 0 <= k < |parts| ==> NamesOnly(parts[k])
    ensures NamesOnly(Merged(parts))
    decreases |parts|
  {
    if parts != [] {
      MergedNames(parts[..|parts| - 1]);
    }
  }

  /* Each part names only the five continents; one lemma per part keeps each proof small. */

  lemma Africa1Names()
    ensures NamesOnly(FallbackParts[0])
  {
  }

  lemma Africa2Names()
    ensures NamesOnly(FallbackParts[1])
  {
  }

  lemma Africa3Names()
    ensures NamesOnly(FallbackParts[2])
  {
  }

  lemma Africa4Names()
    ensures NamesOnly(FallbackParts[3])
  {
  }

  lemma Americas1Names()
    ensures NamesOnly(FallbackParts[4])
  {
  }

  lemma Americas2Names()
    ensures NamesOnly(FallbackParts[5])
  {
  }

  lemma Asia1Names()
    ensures NamesOnly(FallbackParts[6])
  {
  }

  lemma Asia2Names()
    ensures NamesOnly(FallbackParts[7])
  {
  }

  lemma Asia3Names()
    ensures NamesOnly(FallbackParts[8])
  {
  }

  lemma Europe1Names()
    ensures NamesOnly(FallbackParts[9])
  {
  }

  lemma Europe2Names()
    ensures NamesOnly(FallbackParts[10])
  {
  }

  lemma Europe3Names()
    ensures NamesOnly(FallbackParts[11])
  {
  }

  lemma OceaniaNames()
    ensures NamesOnly(FallbackParts[12])
  {
  }

  lemma TerritoriesNames()
    ensures NamesOnly(FallbackParts[13])
  {
  }

  /** The five names are non-empty and carry no surrounding white space. */
  lemma NamesTrimmed(m: map<string, string>)
    requires NamesOnly(m)
    ensures TrimmedContinents(m)
  {
  }

  /** Part `k` names only the five continents. */
  lemma PartNames(k: nat)
    requires k < |FallbackParts|
    ensures NamesOnly(FallbackParts[k])
  {
    if k == 0 {
      Africa1Names();
    } else if k == 1 {
      Africa2Names();
    } else if k == 2 {
      Africa3Names();
    } else if k == 3 {
      Africa4Names();
    } else if k == 4 {
      Americas1Names();
    } else if k == 5 {
      Americas2Names();
    } else if k == 6 {
      Asia1Names();
    } else if k == 7 {
      Asia2Names();
    } else if k == 8 {
      Asia3Names();
    } else if k == 9 {
      Europe1Names();
    } else if k == 10 {
      Europe2Names();
    } else if k == 11 {
      Europe3Names();
    } else if k == 12 {
      OceaniaNames();
    } else {
      TerritoriesNames();
    }
  }

  /** No part after the one listing Russia lists it again. */
  lemma RussiaNotInLaterPart(k: nat)
    requires 7 < k < |FallbackParts|
    ensures "RUS" !in FallbackParts[k]
  {
    if k == 8 {
      RussiaNotInAsia3();
    } else if k == 9 {
      RussiaNotInEurope1();
    } else if k == 10 {
      RussiaNotInEurope2();
    } else if k == 11 {
      RussiaNotInEurope3();
    } else if k == 12 {
      RussiaNotInOceania();
    } else {
      RussiaNotInTerritories();
    }
  }

  /** The table names only Africa, Americas, Asia, Europe and Oceania. */
  lemma FallbackNames()
    ensures NamesOnly(Fallback)
  {
    forall k | 0 <= k < |FallbackParts|
      ensures NamesOnly(FallbackParts[k])
    {
      PartNames(k);
    }
    MergedNames(FallbackParts);
  }

  /** A code listed by part `k` and by no later part takes part `k`'s continent. */
  lemma {:induction false} MergedAt(parts: seq<map<string, string>>, k: nat, c: string)
    requires k < |parts| && c in parts[k]
    requires forall j :: k < j < |parts| ==> c !in parts[j]
    ensures c in Merged(parts) && Merged(parts)[c] == parts[k][c]
    decreases |parts|
  {
    if k < |parts| - 1 {
      MergedAt(parts[..|parts| - 1], k, c);
    }
  }

  /* Russia is listed in `FallbackParts[7]`, the second part of the ASIA block, and in no later part. */

  lemma RussiaInAsia2()
    ensures "RUS" in FallbackParts[7] && FallbackParts[7]["RUS"] == "Europe"
  {
  }

  lemma RussiaNotInAsia3()
    ensures "RUS" !in FallbackParts[8]
  {
  }

  lemma RussiaNotInEurope1()
    ensures "RUS" !in FallbackParts[9]
  {
  }

  lemma RussiaNotInEurope2()
    ensures "RUS" !in FallbackParts[10]
  {
  }

  lemma RussiaNotInEurope3()
    ensures "RUS" !in FallbackParts[11]
  {
  }

  lemma RussiaNotInOceania()
    ensures "RUS" !in FallbackParts[12]
  {
  }

  lemma RussiaNotInTerritories()
    ensures "RUS" !in FallbackParts[13]
  {
  }

  /** The table lists Russia with Europe, and no later block lists it again. */
  lemma FallbackRussia()
    ensures "RUS" in Fallback && Fallback["RUS"] == "Europe"
  {
    RussiaInAsia2();
    forall j | 7 < j < |FallbackParts|
      ensures "RUS" !in FallbackParts[j]
    {
      RussiaNotInLaterPart(j);
    }
    MergedAt(FallbackParts, 7, "RUS");
  }
}
