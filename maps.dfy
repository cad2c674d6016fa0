/** The joins behind the map panels and the quick-compare table: the
    electricity-minus-internet gap per country (`renderMaps`), the top-ten table
    (`renderTop10`) and the quick-compare figures (`rowFor`). All of them start from the
    latest finite record per code. */
module Maps {
  import opened Wrappers
  import opened Records
  import opened Series

  // ------------------------------------------------------------------ gap map

  /** One entry of the gap map: electricity access minus internet use, in points. */
  datatype GapRow = GapRow(code: string, country: string, gap: real)

  /** The gap entry for `code` from its latest internet and latest electricity record,
      when both exist. */
  function GapFor(iu: seq<Obs>, elec: seq<Obs>, code: string): Option<GapRow>
  {
    var u := BestOf(iu, code, None);
    var e := BestOf(elec, code, None);
    if u.Some? && e.Some? && e.value.value.Some? && u.value.value.Some? then
      Some(GapRow(code, FirstName(u.value.country, e.value.country, code),
                  e.value.value.value - u.value.value.value))
    else None
  }

  /** A code has a gap entry exactly when it has a latest finite record in both series;
      the entry is for that code and its gap is the difference of the two records. */
  lemma GapForSpec(iu: seq<Obs>, elec: seq<Obs>, code: string)
    ensures GapFor(iu, elec, code).Some? <==> BestOf(iu, code, None).Some? && BestOf(elec, code, None).Some?
    ensures GapFor(iu, elec, code).Some? ==>
              && GapFor(iu, elec, code).value.code == code
              && exists i, j :: && IsFirstLatest(iu, i, code, None) && IsFirstLatest(elec, j, code, None)
                                && GapFor(iu, elec, code).value.gap == elec[j].value.value - iu[i].value.value
  {
    BestOfQualifies(iu, code, None);
    BestOfQualifies(elec, code, None);
    if GapFor(iu, elec, code).Some? {
      BestOfSome(iu, code, None);
      BestOfSome(elec, code, None);
    }
  }

  /** The gap entry of each code, as a function to map over the codes. */
  function GapEntry(iu: seq<Obs>, elec: seq<Obs>): string -> Option<GapRow>
  {
    c => GapFor(iu, elec, c)
  }

  /** The gap entries, in the order the internet map's keys were inserted. */
  function GapRowsOf(iu: seq<Obs>, elec: seq<Obs>): seq<GapRow>
  {
    FilterMap(Distinct(QualifyingCodes(iu, None)), GapEntry(iu, elec))
  }

  /** An entry is in the gap map exactly when it is the gap entry of its own code. */
  lemma GapRowsMembers(iu: seq<Obs>, elec: seq<Obs>, g: GapRow)
    ensures g in GapRowsOf(iu, elec) <==> GapFor(iu, elec, g.code) == Some(g)
  {
    var keys := Distinct(QualifyingCodes(iu, None));
    var f := GapEntry(iu, elec);
    FilterMapMembers(keys, f);
    GapForSpec(iu, elec, g.code);
    if GapFor(iu, elec, g.code) == Some(g) {
      BestOfSome(iu, g.code, None);
      var i :| IsFirstLatest(iu, i, g.code, None) && iu[i] == BestOf(iu, g.code, None).value;
      assert g.code in QualifyingCodes(iu, None);
      var k :| 0 <= k < |keys| && keys[k] == g.code;
      assert f(keys[k]) == Some(g);
    }
    if g in GapRowsOf(iu, elec) {
      var k :| 0 <= k < |keys| && f(keys[k]) == Some(g);
      GapForSpec(iu, elec, keys[k]);
    }
  }

  /** One step of the gap loop, in terms of the two records the scans keep for the
      code at hand. */
  lemma GapStep(iu: seq<Obs>, elec: seq<Obs>, keys: seq<string>, i: nat, u: Obs, e: Option<Obs>)
    requires i < |keys|
    requires BestOf(iu, keys[i], None) == Some(u) && BestOf(elec, keys[i], None) == e
    ensures FilterMap(keys[..i + 1], GapEntry(iu, elec))
            == FilterMap(keys[..i], GapEntry(iu, elec))
               + if e.Some? && e.value.value.Some? && u.value.Some?
                 then [GapRow(keys[i], FirstName(u.country, e.value.country, keys[i]), e.value.value.value - u.value.value)]
                 else []
  {
    FilterMapStep(keys, i, GapEntry(iu, elec));
  }

  /** The gap loop of `renderMaps`: walk the latest internet records and keep those
      whose code has a latest electricity record, both finite. */
  method GapRows(iu: seq<Obs>, elec: seq<Obs>) returns (gapVals: seq<GapRow>)
    ensures gapVals == GapRowsOf(iu, elec)
  {
    var keys, latestIU := LatestPerCode(iu, None);
    var elecKeys, latestElec := LatestPerCode(elec, None);
    gapVals := JoinLatest(iu, elec, keys, latestIU, latestElec);
  }

  /** The loop body of `renderMaps` over the two latest-record maps: for each code of
      `keys`, its internet record from `latestIU` and, when `latestElec` has one, its
      electricity record. */
  method JoinLatest(iu: seq<Obs>, elec: seq<Obs>, keys: seq<string>,
                    latestIU: map<string, Obs>, latestElec: map<string, Obs>)
    returns (gapVals: seq<GapRow>)
    requires forall c :: c in keys ==> c in latestIU && BestOf(iu, c, None) == Some(latestIU[c])
    requires forall c :: BestOf(elec, c, None) == if c in latestElec then Some(latestElec[c]) else None
    ensures gapVals == FilterMap(keys, GapEntry(iu, elec))
  {
    gapVals := [];
    for i := 0 to |keys|
      invariant gapVals == FilterMap(keys[..i], GapEntry(iu, elec))
    {
      var code := keys[i];
      var u := latestIU[code];
      var e := if code in latestElec then Some(latestElec[code]) else None;
      GapStep(iu, elec, keys, i, u, e);
      if e.Some? && e.value.value.Some? && u.value.Some? {
        gapVals := gapVals + [GapRow(code, FirstName(u.country, e.value.country, code), e.value.value.value - u.value.value)];
      }
    }
    assert keys[..|keys|] == keys;
  }

  /** Why a render step stops: iterating a series that is `null`. */
  datatype RenderError = NotIterable

  /** `renderMaps` as written hands the electricity loader's result to `latestByCode`
      without the `|| []` guard, so a missing electricity file throws there, and the
      boot sequence, which awaits `renderMaps` first, renders nothing after it. */
  function GapMapAsWritten(iu: seq<Obs>, elec: Option<seq<Obs>>): (r: Result<seq<GapRow>, RenderError>)
  {
    if elec.None? then Failure(NotIterable) else Success(GapRowsOf(iu, elec.value))
  }

  /** The gap map with the guard the quick-compare panel uses: a missing electricity file
      means no gap entries. */
  function GapMap(iu: seq<Obs>, elec: Option<seq<Obs>>): (r: seq<GapRow>)
  {
    GapRowsOf(iu, OrEmpty(elec))
  }

  /** Without electricity records no code has a gap entry. */
  lemma GapWithoutElectricity(iu: seq<Obs>)
    ensures GapMap(iu, None) == []
  {
    var keys := Distinct(QualifyingCodes(iu, None));
    var f := GapEntry(iu, []);
    forall i | 0 <= i < |keys| ensures f(keys[i]).None? {
      BestOfNone([], keys[i], None);
    }
    FilterMapEmpty(keys, f);
  }

  /** The guarded gap map holds exactly the gap entries of the codes that have one, and
      agrees with the code as written whenever the electricity file loads. */
  lemma GapMapSpec(iu: seq<Obs>, elec: Option<seq<Obs>>)
    ensures forall g :: g in GapMap(iu, elec) <==> GapFor(iu, OrEmpty(elec), g.code) == Some(g)
    ensures elec.Some? ==> GapMapAsWritten(iu, elec) == Success(GapMap(iu, elec))
  {
    forall g ensures g in GapMap(iu, elec) <==> GapFor(iu, OrEmpty(elec), g.code) == Some(g) {
      GapRowsMembers(iu, OrEmpty(elec), g);
    }
  }

  /** With the internet series loaded and the electricity file missing, the code as
      written fails where the guarded version draws an empty gap map. */
  lemma MissingElectricityAborts(iu: seq<Obs>)
    ensures GapMapAsWritten(iu, None) == Failure(NotIterable)
    ensures GapMap(iu, None) == []
  {
    GapWithoutElectricity(iu);
  }

  // ------------------------------------------------------------- quick compare

  /** The three figures the quick-compare table shows for a code. */
  datatype QuickRow = QuickRow(internet: Option<real>, gdpPc: Option<real>, gap: Option<real>)

  /** `rowFor(code)`: the latest internet and GDP values and, when both the latest
      electricity and internet values exist, their difference. */
  function QuickRowFor(iu: seq<Obs>, gdp: Option<seq<Obs>>, elec: Option<seq<Obs>>, code: string): QuickRow
  {
    var internet := LatestValue(iu, code, None);
    var el := LatestValue(OrEmpty(elec), code, None);
    QuickRow(internet, LatestValue(OrEmpty(gdp), code, None),
             if el.Some? && internet.Some? then Some(el.value - internet.value) else None)
  }

  /** The gap figure agrees with the gap map: it is present exactly when the code has a
      gap entry, and then it is that entry's gap. A missing file yields no figure. */
  lemma QuickGapMatchesMap(iu: seq<Obs>, gdp: Option<seq<Obs>>, elec: Option<seq<Obs>>, code: string)
    ensures QuickRowFor(iu, gdp, elec, code).gap.Some? <==> GapFor(iu, OrEmpty(elec), code).Some?
    ensures GapFor(iu, OrEmpty(elec), code).Some? ==>
              QuickRowFor(iu, gdp, elec, code).gap.value == GapFor(iu, OrEmpty(elec), code).value.gap
    ensures elec.None? ==> QuickRowFor(iu, gdp, elec, code).gap.None?
    ensures gdp.None? ==> QuickRowFor(iu, gdp, elec, code).gdpPc.None?
  {
    BestOfQualifies(iu, code, None);
    BestOfQualifies(OrEmpty(elec), code, None);
    BestOfNone([], code, None);
  }

  // ------------------------------------------------------------------- top ten

  /** The latest finite record of every code, in the map's insertion order. */
  function LatestRecords(iu: seq<Obs>): seq<Obs>
  {
    FilterMap(Distinct(QualifyingCodes(iu, None)), c => BestOf(iu, c, None))
  }

  /** `Math.max` of the years; `None` stands for the `-Infinity` of an empty list. */
  function MaxYear(s: seq<Obs>): (y: Option<real>)
    decreases |s|
  {
    if s == [] then None
    else
      var m := MaxYear(s[..|s| - 1]);
      var x := s[|s| - 1].year;
      if m.Some? && m.value >= x then m else Some(x)
  }

  /** There is a greatest year exactly when the list is not empty; it is attained and
      no year exceeds it. */
  lemma {:induction false} MaxYearSpec(s: seq<Obs>)
    ensures MaxYear(s).None? <==> s == []
    ensures MaxYear(s).Some? ==> (exists i :: 0 <= i < |s| && s[i].year == MaxYear(s).value)
    ensures MaxYear(s).Some? ==> forall i :: 0 <= i < |s| ==> s[i].year <= MaxYear(s).value
    decreases |s|
  {
    if s != [] {
      var init := s[..|s| - 1];
      MaxYearSpec(init);
      assert forall i :: 0 <= i < |init| ==> init[i] == s[i];
      if MaxYear(init).Some? && MaxYear(init).value >= s[|s| - 1].year {
        var i :| 0 <= i < |init| && init[i].year == MaxYear(init).value;
        assert s[i].year == MaxYear(s).value;
      } else {
        assert s[|s| - 1].year == MaxYear(s).value;
      }
    }
  }

  /** The number each ranking compares: the record's value. */
  function Score(o: Obs): real {
    if o.value.Some? then o.value.value else 0.0
  }

  ghost predicate Descending(s: seq<Obs>) {
    forall i, j :: 0 <= i < j < |s| ==> Score(s[j]) <= Score(s[i])
  }

  /** Insert `x` after every element scoring at least as much. */
  function InsertDesc(x: Obs, s: seq<Obs>): (r: seq<Obs>)
    ensures multiset(r) == multiset(s) + multiset{x}
    decreases |s|
  {
    if s == [] then [x]
    else if Score(s[0]) >= Score(x) then
      assert s == [s[0]] + s[1..];
      [s[0]] + InsertDesc(x, s[1..])
    else [x] + s
  }

  /** Inserting into a descending list keeps it descending. */
  lemma {:induction false} InsertDescSorted(x: Obs, s: seq<Obs>)
    requires Descending(s)
    ensures Descending(InsertDesc(x, s))
    decreases |s|
  {
    if s != [] && Score(s[0]) >= Score(x) {
      var tail := s[1..];
      InsertDescSorted(x, tail);
      forall k | 0 <= k < |tail| ensures Score(tail[k]) <= Score(s[0]) {
        assert tail[k] == s[k + 1];
      }
      ScoresAtMost(InsertDesc(x, tail), tail, x, Score(s[0]));
      ConsDescending(s[0], InsertDesc(x, tail));
    }
  }

  /** A list holding the elements of `tail` and `x` scores no more than a bound they all
      respect. */
  lemma ScoresAtMost(t: seq<Obs>, tail: seq<Obs>, x: Obs, b: real)
    requires multiset(t) == multiset(tail) + multiset{x}
    requires forall k :: 0 <= k < |tail| ==> Score(tail[k]) <= b
    requires Score(x) <= b
    ensures forall k :: 0 <= k < |t| ==> Score(t[k]) <= b
  {
    forall k | 0 <= k < |t| ensures Score(t[k]) <= b {
      assert t[k] in multiset(t);
      if t[k] != x {
        assert t[k] in multiset(tail);
        var m :| 0 <= m < |tail| && tail[m] == t[k];
      }
    }
  }

  /** A head scoring at least as much as a descending tail keeps the list descending. */
  lemma ConsDescending(h: Obs, t: seq<Obs>)
    requires Descending(t)
    requires forall k :: 0 <= k < |t| ==> Score(t[k]) <= Score(h)
    ensures Descending([h] + t)
  {
    var r := [h] + t;
    forall i, j | 0 <= i < j < |r| ensures Score(r[j]) <= Score(r[i]) {
      if i == 0 {
        assert r[j] == t[j - 1];
      } else {
        assert r[i] == t[i - 1] && r[j] == t[j - 1];
      }
    }
  }

  /** `sort((a, b) => b.internet - a.internet)`: each record inserted in turn, so equal
      scores keep their order. */
  function SortDesc(s: seq<Obs>): (r: seq<Obs>)
    ensures multiset(r) == multiset(s)
    decreases |s|
  {
    if s == [] then []
    else
      assert s == s[..|s| - 1] + [s[|s| - 1]];
      InsertDesc(s[|s| - 1], SortDesc(s[..|s| - 1]))
  }

  /** The sort orders by descending score. */
  lemma {:induction false} SortDescSorted(s: seq<Obs>)
    ensures Descending(SortDesc(s))
    decreases |s|
  {
    if s != [] {
      SortDescSorted(s[..|s| - 1]);
      InsertDescSorted(s[|s| - 1], SortDesc(s[..|s| - 1]));
    }
  }

  /** The records of `s` that score exactly `v`, in their order in `s`. */
  function ScoringExactly(s: seq<Obs>, v: real): seq<Obs>
    decreases |s|
  {
    if s == [] then [] else (if Score(s[0]) == v then [s[0]] else []) + ScoringExactly(s[1..], v)
  }

  lemma {:induction false} ScoringExactlyAppend(a: seq<Obs>, b: seq<Obs>, v: real)
    ensures ScoringExactly(a + b, v) == ScoringExactly(a, v) + ScoringExactly(b, v)
    decreases |a|
  {
    if a == [] {
      assert a + b == b;
    } else {
      var h := if Score(a[0]) == v then [a[0]] else [];
      assert ScoringExactly(a + b, v) == h + ScoringExactly(a[1..] + b, v) by {
        assert (a + b)[0] == a[0] && (a + b)[1..] == a[1..] + b;
      }
      ScoringExactlyAppend(a[1..], b, v);
      assert h + (ScoringExactly(a[1..], v) + ScoringExactly(b, v)) == ScoringExactly(a, v) + ScoringExactly(b, v);
    }
  }

  lemma ScoringExactlyOne(x: Obs, v: real)
    ensures ScoringExactly([x], v) == if Score(x) == v then [x] else []
  {
    assert [x][1..] == [];
  }

  lemma {:induction false} ScoringExactlyNone(s: seq<Obs>, v: real)
    requires forall k :: 0 <= k < |s| ==> Score(s[k]) < v
    ensures ScoringExactly(s, v) == []
    decreases |s|
  {
    if s != [] {
      assert forall k :: 0 <= k < |s| - 1 ==> s[1..][k] == s[k + 1];
      ScoringExactlyNone(s[1..], v);
    }
  }

  lemma DescendingTail(s: seq<Obs>)
    requires s != [] && Descending(s)
    ensures Descending(s[1..])
    ensures forall k :: 0 <= k < |s| ==> Score(s[k]) <= Score(s[0])
  {
    assert forall k :: 0 <= k < |s| - 1 ==> s[1..][k] == s[k + 1];
  }

  /** Inserting into a descending list puts `x` after every record scoring the same. */
  lemma {:induction false} InsertDescStable(x: Obs, s: seq<Obs>, v: real)
    requires Descending(s)
    ensures ScoringExactly(InsertDesc(x, s), v) == ScoringExactly(s, v) + ScoringExactly([x], v)
    decreases |s|
  {
    if s == [] {
      assert InsertDesc(x, s) == [x];
    } else if Score(s[0]) >= Score(x) {
      var tail := s[1..];
      DescendingTail(s);
      assert InsertDesc(x, s) == [s[0]] + InsertDesc(x, tail);
      calc {
        ScoringExactly(InsertDesc(x, s), v);
        { ScoringExactlyAppend([s[0]], InsertDesc(x, tail), v); }
        ScoringExactly([s[0]], v) + ScoringExactly(InsertDesc(x, tail), v);
        { InsertDescStable(x, tail, v); }
        ScoringExactly([s[0]], v) + (ScoringExactly(tail, v) + ScoringExactly([x], v));
        ScoringExactly([s[0]], v) + ScoringExactly(tail, v) + ScoringExactly([x], v);
        { ScoringExactlyAppend([s[0]], tail, v); assert [s[0]] + tail == s; }
        ScoringExactly(s, v) + ScoringExactly([x], v);
      }
    } else {
      assert InsertDesc(x, s) == [x] + s;
      ScoringExactlyAppend([x], s, v);
      ScoringExactlyOne(x, v);
      if Score(x) == v {
        DescendingTail(s);
        ScoringExactlyNone(s, v);
      }
    }
  }

  /** The sort is stable: the records of any one score keep their input order. */
  lemma {:induction false} SortDescStable(s: seq<Obs>, v: real)
    ensures ScoringExactly(SortDesc(s), v) == ScoringExactly(s, v)
    decreases |s|
  {
    if s != [] {
      var init, last := s[..|s| - 1], s[|s| - 1];
      SortDescStable(init, v);
      SortDescSorted(init);
      InsertDescStable(last, SortDesc(init), v);
      ScoringExactlyAppend(init, [last], v);
      assert init + [last] == s;
    }
  }

  /** The first `k` records of the descending order (`slice(0, k)`). */
  function TopK(s: seq<Obs>, k: nat): (r: seq<Obs>)
  {
    var sorted := SortDesc(s);
    if |sorted| <= k then sorted else sorted[..k]
  }

  /** In a descending list, whatever comes after position `k` scores no more than
      whatever comes before it. */
  lemma DescendingSplit(sorted: seq<Obs>, k: nat)
    requires Descending(sorted) && k <= |sorted|
    ensures forall o, t :: o in sorted[k..] && t in sorted[..k] ==> Score(o) <= Score(t)
  {
    forall o, t | o in sorted[k..] && t in sorted[..k] ensures Score(o) <= Score(t) {
      var a :| 0 <= a < |sorted| - k && sorted[k..][a] == o;
      var b :| 0 <= b < k && sorted[..k][b] == t;
      assert sorted[b] == t && sorted[k + a] == o;
    }
  }

  /** The top `k` are `min(k, |s|)` records of `s`, in descending order, and every
      record left out scores no more than every record kept. */
  lemma TopKSpec(s: seq<Obs>, k: nat)
    ensures |TopK(s, k)| == if |s| <= k then |s| else k
    ensures Descending(TopK(s, k))
    ensures multiset(TopK(s, k)) <= multiset(s)
    ensures forall o, t :: o in multiset(s) - multiset(TopK(s, k)) && t in TopK(s, k) ==> Score(o) <= Score(t)
  {
    var sorted := SortDesc(s);
    SortDescSorted(s);
    assert |sorted| == |s| by {
      assert |multiset(sorted)| == |multiset(s)|;
    }
    if |sorted| > k {
      PrefixOfDescending(sorted, k);
    } else {
      assert sorted[..|sorted|] == sorted;
      PrefixOfDescending(sorted, |sorted|);
    }
  }

  /** A prefix of a descending list is descending, and what it leaves out scores no more
      than what it keeps. */
  lemma PrefixOfDescending(sorted: seq<Obs>, k: nat)
    requires Descending(sorted) && k <= |sorted|
    ensures Descending(sorted[..k])
    ensures multiset(sorted[..k]) <= multiset(sorted)
    ensures forall o, t :: o in multiset(sorted) - multiset(sorted[..k]) && t in sorted[..k] ==> Score(o) <= Score(t)
  {
    var top := sorted[..k];
    var rest := sorted[k..];
    assert sorted == top + rest;
    assert multiset(sorted) - multiset(top) == multiset(rest);
    DescendingSplit(sorted, k);
    forall i, j | 0 <= i < j < |top| ensures Score(top[j]) <= Score(top[i]) {
      assert top[i] == sorted[i] && top[j] == sorted[j];
    }
  }

  /** Each latest record is the record `latestByCode` keeps for its code. */
  lemma LatestRecordsKept(iu: seq<Obs>)
    ensures forall o :: o in LatestRecords(iu) ==> BestOf(iu, o.code, None) == Some(o)
  {
    var keys := Distinct(QualifyingCodes(iu, None));
    var f := c => BestOf(iu, c, None);
    forall o | o in LatestRecords(iu) ensures BestOf(iu, o.code, None) == Some(o) {
      FilterMapMembers(keys, f);
      var i :| 0 <= i < |keys| && f(keys[i]) == Some(o);
      BestOfQualifies(iu, keys[i], None);
    }
  }

  /** There are latest records exactly when some record is finite. */
  lemma LatestRecordsEmpty(iu: seq<Obs>)
    ensures LatestRecords(iu) == [] <==> forall j :: 0 <= j < |iu| ==> iu[j].value.None?
  {
    var keys := Distinct(QualifyingCodes(iu, None));
    var f := c => BestOf(iu, c, None);
    if keys == [] {
      forall j | 0 <= j < |iu| ensures iu[j].value.None? {
        var r := iu[j];
        assert Qualifies(r, r.code, None) ==> r.code in keys;
      }
    } else {
      var c := keys[0];
      assert c in QualifyingCodes(iu, None);
      var j :| 0 <= j < |iu| && Qualifies(iu[j], c, None);
      BestOfNone(iu, c, None);
      assert f(keys[0]).Some?;
      FilterMapEmpty(keys, f);
    }
  }

  /** The records of `latest` whose year is `y`, in order. */
  function OfYear(latest: seq<Obs>, y: real): (r: seq<Obs>)
  {
    FilterMap(latest, (d: Obs) => if d.year == y then Some(d) else None)
  }

  /** A record is kept exactly when it is in `latest` with year `y`. */
  lemma OfYearMembers(latest: seq<Obs>, y: real)
    ensures forall o :: o in OfYear(latest, y) <==> o in latest && o.year == y
  {
    var g := (d: Obs) => if d.year == y then Some(d) else None;
    FilterMapMembers(latest, g);
    forall o | o in latest && o.year == y ensures o in OfYear(latest, y) {
      var i :| 0 <= i < |latest| && latest[i] == o;
      assert g(latest[i]) == Some(o);
    }
  }

  /** What the top-ten table shows: the greatest year among the latest records, and the
      ten highest-scoring latest records of that year. */
  function Top10Of(iu: seq<Obs>): (r: (Option<real>, seq<Obs>))
  {
    var latest := LatestRecords(iu);
    var yr := MaxYear(latest);
    (yr, if yr.None? then [] else TopK(OfYear(latest, yr.value), 10))
  }

  /** There is a table year exactly when some record is finite, and it is the greatest
      year among the latest records. */
  lemma Top10Year(iu: seq<Obs>)
    ensures Top10Of(iu).0.None? <==> forall j :: 0 <= j < |iu| ==> iu[j].value.None?
    ensures forall o :: o in LatestRecords(iu) ==> Top10Of(iu).0.Some? && o.year <= Top10Of(iu).0.value
  {
    LatestRecordsEmpty(iu);
    MaxYearSpec(LatestRecords(iu));
  }

  /** Every row of the table is the latest finite record of its code and has the
      table's year; there are ten, or all the latest records of that year when fewer, in
      descending order, and no latest record of that year left out scores more than one
      shown. */
  lemma Top10Rows(iu: seq<Obs>)
    ensures var (yr, top) := Top10Of(iu);
            && |top| <= 10
            && (yr.Some? ==> var n := |OfYear(LatestRecords(iu), yr.value)|; |top| == if n <= 10 then n else 10)
            && Descending(top)
            && (forall o :: o in top ==> BestOf(iu, o.code, None) == Some(o) && Some(o.year) == yr)
            && (forall o, t ::
                  o in LatestRecords(iu) && Some(o.year) == yr && o !in top && t in top ==> Score(o) <= Score(t))
  {
    var latest := LatestRecords(iu);
    var yr := MaxYear(latest);
    if yr.Some? {
      var y := yr.value;
      var same := OfYear(latest, y);
      var top := TopK(same, 10);
      assert Top10Of(iu) == (yr, top);
      LatestRecordsKept(iu);
      OfYearMembers(latest, y);
      TopKSpec(same, 10);
      assert forall o :: o in top ==> o in same by {
        forall o | o in top ensures o in same {
          assert o in multiset(top);
        }
      }
      assert forall o :: o in same && o !in top ==> o in multiset(same) - multiset(top);
    }
  }

  /** `renderTop10`: the latest record per code, the greatest of their years and the
      ten highest values of that year. */
  method Top10(iu: seq<Obs>) returns (yr: Option<real>, top: seq<Obs>)
    ensures (yr, top) == Top10Of(iu)
  {
    var keys, m := LatestPerCode(iu, None);
    var latest := seq(|keys|, i requires 0 <= i < |keys| => m[keys[i]]);
    FilterMapAllSome(keys, c => BestOf(iu, c, None), latest);
    yr := MaxYear(latest);
    if yr.None? {
      top := [];
    } else {
      var y := yr.value;
      top := TopK(OfYear(latest, y), 10);
    }
  }
}
