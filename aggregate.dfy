/** The per-continent means of the by-continent chart (`renderProsperityByContinent`):
    the rows are grouped by continent in order of first appearance, and each group
    yields its size and the means of its internet shares and GDP values. */
module Aggregate {
  import opened Wrappers
  import opened Records
  import opened Prosperity

  /** The running totals `byCont` holds per continent. */
  datatype Group = Group(continent: string, n: nat, internetSum: real, gdpSum: real)

  /** One point of the chart. */
  datatype Point = Point(continent: string, n: nat, internetMean: real, gdpMean: real)

  /** The continent of every row, in order. */
  function ContinentNames(rows: seq<ContinentRow>): seq<string> {
    FilterMap(rows, (r: ContinentRow) => Some(r.continent))
  }

  /** The continents of the rows, in order of first row: the keys of `byCont`. */
  function ContinentsOf(rows: seq<ContinentRow>): seq<string> {
    Distinct(ContinentNames(rows))
  }

  /** A continent is listed exactly when some row has it. */
  lemma ContinentsOfMembers(rows: seq<ContinentRow>)
    ensures forall c :: c in ContinentsOf(rows) <==> exists i :: 0 <= i < |rows| && rows[i].continent == c
  {
    FilterMapMembers(rows, (r: ContinentRow) => Some(r.continent));
  }

  /** The rows of continent `c`, in order. */
  function Members(rows: seq<ContinentRow>, c: string): seq<ContinentRow> {
    FilterMap(rows, (r: ContinentRow) => if r.continent == c then Some(r) else None)
  }

  function SumInternet(rs: seq<ContinentRow>): real
    decreases |rs|
  {
    if rs == [] then 0.0 else SumInternet(rs[..|rs| - 1]) + rs[|rs| - 1].internet
  }

  function SumGdp(rs: seq<ContinentRow>): real
    decreases |rs|
  {
    if rs == [] then 0.0 else SumGdp(rs[..|rs| - 1]) + rs[|rs| - 1].gdp
  }

  /** What `byCont` should hold for `c` after reading `rows`. */
  function GroupOf(rows: seq<ContinentRow>, c: string): Group {
    var ms := Members(rows, c);
    Group(c, |ms|, SumInternet(ms), SumGdp(ms))
  }

  /** Adding one row to a group: `g.n++; g.internet_sum += …; g.gdp_sum += …`. */
  function Add(g: Group, r: ContinentRow): Group {
    g.(n := g.n + 1, internetSum := g.internetSum + r.internet, gdpSum := g.gdpSum + r.gdp)
  }

  /** Reading one more row adds it to its own continent's group only. */
  lemma GroupOfSnoc(p: seq<ContinentRow>, r: ContinentRow, c: string)
    ensures GroupOf(p + [r], c) == if r.continent == c then Add(GroupOf(p, c), r) else GroupOf(p, c)
  {
    var f := (r: ContinentRow) => if r.continent == c then Some(r) else None;
    FilterMapSnoc(p, r, f);
    var ms := Members(p, c);
    if r.continent == c {
      assert (ms + [r])[..|ms|] == ms;
    } else {
      assert ms + [] == ms;
    }
  }

  /** A continent no row has yet has an empty group. */
  lemma GroupOfAbsent(p: seq<ContinentRow>, c: string)
    requires c !in ContinentsOf(p)
    ensures GroupOf(p, c) == Group(c, 0, 0.0, 0.0)
  {
    ContinentsOfMembers(p);
    FilterMapEmpty(p, (r: ContinentRow) => if r.continent == c then Some(r) else None);
  }

  /** `keys` and `byCont` are what the grouping loop holds after reading `prefix`. */
  ghost predicate Grouped(prefix: seq<ContinentRow>, keys: seq<string>, byCont: map<string, Group>) {
    && keys == ContinentsOf(prefix)
    && (forall c :: c in byCont <==> c in keys)
    && (forall c :: c in byCont ==> byCont[c] == GroupOf(prefix, c))
  }

  /** One step of the grouping loop. */
  lemma GroupStep(p: seq<ContinentRow>, r: ContinentRow, keys: seq<string>, byCont: map<string, Group>)
    requires Grouped(p, keys, byCont)
    ensures var g := if r.continent in byCont then byCont[r.continent] else Group(r.continent, 0, 0.0, 0.0);
            Grouped(p + [r], if r.continent in byCont then keys else keys + [r.continent],
                    byCont[r.continent := Add(g, r)])
  {
    var c := r.continent;
    var g := if c in byCont then byCont[c] else Group(c, 0, 0.0, 0.0);
    var keys' := if c in byCont then keys else keys + [c];
    var byCont' := byCont[c := Add(g, r)];
    assert keys' == ContinentsOf(p + [r]) by {
      FilterMapSnoc(p, r, (r: ContinentRow) => Some(r.continent));
      DistinctSnoc(ContinentNames(p), c);
    }
    if c !in byCont {
      GroupOfAbsent(p, c);
    }
    forall d ensures d in byCont' <==> d in keys' {
      assert d in keys' <==> d in keys || d == c;
    }
    forall d | d in byCont' ensures byCont'[d] == GroupOf(p + [r], d) {
      GroupOfSnoc(p, r, d);
    }
    assert Grouped(p + [r], keys', byCont');
  }

  /** The loop's step at position `i`. */
  lemma GroupStepAt(rows: seq<ContinentRow>, i: nat, keys: seq<string>, byCont: map<string, Group>)
    requires i < |rows| && Grouped(rows[..i], keys, byCont)
    ensures var r := rows[i];
            var g := if r.continent in byCont then byCont[r.continent] else Group(r.continent, 0, 0.0, 0.0);
            Grouped(rows[..i + 1], if r.continent in byCont then keys else keys + [r.continent],
                    byCont[r.continent := Add(g, r)])
  {
    assert rows[..i + 1] == rows[..i] + [rows[i]];
    GroupStep(rows[..i], rows[i], keys, byCont);
  }

  /** Every listed continent has at least one row. */
  lemma GroupNonEmpty(rows: seq<ContinentRow>, c: string)
    requires c in ContinentsOf(rows)
    ensures GroupOf(rows, c).n >= 1
  {
    ContinentsOfMembers(rows);
    var i :| 0 <= i < |rows| && rows[i].continent == c;
    var f := (r: ContinentRow) => if r.continent == c then Some(r) else None;
    assert f(rows[i]).Some?;
    FilterMapEmpty(rows, f);
  }

  /** `{continent, n, internet_mean: internet_sum / n, gdp_mean: gdp_sum / n}`. */
  function MeanPoint(g: Group): Point
    requires g.n > 0
  {
    Point(g.continent, g.n, g.internetSum / g.n as real, g.gdpSum / g.n as real)
  }

  /** The chart point of a continent. */
  function PointOf(rows: seq<ContinentRow>, c: string): Point
    requires c in ContinentsOf(rows)
  {
    GroupNonEmpty(rows, c);
    MeanPoint(GroupOf(rows, c))
  }

  /** The points, one per continent in order of first row. */
  function PointsOf(rows: seq<ContinentRow>): seq<Point> {
    var cs := ContinentsOf(rows);
    seq(|cs|, i requires 0 <= i < |cs| => PointOf(rows, cs[i]))
  }

  /** The aggregation of `renderProsperityByContinent`'s `draw`: group the rows by
      continent, then turn each group into its size and means. */
  method AggregateByContinent(rows: seq<ContinentRow>) returns (points: seq<Point>)
    ensures points == PointsOf(rows)
  {
    var keys: seq<string>, byCont: map<string, Group> := [], map[];
    for i := 0 to |rows|
      invariant Grouped(rows[..i], keys, byCont)
    {
      var r := rows[i];
      GroupStepAt(rows, i, keys, byCont);
      var g := if r.continent in byCont then byCont[r.continent] else Group(r.continent, 0, 0.0, 0.0);
      g := Add(g, r);
      if r.continent !in byCont {
        keys := keys + [r.continent];
      }
      byCont := byCont[r.continent := g];
    }
    assert rows[..|rows|] == rows;
    forall c | c in byCont ensures byCont[c].n > 0 {
      GroupNonEmpty(rows, c);
    }
    points := seq(|keys|, i requires 0 <= i < |keys| => MeanPoint(byCont[keys[i]]));
  }

  /** The number of rows of the continents `cs`, summed. */
  function TotalCount(rows: seq<ContinentRow>, cs: seq<string>): nat
    decreases |cs|
  {
    if cs == [] then 0 else TotalCount(rows, cs[..|cs| - 1]) + GroupOf(rows, cs[|cs| - 1]).n
  }

  /** Reading one more row adds one to the total of any list of distinct continents that
      holds its continent, and nothing otherwise. */
  lemma {:induction false} TotalCountSnoc(p: seq<ContinentRow>, r: ContinentRow, cs: seq<string>)
    requires forall i, j :: 0 <= i < j < |cs| ==> cs[i] != cs[j]
    ensures TotalCount(p + [r], cs) == TotalCount(p, cs) + if r.continent in cs then 1 else 0
    decreases |cs|
  {
    if cs != [] {
      var init := cs[..|cs| - 1];
      var last := cs[|cs| - 1];
      TotalCountSnoc(p, r, init);
      GroupOfSnoc(p, r, last);
      assert cs == init + [last];
      assert last !in init by {
        forall k | 0 <= k < |init| ensures init[k] != last {
          assert init[k] == cs[k];
        }
      }
    }
  }

  /** The group sizes add up to the number of rows: every row is counted once. */
  lemma {:induction false} CountsCoverRows(rows: seq<ContinentRow>)
    ensures TotalCount(rows, ContinentsOf(rows)) == |rows|
    decreases |rows|
  {
    if rows != [] {
      var p := rows[..|rows| - 1];
      var r := rows[|rows| - 1];
      assert rows == p + [r];
      CountsCoverRows(p);
      DistinctNoRepeats(ContinentNames(p));
      TotalCountSnoc(p, r, ContinentsOf(p));
      ContinentsSnoc(p, r);
      if r.continent !in ContinentsOf(p) {
        TotalCountNew(p, r);
      }
    }
  }

  /** One more row adds its continent to the list, unless the list has it. */
  lemma ContinentsSnoc(p: seq<ContinentRow>, r: ContinentRow)
    ensures ContinentsOf(p + [r]) == if r.continent in ContinentsOf(p) then ContinentsOf(p) else ContinentsOf(p) + [r.continent]
  {
    FilterMapSnoc(p, r, (r: ContinentRow) => Some(r.continent));
    DistinctSnoc(ContinentNames(p), r.continent);
  }

  /** A row of a new continent makes a group of one. */
  lemma TotalCountNew(p: seq<ContinentRow>, r: ContinentRow)
    requires r.continent !in ContinentsOf(p)
    ensures var cs := ContinentsOf(p);
            TotalCount(p + [r], cs + [r.continent]) == TotalCount(p + [r], cs) + 1
  {
    var cs := ContinentsOf(p);
    GroupOfAbsent(p, r.continent);
    GroupOfSnoc(p, r, r.continent);
    assert (cs + [r.continent])[..|cs|] == cs;
  }

  /** A sum of `n` internet shares, each within `[lo, hi]`, lies within `[n lo, n hi]`. */
  lemma {:induction false} SumInternetBounds(rs: seq<ContinentRow>, lo: real, hi: real)
    requires forall i :: 0 <= i < |rs| ==> lo <= rs[i].internet <= hi
    ensures |rs| as real * lo <= SumInternet(rs) <= |rs| as real * hi
    decreases |rs|
  {
    if rs != [] {
      SumInternetBounds(rs[..|rs| - 1], lo, hi);
    }
  }

  /** A continent's mean internet share lies between the smallest and the largest share
      of its countries. */
  lemma InternetMeanWithin(rows: seq<ContinentRow>, c: string, lo: real, hi: real)
    requires c in ContinentsOf(rows)
    requires forall i :: 0 <= i < |rows| && rows[i].continent == c ==> lo <= rows[i].internet <= hi
    ensures lo <= PointOf(rows, c).internetMean <= hi
  {
    var f := (r: ContinentRow) => if r.continent == c then Some(r) else None;
    var ms := Members(rows, c);
    FilterMapMembers(rows, f);
    forall k | 0 <= k < |ms| ensures lo <= ms[k].internet <= hi {
      assert ms[k] in ms;
      var i :| 0 <= i < |rows| && f(rows[i]) == Some(ms[k]);
    }
    SumInternetBounds(ms, lo, hi);
    GroupNonEmpty(rows, c);
    MeanBounds(SumInternet(ms), |ms| as real, lo, hi);
  }

  /** Dividing by a positive count keeps a sum's bounds. */
  lemma MeanBounds(s: real, n: real, lo: real, hi: real)
    requires n > 0.0 && n * lo <= s <= n * hi
    ensures lo <= s / n <= hi
  {
  }
}
