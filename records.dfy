/** The shapes the loaders hand on: an observation per (country code, year), and the
    table `d3.csvParse` produces (a column list and one column-to-cell map per row). */
module Records {
  import opened Wrappers

  /** One observation of an indicator. `value` is the indicator field (`internet`, `gdp`,
      `elec`), `None` when it is not a finite number; `country` is the display name, when
      the table had one. Numbers are exact reals. */
  datatype Obs = Obs(code: string, year: real, value: Option<real>, country: Option<string>)

  /** The result of `d3.csvParse`: the header's column names and one map per data row. */
  datatype Table = Table(columns: seq<string>, rows: seq<map<string, string>>)

  /** `row[col]`; a cell the row lacks reads as empty. */
  function Cell(row: map<string, string>, col: string): string {
    if col in row then row[col] else ""
  }

  /** The elements of `s` in order of first occurrence: what iterating a JavaScript
      `Set` built from `s`, or the keys of a `Map` filled from `s`, yields. */
  function Distinct(s: seq<string>): (r: seq<string>)
    ensures forall x :: x in r <==> x in s
    ensures |r| <= |s|
    decreases |s|
  {
    if s == [] then []
    else
      var d := Distinct(s[..|s| - 1]);
      var x := s[|s| - 1];
      assert forall y :: y in s <==> y in s[..|s| - 1] || y == x by {
        assert s == s[..|s| - 1] + [x];
      }
      if x in d then d else d + [x]
  }

  /** No element occurs twice. */
  lemma {:induction false} DistinctNoRepeats(s: seq<string>)
    ensures forall i, j :: 0 <= i < j < |Distinct(s)| ==> Distinct(s)[i] != Distinct(s)[j]
    decreases |s|
  {
    if s != [] {
      DistinctNoRepeats(s[..|s| - 1]);
    }
  }

  lemma DistinctSnoc(s: seq<string>, x: string)
    ensures Distinct(s + [x]) == if x in Distinct(s) then Distinct(s) else Distinct(s) + [x]
  {
    assert (s + [x])[..|s|] == s;
  }

  /** The codes of the observations, in order. */
  function Codes(rows: seq<Obs>): (r: seq<string>)
    ensures |r| == |rows|
    ensures forall i :: 0 <= i < |rows| ==> r[i] == rows[i].code
  {
    seq(|rows|, i requires 0 <= i < |rows| => rows[i].code)
  }

  /** The values `f` computes for the elements of `xs`, in order, dropping each element
      for which it computes nothing: a loop pushing every value that is not dropped. */
  function FilterMap<A, B>(xs: seq<A>, f: A -> Option<B>): (r: seq<B>)
    ensures |r| <= |xs|
    decreases |xs|
  {
    if xs == [] then []
    else
      var y := f(xs[|xs| - 1]);
      FilterMap(xs[..|xs| - 1], f) + (if y.Some? then [y.value] else [])
  }

  lemma FilterMapSnoc<A, B>(xs: seq<A>, x: A, f: A -> Option<B>)
    ensures FilterMap(xs + [x], f) == FilterMap(xs, f) + (if f(x).Some? then [f(x).value] else [])
  {
    assert (xs + [x])[..|xs|] == xs;
  }

  /** One more step of a loop over `xs`: the prefix grows by `xs[i]`. */
  lemma FilterMapStep<A, B>(xs: seq<A>, i: nat, f: A -> Option<B>)
    requires i < |xs|
    ensures FilterMap(xs[..i + 1], f) == FilterMap(xs[..i], f) + (if f(xs[i]).Some? then [f(xs[i]).value] else [])
  {
    assert xs[..i + 1] == xs[..i] + [xs[i]];
    FilterMapSnoc(xs[..i], xs[i], f);
  }

  /** A value is kept exactly when it is computed for some element. */
  lemma {:induction false} FilterMapMembers<A, B>(xs: seq<A>, f: A -> Option<B>)
    ensures forall b :: b in FilterMap(xs, f) <==> exists i :: 0 <= i < |xs| && f(xs[i]) == Some(b)
    decreases |xs|
  {
    if xs != [] {
      var init := xs[..|xs| - 1];
      FilterMapMembers(init, f);
      assert forall i :: 0 <= i < |init| ==> init[i] == xs[i];
    }
  }

  /** Nothing is kept exactly when nothing is computed for any element. */
  lemma {:induction false} FilterMapEmpty<A, B>(xs: seq<A>, f: A -> Option<B>)
    ensures FilterMap(xs, f) == [] <==> forall i :: 0 <= i < |xs| ==> f(xs[i]).None?
    decreases |xs|
  {
    if xs != [] {
      var init := xs[..|xs| - 1];
      FilterMapEmpty(init, f);
      assert forall i :: 0 <= i < |init| ==> init[i] == xs[i];
    }
  }

  /** When `f` computes `ys[i]` for every `xs[i]`, nothing is dropped and the result is `ys`. */
  lemma {:induction false} FilterMapAllSome<A, B>(xs: seq<A>, f: A -> Option<B>, ys: seq<B>)
    requires |ys| == |xs|
    requires forall i :: 0 <= i < |xs| ==> f(xs[i]) == Some(ys[i])
    ensures FilterMap(xs, f) == ys
    decreases |xs|
  {
    if xs != [] {
      var n := |xs| - 1;
      FilterMapAllSome(xs[..n], f, ys[..n]);
      assert ys == ys[..n] + [ys[n]];
    }
  }

  /** When `f` computes a value for every element, nothing is dropped. */
  lemma {:induction false} FilterMapKeepsAll<A, B>(xs: seq<A>, f: A -> Option<B>)
    requires forall i :: 0 <= i < |xs| ==> f(xs[i]).Some?
    ensures |FilterMap(xs, f)| == |xs|
    decreases |xs|
  {
    if xs != [] {
      FilterMapKeepsAll(xs[..|xs| - 1], f);
    }
  }

  /** The pieces `f` yields for each element, concatenated in order: a loop appending
      `f(x)` for every `x`. */
  function FlatMap<A, B>(xs: seq<A>, f: A -> seq<B>): (r: seq<B>)
    decreases |xs|
  {
    if xs == [] then [] else FlatMap(xs[..|xs| - 1], f) + f(xs[|xs| - 1])
  }

  lemma FlatMapSnoc<A, B>(xs: seq<A>, x: A, f: A -> seq<B>)
    ensures FlatMap(xs + [x], f) == FlatMap(xs, f) + f(x)
  {
    assert (xs + [x])[..|xs|] == xs;
  }

  /** A value is in the concatenation exactly when some element's piece holds it. */
  lemma {:induction false} FlatMapMembers<A, B>(xs: seq<A>, f: A -> seq<B>)
    ensures forall b :: b in FlatMap(xs, f) <==> exists i :: 0 <= i < |xs| && b in f(xs[i])
    decreases |xs|
  {
    if xs != [] {
      var init := xs[..|xs| - 1];
      FlatMapMembers(init, f);
      assert forall i :: 0 <= i < |init| ==> init[i] == xs[i];
    }
  }

  /** The concatenation is empty exactly when every piece is. */
  lemma {:induction false} FlatMapEmpty<A, B>(xs: seq<A>, f: A -> seq<B>)
    ensures FlatMap(xs, f) == [] <==> forall i :: 0 <= i < |xs| ==> f(xs[i]) == []
    decreases |xs|
  {
    if xs != [] {
      var init := xs[..|xs| - 1];
      FlatMapEmpty(init, f);
      assert forall i :: 0 <= i < |init| ==> init[i] == xs[i];
    }
  }

  /** JavaScript's `a || b || fallback` on display names: the first non-empty one. */
  function FirstName(a: Option<string>, b: Option<string>, fallback: string): (r: string)
    ensures a.Some? && a.value != "" ==> r == a.value
    ensures (a.None? || a.value == "") && b.Some? && b.value != "" ==> r == b.value
    ensures (a.None? || a.value == "") && (b.None? || b.value == "") ==> r == fallback
  {
    if a.Some? && a.value != "" then a.value
    else if b.Some? && b.value != "" then b.value
    else fallback
  }
}
