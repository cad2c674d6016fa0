/** String clean-up used by both table loaders: BOM and line-ending folding,
    JavaScript's `trim`, ASCII case mapping, the header-name normaliser `norm`,
    splitting and joining lines, and delimiter rewriting. */
module Text {

  const Bom: char := '\U{FEFF}'
  const ZeroWidthSpace: char := '\U{200B}'

  /** The characters JavaScript's `trim` and the regular-expression class `\s` treat as white space. */
  predicate IsSpace(c: char) {
    || c == ' ' || c == '\t' || c == '\n' || c == '\r' || c == '\U{000B}' || c == '\U{000C}'
    || c == '\U{00A0}' || c == '\U{1680}' || ('\U{2000}' <= c <= '\U{200A}')
    || c == '\U{2028}' || c == '\U{2029}' || c == '\U{202F}' || c == '\U{205F}'
    || c == '\U{3000}' || c == Bom
  }

  /** Letters and digits, the characters `norm` keeps (`\p{L}\p{N}`, restricted to ASCII). */
  predicate IsWordChar(c: char) {
    ('a' <= c <= 'z') || ('A' <= c <= 'Z') || ('0' <= c <= '9')
  }

  predicate IsDigit(c: char) {
    '0' <= c <= '9'
  }

  // ---------------------------------------------------------------- BOM and line ends

  /** `replace(/\r\n?/g, "\n")`: every CR LF pair and every lone CR becomes one LF. */
  function FoldLineEnds(s: string): (r: string)
    ensures '\r' !in r
    ensures '\r' !in s ==> r == s
    ensures |r| <= |s|
    decreases |s|
  {
    if s == [] then []
    else if s[0] == '\r' then "\n" + FoldLineEnds(if |s| > 1 && s[1] == '\n' then s[2..] else s[1..])
    else [s[0]] + FoldLineEnds(s[1..])
  }

  /** Folding passes a CR-free prefix through unchanged. */
  lemma {:induction false} FoldKeepsPrefix(a: string, s: string)
    requires '\r' !in a
    ensures FoldLineEnds(a + s) == a + FoldLineEnds(s)
    decreases |a|
  {
    if a != [] {
      var t := a[1..] + s;
      assert FoldLineEnds(a + s) == [a[0]] + FoldLineEnds(t) by {
        assert (a + s)[0] == a[0] != '\r' by { assert a[0] in a; }
        assert (a + s)[1..] == t;
      }
      assert FoldLineEnds(t) == a[1..] + FoldLineEnds(s) by {
        assert '\r' !in a[1..] by { assert forall c | c in a[1..] :: c in a; }
        FoldKeepsPrefix(a[1..], s);
      }
      assert [a[0]] + (a[1..] + FoldLineEnds(s)) == a + FoldLineEnds(s) by {
        assert a == [a[0]] + a[1..];
      }
    } else {
      assert a + s == s;
    }
  }

  /** A line end `h` that folds to one LF still does so after a CR-free prefix. */
  lemma FoldLineEndAfter(a: string, h: string, b: string)
    requires '\r' !in a
    requires FoldLineEnds(h + b) == ['\n'] + FoldLineEnds(b)
    ensures FoldLineEnds(a + h + b) == a + ['\n'] + FoldLineEnds(b)
  {
    calc {
      FoldLineEnds(a + h + b);
      { assert a + h + b == a + (h + b); }
      FoldLineEnds(a + (h + b));
      { FoldKeepsPrefix(a, h + b); }
      a + (['\n'] + FoldLineEnds(b));
      a + ['\n'] + FoldLineEnds(b);
    }
  }

  /** Up to the first CR the text is kept, and a CR LF pair there becomes one LF; folding
      carries on after it. With `FoldAtLoneCr` and `FoldLineEnds(a) == a` for a CR-free
      `a`, this determines the fold on every text. */
  lemma FoldAtCrLf(a: string, b: string)
    requires '\r' !in a
    ensures FoldLineEnds(a + ['\r', '\n'] + b) == a + ['\n'] + FoldLineEnds(b)
  {
    var s := ['\r', '\n'] + b;
    assert FoldLineEnds(s) == ['\n'] + FoldLineEnds(b) by {
      assert s[0] == '\r' && s[1] == '\n' && s[2..] == b;
    }
    FoldLineEndAfter(a, ['\r', '\n'], b);
  }

  /** A CR at the head, not followed by LF, becomes an LF. */
  lemma FoldLoneCrStep(b: string)
    requires b == [] || b[0] != '\n'
    ensures FoldLineEnds(['\r'] + b) == ['\n'] + FoldLineEnds(b)
  {
    var s := ['\r'] + b;
    assert s[0] == '\r' && s[1..] == b;
    assert !(|s| > 1 && s[1] == '\n') by { if |s| > 1 { assert s[1] == b[0]; } }
  }

  /** Up to the first CR the text is kept, and a CR not followed by LF becomes an LF. */
  lemma FoldAtLoneCr(a: string, b: string)
    requires '\r' !in a
    requires b == [] || b[0] != '\n'
    ensures FoldLineEnds(a + ['\r'] + b) == a + ['\n'] + FoldLineEnds(b)
  {
    FoldLoneCrStep(b);
    FoldLineEndAfter(a, ['\r'], b);
  }

  /** `stripBOMCRLF`: drop one leading byte-order mark, then fold line ends. */
  function StripBomCrlf(t: string): (r: string)
    ensures '\r' !in r
    ensures '\r' !in t ==> r == (if t != [] && t[0] == Bom then t[1..] else t)
    ensures |r| <= |t|
  {
    FoldLineEnds(if t != [] && t[0] == Bom then t[1..] else t)
  }

  /** Folding is idempotent: a second pass finds no CR left. */
  lemma {:induction false} StripBomCrlfTwice(t: string)
    requires t == [] || t[0] != Bom || |t| < 2 || t[1] != Bom
    ensures StripBomCrlf(StripBomCrlf(t)) == StripBomCrlf(t)
  {
    var u := if t != [] && t[0] == Bom then t[1..] else t;
    var r := FoldLineEnds(u);
    FoldStartsLikeInput(u);
  }

  /** A folded text starts with a BOM exactly when its input did. */
  lemma {:induction false} FoldStartsLikeInput(s: string)
    ensures FoldLineEnds(s) != [] && FoldLineEnds(s)[0] == Bom <==> s != [] && s[0] == Bom
  {
  }

  // ---------------------------------------------------------------- trim

  function TrimStart(s: string): (r: string)
    ensures |r| <= |s|
    decreases |s|
  {
    if s != [] && IsSpace(s[0]) then TrimStart(s[1..]) else s
  }

  /** `TrimStart` drops exactly the leading white space. */
  lemma {:induction false} TrimStartSpec(s: string)
    ensures var r := TrimStart(s);
            && r == s[|s| - |r|..]
            && (forall i :: 0 <= i < |s| - |r| ==> IsSpace(s[i]))
            && (r == [] || !IsSpace(r[0]))
    decreases |s|
  {
    if s != [] && IsSpace(s[0]) {
      TrimStartSpec(s[1..]);
    }
  }

  function TrimEnd(s: string): (r: string)
    ensures |r| <= |s|
    decreases |s|
  {
    if s != [] && IsSpace(s[|s| - 1]) then TrimEnd(s[..|s| - 1]) else s
  }

  /** `TrimEnd` drops exactly the trailing white space. */
  lemma {:induction false} TrimEndSpec(s: string)
    ensures var r := TrimEnd(s);
            && r == s[..|r|]
            && (forall i :: |r| <= i < |s| ==> IsSpace(s[i]))
            && (r == [] || !IsSpace(r[|r| - 1]))
    decreases |s|
  {
    if s != [] && IsSpace(s[|s| - 1]) {
      TrimEndSpec(s[..|s| - 1]);
    }
  }

  /** `r` is `s` from index `i` on, with white space removed at both ends and nothing else removed. */
  predicate TrimmedAt(s: string, r: string, i: nat) {
    && i + |r| <= |s| && r == s[i..i + |r|]
    && (r == [] || (!IsSpace(r[0]) && !IsSpace(r[|r| - 1])))
    && (forall k :: 0 <= k < i ==> IsSpace(s[k]))
    && (forall k :: i + |r| <= k < |s| ==> IsSpace(s[k]))
  }

  /** JavaScript's `String.prototype.trim`; the kept part starts where `TrimStart` stops. */
  function Trim(s: string): (r: string)
    ensures |r| <= |s|
  {
    TrimEnd(TrimStart(s))
  }

  /** What `trim` keeps: the text between the leading and the trailing white space. */
  lemma TrimSpec(s: string)
    ensures TrimmedAt(s, Trim(s), |s| - |TrimStart(s)|)
  {
    TrimStartSpec(s);
    TrimEndSpec(TrimStart(s));
    TrimmedFromParts(s, TrimStart(s), Trim(s));
  }

  lemma TrimmedFromParts(s: string, a: string, b: string)
    requires |a| <= |s| && a == s[|s| - |a|..]
    requires forall i :: 0 <= i < |s| - |a| ==> IsSpace(s[i])
    requires a == [] || !IsSpace(a[0])
    requires |b| <= |a| && b == a[..|b|]
    requires forall i :: |b| <= i < |a| ==> IsSpace(a[i])
    requires b == [] || !IsSpace(b[|b| - 1])
    ensures TrimmedAt(s, b, |s| - |a|)
  {
    var i := |s| - |a|;
    assert b == s[i..i + |b|];
    forall k | i + |b| <= k < |s| ensures IsSpace(s[k]) {
      assert s[k] == a[k - i];
    }
  }

  /** Text that neither starts nor ends with white space is its own trim. */
  lemma TrimFixed(s: string)
    requires s == [] || (!IsSpace(s[0]) && !IsSpace(s[|s| - 1]))
    ensures Trim(s) == s
  {
  }

  /** Trimming adds no character. */
  lemma TrimKeepsOut(s: string, c: char)
    requires c !in s
    ensures c !in Trim(s)
  {
    TrimSpec(s);
    var i := |s| - |TrimStart(s)|;
    assert forall k :: 0 <= k < |Trim(s)| ==> Trim(s)[k] == s[i + k];
  }

  lemma TrimEmpty(s: string)
    ensures Trim(s) == [] <==> forall k :: 0 <= k < |s| ==> IsSpace(s[k])
  {
    var i := |s| - |TrimStart(s)|;
    TrimSpec(s);
    if Trim(s) != [] {
      assert !IsSpace(s[i]);
    }
  }

  // ---------------------------------------------------------------- case

  function UpperChar(c: char): char {
    if 'a' <= c <= 'z' then (c as int - 32) as char else c
  }

  function LowerChar(c: char): char {
    if 'A' <= c <= 'Z' then (c as int + 32) as char else c
  }

  /** Case mapping never turns white space into something else, nor the reverse. */
  lemma UpperKeepsSpace(c: char)
    ensures IsSpace(UpperChar(c)) <==> IsSpace(c)
  {
  }

  /** `toUpperCase` on ASCII letters. */
  function ToUpper(s: string): (r: string)
    ensures |r| == |s|
  {
    seq(|s|, i requires 0 <= i < |s| => UpperChar(s[i]))
  }

  /** Upper-casing leaves no lower-case letter and changes nothing but case. */
  lemma ToUpperSpec(s: string)
    ensures forall i :: 0 <= i < |s| ==> !('a' <= ToUpper(s)[i] <= 'z')
    ensures forall i :: 0 <= i < |s| ==> LowerChar(ToUpper(s)[i]) == LowerChar(s[i])
  {
  }

  /** `toLowerCase` on ASCII letters. */
  function ToLower(s: string): (r: string)
    ensures |r| == |s|
  {
    seq(|s|, i requires 0 <= i < |s| => LowerChar(s[i]))
  }

  /** Lower-casing leaves no upper-case letter and changes nothing but case. */
  lemma ToLowerSpec(s: string)
    ensures forall i :: 0 <= i < |s| ==> !('A' <= ToLower(s)[i] <= 'Z')
    ensures forall i :: 0 <= i < |s| ==> UpperChar(ToLower(s)[i]) == UpperChar(s[i])
  {
  }

  // ---------------------------------------------------------------- norm

  /** `s.replace(/x/g, "")`. */
  function RemoveChar(s: string, x: char): (r: string)
    ensures |r| <= |s|
    decreases |s|
  {
    if s == [] then []
    else (if s[0] == x then [] else [s[0]]) + RemoveChar(s[1..], x)
  }

  /** Removal drops every `x` and keeps every other character, as often as it occurs. */
  lemma {:induction false} RemoveCharSpec(s: string, x: char)
    ensures x !in RemoveChar(s, x)
    ensures multiset(RemoveChar(s, x)) == multiset(s)[x := 0]
    decreases |s|
  {
    if s != [] {
      RemoveCharSpec(s[1..], x);
      assert s == [s[0]] + s[1..];
      assert multiset(s) == multiset([s[0]]) + multiset(s[1..]);
    }
  }

  /** Removal works piece by piece: removing from a concatenation removes from each part
      and keeps the parts in order. */
  lemma {:induction false} RemoveCharAppend(a: string, b: string, x: char)
    ensures RemoveChar(a + b, x) == RemoveChar(a, x) + RemoveChar(b, x)
    decreases |a|
  {
    if a == [] {
      assert a + b == b;
    } else {
      var h := if a[0] == x then [] else [a[0]];
      var t := a[1..] + b;
      assert RemoveChar(a + b, x) == h + RemoveChar(t, x) by {
        assert (a + b)[0] == a[0] && (a + b)[1..] == t;
      }
      RemoveCharAppend(a[1..], b, x);
      assert h + (RemoveChar(a[1..], x) + RemoveChar(b, x)) == RemoveChar(a, x) + RemoveChar(b, x);
    }
  }

  /** On one character, removal drops it exactly when it is `x`. With `RemoveCharAppend`
      this fixes the removal on every text. */
  lemma RemoveCharSingle(c: char, x: char)
    ensures RemoveChar([c], x) == if c == x then [] else [c]
  {
    assert [c][1..] == [];
  }

  function SkipSeparators(s: string): (r: string)
    ensures |r| <= |s| && r == s[|s| - |r|..]
    ensures r == [] || IsWordChar(r[0])
    decreases |s|
  {
    if s != [] && !IsWordChar(s[0]) then SkipSeparators(s[1..]) else s
  }

  /** `replace(/[^\p{L}\p{N}]+/gu, " ")`: every run of non-word characters becomes one space. */
  function CollapseSeparators(s: string): (r: string)
    ensures r != [] <==> s != []
    ensures s != [] ==> (r[0] == ' ' <==> !IsWordChar(s[0]))
    decreases |s|
  {
    if s == [] then []
    else if IsWordChar(s[0]) then [s[0]] + CollapseSeparators(s[1..])
    else [' '] + CollapseSeparators(SkipSeparators(s))
  }

  predicate AllWordChars(w: string) {
    forall i :: 0 <= i < |w| ==> IsWordChar(w[i])
  }

  predicate AllSeparators(sep: string) {
    forall i :: 0 <= i < |sep| ==> !IsWordChar(sep[i])
  }

  /** A letter or digit at the head is kept. */
  lemma CollapseWordHead(w: string, s: string)
    requires w != [] && IsWordChar(w[0])
    ensures CollapseSeparators(w + s) == [w[0]] + CollapseSeparators(w[1..] + s)
  {
    assert (w + s)[0] == w[0] && (w + s)[1..] == w[1..] + s;
  }

  lemma AllWordCharsTail(w: string)
    requires w != [] && AllWordChars(w)
    ensures IsWordChar(w[0]) && AllWordChars(w[1..])
  {
    assert forall i :: 0 <= i < |w| - 1 ==> w[1..][i] == w[i + 1];
  }

  lemma ConsAppend<T>(a: seq<T>, t: seq<T>)
    requires a != []
    ensures [a[0]] + (a[1..] + t) == a + t
  {
    assert a == [a[0]] + a[1..];
  }

  /** Collapsing passes letters and digits through unchanged, in order. */
  lemma {:induction false} CollapseKeepsWords(w: string, s: string)
    requires AllWordChars(w)
    ensures CollapseSeparators(w + s) == w + CollapseSeparators(s)
    decreases |w|
  {
    if w == [] {
      assert w + s == s;
    } else {
      AllWordCharsTail(w);
      CollapseWordHead(w, s);
      CollapseKeepsWords(w[1..], s);
      ConsAppend(w, CollapseSeparators(s));
    }
  }

  /** Skipping a whole run of separators lands on what follows it. */
  lemma {:induction false} SkipRun(sep: string, b: string)
    requires AllSeparators(sep)
    requires b == [] || IsWordChar(b[0])
    ensures SkipSeparators(sep + b) == b
    decreases |sep|
  {
    if sep == [] {
      assert sep + b == b;
    } else {
      assert (sep + b)[0] == sep[0] && (sep + b)[1..] == sep[1..] + b;
      assert AllSeparators(sep[1..]) by {
        assert forall i :: 0 <= i < |sep| - 1 ==> sep[1..][i] == sep[i + 1];
      }
      SkipRun(sep[1..], b);
    }
  }

  /** A whole run of separators, up to a letter, a digit or the end, becomes one space.
      With `CollapseKeepsWords` this fixes the collapse on every text. */
  lemma CollapseRun(sep: string, b: string)
    requires sep != [] && AllSeparators(sep)
    requires b == [] || IsWordChar(b[0])
    ensures CollapseSeparators(sep + b) == [' '] + CollapseSeparators(b)
  {
    assert (sep + b)[0] == sep[0];
    SkipRun(sep, b);
  }

  /** Only letters, digits and single spaces. */
  predicate IsCollapsed(r: string) {
    && (forall i :: 0 <= i < |r| ==> IsWordChar(r[i]) || r[i] == ' ')
    && (forall i :: 0 <= i < |r| - 1 ==> !(r[i] == ' ' && r[i + 1] == ' '))
  }

  /** Collapsing leaves only letters, digits and single spaces. */
  lemma {:induction false} CollapseSpec(s: string)
    ensures IsCollapsed(CollapseSeparators(s))
    decreases |s|
  {
    if s != [] {
      var rest := if IsWordChar(s[0]) then s[1..] else SkipSeparators(s);
      CollapseSpec(rest);
      var t := CollapseSeparators(rest);
      var r := CollapseSeparators(s);
      var h := if IsWordChar(s[0]) then s[0] else ' ';
      assert r == [h] + t;
      if h == ' ' {
        assert rest == [] || IsWordChar(rest[0]);
        assert t == [] || t[0] != ' ';
      }
      ConsCollapsed(h, t);
    }
  }

  /** A letter, digit or space in front of a collapsed text keeps it collapsed, unless it
      makes two spaces meet. */
  lemma ConsCollapsed(h: char, t: string)
    requires IsCollapsed(t)
    requires IsWordChar(h) || h == ' '
    requires h == ' ' ==> t == [] || t[0] != ' '
    ensures IsCollapsed([h] + t)
  {
    var r := [h] + t;
    forall i | 0 <= i < |r| ensures IsWordChar(r[i]) || r[i] == ' ' {
      if i > 0 { assert r[i] == t[i - 1]; }
    }
    forall i | 0 <= i < |r| - 1 ensures !(r[i] == ' ' && r[i + 1] == ' ') {
      assert r[i + 1] == t[i];
      if i > 0 { assert r[i] == t[i - 1]; }
    }
  }

  /** The shape `norm` produces: lower-case letters, digits and single inner spaces. */
  predicate IsNormal(s: string) {
    && (forall i :: 0 <= i < |s| ==> ('a' <= s[i] <= 'z') || IsDigit(s[i]) || s[i] == ' ')
    && (forall i :: 0 <= i < |s| - 1 ==> !(s[i] == ' ' && s[i + 1] == ' '))
    && (s == [] || (s[0] != ' ' && s[|s| - 1] != ' '))
  }

  /** `norm`: drop zero-width spaces, collapse non-word runs to a space, trim, lower-case. */
  function Norm(s: string): string
  {
    ToLower(Trim(CollapseSeparators(RemoveChar(s, ZeroWidthSpace))))
  }

  /** Every normalised name has the normal shape. */
  lemma NormIsNormal(s: string)
    ensures IsNormal(Norm(s))
  {
    var x := RemoveChar(s, ZeroWidthSpace);
    CollapseSpec(x);
    TrimCollapsed(CollapseSeparators(x));
  }

  /** Trimming and lower-casing a collapsed text gives a normal one. */
  lemma TrimCollapsed(c: string)
    requires IsCollapsed(c)
    ensures IsNormal(ToLower(Trim(c)))
  {
    TrimSpec(c);
    TrimOfCollapsed(c, Trim(c), |c| - |TrimStart(c)|);
  }

  lemma TrimOfCollapsed(c: string, t: string, j: nat)
    requires IsCollapsed(c)
    requires TrimmedAt(c, t, j)
    ensures IsNormal(ToLower(t))
  {
    forall k | 0 <= k < |t| ensures IsWordChar(t[k]) || t[k] == ' ' {
      assert t[k] == c[j + k];
    }
    forall k | 0 <= k < |t| - 1 ensures !(t[k] == ' ' && t[k + 1] == ' ') {
      assert t[k] == c[j + k] && t[k + 1] == c[j + k + 1];
    }
    assert IsCollapsed(t);
    LowerOfCollapsed(t);
  }

  lemma LowerOfCollapsed(t: string)
    requires IsCollapsed(t)
    requires t == [] || (t[0] != ' ' && t[|t| - 1] != ' ')
    ensures IsNormal(ToLower(t))
  {
    var r := ToLower(t);
    forall i | 0 <= i < |r| ensures ('a' <= r[i] <= 'z') || IsDigit(r[i]) || r[i] == ' ' {
      assert r[i] == LowerChar(t[i]);
    }
    forall i | 0 <= i < |r| - 1 ensures !(r[i] == ' ' && r[i + 1] == ' ') {
      assert r[i] == LowerChar(t[i]) && r[i + 1] == LowerChar(t[i + 1]);
    }
  }

  /** `norm` leaves a normal name alone, so normalising twice changes nothing. */
  lemma {:induction false} NormOfNormal(s: string)
    requires IsNormal(s)
    ensures Norm(s) == s
  {
    RemoveAbsent(s, ZeroWidthSpace);
    CollapseOfNormal(s);
    TrimOfNormal(s);
    LowerOfNormal(s);
  }

  lemma TrimOfNormal(s: string)
    requires IsNormal(s)
    ensures Trim(s) == s
  {
    assert s == [] || (!IsSpace(s[0]) && !IsSpace(s[|s| - 1]));
    TrimFixed(s);
  }

  lemma LowerOfNormal(s: string)
    requires IsNormal(s)
    ensures ToLower(s) == s
  {
    var r := ToLower(s);
    forall i | 0 <= i < |s| ensures r[i] == s[i] {
      assert r[i] == LowerChar(s[i]);
    }
  }

  lemma NormIdempotent(s: string)
    ensures Norm(Norm(s)) == Norm(s)
  {
    NormIsNormal(s);
    NormOfNormal(Norm(s));
  }

  lemma {:induction false} RemoveAbsent(s: string, x: char)
    requires x !in s
    ensures RemoveChar(s, x) == s
    decreases |s|
  {
    if s != [] {
      RemoveAbsent(s[1..], x);
    }
  }

  lemma CollapseOfNormal(s: string)
    requires IsNormal(s)
    ensures CollapseSeparators(s) == s
  {
    assert IsCollapsed(s);
    CollapseOfWords(s);
  }

  lemma {:induction false} CollapseOfWords(s: string)
    requires IsCollapsed(s)
    ensures CollapseSeparators(s) == s
    decreases |s|
  {
    if s != [] {
      var rest := s[1..];
      assert s == [s[0]] + rest;
      assert IsCollapsed(rest) by {
        assert forall i :: 0 <= i < |rest| ==> rest[i] == s[i + 1];
      }
      if IsWordChar(s[0]) {
        CollapseOfWords(rest);
      } else {
        assert SkipSeparators(s) == rest by {
          assert rest == [] || IsWordChar(rest[0]);
        }
        CollapseOfWords(rest);
      }
    }
  }

  // ---------------------------------------------------------------- lines

  /** `s.split("\n")`: the pieces between line feeds, always at least one. */
  function SplitLines(s: string): (r: seq<string>)
    ensures |r| >= 1
    decreases |s|
  {
    if s == [] then [[]]
    else
      var p := SplitLines(s[..|s| - 1]);
      var c := s[|s| - 1];
      if c == '\n' then p + [[]] else p[..|p| - 1] + [p[|p| - 1] + [c]]
  }

  /** No piece holds a line feed. */
  lemma {:induction false} SplitLinesPieces(s: string)
    ensures forall i :: 0 <= i < |SplitLines(s)| ==> '\n' !in SplitLines(s)[i]
    decreases |s|
  {
    if s != [] {
      SplitLinesPieces(s[..|s| - 1]);
    }
  }

  /** `lines.join("\n")`. */
  function JoinLines(ls: seq<string>): string
    decreases |ls|
  {
    if |ls| == 0 then []
    else if |ls| == 1 then ls[0]
    else JoinLines(ls[..|ls| - 1]) + "\n" + ls[|ls| - 1]
  }

  lemma JoinAppendChar(ls: seq<string>, c: char)
    requires |ls| >= 1
    ensures JoinLines(ls[..|ls| - 1] + [ls[|ls| - 1] + [c]]) == JoinLines(ls) + [c]
  {
    var ls' := ls[..|ls| - 1] + [ls[|ls| - 1] + [c]];
    if |ls| > 1 {
      assert ls'[..|ls'| - 1] == ls[..|ls| - 1];
    }
  }

  /** Joining the split pieces gives the text back. */
  lemma {:induction false} JoinSplit(s: string)
    ensures JoinLines(SplitLines(s)) == s
    decreases |s|
  {
    if s != [] {
      var init := s[..|s| - 1];
      var c := s[|s| - 1];
      var p := SplitLines(init);
      JoinSplit(init);
      assert s == init + [c];
      if c == '\n' {
        SplitFeed(init);
        JoinFeed(p);
      } else {
        SplitLast(init, c);
        JoinAppendChar(p, c);
      }
    }
  }

  lemma JoinFeed(ls: seq<string>)
    requires |ls| >= 1
    ensures JoinLines(ls + [[]]) == JoinLines(ls) + "\n"
  {
    assert (ls + [[]])[..|ls|] == ls;
  }

  lemma SplitFeed(s: string)
    ensures SplitLines(s + "\n") == SplitLines(s) + [[]]
  {
    assert (s + "\n")[..|s|] == s;
  }

  lemma {:induction false} SplitAppendPlain(s: string, t: string, front: seq<string>, last: string)
    requires '\n' !in t
    requires SplitLines(s) == front + [last]
    ensures SplitLines(s + t) == front + [last + t]
    decreases |t|
  {
    if t == [] {
      assert s + t == s;
      assert last + t == last;
    } else {
      var t' := t[..|t| - 1];
      var c := t[|t| - 1];
      SplitAppendPlain(s, t', front, last);
      SplitAppendStep(s + t', c, front, last + t');
      assert s + t == (s + t') + [c];
      assert (last + t') + [c] == last + t;
    }
  }

  /** Appending a character other than a line feed extends the last piece. */
  lemma SplitAppendStep(u: string, c: char, front: seq<string>, last: string)
    requires c != '\n'
    requires SplitLines(u) == front + [last]
    ensures SplitLines(u + [c]) == front + [last + [c]]
  {
    SplitLast(u, c);
    var q := SplitLines(u);
    assert q[..|q| - 1] == front;
  }

  lemma SplitLast(s: string, c: char)
    requires c != '\n'
    ensures var q := SplitLines(s);
            SplitLines(s + [c]) == q[..|q| - 1] + [q[|q| - 1] + [c]]
  {
    assert (s + [c])[..|s|] == s;
  }

  /** Splitting the joined lines gives the lines back, when no line holds a line feed. */
  lemma {:induction false} SplitJoin(ls: seq<string>)
    requires |ls| >= 1
    requires forall i :: 0 <= i < |ls| ==> '\n' !in ls[i]
    ensures SplitLines(JoinLines(ls)) == ls
    decreases |ls|
  {
    if |ls| == 1 {
      SplitAppendPlain([], ls[0], [], []);
      assert [] + ls[0] == ls[0];
    } else {
      var init := ls[..|ls| - 1];
      var last := ls[|ls| - 1];
      SplitJoin(init);
      var j := JoinLines(init) + "\n";
      assert JoinLines(ls) == j + last;
      assert SplitLines(j) == init + [[]] by {
        assert j[..|j| - 1] == JoinLines(init);
        assert j[|j| - 1] == '\n';
      }
      SplitAppendPlain(j, last, init, []);
      assert [] + last == last;
      assert init + [last] == ls;
    }
  }

  // ---------------------------------------------------------------- delimiters

  /** `l.replace(/\t|;/g, ",")`. */
  function ReplaceDelimiters(l: string): (r: string)
    ensures |r| == |l|
    ensures '\t' !in r && ';' !in r
    ensures forall i :: 0 <= i < |l| && (l[i] == '\t' || l[i] == ';') ==> r[i] == ','
    ensures forall i :: 0 <= i < |l| && l[i] != '\t' && l[i] != ';' ==> r[i] == l[i]
  {
    seq(|l|, i requires 0 <= i < |l| => if l[i] == '\t' || l[i] == ';' then ',' else l[i])
  }

  function ReplaceEach(ls: seq<string>): (r: seq<string>)
    ensures |r| == |ls|
  {
    seq(|ls|, i requires 0 <= i < |ls| => ReplaceDelimiters(ls[i]))
  }

  /** Rewriting the delimiters line by line and then joining is the same as rewriting the joined text. */
  lemma {:induction false} JoinReplaceEach(ls: seq<string>)
    ensures JoinLines(ReplaceEach(ls)) == ReplaceDelimiters(JoinLines(ls))
    decreases |ls|
  {
    if |ls| > 1 {
      var init := ls[..|ls| - 1];
      JoinReplaceEach(init);
      assert ReplaceEach(ls)[..|ls| - 1] == ReplaceEach(init);
    }
  }
}
