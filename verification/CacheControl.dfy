/**
 The search for a "no-transform" directive in Cache-Control (RFC 9111, section 5.2.2.6).
 */
module CacheControl {
  import opened Headers
  import opened Text
  import opened Quoted
  import opened Locality
  import opened FieldLines
  import opened JoinExactly

  const NO_TRANSFORM := "no-transform"
  const CUTS: set<char> := {';', '='}

  function Trim(t: string): string {
    t[SkipOws(t, 0)..TrimEnd(t, SkipOws(t, 0), |t|)]
  }

  /** A segment's directive name: what precedes its first ';' or '=', trimmed. */
  function Directive(segment: string): string {
    Trim(segment[..Until(segment, 0, CUTS)])
  }

  predicate IsNoTransform(segment: string) {
    SameName(Directive(segment), NO_TRANSFORM)
  }

  /** Some segment between top-level commas, from `p` on, is the directive. */
  predicate AnyFrom(s: string, p: nat)
    requires p <= |s|
    decreases |s| - p
  {
    var e := ElementEnd(s, p);
    IsNoTransform(s[p..e]) || (e < |s| && AnyFrom(s, e + 1))
  }

  predicate NoTransformIn(s: string) {
    AnyFrom(s, 0)
  }

  /** Two-phase reading: some segment of the split is the directive. */
  lemma {:induction false} AnyIsSomeSegment(s: string, p: nat)
    requires p <= |s|
    ensures AnyFrom(s, p) <==> exists k | 0 <= k < |Starts(s, p)| ::
              var a := Starts(s, p)[k]; IsNoTransform(s[a..ElementEnd(s, a)])
    decreases |s| - p
  {
    hide ElementEnd, IsNoTransform;
    var e := ElementEnd(s, p);
    if e < |s| {
      AnyIsSomeSegment(s, e + 1);
      assert Starts(s, p) == [p] + Starts(s, e + 1);
      assert forall k | 0 < k < |Starts(s, p)| :: Starts(s, p)[k] == Starts(s, e + 1)[k - 1];
      if AnyFrom(s, e + 1) {
        var k :| 0 <= k < |Starts(s, e + 1)| && var a := Starts(s, e + 1)[k]; IsNoTransform(s[a..ElementEnd(s, a)]);
        assert Starts(s, p)[k + 1] == Starts(s, e + 1)[k];
      }
      assert Starts(s, p)[0] == p;
    } else {
      assert Starts(s, p) == [p];
      assert Starts(s, p)[0] == p;
    }
  }

  // ----- the program's walker -----

  /** The walker's own quote loop finds the end that the shared quote skipper finds. */
  method SegmentEnd(s: string, p: nat) returns (r: nat)
    requires p <= |s|
    ensures r == ElementEnd(s, p)
  {
    r := p;
    while r < |s| && s[r] != ','
      invariant p <= r <= |s| && Cut(s, r, Plain, COMMA) == Cut(s, p, Plain, COMMA)
      decreases |s| - r
    {
      if s[r] == '"' {
        r := r + 1;
        while r < |s| && s[r] != '"'
          invariant p < r <= |s|
          invariant Cut(s, r, InQuotes, COMMA) == Cut(s, p, Plain, COMMA)
        {
          if s[r] == '\\' && r + 1 < |s| {
            r := r + 1;
          }
          r := r + 1;
        }
        if r < |s| {
          r := r + 1;
        }
        continue;
      }
      r := r + 1;
    }
  }

  lemma {:induction false} TrimEndShift(s: string, p: nat, e: nat, lo: nat, hi: nat)
    requires p <= e <= |s| && lo <= hi <= e - p
    ensures TrimEnd(s, p + lo, p + hi) == p + TrimEnd(s[p..e], lo, hi)
    decreases hi - lo
  {
    if lo < hi && IsOws(s[p + hi - 1]) { TrimEndShift(s, p, e, lo, hi - 1); }
  }

  /** The name the walker compares, by its positions in the whole value. */
  lemma DirectiveInPlace(s: string, p: nat, e: nat, a: nat, cut: nat)
    requires p <= a <= cut <= e <= |s|
    requires (forall k | p <= k < a :: IsOws(s[k])) && (a < e ==> !IsOws(s[a]))
    requires (forall k | a <= k < cut :: s[k] !in CUTS) && (cut < e ==> s[cut] in CUTS)
    ensures Directive(s[p..e]) == s[a..TrimEnd(s, a, cut)]
  {
    hide Until, Trim;
    CutInPlace(s, p, e, a, cut);
    SliceOfSlice(s, p, e, 0, cut - p);
    TrimInPlace(s, p, cut, a);
  }

  lemma TrimInPlace(s: string, p: nat, cut: nat, a: nat)
    requires p <= a <= cut <= |s| && (forall k | p <= k < a :: IsOws(s[k])) && (a < cut ==> !IsOws(s[a]))
    ensures Trim(s[p..cut]) == s[a..TrimEnd(s, a, cut)]
  {
    hide SkipOws, TrimEnd;
    BlankInPlace(s, p, cut, a);
    TrimEndShift(s, p, cut, a - p, cut - p);
    SliceOfSlice(s, p, cut, a - p, TrimEnd(s, a, cut) - p);
  }

  lemma SliceOfSlice(s: string, p: nat, e: nat, i: nat, j: nat)
    requires p <= e <= |s| && i <= j <= e - p
    ensures s[p..e][i..j] == s[p + i..p + j]
  {
    var a, b := s[p..e][i..j], s[p + i..p + j];
    assert |a| == |b| && forall k | 0 <= k < |a| :: a[k] == b[k];
  }

  lemma CutInPlace(s: string, p: nat, e: nat, a: nat, cut: nat)
    requires p <= a <= cut <= e <= |s|
    requires (forall k | p <= k < a :: IsOws(s[k]))
    requires (forall k | a <= k < cut :: s[k] !in CUTS) && (cut < e ==> s[cut] in CUTS)
    ensures Until(s[p..e], 0, CUTS) == cut - p
  {
    var seg := s[p..e];
    forall k | 0 <= k < cut - p ensures seg[k] !in CUTS { assert seg[k] == s[p + k]; }
  }

  lemma BlankInPlace(s: string, p: nat, cut: nat, a: nat)
    requires p <= a <= cut <= |s| && (forall k | p <= k < a :: IsOws(s[k])) && (a < cut ==> !IsOws(s[a]))
    ensures SkipOws(s[p..cut], 0) == a - p
  {
    var t := s[p..cut];
    forall k | 0 <= k < a - p ensures IsOws(t[k]) { assert t[k] == s[p + k]; }
  }

  /** One segment of the walker: where it ends, and whether it is the directive. */
  method ReadSegment(s: string, p: nat) returns (here: bool, segEnd: nat)
    requires p <= |s|
    ensures segEnd == ElementEnd(s, p) && here == IsNoTransform(s[p..segEnd])
  {
    hide Cut, Directive, SkipOws, CaseEqual, Until;
    var start := SkipOwsLoop(s, p);
    PlainStretch(s, p, start, COMMA);
    segEnd := SegmentEnd(s, start);
    var cut := start;
    while cut < segEnd && s[cut] != ';' && s[cut] != '='
      invariant start <= cut <= segEnd && forall k | start <= k < cut :: s[k] !in CUTS
    {
      cut := cut + 1;
    }
    var end := cut;
    while end > start && (s[end - 1] == ' ' || s[end - 1] == '\t')
      invariant start <= end <= cut && TrimEnd(s, start, end) == TrimEnd(s, start, cut)
    {
      end := end - 1;
    }
    DirectiveInPlace(s, p, segEnd, start, cut);
    here := SameName(s[start..end], NO_TRANSFORM);
  }

  /** The walker: answers whether some segment is the directive. */
  method CcValueNoTransform(s: string) returns (found: bool)
    ensures found <==> NoTransformIn(s)
  {
    hide Cut, IsNoTransform;
    NothingInNothing(s);
    var p := 0;
    while p < |s|
      invariant p <= |s|
      invariant NoTransformIn(s) <==> AnyFrom(s, p)
      decreases |s| - p
    {
      var here, segEnd := ReadSegment(s, p);
      if here {
        return true;
      }
      p := if segEnd < |s| then segEnd + 1 else segEnd;
    }
    found := false;
  }

  lemma NothingInNothing(s: string)
    ensures !AnyFrom(s, |s|)
  {
    assert s[|s|..|s|] == "";
    assert Directive("") == "";
  }

  lemma EmptyFieldIsNo()
    ensures !NoTransformIn("")
  {
    NothingInNothing("");
  }

  predicate IsCacheControl(h: Header) {
    h.hash != 0 && SameName(h.key, "Cache-Control") && h.value != ""
  }

  /** Every Cache-Control line of a response is checked. */
  method NoTransform(headers: seq<Header>) returns (found: bool)
    ensures found <==> exists i | 0 <= i < |headers| :: IsCacheControl(headers[i]) && NoTransformIn(headers[i].value)
  {
    hide NoTransformIn, CaseEqual;
    for i := 0 to |headers|
      invariant forall k | 0 <= k < i :: !(IsCacheControl(headers[k]) && NoTransformIn(headers[k].value))
    {
      var h := headers[i];
      if h.hash == 0 || |h.key| != |"Cache-Control"| || |h.value| == 0 {
        continue;
      }
      if SameName(h.key, "Cache-Control") {
        var hit := CcValueNoTransform(h.value);
        if hit {
          return true;
        }
      }
    }
    found := false;
  }

  // ----- several lines against the joined field -----

  lemma AnyEmbedded(x: string, y: string, d: nat, p: nat)
    requires Embedded(x, y, d) && p <= |x| && (d + |x| == |y| || Run(x, p, |x|, Plain) == Plain)
    ensures AnyFrom(y, d + p) <==> AnyFrom(x, p) || (d + |x| < |y| && AnyFrom(y, d + |x| + 1))
    decreases |x| - p
  {
    hide IsNoTransform, Cut, Run;
    CutEmbedded(x, y, d, p, Plain, COMMA);
    var e := ElementEnd(x, p);
    assert x[p..e] == y[d + p..d + e];
    if e < |x| {
      if d + |x| < |y| { ElementEndEmbedded(x, y, d, p); }
      AnyEmbedded(x, y, d, e + 1);
    }
  }

  /** Checking two lines in turn is checking their join, when the first closes its quotes. */
  lemma PairJoins(x: string, z: string)
    requires Closed(x)
    ensures NoTransformIn(x + "," + z) <==> NoTransformIn(x) || NoTransformIn(z)
  {
    hide AnyFrom;
    var y := x + "," + z;
    RunIsModeAt(x, 0, |x|);
    AnyEmbedded(x, y, 0, 0);
    AnyEmbedded(z, y, |x| + 1, 0);
  }

  lemma {:induction false} LinesJoin(lines: seq<string>)
    requires forall i | 0 <= i < |lines| - 1 :: Closed(lines[i])
    ensures NoTransformIn(Join(lines)) <==> exists i | 0 <= i < |lines| :: NoTransformIn(lines[i])
    decreases |lines|
  {
    hide NoTransformIn, Closed;
    if |lines| == 0 {
      EmptyFieldIsNo();
    } else if |lines| > 1 {
      PairJoins(lines[0], Join(lines[1..]));
      assert forall i | 0 <= i < |lines[1..]| :: lines[1..][i] == lines[i + 1];
      LinesJoin(lines[1..]);
      assert (exists i | 0 <= i < |lines| :: NoTransformIn(lines[i]))
          == (NoTransformIn(lines[0]) || exists i | 0 <= i < |lines[1..]| :: NoTransformIn(lines[1..][i])) by {
        if i :| 0 <= i < |lines| && NoTransformIn(lines[i]) {
          if i > 0 { assert NoTransformIn(lines[1..][i - 1]); }
        }
      }
    }
  }

  // ----- exactly when two lines may be checked in turn -----

  /** The directive name is made of the segment's own characters before the cut. */
  lemma DirectiveHasNoQuote(seg: string)
    requires IsNoTransform(seg)
    ensures forall k | 0 <= k < Until(seg, 0, CUTS) :: seg[k] != '"'
  {
    var t := seg[..Until(seg, 0, CUTS)];
    var lo, hi := SkipOws(t, 0), TrimEnd(t, SkipOws(t, 0), |t|);
    var name := t[lo..hi];
    assert name == Directive(seg);
    NameIsPlain(name);
    forall k | 0 <= k < |t| ensures seg[k] != '"' {
      assert seg[k] == t[k];
      if lo <= k < hi { assert t[k] == name[k - lo]; }
    }
  }

  lemma NameIsPlain(name: string)
    requires SameName(name, NO_TRANSFORM)
    ensures '"' !in name
  {
    CaseEqualNotNul(name, NO_TRANSFORM);
  }

  lemma {:induction false} CaseEqualNotNul(a: string, b: string)
    requires |a| == |b| && CaseEqual(a, b) && '\0' !in b && '"' !in b
    ensures forall k | 0 <= k < |a| :: ToLower(a[k]) == ToLower(b[k])
    ensures '"' !in a
  {
    if a != [] {
      assert b[0] in b;
      assert ToLower(a[0]) == ToLower(b[0]);
      CaseEqualNotNul(a[1..], b[1..]);
      forall k | 0 <= k < |a| ensures ToLower(a[k]) == ToLower(b[k]) && a[k] != '"' {
        if k > 0 { assert a[k] == a[1..][k - 1] && b[k] == b[1..][k - 1]; }
      }
    }
  }

  /** A segment with an open quote is the directive only through a cut before that quote. */
  lemma OpenSegmentKeeps(seg: string, more: string)
    requires Run(seg, 0, |seg|, Plain) != Plain
    ensures IsNoTransform(seg + more) ==> IsNoTransform(seg)
    ensures IsNoTransform(seg) ==> IsNoTransform(seg + more)
  {
    hide Directive, SameName;
    var y := seg + more;
    var u := Until(seg, 0, CUTS);
    if u == |seg| {
      if !(exists k | 0 <= k < |seg| :: seg[k] == '"') { RunUnquoted(seg, 0, |seg|); }
      var k :| 0 <= k < |seg| && seg[k] == '"';
      assert y[k] == '"' && Until(y, 0, CUTS) >= |seg| by {
        forall j | 0 <= j < |seg| ensures y[j] !in CUTS { assert y[j] == seg[j]; }
      }
      if IsNoTransform(seg) { DirectiveHasNoQuote(seg); }
      if IsNoTransform(y) { DirectiveHasNoQuote(y); }
    } else {
      SameCut(seg, more);
    }
  }

  lemma SameCut(seg: string, more: string)
    requires Until(seg, 0, CUTS) < |seg|
    ensures Directive(seg + more) == Directive(seg)
  {
    var y, u := seg + more, Until(seg, 0, CUTS);
    assert y[u] == seg[u];
    forall k | 0 <= k < u ensures y[k] !in CUTS { assert y[k] == seg[k]; }
    assert Until(y, 0, CUTS) == u;
    assert y[..u] == seg[..u];
  }

  lemma {:induction false} OpenLineKeeps(x: string, z: string, p: nat)
    requires p <= |x| && Run(x, p, |x|, Plain) != Plain
    ensures AnyFrom(x, p) ==> AnyFrom(x + "," + z, p)
    decreases |x| - p
  {
    hide IsNoTransform, Cut, Run;
    var y, e := x + "," + z, ElementEnd(x, p);
    CutEmbedded(x, y, 0, p, Plain, COMMA);
    CutIsFirstStop(x, p, Plain, COMMA);
    if e < |x| {
      assert y[p..e] == x[p..e];
      RunSplit(x, p, e, |x|, Plain);
      AfterComma(x, e);
      OpenLineKeeps(x, z, e + 1);
    } else {
      var e' := ElementEnd(y, p);
      OpenEndsLater(x, z, p, Plain);
      RunOfSlice(x, p);
      assert y[p..e'] == x[p..] + y[|x|..e'] && x[p..e] == x[p..];
      OpenSegmentKeeps(x[p..], y[|x|..e']);
    }
  }

  lemma {:induction false} OpenEndsLater(x: string, z: string, p: nat, m: Mode)
    requires p <= |x| && Cut(x, p, m, COMMA) == |x|
    ensures Cut(x + "," + z, p, m, COMMA) >= |x|
    decreases |x| - p
  {
    if p < |x| { OpenEndsLater(x, z, p + 1, Step(m, x[p])); }
  }

  lemma {:induction false} RunOfSlice(x: string, p: nat)
    requires p <= |x|
    ensures Run(x[p..], 0, |x| - p, Plain) == Run(x, p, |x|, Plain)
  {
    var t := x[p..];
    RunEmbedded(t, x, p, 0, |t|, Plain);
  }

  /** An open line without the directive hides it from the joined field when it comes next. */
  lemma {:induction false} OpenLineHides(x: string, z: string, p: nat)
    requires p <= |x| && Run(x, p, |x|, Plain) != Plain && '"' !in z && !AnyFrom(x, p)
    ensures !AnyFrom(x + "," + z, p)
    decreases |x| - p
  {
    hide IsNoTransform, Cut, Run;
    var y, e := x + "," + z, ElementEnd(x, p);
    CutEmbedded(x, y, 0, p, Plain, COMMA);
    CutIsFirstStop(x, p, Plain, COMMA);
    if e < |x| {
      assert y[p..e] == x[p..e];
      RunSplit(x, p, e, |x|, Plain);
      AfterComma(x, e);
      OpenLineHides(x, z, e + 1);
    } else {
      assert x[p..e] == x[p..];
      OpenSegmentHides(x, z, p);
    }
  }

  lemma OpenSegmentHides(x: string, z: string, p: nat)
    requires p <= |x| && Run(x, p, |x|, Plain) != Plain && '"' !in z
    requires ElementEnd(x, p) == |x| && !IsNoTransform(x[p..])
    ensures !AnyFrom(x + "," + z, p)
  {
    hide IsNoTransform, Cut, Run;
    var y := x + "," + z;
    OpenElementSwallows(x, z, p, Plain);
    RunOfSlice(x, p);
    assert y[p..|y|] == x[p..] + ("," + z);
    OpenSegmentKeeps(x[p..], "," + z);
  }

  // ----- the directive, by its place in the segment -----

  /** The segment starts with blanks and then, from `a` to `e`, the word; blanks may follow, up to its end, ';' or '='. */
  ghost predicate Bears(segment: string, a: nat, e: nat) {
    && a <= e <= |segment| && SameName(segment[a..e], "no-transform")
    && (forall k | 0 <= k < a :: segment[k] == ' ' || segment[k] == '\t')
    && exists n | e <= n <= |segment| :: BlankUpTo(segment, e, n)
  }

  ghost predicate BlankUpTo(segment: string, e: nat, n: nat)
    requires e <= n <= |segment|
  {
    && (forall k | e <= k < n :: segment[k] == ' ' || segment[k] == '\t')
    && (n == |segment| || segment[n] == ';' || segment[n] == '=')
  }

  lemma WordIsUnbroken(word: string)
    requires SameName(word, NO_TRANSFORM)
    ensures word != "" && forall k | 0 <= k < |word| :: word[k] !in CUTS && !IsOws(word[k])
  {
    CaseEqualNotNul(word, NO_TRANSFORM);
    forall k | 0 <= k < |word| ensures word[k] !in CUTS && !IsOws(word[k]) {
      assert ToLower(word[k]) == ToLower(NO_TRANSFORM[k]);
    }
  }

  lemma BearerIsDirective(segment: string, a: nat, e: nat)
    requires Bears(segment, a, e)
    ensures IsNoTransform(segment)
  {
    hide CaseEqual, Directive, TrimEnd, Until, SkipOws;
    var word := segment[a..e];
    WordIsUnbroken(word);
    assert forall k | a <= k < e :: segment[k] == word[k - a];
    var n :| e <= n <= |segment| && BlankUpTo(segment, e, n);
    assert !IsOws(segment[e - 1]) && !IsOws(segment[a]);
    TrimmedTo(segment, a, e, n);
    DirectiveInPlace(segment, 0, |segment|, a, n);
    assert segment[0..|segment|] == segment;
  }

  lemma TrimmedTo(t: string, lo: nat, e: nat, n: nat)
    requires lo < e <= n <= |t| && !IsOws(t[e - 1]) && forall k | e <= k < n :: IsOws(t[k])
    ensures TrimEnd(t, lo, n) == e
  {}

  /** A segment is the directive exactly when it bears the word somewhere. */
  lemma DirectiveExactly(segment: string)
    ensures IsNoTransform(segment) <==> exists a: nat, e: nat :: Bears(segment, a, e)
  {
    hide CaseEqual, SkipOws, TrimEnd, Until;
    if IsNoTransform(segment) {
      var cut := Until(segment, 0, CUTS);
      var t := segment[..cut];
      var lo := SkipOws(t, 0);
      var hi := TrimEnd(t, lo, |t|);
      assert segment[0..cut] == t && segment[lo..hi] == t[lo..hi] by { SliceOfSlice(segment, 0, cut, lo, hi); }
      assert forall k | 0 <= k < cut :: t[k] == segment[k];
      assert BlankUpTo(segment, hi, cut);
      assert Bears(segment, lo, hi);
    }
    if a: nat, e: nat :| Bears(segment, a, e) {
      BearerIsDirective(segment, a, e);
    }
  }

  lemma BareDirective()
    ensures NoTransformIn(NO_TRANSFORM)
  {
    var s := NO_TRANSFORM;
    hide CaseEqual, Directive;
    CaseEqualReflexive(s);
    OneElement(s);
    hide Cut, ElementEnd;
    DirectiveInPlace(s, 0, |s|, 0, |s|);
    assert TrimEnd(s, 0, |s|) == |s|;
    assert s[0..|s|] == s;
  }

  lemma OneElement(s: string)
    requires forall k | 0 <= k < |s| :: s[k] != '"' && s[k] != ','
    ensures ElementEnd(s, 0) == |s|
  {
    PlainStretch(s, 0, |s|, COMMA);
  }

  /** Checking `x` and then any further line gives the answer for their join. */
  ghost predicate ChecksInTurn(x: string) {
    forall z: string :: NoTransformIn(x + "," + z) <==> NoTransformIn(x) || NoTransformIn(z)
  }

  /** Exactly when: the line closes its quotes, or carries the directive itself. */
  lemma ChecksInTurnExactly(x: string)
    ensures ChecksInTurn(x) <==> Closed(x) || NoTransformIn(x)
  {
    hide AnyFrom, Run;
    RunIsModeAt(x, 0, |x|);
    if Closed(x) {
      forall z: string ensures NoTransformIn(x + "," + z) <==> NoTransformIn(x) || NoTransformIn(z) { PairJoins(x, z); }
    } else if NoTransformIn(x) {
      forall z: string ensures NoTransformIn(x + "," + z) { OpenLineKeeps(x, z, 0); }
    } else {
      BareDirective();
      OpenLineHides(x, NO_TRANSFORM, 0);
      assert !NoTransformIn(x + "," + NO_TRANSFORM);
    }
  }
}
