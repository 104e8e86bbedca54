/**
 When an element's weight depends on the element's own characters only.

 A stretch `x` of a longer field `y` that ends where `y` has a comma (or ends) is scanned there as
 it would be alone, unless reading `x` alone runs out of text inside a quoted parameter value.
 */
module Locality {
  import opened Text
  import opened Quoted
  import opened AcceptEncoding

  /** `x` stands in `y` at offset `d`, followed by a comma or the end of `y`. */
  ghost predicate Embedded(x: string, y: string, d: nat) {
    && d + |x| <= |y|
    && (forall i | 0 <= i < |x| :: x[i] == y[d + i])
    && (d + |x| < |y| ==> y[d + |x|] == ',')
  }

  lemma {:induction false} SkipOwsEmbedded(x: string, y: string, d: nat, p: nat)
    requires Embedded(x, y, d) && p <= |x|
    ensures SkipOws(y, d + p) == d + SkipOws(x, p)
    decreases |x| - p
  {
    if p < |x| && IsOws(x[p]) { SkipOwsEmbedded(x, y, d, p + 1); }
  }

  lemma {:induction false} UntilEmbedded(x: string, y: string, d: nat, p: nat, stops: set<char>)
    requires Embedded(x, y, d) && p <= |x| && ',' in stops
    ensures Until(y, d + p, stops) == d + Until(x, p, stops)
    ensures x[p..Until(x, p, stops)] == y[d + p..Until(y, d + p, stops)]
    decreases |x| - p
  {
    if p < |x| && x[p] !in stops { UntilEmbedded(x, y, d, p + 1, stops); }
  }

  lemma {:induction false} RunEmbedded(x: string, y: string, d: nat, i: nat, j: nat, m: Mode)
    requires Embedded(x, y, d) && i <= j <= |x|
    ensures Run(y, d + i, d + j, m) == Run(x, i, j, m)
    decreases j - i
  {
    if i < j { RunEmbedded(x, y, d, i + 1, j, Step(m, x[i])); }
  }

  lemma {:induction false} CutEmbedded(x: string, y: string, d: nat, p: nat, m: Mode, stops: set<char>)
    requires Embedded(x, y, d) && p <= |x| && ',' in stops
    ensures Cut(x, p, m, stops) < |x| || d + |x| == |y| || Run(x, p, |x|, m) == Plain ==>
              Cut(y, d + p, m, stops) == d + Cut(x, p, m, stops)
    decreases |x| - p
  {
    if p < |x| && !(m == Plain && x[p] in stops) { CutEmbedded(x, y, d, p + 1, Step(m, x[p]), stops); }
  }

  /** Text left open reads the same only where nothing follows it. */
  predicate Settled(x: string, y: string, d: nat, open: bool) {
    !open || d + |x| == |y|
  }

  function Shift(x: Param, d: nat): Param {
    if x.Bad? then x else x.(next := d + x.next)
  }

  lemma QvalueEmbedded(x: string, y: string, d: nat, v: nat)
    requires Embedded(x, y, d) && v <= |x|
    ensures QvalueAt(y, d + v) == Shift(QvalueAt(x, v), d)
  {
    hide Until, SkipOws, IsQvalue, Milli;
    UntilEmbedded(x, y, d, v, QVALUE_STOPS);
    SkipOwsEmbedded(x, y, d, Until(x, v, QVALUE_STOPS));
  }

  lemma ValueEmbedded(x: string, y: string, d: nat, v: nat, quoted: bool)
    requires Embedded(x, y, d) && v <= |x| && Settled(x, y, d, ValueAt(x, v, quoted).open)
    ensures ValueAt(y, d + v, quoted) == Shift(ValueAt(x, v, quoted), d)
  {
    hide Cut, Run;
    CutEmbedded(x, y, d, v, Plain, VALUE_STOPS);
    RunEmbedded(x, y, d, v, Cut(x, v, Plain, VALUE_STOPS), Plain);
  }

  lemma AfterNameEmbedded(x: string, y: string, d: nat, p: nat, isQ: bool, quoted: bool)
    requires Embedded(x, y, d) && p <= |x| && !(isQ && quoted)
    requires AfterName(x, p, isQ, quoted).Other? ==> Settled(x, y, d, AfterName(x, p, isQ, quoted).open)
    ensures AfterName(y, d + p, isQ, quoted) == Shift(AfterName(x, p, isQ, quoted), d)
  {
    hide SkipOws, QvalueAt, ValueAt;
    var eq := SkipOws(x, p);
    SkipOwsEmbedded(x, y, d, p);
    if eq < |x| && x[eq] == '=' {
      SkipOwsEmbedded(x, y, d, eq + 1);
      var v := SkipOws(x, eq + 1);
      if isQ { QvalueEmbedded(x, y, d, v); } else { ValueEmbedded(x, y, d, v, quoted); }
    }
  }

  lemma ParamEmbedded(x: string, y: string, d: nat, p: nat)
    requires Embedded(x, y, d) && p < |x| && x[p] == ';'
    requires ParamAt(x, p).Other? ==> Settled(x, y, d, ParamAt(x, p).open)
    ensures ParamAt(y, d + p) == Shift(ParamAt(x, p), d)
  {
    hide Cut, Until, SkipOws, AfterName;
    SkipOwsEmbedded(x, y, d, p + 1);
    var start := SkipOws(x, p + 1);
    UntilEmbedded(x, y, d, start, PARAM_NAME_STOPS);
    var stop := Until(x, start, PARAM_NAME_STOPS);
    if start != stop {
      var name := x[start..stop];
      AfterNameEmbedded(x, y, d, stop, IsQ(name), '"' in name);
    }
  }

  lemma {:induction false} ParamsEmbedded(x: string, y: string, d: nat, p: nat, q: int, seen: bool)
    requires Embedded(x, y, d) && p <= |x| && -1 <= q <= 1000
    requires Settled(x, y, d, Params(x, p, q, seen).open)
    ensures Params(y, d + p, q, seen) == Params(x, p, q, seen)
    decreases |x| - p
  {
    hide ParamAt;
    if p < |x| && x[p] == ';' {
      ParamEmbedded(x, y, d, p);
      var r := ParamAt(x, p);
      if r.Weight? && !seen {
        ParamsEmbedded(x, y, d, r.next, r.q, true);
      } else if r.Other? && !r.open {
        ParamsEmbedded(x, y, d, r.next, q, seen);
      }
    }
  }

  /** Locality, one direction: an element not left open is judged by its own characters. */
  lemma JudgeEmbedded(x: string, y: string, d: nat, a: nat, coding: string)
    requires Embedded(x, y, d) && a <= |x|
    requires Settled(x, y, d, Weigh(x, a).open)
    ensures Judge(y, d + a, coding) == Judge(x, a, coding)
    ensures Weigh(y, d + a) == Weigh(x, a)
  {
    hide Until, SkipOws, Params, FormOf;
    UntilEmbedded(x, y, d, a, NAME_STOPS);
    var stop := Until(x, a, NAME_STOPS);
    SkipOwsEmbedded(x, y, d, stop);
    var m := SkipOws(x, stop);
    if m < |x| && x[m] == ';' { ParamsEmbedded(x, y, d, m, 1000, false); }
  }

  /** An element left open is well formed so far, with the weight its own text states. */
  lemma {:induction false} OpenIsWellFormed(x: string, p: nat, q: int, seen: bool)
    requires p <= |x| && 0 <= q <= 1000 && Params(x, p, q, seen).open
    ensures 0 <= Params(x, p, q, seen).q
    decreases |x| - p
  {
    hide ParamAt;
    if p < |x| && x[p] == ';' {
      var r := ParamAt(x, p);
      if r.Weight? && !seen {
        OpenIsWellFormed(x, r.next, r.q, true);
      } else if r.Other? && !r.open {
        OpenIsWellFormed(x, r.next, q, seen);
      }
    }
  }

  // ----- the other direction: text that closes the quote changes the verdict -----

  /** Follows an open element, closes its quote and leaves an empty parameter behind. */
  const SPOILER := ",\";"

  lemma {:induction false} SpoilerEndsQuote(x: string, i: nat, m: Mode)
    requires i <= |x| && Run(x, i, |x|, m) != Plain && Cut(x, i, m, VALUE_STOPS) == |x|
    ensures Cut(x + SPOILER, i, m, VALUE_STOPS) == |x| + 2
    decreases |x| - i
  {
    var y := x + SPOILER;
    if i < |x| {
      SpoilerEndsQuote(x, i + 1, Step(m, x[i]));
    } else {
      assert y[i] == ',' && y[i + 1] == '"' && y[i + 2] == ';';
      assert Cut(y, i + 2, Plain, VALUE_STOPS) == i + 2;
      assert Step(Step(m, ','), '"') == Plain;
      assert Cut(y, i + 1, Step(m, ','), VALUE_STOPS) == i + 2;
    }
  }

  lemma OpenValueSpoiled(x: string, p: nat, isQ: bool, quoted: bool)
    requires p <= |x| && !(isQ && quoted)
    requires AfterName(x, p, isQ, quoted).Other? && AfterName(x, p, isQ, quoted).open
    ensures AfterName(x + SPOILER, p, isQ, quoted) == Other(quoted, |x| + 2, false)
  {
    var y := x + SPOILER;
    hide Cut, SkipOws, Run, QvalueAt, Until, IsOws;
    SkipOwsEmbedded(x, y, 0, p);
    var eq := SkipOws(x, p);
    assert eq < |x| && x[eq] == '=' && y[eq] == '=';
    SkipOwsEmbedded(x, y, 0, eq + 1);
    SpoilerEndsQuote(x, SkipOws(x, eq + 1), Plain);
  }

  /** The parameter whose value the text leaves open. */
  lemma OpenParamSpoiled(x: string, p: nat)
    requires p < |x| && x[p] == ';' && ParamAt(x, p).Other? && ParamAt(x, p).open
    ensures (x + SPOILER)[p] == ';'
    ensures ParamAt(x + SPOILER, p) == Other(ParamAt(x, p).quoted, |x| + 2, false)
  {
    var y := x + SPOILER;
    hide Cut, AfterName, Until, SkipOws;
    assert y[p] == x[p];
    SkipOwsEmbedded(x, y, 0, p + 1);
    var start := SkipOws(x, p + 1);
    UntilEmbedded(x, y, 0, start, PARAM_NAME_STOPS);
    var stop := Until(x, start, PARAM_NAME_STOPS);
    OpenValueSpoiled(x, stop, IsQ(x[start..stop]), '"' in x[start..stop]);
  }

  lemma SpoilerIsMalformed(x: string)
    ensures (x + SPOILER)[|x| + 2] == ';'
    ensures ParamAt(x + SPOILER, |x| + 2) == Bad(false)
  {
    hide AfterName;
  }

  lemma {:induction false} OpenParamsSpoiled(x: string, p: nat, q: int, seen: bool)
    requires p <= |x| && -1 <= q <= 1000 && Params(x, p, q, seen).open
    ensures Params(x + SPOILER, p, q, seen).q == MALFORMED
    decreases |x| - p
  {
    hide ParamAt;
    var y := x + SPOILER;
    var r := ParamAt(x, p);
    assert y[p] == x[p];
    if r.Other? && r.open {
      OpenParamSpoiled(x, p);
      SpoilerIsMalformed(x);
    } else {
      ParamEmbedded(x, y, 0, p);
      if r.Weight? {
        OpenParamsSpoiled(x, r.next, r.q, true);
      } else {
        OpenParamsSpoiled(x, r.next, q, seen);
      }
    }
  }

  lemma OpenJudgeSpoiled(x: string, a: nat, coding: string)
    requires a <= |x| && Weigh(x, a).open
    ensures Judge(x + SPOILER, a, coding).q != Judge(x, a, coding).q
  {
    var y := x + SPOILER;
    hide Until, SkipOws, Params, FormOf;
    UntilEmbedded(x, y, 0, a, NAME_STOPS);
    var stop := Until(x, a, NAME_STOPS);
    SkipOwsEmbedded(x, y, 0, stop);
    var m := SkipOws(x, stop);
    assert m < |x| && x[m] == ';' && y[m] == ';';
    OpenParamsSpoiled(x, m, 1000, false);
    OpenIsWellFormed(x, m, 1000, false);
  }

  /** The element's verdict is the same whatever list follows it. */
  ghost predicate IndependentOfContext(x: string, a: nat, coding: string)
    requires a <= |x|
  {
    forall z: string :: Judge(x + "," + z, a, coding) == Judge(x, a, coding)
  }

  /**
   Exactly when an element's verdict is a function of its own characters: when its own text does
   not run out inside a quoted parameter value.
   */
  lemma LocalityExactly(x: string, a: nat, coding: string)
    requires a <= |x|
    ensures IndependentOfContext(x, a, coding) <==> !Weigh(x, a).open
  {
    hide Judge, Weigh;
    if Weigh(x, a).open {
      OpenJudgeSpoiled(x, a, coding);
      var z := "\";";
      assert x + "," + z == x + SPOILER;
      assert Judge(x + "," + z, a, coding) != Judge(x, a, coding);
    } else {
      forall z: string ensures Judge(x + "," + z, a, coding) == Judge(x, a, coding) {
        JudgeEmbedded(x, x + "," + z, 0, a, coding);
      }
    }
  }
}
