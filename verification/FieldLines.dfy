/**
 Several Accept-Encoding lines against the single comma-joined field they stand for
 (RFC 9110, section 5.3).
 */
module FieldLines {
  import opened Text
  import opened Quoted
  import opened AcceptEncoding
  import opened Locality

  // ----- the fold over lines -----

  function FoldLine(acc: Weights, line: string, coding: string, wildcard: bool): Weights {
    var l := FieldValue(line, coding);
    if l.explicit >= 0 then acc.(explicit := l.explicit)
    else if wildcard && l.star >= 0 then acc.(star := l.star)
    else acc
  }

  function FoldLines(acc: Weights, lines: seq<string>, coding: string, wildcard: bool): Weights
    decreases |lines|
  {
    if lines == [] then acc
    else FoldLines(FoldLine(acc, lines[0], coding, wildcard), lines[1..], coding, wildcard)
  }

  function RequestWeight(lines: seq<string>, coding: string, wildcard: bool): int {
    Precedence(FoldLines(NONE, lines, coding, wildcard), wildcard)
  }

  /** One field line folded into the accumulators. */
  method FoldLineWeight(line: string, coding: string, wildcard: bool, explicit: int, star: int)
    returns (explicit': int, star': int)
    ensures Weights(explicit', star') == FoldLine(Weights(explicit, star), line, coding, wildcard)
  {
    explicit', star' := explicit, star;
    var _, lineExplicit, lineStar := CodingWeightEx(line, coding, wildcard);
    if lineExplicit >= 0 {
      explicit' := lineExplicit;
      return;
    }
    if wildcard && lineStar >= 0 {
      star' := lineStar;
    }
  }

  method RequestCodingWeight(lines: seq<string>, coding: string, wildcard: bool) returns (q: int)
    ensures q == RequestWeight(lines, coding, wildcard)
  {
    var explicit, star := -1, -1;
    hide FoldLine;
    for i := 0 to |lines|
      invariant FoldLines(Weights(explicit, star), lines[i..], coding, wildcard) == FoldLines(NONE, lines, coding, wildcard)
    {
      assert lines[i..][0] == lines[i] && lines[i..][1..] == lines[i + 1..];
      explicit, star := FoldLineWeight(lines[i], coding, wildcard, explicit, star);
    }
    q := Precedence(Weights(explicit, star), wildcard);
  }

  // ----- the joined field -----

  function Join(lines: seq<string>): string {
    if lines == [] then "" else
    if |lines| == 1 then lines[0] else lines[0] + "," + Join(lines[1..])
  }

  /** No element of `x` from `p` on runs out of text inside a quoted parameter value. */
  predicate SelfContained(x: string, p: nat)
    requires p <= |x|
    decreases |x| - p
  {
    var e := ElementEnd(x, p);
    && (SkipOws(x, p) < e ==> !Weigh(x, SkipOws(x, p)).open)
    && (e < |x| ==> SelfContained(x, e + 1))
  }

  lemma ElementEndEmbedded(x: string, y: string, d: nat, p: nat)
    requires Embedded(x, y, d) && p <= |x| && Run(x, p, |x|, Plain) == Plain
    ensures ElementEnd(y, d + p) == d + ElementEnd(x, p)
    ensures ElementEnd(x, p) < |x| ==> Run(x, ElementEnd(x, p) + 1, |x|, Plain) == Plain
  {
    hide Cut;
    var e := ElementEnd(x, p);
    CutEmbedded(x, y, d, p, Plain, COMMA);
    CutIsFirstStop(x, p, Plain, COMMA);
    RunSplit(x, p, e, |x|, Plain);
  }

  lemma ApplyElementEmbedded(x: string, y: string, d: nat, p: nat, coding: string, w: Weights)
    requires Embedded(x, y, d) && p <= |x| && Run(x, p, |x|, Plain) == Plain
    requires SkipOws(x, p) < ElementEnd(x, p) ==> Settled(x, y, d, Weigh(x, SkipOws(x, p)).open)
    ensures ApplyElement(y, d + p, coding, w) == ApplyElement(x, p, coding, w)
  {
    hide Cut, SkipOws, Judge, Weigh, Apply;
    ElementEndEmbedded(x, y, d, p);
    SkipOwsEmbedded(x, y, d, p);
    if SkipOws(x, p) < ElementEnd(x, p) { JudgeEmbedded(x, y, d, SkipOws(x, p), coding); }
  }

  /** A closed, self-contained stretch followed by a comma contributes what it means alone. */
  lemma {:induction false} FoldThrough(x: string, y: string, d: nat, p: nat, coding: string, w: Weights)
    requires Embedded(x, y, d) && d + |x| < |y| && p <= |x|
    requires Run(x, p, |x|, Plain) == Plain && SelfContained(x, p)
    ensures Fold(y, d + p, coding, w) == Fold(y, d + |x| + 1, coding, Fold(x, p, coding, w))
    decreases |x| - p
  {
    hide Weigh, ElementEnd, SkipOws, ApplyElement;
    ElementEndEmbedded(x, y, d, p);
    ApplyElementEmbedded(x, y, d, p, coding, w);
    var e := ElementEnd(x, p);
    if e < |x| { FoldThrough(x, y, d, e + 1, coding, ApplyElement(x, p, coding, w)); }
  }

  /** The stretch that ends the field. */
  lemma {:induction false} FoldLast(x: string, y: string, d: nat, p: nat, coding: string, w: Weights)
    requires Embedded(x, y, d) && d + |x| == |y| && p <= |x|
    ensures Fold(y, d + p, coding, w) == Fold(x, p, coding, w)
    decreases |x| - p
  {
    hide Cut, SkipOws, Judge, Weigh, Apply;
    CutEmbedded(x, y, d, p, Plain, COMMA);
    SkipOwsEmbedded(x, y, d, p);
    if SkipOws(x, p) < ElementEnd(x, p) { JudgeEmbedded(x, y, d, SkipOws(x, p), coding); }
    assert ApplyElement(y, d + p, coding, w) == ApplyElement(x, p, coding, w);
    hide ApplyElement;
    var e := ElementEnd(x, p);
    if e < |x| { FoldLast(x, y, d, e + 1, coding, ApplyElement(x, p, coding, w)); }
  }

  /** What a later part `l` of the field leaves of the weights `w` gathered before it. */
  function Override(w: Weights, l: Weights): Weights {
    Weights(if l.explicit >= 0 then l.explicit else w.explicit, if l.star >= 0 then l.star else w.star)
  }

  lemma {:induction false} FoldOverrides(s: string, p: nat, coding: string, w: Weights, l: Weights)
    requires p <= |s|
    ensures Fold(s, p, coding, Override(w, l)) == Override(w, Fold(s, p, coding, l))
    decreases |s| - p
  {
    hide Judge, ElementEnd, SkipOws;
    var e := ElementEnd(s, p);
    if e < |s| { FoldOverrides(s, e + 1, coding, w, ApplyElement(s, p, coding, l)); }
  }

  /** A line that ends cleanly: every quote closed and no parameter value left open. */
  predicate Clean(x: string) {
    Closed(x) && SelfContained(x, 0)
  }

  lemma FieldValueOfPair(x: string, z: string, coding: string, w: Weights)
    requires Clean(x)
    ensures Fold(x + "," + z, 0, coding, w) == Fold(z, 0, coding, Fold(x, 0, coding, w))
  {
    hide Fold, SelfContained;
    var y := x + "," + z;
    RunIsModeAt(x, 0, |x|);
    FoldThrough(x, y, 0, 0, coding, w);
    FoldLast(z, y, |x| + 1, 0, coding, Fold(x, 0, coding, w));
  }

  /** Folding lines in turn and folding their join agree wherever precedence looks. */
  predicate Agree(acc: Weights, w: Weights, wildcard: bool) {
    acc.explicit == w.explicit && (w.explicit < 0 && wildcard ==> acc.star == w.star)
  }

  lemma LineAgrees(acc: Weights, w: Weights, line: string, coding: string, wildcard: bool)
    requires Agree(acc, w, wildcard)
    ensures Agree(FoldLine(acc, line, coding, wildcard), Fold(line, 0, coding, w), wildcard)
  {
    hide Fold;
    FoldNone(line, coding, w);
  }

  lemma FoldNone(line: string, coding: string, w: Weights)
    ensures Fold(line, 0, coding, w) == Override(w, FieldValue(line, coding))
  {
    hide Fold;
    assert Override(w, NONE) == w;
    FoldOverrides(line, 0, coding, w, NONE);
  }

  lemma {:induction false} LinesAgree(acc: Weights, w: Weights, lines: seq<string>, coding: string, wildcard: bool)
    requires Agree(acc, w, wildcard) && lines != []
    requires forall i | 0 <= i < |lines| - 1 :: Clean(lines[i])
    ensures Agree(FoldLines(acc, lines, coding, wildcard), Fold(Join(lines), 0, coding, w), wildcard)
    decreases |lines|
  {
    hide Fold, FoldLine, Clean;
    LineAgrees(acc, w, lines[0], coding, wildcard);
    if |lines| > 1 {
      FieldValueOfPair(lines[0], Join(lines[1..]), coding, w);
      assert forall i | 0 <= i < |lines[1..]| - 1 :: lines[1..][i] == lines[i + 1];
      LinesAgree(FoldLine(acc, lines[0], coding, wildcard), Fold(lines[0], 0, coding, w), lines[1..], coding, wildcard);
    } else {
      assert FoldLines(acc, lines, coding, wildcard) == FoldLine(acc, lines[0], coding, wildcard);
    }
  }

  /**
   Reading the lines one by one gives the weight of the single comma-joined field, for any number
   of lines and either wildcard setting, when every line but the last ends cleanly.
   */
  lemma FoldedIsJoined(lines: seq<string>, coding: string, wildcard: bool)
    requires forall i | 0 <= i < |lines| - 1 :: Clean(lines[i])
    ensures RequestWeight(lines, coding, wildcard) == CodingWeightOf(Join(lines), coding, wildcard)
  {
    hide FoldLine, Clean;
    if lines == [] {
      FoldAtEnd("", coding, NONE);
    } else {
      LinesAgree(NONE, NONE, lines, coding, wildcard);
    }
  }

  // ----- the condition in the terms of the text -----

  /** No DQUOTE stands inside a parameter name of an element of `x` from `p` on. */
  predicate NamesUnquoted(x: string, p: nat)
    requires p <= |x|
    decreases |x| - p
  {
    var e := ElementEnd(x, p);
    && (SkipOws(x, p) < e ==> !Weigh(x, SkipOws(x, p)).quotedName)
    && (e < |x| ==> NamesUnquoted(x, e + 1))
  }

  lemma {:induction false} RunUnquoted(x: string, i: nat, j: nat)
    requires i <= j <= |x| && forall k | i <= k < j :: x[k] != '"'
    ensures Run(x, i, j, Plain) == Plain
    decreases j - i
  {
    if i < j { RunUnquoted(x, i + 1, j); }
  }

  lemma QvalueUnquoted(t: string)
    requires IsQvalue(t)
    ensures forall k | 0 <= k < |t| :: t[k] != '"'
  {}

  lemma AfterNameInPhase(x: string, p: nat, isQ: bool)
    requires p <= |x|
    ensures var r := AfterName(x, p, isQ, false);
            && (r.Weight? || (r.Other? && !r.open) ==> Run(x, p, r.next, Plain) == Plain)
            && (r.Other? && r.open ==> Run(x, p, |x|, Plain) != Plain)
  {
    hide SkipOws, Until, Cut, IsQvalue, Milli, Run;
    var eq := SkipOws(x, p);
    RunUnquoted(x, p, eq);
    if eq < |x| && x[eq] == '=' {
      var v := SkipOws(x, eq + 1);
      RunUnquoted(x, p, v);
      if isQ {
        var w := Until(x, v, QVALUE_STOPS);
        if IsQvalue(x[v..w]) {
          QvalueUnquoted(x[v..w]);
          forall k | v <= k < w ensures x[k] != '"' { assert x[k] == x[v..w][k - v]; }
          RunUnquoted(x, p, SkipOws(x, w));
        }
      } else {
        var w := Cut(x, v, Plain, VALUE_STOPS);
        CutIsFirstStop(x, v, Plain, VALUE_STOPS);
        RunSplit(x, p, v, w, Plain);
      }
    }
  }

  lemma ParamInPhase(x: string, p: nat)
    requires p < |x| && x[p] == ';' && !ParamAt(x, p).quoted
    ensures var r := ParamAt(x, p);
            && (r.Weight? || (r.Other? && !r.open) ==> Run(x, p, r.next, Plain) == Plain)
            && (r.Other? && r.open ==> Run(x, p, |x|, Plain) != Plain)
  {
    hide SkipOws, Until, Run, AfterName;
    var start := SkipOws(x, p + 1);
    var stop := Until(x, start, PARAM_NAME_STOPS);
    var name := x[start..stop];
    if name != [] {
      forall k | start <= k < stop ensures x[k] != '"' { assert x[k] == name[k - start]; }
      RunUnquoted(x, p, stop);
      AfterNameInPhase(x, stop, IsQ(name));
      var r := ParamAt(x, p);
      if !r.Bad? { RunSplit(x, p, stop, r.next, Plain); }
    }
  }

  /** With no DQUOTE in a name the evaluator reads in phase with the quotes of the line. */
  lemma {:induction false} UnquotedNamesStayClosed(x: string, p: nat, q: int, seen: bool)
    requires p <= |x| && -1 <= q <= 1000
    requires !Params(x, p, q, seen).quotedName && Run(x, p, |x|, Plain) == Plain
    ensures !Params(x, p, q, seen).open
    decreases |x| - p
  {
    hide ParamAt, Run;
    if p < |x| && x[p] == ';' {
      var r := ParamAt(x, p);
      if !r.quoted {
        ParamInPhase(x, p);
        if r.Weight? && !seen {
          RunSplit(x, p, r.next, |x|, Plain);
          UnquotedNamesStayClosed(x, r.next, r.q, true);
        } else if r.Other? && !r.open {
          RunSplit(x, p, r.next, |x|, Plain);
          UnquotedNamesStayClosed(x, r.next, q, seen);
        }
      }
    }
  }

  lemma ElementInPhase(x: string, a: nat)
    requires a <= |x| && Run(x, a, |x|, Plain) == Plain && !Weigh(x, a).quotedName
    ensures !Weigh(x, a).open
  {
    hide SkipOws, Until, Run, Params;
    var m := SkipOws(x, Until(x, a, NAME_STOPS));
    RunUnquoted(x, a, m);
    RunSplit(x, a, m, |x|, Plain);
    if m < |x| && x[m] == ';' { UnquotedNamesStayClosed(x, m, 1000, false); }
  }

  lemma {:induction false} UnquotedIsSelfContained(x: string, p: nat)
    requires p <= |x| && Run(x, p, |x|, Plain) == Plain && NamesUnquoted(x, p)
    ensures SelfContained(x, p)
    decreases |x| - p
  {
    hide SkipOws, Weigh, Run, ElementEnd;
    var e, a := ElementEnd(x, p), SkipOws(x, p);
    ElementEndEmbedded(x, x, 0, p);
    RunUnquoted(x, p, a);
    RunSplit(x, p, a, |x|, Plain);
    if a < e { ElementInPhase(x, a); }
    if e < |x| { UnquotedIsSelfContained(x, e + 1); }
  }

  /** The same theorem with the condition a reader of the header can check. */
  lemma UnquotedNamesJoin(lines: seq<string>, coding: string, wildcard: bool)
    requires forall i | 0 <= i < |lines| - 1 :: Closed(lines[i]) && NamesUnquoted(lines[i], 0)
    ensures RequestWeight(lines, coding, wildcard) == CodingWeightOf(Join(lines), coding, wildcard)
  {
    forall i | 0 <= i < |lines| - 1 ensures Clean(lines[i]) {
      RunIsModeAt(lines[i], 0, |lines[i]|);
      UnquotedIsSelfContained(lines[i], 0);
    }
    FoldedIsJoined(lines, coding, wildcard);
  }
}
