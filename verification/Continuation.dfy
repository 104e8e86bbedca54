/**
 What becomes of the elements a line leaves open when another line is joined to it.

 An element is left open when its evaluation runs out of text inside a quoted parameter value.  Once
 joined, its evaluation goes on inside the following text, from within that quote, and all open
 elements go on alike.  The following text can do no more than one of three things to them.
 */
module Continuation {
  import opened Text
  import opened Quoted
  import opened AcceptEncoding
  import opened Locality
  import opened FieldLines

  /** What following text does to open evaluations: nothing, make them malformed, or state a weight. */
  datatype Tail = Silent | Spoils | States(q: int)

  predicate InRange(t: Tail) {
    t.States? ==> 0 <= t.q <= 1000
  }

  /** The weight an evaluation ends with; a second stated weight is malformed. */
  function Finished(v: Evaluation, t: Tail): int {
    if !v.open then v.q
    else match t
      case Silent => v.q
      case Spoils => MALFORMED
      case States(q) => if v.stated then MALFORMED else q
  }

  function TailOf(z: string): (t: Tail)
    ensures InRange(t)
  {
    var c := Cut(z, 0, InQuotes, VALUE_STOPS);
    if Params(z, c, 1000, true).q >= 0 then Silent
    else
      var q := Params(z, c, 1000, false).q;
      if q < 0 then Spoils else States(q)
  }

  // ----- one element -----

  /** What parameters do to the weight so far depends on their own text alone. */
  lemma {:induction false} ParamsAfter(z: string, p: nat, q: int)
    requires p <= |z| && 0 <= q <= 1000
    ensures var silent := Params(z, p, 1000, true).q >= 0;
            && Params(z, p, q, true).q == (if silent then q else MALFORMED)
            && Params(z, p, q, false).q == (if silent then q else Params(z, p, 1000, false).q)
    decreases |z| - p
  {
    hide ParamAt;
    if p < |z| && z[p] == ';' {
      var r := ParamAt(z, p);
      if r.Other? && !r.open { ParamsAfter(z, r.next, q); }
    }
  }

  lemma {:induction false} CutAcross(x: string, z: string, i: nat, m: Mode)
    requires i <= |x| && Run(x, i, |x|, m) != Plain && Cut(x, i, m, VALUE_STOPS) == |x|
    ensures var y := x + "," + z;
            && Cut(y, i, m, VALUE_STOPS) == |x| + 1 + Cut(z, 0, InQuotes, VALUE_STOPS)
            && Run(y, i, |y|, m) == Run(z, 0, |z|, InQuotes)
    decreases |x| - i
  {
    if i < |x| {
      CutAcross(x, z, i + 1, Step(m, x[i]));
    } else {
      hide Cut, Run;
      var y := x + "," + z;
      CommaInside(y, i, m);
      CutEmbedded(z, y, |x| + 1, 0, InQuotes, VALUE_STOPS);
      RunEmbedded(z, y, |x| + 1, 0, |z|, InQuotes);
      assert Run(x, |x|, |x|, m) == m by { RunNothing(x, m); }
    }
  }

  lemma RunNothing(x: string, m: Mode)
    ensures Run(x, |x|, |x|, m) == m
  {}

  /** A comma inside quotes is passed, and leaves the automaton in quotes. */
  lemma CommaInside(y: string, i: nat, m: Mode)
    requires i < |y| && y[i] == ','
    ensures m != Plain ==> Cut(y, i, m, VALUE_STOPS) == Cut(y, i + 1, InQuotes, VALUE_STOPS)
    ensures m != Plain ==> Run(y, i, |y|, m) == Run(y, i + 1, |y|, InQuotes)
  {}

  /** Where a value left open by a line ends in the joined field. */
  function Resumed(x: string, z: string, quoted: bool): Param {
    var c := Cut(z, 0, InQuotes, VALUE_STOPS);
    Other(quoted, |x| + 1 + c, c == |z| && Run(z, 0, c, InQuotes) != Plain)
  }

  lemma ValueAcross(x: string, z: string, p: nat, isQ: bool, quoted: bool)
    requires p <= |x| && !(isQ && quoted)
    requires AfterName(x, p, isQ, quoted).Other? && AfterName(x, p, isQ, quoted).open
    ensures AfterName(x + "," + z, p, isQ, quoted) == Resumed(x, z, quoted)
  {
    var y := x + "," + z;
    hide Cut, SkipOws, Run, QvalueAt, Until, IsOws;
    SkipOwsEmbedded(x, y, 0, p);
    var eq := SkipOws(x, p);
    assert eq < |x| && x[eq] == '=' && y[eq] == '=';
    SkipOwsEmbedded(x, y, 0, eq + 1);
    CutAcross(x, z, SkipOws(x, eq + 1), Plain);
  }

  lemma ParamAcross(x: string, z: string, p: nat)
    requires p < |x| && x[p] == ';' && ParamAt(x, p).Other? && ParamAt(x, p).open
    ensures ParamAt(x + "," + z, p) == Resumed(x, z, ParamAt(x, p).quoted)
  {
    var y := x + "," + z;
    hide Cut, AfterName, Until, SkipOws, Resumed;
    SkipOwsEmbedded(x, y, 0, p + 1);
    var start := SkipOws(x, p + 1);
    UntilEmbedded(x, y, 0, start, PARAM_NAME_STOPS);
    var stop := Until(x, start, PARAM_NAME_STOPS);
    ValueAcross(x, z, stop, IsQ(x[start..stop]), '"' in x[start..stop]);
  }

  /** Parameters left open are finished by the tail. */
  lemma {:induction false} ParamsAcross(x: string, z: string, p: nat, q: int, seen: bool)
    requires p <= |x| && 0 <= q <= 1000 && Params(x, p, q, seen).open
    ensures Params(x + "," + z, p, q, seen).q == Finished(Params(x, p, q, seen), TailOf(z))
    decreases |x| - p
  {
    hide ParamAt, TailOf, Finished;
    var y := x + "," + z;
    var r := ParamAt(x, p);
    if r.Other? && r.open {
      ParamAcross(x, z, p);
      TailFinishes(x, z, q, seen, r.quoted);
    } else {
      ParamEmbedded(x, y, 0, p);
      if r.Weight? {
        ParamsAcross(x, z, r.next, r.q, true);
        assert Params(x, p, q, seen) == Params(x, r.next, r.q, true);
      } else {
        ParamsAcross(x, z, r.next, q, seen);
        FinishedIgnores(Params(x, p, q, seen), Params(x, r.next, q, seen), TailOf(z));
      }
    }
  }

  lemma FinishedIgnores(v: Evaluation, w: Evaluation, t: Tail)
    requires v.q == w.q && v.open == w.open && v.stated == w.stated
    ensures Finished(v, t) == Finished(w, t)
  {}

  lemma TailFinishes(x: string, z: string, q: int, seen: bool, quoted: bool)
    requires 0 <= q <= 1000
    ensures var r := Resumed(x, z, quoted);
            r.next <= |x + "," + z| &&
            (if r.open then q else Params(x + "," + z, r.next, q, seen).q)
              == Finished(Evaluation(q, quoted, true, seen), TailOf(z))
  {
    hide Cut, ParamAt, Run, Params, TailOf, Finished;
    var c := Cut(z, 0, InQuotes, VALUE_STOPS);
    TailReads(z, q, seen, quoted);
    ParamsAtEnd(z, q, seen);
    if !Resumed(x, z, quoted).open {
      ParamsEmbedded(z, x + "," + z, |x| + 1, c, q, seen);
    }
  }

  lemma TailReads(z: string, q: int, seen: bool, quoted: bool)
    requires 0 <= q <= 1000
    ensures Params(z, Cut(z, 0, InQuotes, VALUE_STOPS), q, seen).q == Finished(Evaluation(q, quoted, true, seen), TailOf(z))
  {
    hide Cut, Params;
    ParamsAfter(z, Cut(z, 0, InQuotes, VALUE_STOPS), q);
  }

  lemma ParamsAtEnd(z: string, q: int, seen: bool)
    requires -1 <= q <= 1000
    ensures Params(z, |z|, q, seen).q == q
  {}

  /** The verdict of an element of `x` once `z` is joined to the line. */
  lemma JudgeAcross(x: string, z: string, a: nat, coding: string)
    requires a <= |x|
    ensures Judge(x + "," + z, a, coding) == Verdict(Judge(x, a, coding).form, Finished(Weigh(x, a), TailOf(z)))
  {
    hide Until, SkipOws, Params, FormOf, TailOf;
    var y := x + "," + z;
    if Weigh(x, a).open {
      UntilEmbedded(x, y, 0, a, NAME_STOPS);
      SkipOwsEmbedded(x, y, 0, Until(x, a, NAME_STOPS));
      ParamsAcross(x, z, SkipOws(x, Until(x, a, NAME_STOPS)), 1000, false);
    } else {
      JudgeEmbedded(x, y, 0, a, coding);
    }
  }

  // ----- a line -----

  function ApplyUnder(x: string, p: nat, coding: string, w: Weights, t: Tail): Weights
    requires p <= |x|
  {
    var a := SkipOws(x, p);
    if a < ElementEnd(x, p) then Apply(w, Verdict(Judge(x, a, coding).form, Finished(Weigh(x, a), t))) else w
  }

  /** The meaning of the line's elements when the tail `t` finishes the open ones. */
  function FoldUnder(x: string, p: nat, coding: string, w: Weights, t: Tail): Weights
    requires p <= |x|
    decreases |x| - p
  {
    var e := ElementEnd(x, p);
    var w' := ApplyUnder(x, p, coding, w, t);
    if e < |x| then FoldUnder(x, e + 1, coding, w', t) else w'
  }

  lemma ApplyAcross(x: string, z: string, p: nat, coding: string, w: Weights)
    requires p <= |x| && (SkipOws(x, p) < ElementEnd(x, p) <==> SkipOws(x, p) < ElementEnd(x + "," + z, p))
    ensures ApplyElement(x + "," + z, p, coding, w) == ApplyUnder(x, p, coding, w, TailOf(z))
  {
    hide ElementEnd, SkipOws, Judge, Weigh, TailOf, Apply, Finished;
    SkipOwsEmbedded(x, x + "," + z, 0, p);
    JudgeAcross(x, z, SkipOws(x, p), coding);
  }

  /** A closed line joined with any text: its elements under that text's tail, then the text. */
  lemma {:induction false} FoldAcross(x: string, z: string, p: nat, coding: string, w: Weights)
    requires p <= |x| && Run(x, p, |x|, Plain) == Plain
    ensures Fold(x + "," + z, p, coding, w) == Fold(z, 0, coding, FoldUnder(x, p, coding, w, TailOf(z)))
    decreases |x| - p
  {
    hide ElementEnd, SkipOws, TailOf, ApplyElement, ApplyUnder;
    var y := x + "," + z;
    ElementEndEmbedded(x, y, 0, p);
    ApplyAcross(x, z, p, coding, w);
    var w' := ApplyUnder(x, p, coding, w, TailOf(z));
    var e := ElementEnd(x, p);
    if e < |x| {
      FoldAcross(x, z, e + 1, coding, w');
    } else {
      FoldLast(z, y, |x| + 1, 0, coding, w');
    }
  }

  /** A silent tail leaves the line's meaning as it is. */
  lemma {:induction false} SilentKeeps(x: string, p: nat, coding: string, w: Weights)
    requires p <= |x|
    ensures FoldUnder(x, p, coding, w, Silent) == Fold(x, p, coding, w)
    decreases |x| - p
  {
    hide ElementEnd, SkipOws, Weigh, Apply;
    var e := ElementEnd(x, p);
    assert ApplyUnder(x, p, coding, w, Silent) == ApplyElement(x, p, coding, w);
    if e < |x| { SilentKeeps(x, e + 1, coding, ApplyElement(x, p, coding, w)); }
  }

  /** A line with nothing left open means the same under every tail. */
  lemma {:induction false} SelfContainedKeeps(x: string, p: nat, coding: string, w: Weights, t: Tail)
    requires p <= |x| && SelfContained(x, p)
    ensures FoldUnder(x, p, coding, w, t) == Fold(x, p, coding, w)
    decreases |x| - p
  {
    hide ElementEnd, SkipOws, Weigh, Apply;
    var e := ElementEnd(x, p);
    assert ApplyUnder(x, p, coding, w, t) == ApplyElement(x, p, coding, w);
    if e < |x| { SelfContainedKeeps(x, e + 1, coding, ApplyElement(x, p, coding, w), t); }
  }

  lemma {:induction false} UnderOverrides(x: string, p: nat, coding: string, w: Weights, l: Weights, t: Tail)
    requires p <= |x|
    ensures FoldUnder(x, p, coding, Override(w, l), t) == Override(w, FoldUnder(x, p, coding, l, t))
    decreases |x| - p
  {
    hide Judge, ElementEnd, SkipOws, Weigh, Finished;
    var e := ElementEnd(x, p);
    if e < |x| { UnderOverrides(x, e + 1, coding, w, ApplyUnder(x, p, coding, l, t), t); }
  }

  // ----- three tails stand for all -----

  /** Under a stated weight a line's weight is either fixed or that very weight. */
  predicate Follows(low: int, high: int, mid: int, q: int) {
    low == high == mid || (low == 0 && high == 1000 && mid == q)
  }

  predicate BothFollow(low: Weights, high: Weights, mid: Weights, q: int) {
    Follows(low.explicit, high.explicit, mid.explicit, q) && Follows(low.star, high.star, mid.star, q)
  }

  lemma {:induction false} ExtremesDecide(x: string, p: nat, coding: string, low: Weights, high: Weights, mid: Weights, q: int)
    requires p <= |x| && 0 <= q <= 1000 && BothFollow(low, high, mid, q)
    ensures BothFollow(FoldUnder(x, p, coding, low, States(0)), FoldUnder(x, p, coding, high, States(1000)),
                       FoldUnder(x, p, coding, mid, States(q)), q)
    decreases |x| - p
  {
    hide Judge, ElementEnd, SkipOws, Weigh;
    var e := ElementEnd(x, p);
    var low', high', mid' := ApplyUnder(x, p, coding, low, States(0)), ApplyUnder(x, p, coding, high, States(1000)), ApplyUnder(x, p, coding, mid, States(q));
    assert BothFollow(low', high', mid', q);
    if e < |x| { ExtremesDecide(x, e + 1, coding, low', high', mid', q); }
  }

  predicate KeptUnder(x: string, coding: string, wildcard: bool, t: Tail) {
    Agree(FieldValue(x, coding), FoldUnder(x, 0, coding, NONE, t), wildcard)
  }

  /**
   The line's weights, as far as precedence looks, survive the loss of its open elements and either
   extreme weight for those that have not stated one.
   */
  predicate Steady(x: string, coding: string, wildcard: bool) {
    KeptUnder(x, coding, wildcard, Spoils) && KeptUnder(x, coding, wildcard, States(0)) && KeptUnder(x, coding, wildcard, States(1000))
  }

  /** A steady line is one whose weights survive any following text. */
  lemma SteadyUnderAll(x: string, coding: string, wildcard: bool, t: Tail)
    requires Steady(x, coding, wildcard) && InRange(t)
    ensures KeptUnder(x, coding, wildcard, t)
  {
    hide FoldUnder, FieldValue;
    match t
    case Silent => { SilentKeeps(x, 0, coding, NONE); assert FieldValue(x, coding) == Fold(x, 0, coding, NONE) by { FieldIsFold(x, coding); } }
    case Spoils => {}
    case States(q) => { ExtremesDecide(x, 0, coding, NONE, NONE, NONE, q); }
  }

  lemma FieldIsFold(x: string, coding: string)
    ensures FieldValue(x, coding) == Fold(x, 0, coding, NONE)
  {}

  lemma JudgedStar(x: string, a: nat, coding: string)
    requires a <= |x| && SameName("*", coding)
    ensures !Judge(x, a, coding).form.Star?
  {
    hide SameName, Weigh;
  }

  lemma {:induction false} UnderInRange(x: string, p: nat, coding: string, w: Weights, t: Tail)
    requires p <= |x| && InRange(t) && -1 <= w.explicit <= 1000 && -1 <= w.star <= 1000
    ensures var r := FoldUnder(x, p, coding, w, t);
            && -1 <= r.explicit <= 1000 && -1 <= r.star <= 1000
            && (SameName("*", coding) ==> r.star == w.star)
    decreases |x| - p
  {
    hide ElementEnd, SkipOws, Judge, Weigh, SameName;
    var e := ElementEnd(x, p);
    var w' := ApplyUnder(x, p, coding, w, t);
    if SameName("*", coding) && SkipOws(x, p) < e { JudgedStar(x, SkipOws(x, p), coding); }
    assert -1 <= w'.explicit <= 1000 && -1 <= w'.star <= 1000;
    if e < |x| { UnderInRange(x, e + 1, coding, w', t); }
  }
}
