/**
 The walker against a two-phase reading of the field: first split at the top-level commas, then
 judge each element, the last well-formed mention of each form winning.
 */
module TwoPhase {
  import opened Text
  import opened Quoted
  import opened AcceptEncoding

  /** Phase two: the elements that start at `starts`, applied in order. */
  function FoldStarts(s: string, starts: seq<nat>, coding: string, w: Weights): Weights
    requires forall k | 0 <= k < |starts| :: starts[k] <= |s|
    decreases |starts|
  {
    if starts == [] then w else FoldStarts(s, starts[1..], coding, ApplyElement(s, starts[0], coding, w))
  }

  lemma {:induction false} FoldIsTwoPhase(s: string, p: nat, coding: string, w: Weights)
    requires p <= |s|
    ensures Fold(s, p, coding, w) == FoldStarts(s, Starts(s, p), coding, w)
    decreases |s| - p
  {
    hide ElementEnd, ApplyElement;
    var e := ElementEnd(s, p);
    if e < |s| {
      FoldIsTwoPhase(s, e + 1, coding, ApplyElement(s, p, coding, w));
    }
  }

  /** The element starting at `p` is well formed and of the given form. */
  predicate Speaks(s: string, p: nat, coding: string, form: Form)
    requires p <= |s|
  {
    var a := SkipOws(s, p);
    a < ElementEnd(s, p) && Judge(s, a, coding).form == form && Judge(s, a, coding).q >= 0
  }

  function Get(w: Weights, form: Form): int {
    match form
    case Explicit => w.explicit
    case Star => w.star
    case Neither => -1
  }

  lemma ApplySpeaks(s: string, p: nat, coding: string, form: Form, w: Weights)
    requires p <= |s| && form != Neither
    ensures Get(ApplyElement(s, p, coding, w), form) ==
            if Speaks(s, p, coding, form) then Judge(s, SkipOws(s, p), coding).q else Get(w, form)
  {
    hide ElementEnd, Judge, SkipOws;
  }

  /** The last element of the form decides its weight; without one, the weight stays as it was. */
  lemma {:induction false} LastSpeakerWins(s: string, p: nat, coding: string, form: Form, w: Weights) returns (i: int)
    requires p <= |s| && form != Neither
    ensures -1 <= i < |Starts(s, p)|
    ensures forall j | i < j < |Starts(s, p)| :: !Speaks(s, Starts(s, p)[j], coding, form)
    ensures i == -1 ==> Get(Fold(s, p, coding, w), form) == Get(w, form)
    ensures i >= 0 ==> var a := Starts(s, p)[i];
              Speaks(s, a, coding, form) && Get(Fold(s, p, coding, w), form) == Judge(s, SkipOws(s, a), coding).q
    decreases |s| - p
  {
    hide ElementEnd, Judge, SkipOws, Speaks, ApplyElement, Get;
    ApplySpeaks(s, p, coding, form, w);
    var e, w' := ElementEnd(s, p), ApplyElement(s, p, coding, w);
    i := if Speaks(s, p, coding, form) then 0 else -1;
    if e < |s| {
      var k := LastSpeakerWins(s, e + 1, coding, form, w');
      assert Starts(s, p) == [p] + Starts(s, e + 1);
      if k >= 0 { i := k + 1; }
    }
  }

  // ----- qvalues as numbers -----

  /** "0" or "1", alone or with a point and up to three more digits, all zeros after a one. */
  lemma QvalueGrammar(t: string)
    ensures IsQvalue(t) <==>
              || t == "0" || t == "1"
              || (exists ds: string | t == "0." + ds :: |ds| <= 3 && forall k | 0 <= k < |ds| :: ds[k] in "0123456789")
              || (exists ds: string | t == "1." + ds :: |ds| <= 3 && forall k | 0 <= k < |ds| :: ds[k] == '0')
  {
    if |t| >= 2 && t[1] == '.' {
      var ds := t[2..];
      assert t == [t[0]] + "." + ds;
      forall k | 0 <= k < |ds| ensures ds[k] == t[k + 2] && (IsDigit(ds[k]) <==> ds[k] in "0123456789") { DigitFaces(ds[k]); }
    }
  }

  /** What a character is worth as a decimal digit. */
  function Face(c: char): int {
    match c
    case '1' => 1
    case '2' => 2
    case '3' => 3
    case '4' => 4
    case '5' => 5
    case '6' => 6
    case '7' => 7
    case '8' => 8
    case '9' => 9
    case _ => 0
  }

  lemma DigitFaces(c: char)
    ensures IsDigit(c) <==> c in "0123456789"
    ensures IsDigit(c) ==> c as int - '0' as int == Face(c)
  {
    if IsDigit(c) { assert c == "0123456789"[c as int - 48]; }
  }

  /** The decimal digits of `t` from `k` on, `unit` being what one of the first is worth. */
  function Decimals(t: string, k: nat, unit: real): real
    requires k <= |t|
    decreases |t| - k
  {
    if k == |t| then 0.0 else Face(t[k]) as real * unit + Decimals(t, k + 1, unit / 10.0)
  }

  /** The number a qvalue denotes. */
  function Denotes(t: string): real
    requires IsQvalue(t)
  {
    Face(t[0]) as real + if |t| > 2 then Decimals(t, 2, 0.1) else 0.0
  }

  /** Milli-units are exact: a thousand times the decimal number. */
  lemma MilliIsExact(t: string)
    requires IsQvalue(t)
    ensures Milli(t) as real == 1000.0 * Denotes(t)
  {
    hide Face;
    forall k | 0 <= k < |t| && k != 1 ensures DigitAt(t, k) == Face(t[k]) { DigitFaces(t[k]); }
    if |t| > 2 {
      assert Decimals(t, 2, 0.1) == DigitAt(t, 2) as real * 0.1 + Decimals(t, 3, 0.01);
      if |t| > 3 {
        assert Decimals(t, 3, 0.01) == DigitAt(t, 3) as real * 0.01 + Decimals(t, 4, 0.001);
        if |t| > 4 {
          assert Decimals(t, 4, 0.001) == DigitAt(t, 4) as real * 0.001 + Decimals(t, 5, 0.0001);
        }
      }
    }
  }
}
