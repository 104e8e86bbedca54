/**
 Quoted strings (RFC 9110, section 5.6.4) and the quote-aware split at delimiters.

 The specification is a three-state automaton run over the text; the program's nested cursor
 loops are proved to find the same positions.
 */
module Quoted {

  datatype Mode = Plain | InQuotes | Escape

  function Step(m: Mode, c: char): Mode {
    match m
    case Plain => if c == '"' then InQuotes else Plain
    case InQuotes => if c == '"' then Plain else if c == '\\' then Escape else InQuotes
    case Escape => InQuotes
  }

  /** The automaton's state before position `i`, started Plain at the head of the text. */
  function ModeAt(s: string, i: nat): Mode
    requires i <= |s|
  {
    if i == 0 then Plain else Step(ModeAt(s, i - 1), s[i - 1])
  }

  /** Every quoted string opened in `s` is closed in `s`. */
  predicate Closed(s: string) {
    ModeAt(s, |s|) == Plain
  }

  /** A comma that separates list elements: one outside every quoted string. */
  predicate IsTopComma(s: string, i: nat)
    requires i < |s|
  {
    s[i] == ',' && ModeAt(s, i) == Plain
  }

  /** The state after the automaton, in state `m` before `i`, has read `s[i..j]`. */
  function Run(s: string, i: nat, j: nat, m: Mode): Mode
    requires i <= j <= |s|
    decreases j - i
  {
    if i == j then m else Run(s, i + 1, j, Step(m, s[i]))
  }

  /** First position at or after `i` holding an unquoted character of `stops`. */
  function Cut(s: string, i: nat, m: Mode, stops: set<char>): (r: nat)
    requires i <= |s|
    ensures i <= r <= |s|
    ensures r < |s| ==> s[r] in stops
    decreases |s| - i
  {
    if i == |s| || (m == Plain && s[i] in stops) then i else Cut(s, i + 1, Step(m, s[i]), stops)
  }

  const COMMA: set<char> := {','}

  /** The end of the list element in which `p` lies, `p` being outside quotes. */
  function ElementEnd(s: string, p: nat): (e: nat)
    requires p <= |s|
    ensures p <= e <= |s|
  {
    Cut(s, p, Plain, COMMA)
  }

  lemma {:induction false} RunSplit(s: string, i: nat, j: nat, k: nat, m: Mode)
    requires i <= j <= k <= |s|
    ensures Run(s, i, k, m) == Run(s, j, k, Run(s, i, j, m))
    decreases j - i
  {
    if i < j { RunSplit(s, i + 1, j, k, Step(m, s[i])); }
  }

  /** A cut may be resumed anywhere before it ends, in the state reached there. */
  lemma {:induction false} CutResume(s: string, i: nat, j: nat, m: Mode, stops: set<char>)
    requires i <= |s| && i <= j <= Cut(s, i, m, stops)
    ensures Cut(s, j, Run(s, i, j, m), stops) == Cut(s, i, m, stops)
    decreases j - i
  {
    if i < j { CutResume(s, i + 1, j, Step(m, s[i]), stops); }
  }

  /** Text without a DQUOTE or a stop is passed over in one go. */
  lemma {:induction false} PlainStretch(s: string, i: nat, j: nat, stops: set<char>)
    requires i <= j <= |s| && forall k | i <= k < j :: s[k] != '"' && s[k] !in stops
    ensures Run(s, i, j, Plain) == Plain
    ensures j <= Cut(s, i, Plain, stops) == Cut(s, j, Plain, stops)
    decreases j - i
  {
    if i < j { PlainStretch(s, i + 1, j, stops); }
  }

  lemma {:induction false} RunIsModeAt(s: string, i: nat, j: nat)
    requires i <= j <= |s|
    ensures Run(s, i, j, ModeAt(s, i)) == ModeAt(s, j)
    decreases j - i
  {
    if i < j { RunIsModeAt(s, i + 1, j); }
  }

  /** What a cut finds, stated without recursion: the first unquoted stop, or the end. */
  lemma {:induction false} CutIsFirstStop(s: string, i: nat, m: Mode, stops: set<char>)
    requires i <= |s|
    ensures var r := Cut(s, i, m, stops);
            && (forall k | i <= k < r :: !(Run(s, i, k, m) == Plain && s[k] in stops))
            && (r < |s| ==> Run(s, i, r, m) == Plain && s[r] in stops)
    decreases |s| - i
  {
    if i < |s| && !(m == Plain && s[i] in stops) {
      CutIsFirstStop(s, i + 1, Step(m, s[i]), stops);
    }
  }

  /** `ElementEnd` is the next top-level comma of the whole text, or its end. */
  lemma ElementEndIsNextTopComma(s: string, p: nat)
    requires p <= |s| && ModeAt(s, p) == Plain
    ensures p <= ElementEnd(s, p) <= |s|
    ensures forall k | p <= k < ElementEnd(s, p) :: !IsTopComma(s, k)
    ensures ElementEnd(s, p) < |s| ==> IsTopComma(s, ElementEnd(s, p))
  {
    CutIsFirstStop(s, p, Plain, COMMA);
    forall k | p <= k <= ElementEnd(s, p) ensures Run(s, p, k, Plain) == ModeAt(s, k) {
      RunIsModeAt(s, p, k);
    }
  }

  /** Starting positions of the elements from `p` on, blank elements included. */
  function Starts(s: string, p: nat): (r: seq<nat>)
    requires p <= |s|
    ensures forall k | 0 <= k < |r| :: p <= r[k] <= |s|
    decreases |s| - p
  {
    var e := ElementEnd(s, p);
    if e < |s| then [p] + Starts(s, e + 1) else [p]
  }

  /** The split is at the top-level commas and nowhere else. */
  lemma {:induction false} StartsAreTopCommas(s: string, p: nat, a: nat)
    requires p <= a <= |s| && ModeAt(s, p) == Plain
    ensures a in Starts(s, p) <==> a == p || IsTopComma(s, a - 1)
    decreases |s| - p
  {
    var e := ElementEnd(s, p);
    ElementEndIsNextTopComma(s, p);
    if e < |s| {
      if e < a { StartsAreTopCommas(s, e + 1, a); }
    }
  }

  /**
   Consumes the quoted string at `p`, if there is one.  The cursor it returns is the one the
   automaton reaches when it first leaves the quotes, so a cut is the same from either place.
   */
  method SkipQuoted(s: string, p: nat) returns (r: nat)
    requires p <= |s|
    ensures p <= r <= |s|
    ensures p == |s| || s[p] != '"' ==> r == p
    ensures p < |s| && s[p] == '"' ==>
              && p < r
              && (forall k | p < k < r :: Run(s, p, k, Plain) != Plain)
              && (r == |s| || Run(s, p, r, Plain) == Plain)
  {
    if p >= |s| || s[p] != '"' {
      return p;
    }
    r := p + 1;
    while r < |s| && s[r] != '"'
      invariant p < r <= |s|
      invariant Run(s, p, r, Plain) == InQuotes || (r == |s| && Run(s, p, r, Plain) == Escape)
      invariant forall k | p < k < r :: Run(s, p, k, Plain) != Plain
    {
      RunSplit(s, p, r, r + 1, Plain);
      if s[r] == '\\' && r + 1 < |s| {
        RunSplit(s, p, r + 1, r + 2, Plain);
        r := r + 1;
      }
      r := r + 1;
    }
    if r < |s| {
      RunSplit(s, p, r, r + 1, Plain);
      r := r + 1;
    }
  }

  /** Passing over a stretch that is quoted throughout cannot meet a stop. */
  lemma {:induction false} CutPastQuotes(s: string, i: nat, j: nat, m: Mode, stops: set<char>)
    requires i <= j <= |s|
    requires forall k | i <= k < j :: Run(s, i, k, m) != Plain || s[k] !in stops
    ensures j <= Cut(s, i, m, stops)
    decreases j - i
  {
    if i < j {
      assert Run(s, i, i, m) == m;
      forall k | i + 1 <= k < j ensures Run(s, i + 1, k, Step(m, s[i])) != Plain || s[k] !in stops {
        assert Run(s, i, k, m) == Run(s, i + 1, k, Step(m, s[i]));
      }
      CutPastQuotes(s, i + 1, j, Step(m, s[i]), stops);
    }
  }

  /** The scanner both walkers run: forward to an unquoted stop, stepping over quoted strings. */
  method SkipTo(s: string, p: nat, stops: set<char>) returns (r: nat)
    requires p <= |s| && '"' !in stops
    ensures r == Cut(s, p, Plain, stops)
  {
    r := p;
    while r < |s| && s[r] !in stops
      invariant p <= r <= |s|
      invariant Cut(s, r, Plain, stops) == Cut(s, p, Plain, stops)
      decreases |s| - r
    {
      if s[r] == '"' {
        var r' := SkipQuoted(s, r);
        CutPastQuotes(s, r, r', Plain, stops);
        CutResume(s, r, r', Plain, stops);
        r := r';
      } else {
        r := r + 1;
      }
    }
  }
}
