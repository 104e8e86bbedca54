/**
 The Accept-Encoding walker of ngx_http_brotli_common.h (RFC 9110, sections 12.5.3 and 12.4.2).

 The functions say, element by element, what a field value means.  The methods are the
 program's one-pass cursor loops, proved to compute it.
 */
module AcceptEncoding {
  import opened Text
  import opened Quoted

  // ----- qvalues -----

  predicate IsQvalue(t: string) {
    && 1 <= |t| <= 5
    && (|t| > 1 ==> t[1] == '.')
    && (|| (t[0] == '0' && forall k | 2 <= k < |t| :: IsDigit(t[k]))
        || (t[0] == '1' && forall k | 2 <= k < |t| :: t[k] == '0'))
  }

  function DigitAt(t: string, k: nat): (d: int) {
    if k < |t| && IsDigit(t[k]) then t[k] as int - '0' as int else 0
  }

  /** A qvalue in milli-units. */
  function Milli(t: string): (q: int)
    requires IsQvalue(t)
    ensures 0 <= q <= 1000
  {
    if t[0] == '1' then 1000
    else 100 * DigitAt(t, 2) + 10 * DigitAt(t, 3) + DigitAt(t, 4)
  }

  // ----- parameters -----

  const PARAM_NAME_STOPS: set<char> := {'=', ';', ',', ' ', '\t'}
  const QVALUE_STOPS: set<char> := {';', ',', ' ', '\t'}
  const VALUE_STOPS: set<char> := {';', ','}

  /**
   The outcome of reading a parameter list: the weight, or -1 when some parameter is malformed;
   whether a DQUOTE stood inside a parameter name; whether the text ran out inside a quoted
   parameter value, and if so whether a weight had been stated by then.
   */
  datatype Evaluation = Evaluation(q: int, quotedName: bool, open: bool, stated: bool)

  const MALFORMED: int := -1

  predicate IsQ(name: string) {
    name == "q" || name == "Q"
  }

  /** One parameter: malformed, a weight, or some other parameter; `next` is where it ends. */
  datatype Param =
    | Bad(quoted: bool)
    | Weight(quoted: bool, q: int, next: nat)
    | Other(quoted: bool, next: nat, open: bool)

  /** Only ';', ',' or the end may follow a parameter. */
  predicate AtDelimiter(s: string, p: nat)
    requires p <= |s|
  {
    p == |s| || s[p] in VALUE_STOPS
  }

  /** The parameter that the ';' at `p` introduces. */
  function ParamAt(s: string, p: nat): (r: Param)
    requires p < |s| && s[p] == ';'
    ensures !r.Bad? ==> p < r.next <= |s|
    ensures r.Weight? ==> 0 <= r.q <= 1000 && !r.quoted
    ensures r.Other? && r.open ==> r.next == |s|
  {
    var start := SkipOws(s, p + 1);
    var stop := Until(s, start, PARAM_NAME_STOPS);
    var name := s[start..stop];
    if name == [] then Bad(false) else AfterName(s, stop, IsQ(name), '"' in name)
  }

  function AfterName(s: string, p: nat, isQ: bool, quoted: bool): (r: Param)
    requires p <= |s| && !(isQ && quoted)
    ensures r.quoted == quoted
    ensures !r.Bad? ==> p <= r.next <= |s|
    ensures r.Weight? ==> 0 <= r.q <= 1000 && isQ
    ensures r.Other? && r.open ==> r.next == |s|
  {
    var eq := SkipOws(s, p);
    if eq == |s| || s[eq] != '=' then
      if isQ || !AtDelimiter(s, eq) then Bad(quoted) else Other(quoted, eq, false)
    else if isQ then QvalueAt(s, SkipOws(s, eq + 1))
    else ValueAt(s, SkipOws(s, eq + 1), quoted)
  }

  function QvalueAt(s: string, v: nat): (r: Param)
    requires v <= |s|
    ensures !r.quoted && (r.Bad? || (r.Weight? && v <= r.next <= |s| && 0 <= r.q <= 1000))
  {
    var w := Until(s, v, QVALUE_STOPS);
    if IsQvalue(s[v..w]) && AtDelimiter(s, SkipOws(s, w))
    then Weight(false, Milli(s[v..w]), SkipOws(s, w))
    else Bad(false)
  }

  function ValueAt(s: string, v: nat, quoted: bool): (r: Param)
    requires v <= |s|
    ensures r.Other? && v <= r.next <= |s| && (r.open ==> r.next == |s|)
  {
    var w := Cut(s, v, Plain, VALUE_STOPS);
    Other(quoted, w, w == |s| && Run(s, v, w, Plain) != Plain)
  }

  /** The parameters from `p` on, `q` being the weight so far and `seen` whether it was stated. */
  function Params(s: string, p: nat, q: int, seen: bool): (r: Evaluation)
    requires p <= |s| && -1 <= q <= 1000
    ensures -1 <= r.q <= 1000
    decreases |s| - p
  {
    if p == |s| || s[p] != ';' then Evaluation(q, false, false, false) else
      match ParamAt(s, p)
      case Bad(quoted) => Evaluation(MALFORMED, quoted, false, false)
      case Weight(_, q', next) =>
        if seen then Evaluation(MALFORMED, false, false, false) else Params(s, next, q', true)
      case Other(quoted, next, open) =>
        if open then Evaluation(q, quoted, true, seen)
        else var r := Params(s, next, q, seen); r.(quotedName := quoted || r.quotedName)
  }

  // ----- elements -----

  const NAME_STOPS: set<char> := {' ', '\t', ';', ',', '"'}

  datatype Form = Explicit | Star | Neither
  datatype Verdict = Verdict(form: Form, q: int)

  function FormOf(name: string, coding: string): Form {
    if SameName(name, coding) then Explicit else if name == "*" then Star else Neither
  }

  /** Evaluation of the parameters of the element whose name starts at `a`. */
  function Weigh(s: string, a: nat): (r: Evaluation)
    requires a <= |s|
    ensures -1 <= r.q <= 1000
  {
    var m := SkipOws(s, Until(s, a, NAME_STOPS));
    if m < |s| && s[m] == ';' then Params(s, m, 1000, false) else Evaluation(1000, false, false, false)
  }

  /** What the element whose name starts at `a` says about `coding`. */
  function Judge(s: string, a: nat, coding: string): Verdict
    requires a <= |s|
  {
    var stop := Until(s, a, NAME_STOPS);
    var m := SkipOws(s, stop);
    var junk := m < |s| && s[m] !in VALUE_STOPS;
    Verdict(if junk then Neither else FormOf(s[a..stop], coding), Weigh(s, a).q)
  }

  /** The accumulated weights of the explicit coding and of "*"; -1 when absent. */
  datatype Weights = Weights(explicit: int, star: int)

  const NONE := Weights(-1, -1)

  /** The last well-formed occurrence of each form wins. */
  function Apply(w: Weights, v: Verdict): Weights {
    if v.q < 0 then w
    else match v.form
      case Explicit => w.(explicit := v.q)
      case Star => w.(star := v.q)
      case Neither => w
  }

  function Precedence(w: Weights, wildcard: bool): int {
    if w.explicit >= 0 then w.explicit
    else if wildcard && w.star >= 0 then w.star
    else -1
  }

  /** The element in which `p` lies, applied to the weights so far; a blank one changes nothing. */
  function ApplyElement(s: string, p: nat, coding: string, w: Weights): Weights
    requires p <= |s|
  {
    var a := SkipOws(s, p);
    if a < ElementEnd(s, p) then Apply(w, Judge(s, a, coding)) else w
  }

  /** Every element from `p` on, in order. */
  function Fold(s: string, p: nat, coding: string, w: Weights): Weights
    requires p <= |s|
    decreases |s| - p
  {
    var e := ElementEnd(s, p);
    var w' := ApplyElement(s, p, coding, w);
    if e < |s| then Fold(s, e + 1, coding, w') else w'
  }

  function FieldValue(s: string, coding: string): Weights {
    Fold(s, 0, coding, NONE)
  }

  function CodingWeightOf(s: string, coding: string, wildcard: bool): int {
    Precedence(FieldValue(s, coding), wildcard)
  }

  // ----- the program's loops -----

  /** After "0.": up to three digits, each with its own scale. */
  method ReadDigits(s: string, p: nat) returns (q: int, r: nat)
    requires p <= |s|
    ensures p <= r <= |s| && r - p <= 3 && forall k | p <= k < r :: IsDigit(s[k])
    ensures r < |s| && r - p < 3 ==> !IsDigit(s[r])
    ensures q == 100 * DigitAt(s[p..r], 0) + 10 * DigitAt(s[p..r], 1) + DigitAt(s[p..r], 2)
  {
    q, r := 0, p;
    if r < |s| && '0' <= s[r] <= '9' {
      q, r := q + (s[r] as int - '0' as int) * 100, r + 1;
    }
    if r < |s| && '0' <= s[r] <= '9' {
      q, r := q + (s[r] as int - '0' as int) * 10, r + 1;
    }
    if r < |s| && '0' <= s[r] <= '9' {
      q, r := q + (s[r] as int - '0' as int), r + 1;
    }
  }

  /** After "1.": up to three zeros. */
  method ReadZeros(s: string, p: nat) returns (r: nat)
    requires p <= |s|
    ensures p <= r <= |s| && r - p <= 3 && forall k | p <= k < r :: s[k] == '0'
    ensures r < |s| && r - p < 3 ==> s[r] != '0'
  {
    var i := 0;
    r := p;
    while r < |s| && s[r] == '0' && i < 3
      invariant 0 <= i <= 3 && r == p + i <= |s| && forall k | p <= k < r :: s[k] == '0'
    {
      r, i := r + 1, i + 1;
    }
  }

  /** The digit-by-digit qvalue reader; on success the cursor is on the delimiter after it. */
  method ReadQvalue(s: string, p: nat) returns (ok: bool, q: int, r: nat)
    requires p <= |s|
    ensures p <= r <= Until(s, p, QVALUE_STOPS)
    ensures ok <==> IsQvalue(s[p..Until(s, p, QVALUE_STOPS)])
    ensures ok ==> r == Until(s, p, QVALUE_STOPS) && q == Milli(s[p..r])
    ensures forall k | p <= k < r :: s[k] != '"'
  {
    r, q := p, 1000;
    if r >= |s| {
      return false, q, r;
    }
    if s[r] == '0' {
      r, q := r + 1, 0;
      if r < |s| && s[r] == '.' {
        q, r := ReadDigits(s, r + 1);
      }
    } else if s[r] == '1' {
      r, q := r + 1, 1000;
      if r < |s| && s[r] == '.' {
        r := ReadZeros(s, r + 1);
      }
    } else {
      return false, q, r;
    }
    ok := r >= |s| || s[r] in QVALUE_STOPS;
  }

  /** Moving over text without a DQUOTE or a comma stays in the same element. */
  lemma {:induction false} SameElement(s: string, i: nat, j: nat)
    requires i <= j <= |s|
    requires forall k | i <= k < j :: s[k] != '"' && s[k] != ','
    ensures j <= ElementEnd(s, i) && ElementEnd(s, j) == ElementEnd(s, i)
    decreases j - i
  {
    if i < j { SameElement(s, i + 1, j); }
  }

  /** Moving over a quote-aware parameter value stays in the same element. */
  lemma {:induction false} SameElementPastValue(s: string, i: nat, m: Mode)
    requires i <= |s|
    ensures var w := Cut(s, i, m, VALUE_STOPS);
            w <= Cut(s, i, m, COMMA) && ElementEnd(s, w) == Cut(s, i, m, COMMA)
    decreases |s| - i
  {
    if i < |s| && !(m == Plain && s[i] in VALUE_STOPS) {
      SameElementPastValue(s, i + 1, Step(m, s[i]));
    } else if i < |s| {
      assert m == Plain;
    }
  }

  /** The parameter name at `p`, and whether a DQUOTE stands in it. */
  method ReadParamName(s: string, p: nat) returns (r: nat, quoted: bool)
    requires p <= |s|
    ensures r == Until(s, p, PARAM_NAME_STOPS)
    ensures quoted <==> '"' in s[p..r]
    ensures !quoted ==> ElementEnd(s, r) == ElementEnd(s, p) && r <= ElementEnd(s, p)
  {
    r, quoted := p, false;
    while r < |s| && s[r] != '=' && s[r] != ';' && s[r] != ',' && s[r] != ' ' && s[r] != '\t'
      invariant p <= r <= |s|
      invariant Until(s, r, PARAM_NAME_STOPS) == Until(s, p, PARAM_NAME_STOPS)
      invariant quoted <==> '"' in s[p..r]
      invariant forall k | p <= k < r :: s[k] != ','
    {
      assert s[p..r + 1] == s[p..r] + [s[r]];
      if s[r] == '"' {
        quoted := true;
      }
      r := r + 1;
    }
    if !quoted {
      assert forall k | p <= k < r :: s[k] == s[p..r][k - p];
      SameElement(s, p, r);
    }
  }

  /** The value of the parameter `name` starting at `p`, up to the OWS or delimiter after it. */
  method ReadParamValue(s: string, p: nat, isQ: bool, q: int, seen: bool)
    returns (ok: bool, q': int, r: nat)
    requires p <= |s|
    ensures p <= r <= ElementEnd(s, p) && ElementEnd(s, r) == ElementEnd(s, p)
    ensures isQ ==> var w := Until(s, p, QVALUE_STOPS);
              && (ok <==> !seen && IsQvalue(s[p..w]))
              && (ok ==> r == w && q' == Milli(s[p..w]))
    ensures !isQ ==> ok && q' == q && r == Cut(s, p, Plain, VALUE_STOPS)
  {
    if isQ {
      if seen {
        return false, q, p;
      }
      ok, q', r := ReadQvalue(s, p);
      SameElement(s, p, r);
    } else {
      SameElementPastValue(s, p, Plain);
      r := SkipTo(s, p, VALUE_STOPS);
      ok, q' := true, q;
    }
  }

  /** What follows a parameter name that ends at `p`: its value, if any, and the trailing OWS. */
  method EvalAfterName(s: string, p: nat, isQ: bool, ghost quoted: bool, q: int, seen: bool)
    returns (ok: bool, q': int, seen': bool, r: nat)
    requires p <= |s| && -1 <= q <= 1000 && !(isQ && quoted)
    ensures -1 <= q' <= 1000
    ensures var x := AfterName(s, p, isQ, quoted);
            && (ok <==> x.Other? || (x.Weight? && !seen))
            && (ok ==> r == x.next)
            && (ok && x.Weight? ==> q' == x.q && seen')
            && (ok && x.Other? ==> q' == q && seen' == seen)
    ensures p <= r <= ElementEnd(s, p) && ElementEnd(s, r) == ElementEnd(s, p)
  {
    hide Cut, Until, SkipOws, ElementEnd, IsQvalue, Milli;
    q', seen' := q, seen;
    r := SkipOwsLoop(s, p);
    SameElement(s, p, r);
    if r < |s| && s[r] == '=' {
      var v := SkipOwsLoop(s, r + 1);
      SameElement(s, r, v);
      ok, q', r := ReadParamValue(s, v, isQ, q, seen);
      if isQ {
        seen' := true;
        if !ok {
          return false, q, seen', r;
        }
      }
    } else if isQ {
      return false, q', seen', r;
    }
    var d := r;
    r := SkipOwsLoop(s, r);
    SameElement(s, d, r);
    ok := r == |s| || s[r] == ';' || s[r] == ',';
  }

  lemma IsQByPosition(s: string, i: nat, j: nat)
    requires i <= j <= |s|
    ensures IsQ(s[i..j]) <==> j - i == 1 && (s[i] == 'q' || s[i] == 'Q')
  {
    if j - i == 1 { assert s[i..j] == [s[i]]; }
  }

  /** One turn of the evaluator's loop: the parameter that the ';' at `p` introduces. */
  method EvalParam(s: string, p: nat, q: int, seen: bool)
    returns (ok: bool, q': int, seen': bool, quoted: bool, r: nat)
    requires p < |s| && s[p] == ';' && -1 <= q <= 1000
    ensures -1 <= q' <= 1000
    ensures var x := ParamAt(s, p);
            && quoted == x.quoted && p < r <= |s|
            && (ok <==> x.Other? || (x.Weight? && !seen))
            && (ok ==> r == x.next)
            && (ok && x.Weight? ==> q' == x.q && seen')
            && (ok && x.Other? ==> q' == q && seen' == seen)
    ensures !quoted ==> r <= ElementEnd(s, p) && ElementEnd(s, r) == ElementEnd(s, p)
  {
    hide Cut, Until, SkipOws, ElementEnd, AfterName;
    var start := SkipOwsLoop(s, p + 1);
    SameElement(s, p, start);
    r, quoted := ReadParamName(s, start);
    if r == start {
      return false, q, seen, quoted, r;
    }
    var isQ := r - start == 1 && (s[start] == 'q' || s[start] == 'Q');
    IsQByPosition(s, start, r);
    ok, q', seen', r := EvalAfterName(s, r, isQ, quoted, q, seen);
  }

  /**
   The parameter evaluator.  It reports the weight, and moves the caller's cursor to `r` unless a
   DQUOTE stood in a parameter name; wherever the cursor is left, the element still ends where it
   ended from `p`.
   */
  method EvalQvalue(s: string, p: nat) returns (q: int, r: nat)
    requires p < |s| && s[p] == ';'
    ensures q == Params(s, p, 1000, false).q
    ensures Params(s, p, 1000, false).quotedName ==> r == p
    ensures p <= r <= ElementEnd(s, p) && ElementEnd(s, r) == ElementEnd(s, p)
  {
    hide ParamAt, Cut;
    ghost var spec := Params(s, p, 1000, false);
    var c, seen, quotedName, ok := p, false, false, true;
    q := 1000;
    while ok && c < |s| && s[c] == ';'
      invariant p <= c <= |s| && -1 <= q <= 1000
      invariant ok ==> spec.q == Params(s, c, q, seen).q
      invariant ok ==> spec.quotedName == (quotedName || Params(s, c, q, seen).quotedName)
      invariant !ok ==> spec.q == MALFORMED && quotedName == spec.quotedName
      invariant !quotedName ==> c <= ElementEnd(s, p) && ElementEnd(s, c) == ElementEnd(s, p)
      decreases |s| - c
    {
      var quoted;
      ok, q, seen, quoted, c := EvalParam(s, c, q, seen);
      quotedName := quotedName || quoted;
    }
    if !ok {
      q := MALFORMED;
    }
    r := if quotedName then p else c;
  }

  /** A weight is in -1..1000 whatever the text: -1 says "no preference". */
  lemma {:induction false} FoldInRange(s: string, p: nat, coding: string, w: Weights)
    requires p <= |s| && -1 <= w.explicit <= 1000 && -1 <= w.star <= 1000
    ensures var r := Fold(s, p, coding, w); -1 <= r.explicit <= 1000 && -1 <= r.star <= 1000
    decreases |s| - p
  {
    hide Cut, ElementEnd, Weigh, FormOf;
    var e := ElementEnd(s, p);
    if e < |s| { FoldInRange(s, e + 1, coding, ApplyElement(s, p, coding, w)); }
  }

  /** Skipping OWS or a comma before an element's name changes nothing that is still to come. */
  lemma FoldSkipsBlank(s: string, p: nat, coding: string, w: Weights)
    requires p < |s| && (IsOws(s[p]) || s[p] == ',')
    ensures Fold(s, p, coding, w) == Fold(s, p + 1, coding, w)
  {
    hide Judge;
    assert ElementEnd(s, p) == if s[p] == ',' then p else ElementEnd(s, p + 1);
  }

  lemma FoldAtEnd(s: string, coding: string, w: Weights)
    ensures Fold(s, |s|, coding, w) == w
  {
    hide Judge;
  }

  /** An element with a name is applied, and the fold goes on from its end. */
  lemma FoldFirst(s: string, p: nat, coding: string, w: Weights)
    requires p < |s| && !IsOws(s[p]) && s[p] != ','
    ensures Fold(s, p, coding, w) == Fold(s, ElementEnd(s, p), coding, Apply(w, Judge(s, p, coding)))
  {
    hide Judge, Cut, Apply;
    var w' := Apply(w, Judge(s, p, coding));
    ElementNotBlank(s, p);
    assert SkipOws(s, p) == p;
    hide ElementEnd, SkipOws;
    var e := ElementEnd(s, p);
    assert ApplyElement(s, p, coding, w) == w';
    if e < |s| { FoldSkipsBlank(s, e, coding, w'); } else { FoldAtEnd(s, coding, w'); }
  }

  lemma ElementNotBlank(s: string, p: nat)
    requires p < |s| && s[p] != ','
    ensures p < ElementEnd(s, p)
    ensures ElementEnd(s, p) < |s| ==> s[ElementEnd(s, p)] == ','
  {}

  /**
   One turn of the walker's loop: the element whose name starts at `p`.  The cursor ends at the
   element's end whichever way the evaluator left it.
   */
  method ReadElement(s: string, p: nat, coding: string)
    returns (isCoding: bool, isStar: bool, weight: int, r: nat)
    requires p < |s| && !IsOws(s[p]) && s[p] != ','
    ensures r == ElementEnd(s, p) && p < r
    ensures var v := Judge(s, p, coding);
            && weight == v.q && -1 <= weight <= 1000
            && isCoding == v.form.Explicit? && (!isCoding ==> isStar == v.form.Star?)
  {
    hide Cut, Until, SkipOws, CaseEqual, Params;
    r := p;
    while r < |s| && s[r] != ' ' && s[r] != '\t' && s[r] != ';' && s[r] != ',' && s[r] != '"'
      invariant p <= r <= |s|
      invariant forall k | p <= k < r :: s[k] !in NAME_STOPS
    {
      r := r + 1;
    }
    assert r == Until(s, p, NAME_STOPS);
    isCoding := SameName(s[p..r], coding);
    isStar := r - p == 1 && s[p] == '*';
    assert isStar == (s[p..r] == "*") by {
      if r - p == 1 { assert s[p..r] == [s[p]]; }
    }
    r := SkipOwsLoop(s, r);
    SameElement(s, p, r);
    if r < |s| && s[r] != ';' && s[r] != ',' {
      isCoding, isStar := false, false;
    }
    weight := 1000;
    if r < |s| && s[r] == ';' {
      weight, r := EvalQvalue(s, r);
    }
    r := SkipTo(s, r, COMMA);
    ElementNotBlank(s, p);
  }

  /**
   The walker: one cursor over the field value, collecting the explicit and the wildcard weight.
   It computes the element-by-element meaning of the field, and stays in -1..1000.
   */
  method CodingWeightEx(s: string, coding: string, wildcard: bool) returns (q: int, explicit: int, star: int)
    ensures Weights(explicit, star) == FieldValue(s, coding)
    ensures q == CodingWeightOf(s, coding, wildcard)
    ensures -1 <= q <= 1000
  {
    hide Cut, ElementEnd, Judge;
    var p := 0;
    explicit, star := -1, -1;
    FoldInRange(s, 0, coding, NONE);
    while p < |s|
      invariant p <= |s|
      invariant Fold(s, p, coding, Weights(explicit, star)) == FieldValue(s, coding)
      decreases |s| - p
    {
      ghost var w := Weights(explicit, star);
      while p < |s| && (s[p] == ' ' || s[p] == '\t' || s[p] == ',')
        invariant p <= |s| && Fold(s, p, coding, w) == FieldValue(s, coding)
      {
        FoldSkipsBlank(s, p, coding, w);
        p := p + 1;
      }
      if p >= |s| {
        break;
      }
      var isCoding, isStar, weight, r := ReadElement(s, p, coding);
      if weight >= 0 {
        if isCoding {
          explicit := weight;
        } else if isStar {
          star := weight;
        }
      }
      FoldFirst(s, p, coding, w);
      p := r;
    }
    FoldAtEnd(s, coding, Weights(explicit, star));
    q := if explicit >= 0 then explicit else if wildcard && star >= 0 then star else -1;
  }

  method CodingWeight(s: string, coding: string, wildcard: bool) returns (q: int)
    ensures q == CodingWeightOf(s, coding, wildcard) && -1 <= q <= 1000
  {
    var explicit, star;
    q, explicit, star := CodingWeightEx(s, coding, wildcard);
  }

  /** br acceptance over one field value. */
  method AcceptsBr(s: string) returns (ok: bool)
    ensures ok <==> CodingWeightOf(s, "br", true) > 0
  {
    var q := CodingWeight(s, "br", true);
    ok := q > 0;
  }
}
